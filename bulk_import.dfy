/** The bulk contact import tool: pasted text is split into lines, each non-blank line is
    trimmed and handed to the contact extractor, and the contacts found are either
    previewed (dry run) or submitted in one import request (src/index.ts:3706-3765). */
module BulkImport {
  import opened Wrappers
  import opened Text
  import opened Patterns
  import opened Contacts
  import opened Json

  // ---------------------------------------------------------------------------------------
  // parseContactText

  /** `text.split('\n')`. */
  function Lines(text: string): (r: seq<string>)
    ensures |r| >= 1 && Join(r, "\n") == text
    ensures forall k, c | 0 <= k < |r| && c in r[k] :: c in text
  {
    Split(text, '\n')
  }

  /** `lines.filter(line => line.trim())`: the lines that are not all white space, in order. */
  function NonBlank(lines: seq<string>): (r: seq<string>)
    ensures |r| <= |lines|
  {
    if lines == [] then []
    else (if Trim(lines[0]) != "" then [lines[0]] else []) + NonBlank(lines[1..])
  }

  /** The filter keeps exactly the lines that are not blank. */
  lemma {:induction false} NonBlankKeeps(lines: seq<string>)
    ensures forall k | 0 <= k < |NonBlank(lines)| :: Trim(NonBlank(lines)[k]) != "" && NonBlank(lines)[k] in lines
    ensures forall k | 0 <= k < |lines| && Trim(lines[k]) != "" :: lines[k] in NonBlank(lines)
  {
    if lines != [] {
      var rest := lines[1..];
      NonBlankKeeps(rest);
      var head := if Trim(lines[0]) != "" then [lines[0]] else [];
      var r := NonBlank(lines);
      assert r == head + NonBlank(rest);
      forall k | 0 <= k < |r| ensures Trim(r[k]) != "" && r[k] in lines {
        if k >= |head| {
          assert r[k] == NonBlank(rest)[k - |head|];
        }
      }
      forall k | 0 <= k < |lines| && Trim(lines[k]) != "" ensures lines[k] in r {
        if k > 0 {
          assert lines[k] == rest[k - 1];
        }
      }
    }
  }

  /** A per-line extractor: `ExtractLine` below, or any other for the lemmas that do not
      depend on which one it is. */
  type Extractor = string -> Option<Contact>

  /** What the loop of `parseContactText` does with one line: trim it and extract. */
  function ExtractLine(line: string): Option<Contact>
  {
    ExtractContact(Trim(line))
  }

  /** The contact a line yields, as a sequence of zero or one contacts. */
  function ContactOf(line: string, extract: Extractor): seq<Contact>
  {
    match extract(line)
    case None => []
    case Some(c) => [c]
  }

  /** The non-null results of the extractor on the lines, in order. */
  function ExtractAll(lines: seq<string>, extract: Extractor): seq<Contact>
  {
    if lines == [] then []
    else ExtractAll(lines[..|lines| - 1], extract) + ContactOf(lines[|lines| - 1], extract)
  }

  /** What `parseContactText` returns for `text`. */
  function Parse(text: string): seq<Contact>
  {
    ExtractAll(NonBlank(Lines(text)), ExtractLine)
  }

  /** `parseContactText`: grows the batch one line at a time. */
  method ParseContactText(text: string) returns (contacts: seq<Contact>)
    ensures contacts == Parse(text)
  {
    contacts := [];
    var lines := NonBlank(Lines(text));
    var i := 0;
    while i < |lines|
      invariant 0 <= i <= |lines|
      invariant contacts == ExtractAll(lines[..i], ExtractLine)
    {
      var contact := ExtractLine(lines[i]);
      if contact.Some? {
        contacts := contacts + [contact.value];
      }
      ExtractAllStep(lines, i, ExtractLine, contact);
      i := i + 1;
    }
    assert lines[..i] == lines;
  }

  /** One more line adds that line's contact, if any, at the end. */
  lemma ExtractAllStep(lines: seq<string>, i: nat, extract: Extractor, contact: Option<Contact>)
    requires i < |lines| && contact == extract(lines[i])
    ensures ExtractAll(lines[..i + 1], extract)
      == ExtractAll(lines[..i], extract) + if contact.Some? then [contact.value] else []
  {
    assert lines[..i + 1][..i] == lines[..i];
  }

  // ---------------------------------------------------------------------------------------
  // What parsing promises

  /** The batch of a concatenation is the concatenation of the batches: lines are read
      independently and in order. */
  lemma {:induction false} ExtractAllAppend(a: seq<string>, b: seq<string>, extract: Extractor)
    ensures ExtractAll(a + b, extract) == ExtractAll(a, extract) + ExtractAll(b, extract)
    decreases |b|
  {
    if b == [] {
      assert a + b == a;
    } else {
      var b' := b[..|b| - 1];
      var last := ContactOf(b[|b| - 1], extract);
      assert (a + b)[..|a + b| - 1] == a + b';
      assert (a + b)[|a + b| - 1] == b[|b| - 1];
      ExtractAllAppend(a, b', extract);
      calc {
        ExtractAll(a + b, extract);
        ExtractAll(a + b', extract) + last;
        (ExtractAll(a, extract) + ExtractAll(b', extract)) + last;
        ExtractAll(a, extract) + (ExtractAll(b', extract) + last);
        ExtractAll(a, extract) + ExtractAll(b, extract);
      }
    }
  }

  /** At most one contact per line. */
  lemma {:induction false} ExtractAllLength(lines: seq<string>, extract: Extractor)
    ensures |ExtractAll(lines, extract)| <= |lines|
  {
    if lines != [] {
      ExtractAllLength(lines[..|lines| - 1], extract);
    }
  }

  /** The batch is exactly the lines' non-null extractor results in line order: there is
      a strictly increasing choice of line indices, one per contact, each line yielding its
      contact, and every line that yields a contact is chosen. */
  lemma {:induction false} ExtractAllIndices(lines: seq<string>, extract: Extractor) returns (f: seq<nat>)
    ensures |f| == |ExtractAll(lines, extract)|
    ensures forall j | 0 <= j < |f| ::
      f[j] < |lines| && extract(lines[f[j]]) == Some(ExtractAll(lines, extract)[j])
    ensures forall j, j' | 0 <= j < j' < |f| :: f[j] < f[j']
    ensures forall k | 0 <= k < |lines| && extract(lines[k]).Some? :: k in f
  {
    if lines == [] {
      f := [];
    } else {
      var n := |lines| - 1;
      var init := lines[..n];
      var g := ExtractAllIndices(init, extract);
      f := if extract(lines[n]).Some? then g + [n] else g;
      IndicesStep(lines, extract, g, ExtractAll(init, extract), f);
    }
  }

  /** The choice of line indices grows with the batch when one more line is read. */
  lemma IndicesStep(lines: seq<string>, extract: Extractor, g: seq<nat>, before: seq<Contact>, f: seq<nat>)
    requires |lines| > 0 && before == ExtractAll(lines[..|lines| - 1], extract)
    requires |g| == |before|
    requires forall j | 0 <= j < |g| :: g[j] < |lines| - 1 && extract(lines[..|lines| - 1][g[j]]) == Some(before[j])
    requires forall j, j' | 0 <= j < j' < |g| :: g[j] < g[j']
    requires forall k | 0 <= k < |lines| - 1 && extract(lines[..|lines| - 1][k]).Some? :: k in g
    requires f == if extract(lines[|lines| - 1]).Some? then g + [|lines| - 1] else g
    ensures |f| == |ExtractAll(lines, extract)|
    ensures forall j | 0 <= j < |f| ::
      f[j] < |lines| && extract(lines[f[j]]) == Some(ExtractAll(lines, extract)[j])
    ensures forall j, j' | 0 <= j < j' < |f| :: f[j] < f[j']
    ensures forall k | 0 <= k < |lines| && extract(lines[k]).Some? :: k in f
  {
    var n := |lines| - 1;
    var init := lines[..n];
    assert ExtractAll(lines, extract) == before + ContactOf(lines[n], extract);
    IndicesMatch(lines, init, extract, g, before, f);
    IndicesCover(lines, init, extract, g, f);
  }

  /** Each chosen line yields the contact at its place in the batch. */
  lemma IndicesMatch(lines: seq<string>, init: seq<string>, extract: Extractor, g: seq<nat>, before: seq<Contact>, f: seq<nat>)
    requires |lines| > 0 && init == lines[..|lines| - 1] && |g| == |before|
    requires forall j | 0 <= j < |g| :: g[j] < |init| && extract(init[g[j]]) == Some(before[j])
    requires f == if extract(lines[|init|]).Some? then g + [|init|] else g
    ensures |f| == |before + ContactOf(lines[|init|], extract)|
    ensures forall j | 0 <= j < |f| ::
      f[j] < |lines| && extract(lines[f[j]]) == Some((before + ContactOf(lines[|init|], extract))[j])
  {
    var after := before + ContactOf(lines[|init|], extract);
    forall j | 0 <= j < |f| ensures f[j] < |lines| && extract(lines[f[j]]) == Some(after[j]) {
      if j < |g| {
        assert f[j] == g[j] && after[j] == before[j];
        assert init[g[j]] == lines[g[j]];
      }
    }
  }

  /** Every line that yields a contact is chosen. */
  lemma IndicesCover(lines: seq<string>, init: seq<string>, extract: Extractor, g: seq<nat>, f: seq<nat>)
    requires |lines| > 0 && init == lines[..|lines| - 1]
    requires forall k | 0 <= k < |init| && extract(init[k]).Some? :: k in g
    requires f == if extract(lines[|init|]).Some? then g + [|init|] else g
    ensures forall k | 0 <= k < |lines| && extract(lines[k]).Some? :: k in f
  {
    forall k | 0 <= k < |lines| && extract(lines[k]).Some? ensures k in f {
      if k < |init| {
        assert init[k] == lines[k];
        InAppend(g, f, k);
      } else {
        assert f == g + [k];
        assert f[|g|] == k;
      }
    }
  }

  lemma InAppend(g: seq<nat>, f: seq<nat>, k: nat)
    requires k in g && g <= f
    ensures k in f
  {
    var m :| 0 <= m < |g| && g[m] == k;
    assert f[m] == k;
  }

  /** Contacts are not deduplicated: a line given twice yields its contact twice. */
  lemma NoDeduplication(line: string, extract: Extractor)
    requires extract(line).Some?
    ensures var c := extract(line).value; ExtractAll([line, line], extract) == [c, c]
  {
    assert [line, line][..1] == [line];
    ExtractAllSingle(line, extract);
  }

  /** A batch of one line is that line's contact, if any. */
  lemma ExtractAllSingle(line: string, extract: Extractor)
    ensures ExtractAll([line], extract) == ContactOf(line, extract)
  {
    assert [line][..0] == [];
  }

  /** What the filter keeps of one line yields what the line yields. */
  lemma KeptLineYields(line: string, extract: Extractor)
    requires Trim(line) == "" ==> extract(line).None?
    ensures ExtractAll(if Trim(line) != "" then [line] else [], extract) == ContactOf(line, extract)
  {
    ExtractAllSingle(line, extract);
  }

  /** Dropping the blank lines first changes nothing when a blank line yields no contact. */
  lemma {:induction false} BlankLinesYieldNothing(lines: seq<string>, extract: Extractor)
    requires forall k | 0 <= k < |lines| && Trim(lines[k]) == "" :: extract(lines[k]).None?
    ensures ExtractAll(NonBlank(lines), extract) == ExtractAll(lines, extract)
  {
    if lines != [] {
      var rest := lines[1..];
      var head := if Trim(lines[0]) != "" then [lines[0]] else [];
      assert forall k | 0 <= k < |rest| :: rest[k] == lines[k + 1];
      BlankLinesYieldNothing(rest, extract);
      assert NonBlank(lines) == head + NonBlank(rest);
      ExtractAllAppend(head, NonBlank(rest), extract);
      KeptLineYields(lines[0], extract);
      ExtractAllSingle(lines[0], extract);
      assert [lines[0]] + rest == lines;
      ExtractAllAppend([lines[0]], rest, extract);
    }
  }

  /** An empty line holds no address. */
  lemma EmptyLineNoContact()
    ensures ExtractContact("").None?
  {
    assert Search(EmailAt, "", 0).None?;
  }

  /** The blank-line filter of `parseContactText` is redundant: parsing every line of the
      text gives the same batch. */
  lemma ParseAllLines(text: string)
    ensures Parse(text) == ExtractAll(Lines(text), ExtractLine)
  {
    EmptyLineNoContact();
    BlankLinesYieldNothing(Lines(text), ExtractLine);
  }

  /** At most one contact per non-blank line. */
  lemma ParseLength(text: string)
    ensures |Parse(text)| <= |NonBlank(Lines(text))|
  {
    ExtractAllLength(NonBlank(Lines(text)), ExtractLine);
  }

  /** A text without `@` yields an empty batch. */
  lemma NoAtEmptyBatch(text: string)
    requires '@' !in text
    ensures Parse(text) == []
  {
    var lines := NonBlank(Lines(text));
    var f := ExtractAllIndices(lines, ExtractLine);
    if |f| > 0 {
      NonBlankKeeps(Lines(text));
      var line := lines[f[0]];
      assert line in Lines(text);
      assert '@' !in Trim(line) by {
        if '@' in Trim(line) {
          TrimChars(line, '@');
        }
      }
      NoAtNoContact(Trim(line));
    }
  }

  /** Every contact of a batch has an address that is written verbatim when printed. */
  lemma BatchEmailsArePlain(lines: seq<string>, j: nat)
    requires j < |ExtractAll(lines, ExtractLine)|
    ensures var e := ExtractAll(lines, ExtractLine)[j].email;
      forall k | 0 <= k < |e| :: !NeedsEscape(e[k])
  {
    var f := ExtractAllIndices(lines, ExtractLine);
    var line := Trim(lines[f[j]]);
    assert ExtractContact(line) == Some(ExtractAll(lines, ExtractLine)[j]);
    FirstEmailIsPlain(line);
  }

  // ---------------------------------------------------------------------------------------
  // handleBulkContactImport

  /** The tool's arguments; an absent optional argument is None. */
  datatype BulkImportArgs = BulkImportArgs(
    text: string,
    listId: Option<int>,
    updateExisting: Option<bool>,
    dryRun: Option<bool>)

  /** The import request the handler submits. */
  datatype ImportRequest = ImportRequest(
    jsonBody: seq<Contact>,
    updateExistingContacts: bool,
    listIds: Option<seq<int>>)

  /** What the import call gives back: the process id of the started import, or the
      message of the error it threw. */
  datatype ImportResult = Created(processId: string) | Threw(message: string)

  /** The handler's outcome: a text reply, or the error it throws. */
  datatype Outcome = Reply(text: string) | Error(message: string)

  const NoContactsText := "No valid contacts found in the provided text."

  /** The dry-run reply: the count, then the batch as JSON with a two-space indent. */
  function DryRunText(contacts: seq<Contact>): string
  {
    "DRY RUN: Would import " + DecimalString(|contacts|) + " contacts:\n" + BatchText(contacts)
  }

  /** The reply after the import call returned. */
  function SuccessText(processId: string, count: nat): string
  {
    "Bulk import initiated successfully! Process ID: " + processId + "\nImported " + DecimalString(count) + " contacts."
  }

  /** The error the handler rethrows. */
  function FailureMessage(message: string): string
  {
    "Bulk import failed: " + message
  }

  /** `listId` is truthy when present and non-zero. */
  predicate HasList(args: BulkImportArgs) {
    args.listId.Some? && args.listId.value != 0
  }

  /** `handleBulkContactImport`. The import call is the parameter `importContacts`;
      `submitted` lists the requests handed to it. An empty batch, or a dry run, never
      reaches the call. */
  method HandleBulkContactImport(args: BulkImportArgs, importContacts: ImportRequest -> ImportResult)
    returns (outcome: Outcome, submitted: seq<ImportRequest>)
    ensures submitted == [] <==> Parse(args.text) == [] || args.dryRun.GetOr(false)
    ensures Parse(args.text) == [] ==> outcome == Reply(NoContactsText)
    ensures Parse(args.text) != [] && args.dryRun.GetOr(false) ==>
      outcome == Reply(DryRunText(Parse(args.text)))
    ensures submitted != [] ==>
      && |submitted| == 1
      && submitted[0].jsonBody == Parse(args.text)
      && submitted[0].updateExistingContacts == args.updateExisting.GetOr(true)
      && (HasList(args) ==> submitted[0].listIds == Some([args.listId.value]))
      && (!HasList(args) ==> submitted[0].listIds.None?)
      && outcome == match importContacts(submitted[0])
        case Created(id) => Reply(SuccessText(id, |Parse(args.text)|))
        case Threw(message) => Error(FailureMessage(message))
  {
    submitted := [];
    var updateExisting := args.updateExisting.GetOr(true);
    var dryRun := args.dryRun.GetOr(false);
    var contacts := ParseContactText(args.text);
    if |contacts| == 0 {
      return Reply(NoContactsText), submitted;
    }
    if dryRun {
      return Reply(DryRunText(contacts)), submitted;
    }
    var request := ImportRequest([], false, None);
    request := request.(jsonBody := contacts);
    request := request.(updateExistingContacts := updateExisting);
    if HasList(args) {
      request := request.(listIds := Some([args.listId.value]));
    }
    submitted := submitted + [request];
    var result := importContacts(request);
    match result
    case Created(id) =>
      outcome := Reply(SuccessText(id, |contacts|));
    case Threw(message) =>
      outcome := Error(FailureMessage(message));
  }

  // ---------------------------------------------------------------------------------------
  // What the replies promise

  /** The dry-run reply lists every contact's email member with the address verbatim. */
  lemma DryRunListsEveryEmail(text: string, j: nat)
    requires j < |Parse(text)|
    ensures Occurs(Quote(EmailKey) + ": " + ("\"" + Parse(text)[j].email + "\""), DryRunText(Parse(text)))
  {
    var contacts := Parse(text);
    BatchEmailsArePlain(NonBlank(Lines(text)), j);
    PlainEmailMember(contacts[j].email);
    BatchTextHasEveryEmail(contacts, j);
    OccursInside(EmailMember(contacts[j].email),
      "DRY RUN: Would import " + DecimalString(|contacts|) + " contacts:\n", BatchText(contacts), []);
    assert DryRunText(contacts) == "DRY RUN: Would import " + DecimalString(|contacts|) + " contacts:\n" + BatchText(contacts) + [];
  }

  /** The dry-run reply begins with its fixed words and then the count: a run of digits,
      ended by a space, that reads back as the number of contacts. */
  lemma ReplyCountReadsBack(contacts: seq<Contact>)
    ensures var t := DryRunText(contacts);
      var lead := "DRY RUN: Would import ";
      var m := |DecimalString(|contacts|)|;
      && |lead| + m < |t| && t[..|lead|] == lead
      && t[|lead|..|lead| + m] == DecimalString(|contacts|)
      && t[|lead| + m] == ' '
      && DecimalValue(t[|lead|..|lead| + m]) == |contacts|
  {
    var lead := "DRY RUN: Would import ";
    var d := DecimalString(|contacts|);
    var after := " contacts:\n" + BatchText(contacts);
    var t := DryRunText(contacts);
    assert t == lead + d + after;
    assert t[..|lead|] == lead;
    assert t[|lead|..|lead| + |d|] == d;
    assert t[|lead| + |d|] == after[0];
    DecimalRoundTrip(|contacts|);
  }

  /** The success reply holds the process id the import call returned, and the count. */
  lemma SuccessTextHasProcessId(processId: string, count: nat)
    ensures Occurs(processId, SuccessText(processId, count))
    ensures Occurs(DecimalString(count), SuccessText(processId, count))
  {
    var prefix := "Bulk import initiated successfully! Process ID: ";
    var suffix := "\nImported " + DecimalString(count) + " contacts.";
    assert SuccessText(processId, count) == prefix + processId + suffix;
    OccursSelf(processId);
    OccursInside(processId, prefix, processId, suffix);
    var n := DecimalString(count);
    var before := prefix + processId + "\nImported ";
    assert SuccessText(processId, count) == before + n + " contacts.";
    OccursSelf(n);
    OccursInside(n, before, n, " contacts.");
  }
}
