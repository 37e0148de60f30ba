/** One contact read from one line of pasted text: the email address, and the first name,
    last name, phone number and company found beside it (src/index.ts:3768-3825). */
module Contacts {
  import opened Wrappers
  import opened Text
  import opened Patterns

  /** The `attributes` object of a contact. `None` is a key that was never assigned; the keys
      are assigned in the order FIRSTNAME, LASTNAME, SMS, COMPANY. */
  datatype Attributes = Attributes(
    firstName: Option<string>,
    lastName: Option<string>,
    sms: Option<string>,
    company: Option<string>)
  {
    /** `Object.keys(attributes).length === 0` */
    predicate IsEmpty() {
      firstName.None? && lastName.None? && sms.None? && company.None?
    }
  }

  /** `{ email }`, or `{ email, attributes }` when some attribute was found. */
  datatype Contact = Contact(email: string, attributes: Option<Attributes>)
  {
    function FirstName(): Option<string> {
      if attributes.Some? then attributes.value.firstName else None
    }

    function LastName(): Option<string> {
      if attributes.Some? then attributes.value.lastName else None
    }

    function Sms(): Option<string> {
      if attributes.Some? then attributes.value.sms else None
    }

    function Company(): Option<string> {
      if attributes.Some? then attributes.value.company else None
    }
  }

  // ---------------------------------------------------------------------------------------
  // The captures the extractor reads

  /** `line.match(emailRegex)[0]`: the leftmost address, or None when the line has none. */
  function FirstEmail(line: string): Option<string>
  {
    match Search(EmailAt, line, 0)
    case None => None
    case Some(i) => Some(Slice(line, EmailAt(line, i).value))
  }

  /** `line.match(phoneRegex)[0]`: the leftmost phone-like run. */
  function FirstPhone(line: string): Option<string>
  {
    match Search(PhoneAt, line, 0)
    case None => None
    case Some(i) => Some(Slice(line, PhoneAt(line, i).value))
  }

  /** The group of the first name expression that matches: the text before the first `<` or
      `@` at the start of the line, else the leftmost quoted text, else the leftmost
      parenthesised text. */
  function NameText(line: string): Option<string>
  {
    match NameHead(line)
    case Some(g) => Some(Slice(line, g))
    case None =>
      match Search(QuotedAt, line, 0)
      case Some(i) => Some(Slice(line, QuotedAt(line, i).value))
      case None =>
        match Search(ParenAt, line, 0)
        case Some(i) => Some(Slice(line, ParenAt(line, i).value))
        case None => None
  }

  /** The group of the leftmost company phrase: the text after `at` or `@` and white space. */
  function CompanyText(line: string): Option<string>
  {
    match Search(CompanyAt, line, 0)
    case None => None
    case Some(i) => Some(Slice(line, CompanyAt(line, i).value))
  }

  // ---------------------------------------------------------------------------------------
  // Normalisation of the captures

  /** FIRSTNAME and LASTNAME candidates from a captured name: `name.trim().split(/\s+/)`; the
      first piece, and the remaining pieces joined by single spaces when there are two or
      more. An empty string is a name part the extractor will not store. */
  function NameParts(captured: string): (string, string)
  {
    var parts := SplitSpaces(Trim(captured));
    if |parts| >= 2 then (parts[0], Join(parts[1..], " ")) else (parts[0], "")
  }

  /** The characters `/[\s\-\(\)]/g` removes from a phone match. */
  predicate IsSeparator(c: char) {
    IsSpace(c) || c == '-' || c == '(' || c == ')'
  }

  /** `phone.replace(/[\s\-\(\)]/g, '')`. */
  function StripSeparators(t: string): (r: string)
    ensures forall k | 0 <= k < |r| :: !IsSeparator(r[k])
  {
    if t == [] then []
    else (if IsSeparator(t[0]) then [] else [t[0]]) + StripSeparators(t[1..])
  }

  /** The digits of `t`, in order. */
  function Digits(t: string): (r: string)
  {
    if t == [] then []
    else (if IsDigit(t[0]) then [t[0]] else []) + Digits(t[1..])
  }

  /** A stored phone number: digits, possibly after one leading `+`. */
  predicate IsPlusDigits(r: string) {
    forall k | 0 <= k < |r| :: IsDigit(r[k]) || (k == 0 && r[k] == '+')
  }

  // ---------------------------------------------------------------------------------------
  // The extractor

  /** The FIRSTNAME and LASTNAME candidates of a line: the parts of the captured name, or
      two empty strings when no name expression matches. */
  function Names(line: string): (string, string)
  {
    if NameText(line).Some? then NameParts(NameText(line).value) else ("", "")
  }

  /** FIRSTNAME, assigned only when the candidate is non-empty (`if (firstName)`). */
  function FirstNameField(line: string): Option<string>
  {
    if Names(line).0 != "" then Some(Names(line).0) else None
  }

  /** LASTNAME, assigned only when the candidate is non-empty (`if (lastName)`). */
  function LastNameField(line: string): Option<string>
  {
    if Names(line).1 != "" then Some(Names(line).1) else None
  }

  /** SMS: the leftmost phone match without its separators, assigned whenever there is a
      match, even one that becomes empty. Both arms of the `startsWith('+')` test assign the
      same value. */
  function SmsField(line: string): Option<string>
  {
    if FirstPhone(line).Some? then Some(StripSeparators(FirstPhone(line).value)) else None
  }

  /** COMPANY: the trimmed company group, assigned whenever the company expression matches. */
  function CompanyField(line: string): Option<string>
  {
    if CompanyText(line).Some? then Some(Trim(CompanyText(line).value)) else None
  }

  /** `extractContactFromLine`: None when the line holds no address; otherwise the leftmost
      address, and the attributes object when at least one attribute was assigned. */
  function ExtractContact(line: string): (r: Option<Contact>)
    ensures r.None? <==> FirstEmail(line).None?
    ensures r.Some? ==> r.value.email == FirstEmail(line).value && '@' in r.value.email
    ensures r.Some? ==> r.value.attributes != Some(Attributes(None, None, None, None))
    ensures r.Some? ==>
      && r.value.FirstName() == FirstNameField(line)
      && r.value.LastName() == LastNameField(line)
      && r.value.Sms() == SmsField(line)
      && r.value.Company() == CompanyField(line)
  {
    match FirstEmail(line)
    case None => None
    case Some(email) =>
      var attributes := Attributes(FirstNameField(line), LastNameField(line), SmsField(line), CompanyField(line));
      EmailHasAt(line);
      Some(Contact(email, if attributes.IsEmpty() then None else Some(attributes)))
  }

  /** The leftmost address contains the `@` the expression requires. */
  lemma EmailHasAt(line: string)
    ensures FirstEmail(line).Some? ==> '@' in FirstEmail(line).value
  {
    if FirstEmail(line).Some? {
      var i := Search(EmailAt, line, 0).value;
      EmailAtSound(line, i);
      var a: nat, d: nat :| EmailShape(line, i, a, d, EmailAt(line, i).value.end);
      assert FirstEmail(line).value[a - i] == '@';
    }
  }

  // ---------------------------------------------------------------------------------------
  // What the extractor promises

  /** A line yields no contact exactly when the email expression matches nowhere in it. */
  lemma ExtractNoneIffNoEmail(line: string)
    ensures ExtractContact(line).None? <==> forall i: nat, a: nat, d: nat, j: nat :: !EmailShape(line, i, a, d, j)
  {
    match Search(EmailAt, line, 0)
    case None =>
      forall i: nat, a: nat, d: nat, j: nat ensures !EmailShape(line, i, a, d, j) {
        EmailAtLongest(line, i, a, d, j);
      }
    case Some(i) =>
      EmailAtSound(line, i);
  }

  /** Every address the expression accepts contains an `@`. */
  lemma EmailShapeHasAt(line: string, i: nat, a: nat, d: nat, j: nat)
    ensures EmailShape(line, i, a, d, j) ==> '@' in line
  {
    if EmailShape(line, i, a, d, j) {
      assert line[a] == '@';
    }
  }

  /** A line without `@` yields no contact. */
  lemma NoAtNoContact(line: string)
    requires '@' !in line
    ensures ExtractContact(line).None?
  {
    forall i: nat, a: nat, d: nat, j: nat ensures !EmailShape(line, i, a, d, j) {
      EmailShapeHasAt(line, i, a, d, j);
    }
    ExtractNoneIffNoEmail(line);
  }

  /** The contact's email is the leftmost text the email expression accepts, read as far as
      the expression allows; any later address on the line is ignored. */
  lemma EmailIsLeftmostLongest(line: string)
    requires ExtractContact(line).Some?
    ensures exists i: nat, a: nat, d: nat, j: nat ::
      EmailShape(line, i, a, d, j) && ExtractContact(line).value.email == line[i..j]
      && (forall i': nat, a': nat, d': nat, j': nat | i' < i :: !EmailShape(line, i', a', d', j'))
      && (forall a': nat, d': nat, j': nat | EmailShape(line, i, a', d', j') :: j' <= j)
  {
    var i := Search(EmailAt, line, 0).value;
    var j := EmailAt(line, i).value.end;
    EmailAtSound(line, i);
    var a: nat, d: nat :| EmailShape(line, i, a, d, j);
    forall i': nat, a': nat, d': nat, j': nat | i' < i ensures !EmailShape(line, i', a', d', j') {
      EmailAtLongest(line, i', a', d', j');
    }
    forall a': nat, d': nat, j': nat | EmailShape(line, i, a', d', j') ensures j' <= j {
      EmailAtLongest(line, i, a', d', j');
    }
  }

  /** Separators come out of a run of phone characters and digits stay, in order. */
  lemma {:induction false} StripPhoneRun(t: string)
    requires forall k | 0 <= k < |t| :: IsPhoneChar(t[k])
    ensures StripSeparators(t) == Digits(t)
  {
    if t != [] {
      StripPhoneRun(t[1..]);
    }
  }

  lemma {:induction false} DigitsAreDigits(t: string)
    ensures forall k | 0 <= k < |Digits(t)| :: IsDigit(Digits(t)[k])
  {
    if t != [] {
      DigitsAreDigits(t[1..]);
      var head := if IsDigit(t[0]) then [t[0]] else [];
      forall k | 0 <= k < |Digits(t)| ensures IsDigit(Digits(t)[k]) {
        if k >= |head| {
          assert Digits(t)[k] == Digits(t[1..])[k - |head|];
        }
      }
    }
  }

  /** SMS is assigned exactly when the phone expression matches somewhere; it is then the
      leftmost, longest phone run with its separators removed: a leading `+` when the run
      had one, followed by the run's digits in order. It may be empty (or just `+`) when the
      run held only separators. */
  lemma SmsIsLeftmostPhoneDigits(line: string)
    ensures SmsField(line).Some? <==> exists i: nat, p: nat, j: nat :: PhoneShape(line, i, p, j)
    ensures SmsField(line).Some? ==>
      IsPlusDigits(SmsField(line).value)
      && (exists i: nat, p: nat, j: nat ::
        PhoneShape(line, i, p, j)
        && (j == |line| || !IsPhoneChar(line[j]))
        && (forall i': nat, p': nat, j': nat | i' < i :: !PhoneShape(line, i', p', j'))
        && SmsField(line).value == (if p == i + 1 then "+" else "") + Digits(line[p..j]))
  {
    match Search(PhoneAt, line, 0)
    case None =>
      forall i: nat, p: nat, j: nat ensures !PhoneShape(line, i, p, j) {
        PhoneAtLongest(line, i, p, j);
      }
    case Some(i) =>
      var j := PhoneAt(line, i).value.end;
      PhoneAtSound(line, i);
      var p: nat :| PhoneShape(line, i, p, j);
      forall i': nat, p': nat, j': nat | i' < i ensures !PhoneShape(line, i', p', j') {
        PhoneAtLongest(line, i', p', j');
      }
      var t := line[i..j];
      var sms := SmsField(line).value;
      assert sms == StripSeparators(t);
      StripPhoneRun(line[p..j]);
      DigitsAreDigits(line[p..j]);
      if p == i + 1 {
        assert t == ['+'] + line[p..j];
        assert sms == "+" + Digits(line[p..j]);
      } else {
        assert t == line[p..j];
      }
  }

  /** What the name parts are: FIRSTNAME is the trimmed name's first white-space-free word
      (empty only for a blank name); LASTNAME is non-empty exactly when the trimmed name
      has white space inside it, and then splitting it again gives back the remaining words;
      a last name never comes without a first name. */
  lemma NamePartsSpec(captured: string)
    ensures var t := Trim(captured); var (first, last) := NameParts(captured);
      && first == t[..RunLength(t, 0, NotSpace)]
      && (forall m | 0 <= m < |first| :: !IsSpace(first[m]))
      && (first == [] <==> t == [])
      && (last != [] <==> exists m | 0 <= m < |t| :: IsSpace(t[m]))
      && (last != [] ==> first != [] && SplitSpaces(last) == SplitSpaces(t)[1..])
      && (last != [] ==> exists seps :: SingleSpaced(SplitSpaces(t)[1..], seps, last))
  {
    NamePartsFirst(captured);
    NamePartsLast(captured);
    NamePartsSeparators(captured);
  }

  lemma NamePartsFirst(captured: string)
    ensures var t := Trim(captured); var first := NameParts(captured).0;
      && first == t[..RunLength(t, 0, NotSpace)]
      && (forall m | 0 <= m < |first| :: !IsSpace(first[m]))
      && (first == [] <==> t == [])
  {
    var t := Trim(captured);
    assert NameParts(captured).0 == SplitSpaces(t)[0];
    var _ := TrimSlice(captured);
    SplitSpacesFirst(t);
    SplitSpacesNoSpace(t);
    if t != [] {
      RunLengthAtLeast(t, 0, NotSpace, 1);
    }
  }

  lemma NamePartsLast(captured: string)
    ensures var t := Trim(captured); var (first, last) := NameParts(captured);
      && (last != [] <==> exists m | 0 <= m < |t| :: IsSpace(t[m]))
      && (last != [] ==> first != [] && SplitSpaces(last) == SplitSpaces(t)[1..])
  {
    var t := Trim(captured);
    var parts := SplitSpaces(t);
    var _ := TrimSlice(captured);
    SplitSpacesFirst(t);
    if |parts| >= 2 {
      SplitSpacesOfTrimmed(t);
      SplitSpacesNoSpace(t);
      var rest := parts[1..];
      NoSpaceInTail(parts);
      assert rest[0] == parts[1];
      SplitSpacesOfJoin(rest);
      JoinStartsWithFirst(rest, " ");
    }
  }

  /** `last` is `words` with exactly one space between each two of them. */
  predicate SingleSpaced(words: seq<string>, seps: seq<string>, last: string) {
    && |seps| + 1 == |words|
    && (forall k | 0 <= k < |seps| :: seps[k] == " ")
    && Interleave(words, seps) == last
  }

  /** LASTNAME is the words after the first with a single space between each two. */
  lemma NamePartsSeparators(captured: string)
    ensures var t := Trim(captured); var last := NameParts(captured).1;
      last != [] ==> exists seps :: SingleSpaced(SplitSpaces(t)[1..], seps, last)
  {
    var parts := SplitSpaces(Trim(captured));
    if |parts| >= 2 {
      var seps := JoinIsInterleave(parts[1..], " ");
      assert SingleSpaced(parts[1..], seps, NameParts(captured).1);
    }
  }

  /** The name parts of a name with at least two words. */
  lemma NamePartsOfWords(captured: string, words: seq<string>)
    requires SplitSpaces(Trim(captured)) == words && |words| >= 2
    ensures NameParts(captured) == (words[0], Join(words[1..], " "))
  {
  }

  /** The pieces after the first are non-empty and free of white space when all pieces are. */
  lemma NoSpaceInTail(parts: seq<string>)
    requires |parts| >= 2
    requires forall k | 0 <= k < |parts| :: parts[k] != []
    requires forall k, j | 0 <= k < |parts| && 0 <= j < |parts[k]| :: !IsSpace(parts[k][j])
    ensures forall k | 0 <= k < |parts[1..]| :: parts[1..][k] != []
    ensures forall k, j | 0 <= k < |parts[1..]| && 0 <= j < |parts[1..][k]| :: !IsSpace(parts[1..][k][j])
  {
    forall k | 0 <= k < |parts[1..]| ensures parts[1..][k] == parts[k + 1] { }
  }

  /** For a line not starting with `<` or `@`, the name is the line's text before its first
      `<` or `@`, trimmed; FIRSTNAME is its first word and LASTNAME the rest, each assigned
      only when non-empty. */
  lemma NameFromLeadingText(line: string, k: nat)
    requires 0 < k <= |line|
    requires forall m | 0 <= m < k :: NotAngleOrAt(line[m])
    requires k == |line| || !NotAngleOrAt(line[k])
    ensures var t := Trim(line[..k]);
      && (FirstNameField(line).Some? <==> t != [])
      && (t != [] ==> FirstNameField(line) == Some(t[..RunLength(t, 0, NotSpace)]))
      && (LastNameField(line).Some? <==> exists m | 0 <= m < |t| :: IsSpace(t[m]))
      && (LastNameField(line).Some? ==> SplitSpaces(LastNameField(line).value) == SplitSpaces(t)[1..])
      && (LastNameField(line).Some? ==> exists seps :: SingleSpaced(SplitSpaces(t)[1..], seps, LastNameField(line).value))
  {
    RunLengthExact(line, 0, NotAngleOrAt, k);
    assert NameText(line) == Some(line[..k]);
    NamePartsSpec(line[..k]);
  }

  /** For a line starting with `<` or `@`, the name is the text inside the leftmost pair of
      quotes, when there is one. */
  lemma NameFromQuotes(line: string, i: nat, j: nat)
    requires |line| == 0 || !NotAngleOrAt(line[0])
    requires QuotedShape(line, i, j)
    requires forall i': nat, j': nat | i' < i :: !QuotedShape(line, i', j')
    ensures NameText(line) == Some(line[i + 1..j])
  {
    assert NameHead(line).None?;
    assert QuotedAt(line, i) == Some(Span(i + 1, j));
    var i0 := Search(QuotedAt, line, 0).value;
    assert QuotedShape(line, i0, QuotedAt(line, i0).value.end);
  }

  /** The search for quoted text succeeds only where the quote expression accepts something. */
  lemma QuotedSearchFinds(line: string)
    ensures Search(QuotedAt, line, 0).Some? ==> exists i: nat, j: nat :: QuotedShape(line, i, j)
  {
    if Search(QuotedAt, line, 0).Some? {
      var i0 := Search(QuotedAt, line, 0).value;
      assert QuotedShape(line, i0, QuotedAt(line, i0).value.end);
    }
  }

  /** For a line starting with `<` or `@` and without quoted text, the name is the text
      inside the leftmost pair of parentheses, when there is one. */
  lemma NameFromParens(line: string, i: nat, j: nat)
    requires |line| == 0 || !NotAngleOrAt(line[0])
    requires forall i': nat, j': nat :: !QuotedShape(line, i', j')
    requires ParenShape(line, i, j)
    requires forall i': nat, j': nat | i' < i :: !ParenShape(line, i', j')
    ensures NameText(line) == Some(line[i + 1..j])
  {
    assert NameHead(line).None?;
    QuotedSearchFinds(line);
    assert ParenAt(line, i) == Some(Span(i + 1, j));
    var i0 := Search(ParenAt, line, 0).value;
    assert ParenShape(line, i0, ParenAt(line, i0).value.end);
  }

  /** COMPANY is assigned exactly when the company expression matches somewhere. */
  lemma CompanyFoundIff(line: string)
    ensures CompanyField(line).Some? <==> exists i: nat, k: nat, q: nat, e: nat :: CompanyShape(line, i, k, q, e)
  {
    match Search(CompanyAt, line, 0)
    case None =>
      forall i: nat, k: nat, q: nat, e: nat ensures !CompanyShape(line, i, k, q, e) {
        CompanyAtComplete(line, i, k, q, e);
      }
    case Some(i) =>
      CompanyAtSound(line, i);
  }

  /** An assigned COMPANY is the trimmed group of the leftmost match of the company
      expression, which runs up to the next `,`, `<` or `@`; so it holds none of those
      characters and no white space at either end (it may be empty). */
  lemma CompanyIsLeftmostPhrase(line: string)
    requires CompanyField(line).Some?
    ensures var co := CompanyField(line).value;
      && (forall m | 0 <= m < |co| :: NotStop(co[m]))
      && (co == [] || (!IsSpace(co[0]) && !IsSpace(co[|co| - 1])))
      && (exists i: nat, k: nat, q: nat, e: nat ::
        CompanyShape(line, i, k, q, e)
        && (e == |line| || !NotStop(line[e]))
        && (forall i': nat, k': nat, q': nat, e': nat | i' < i :: !CompanyShape(line, i', k', q', e'))
        && co == Trim(line[q..e]))
  {
    var i := Search(CompanyAt, line, 0).value;
    var g := CompanyAt(line, i).value;
    CompanyAtSound(line, i);
    var k: nat :| CompanyShape(line, i, k, g.start, g.end);
    forall i': nat, k': nat, q': nat, e': nat | i' < i ensures !CompanyShape(line, i', k', q', e') {
      CompanyAtComplete(line, i', k', q', e');
    }
    assert CompanyField(line).value == Trim(line[g.start..g.end]);
    TrimKeepsClass(line[g.start..g.end], NotStop);
    var _ := TrimSlice(line[g.start..g.end]);
  }

  /** Trimming a string whose characters all satisfy `p` leaves characters satisfying `p`. */
  lemma TrimKeepsClass(s: string, p: char -> bool)
    requires forall m | 0 <= m < |s| :: p(s[m])
    ensures forall m | 0 <= m < |Trim(s)| :: p(Trim(s)[m])
  {
    var off := TrimSlice(s);
    forall m | 0 <= m < |Trim(s)| ensures p(Trim(s)[m]) {
      assert Trim(s)[m] == s[off + m];
    }
  }

  /** A line that is nothing but an address gives that address, its local part as FIRSTNAME,
      and no LASTNAME and no COMPANY. */
  lemma BareAddress(line: string, a: nat, d: nat)
    requires EmailShape(line, 0, a, d, |line|)
    ensures ExtractContact(line).Some?
    ensures ExtractContact(line).value.email == line
    ensures ExtractContact(line).value.FirstName() == Some(line[..a])
    ensures ExtractContact(line).value.LastName().None?
    ensures ExtractContact(line).value.Company().None?
  {
    EmailAtLongest(line, 0, a, d, |line|);
    assert Search(EmailAt, line, 0) == Some(0);
    EmailShapeNoSpace(line, 0, a, d, |line|);
    BareAddressName(line, a, d);
    CompanyNeedsSpace(line);
  }

  /** An address holds no white space. */
  lemma EmailShapeNoSpace(line: string, i: nat, a: nat, d: nat, j: nat)
    requires EmailShape(line, i, a, d, j)
    ensures forall m | i <= m < j :: !IsSpace(line[m])
  {
    forall m | i <= m < j ensures !IsSpace(line[m]) {
      if m < a {
        assert IsLocalChar(line[m]);
      } else if a < m < d {
        assert IsDomainChar(line[m]);
      } else if d < m {
        assert IsLetter(line[m]);
      }
    }
  }

  lemma BareAddressName(line: string, a: nat, d: nat)
    requires EmailShape(line, 0, a, d, |line|)
    requires forall m | 0 <= m < |line| :: !IsSpace(line[m])
    ensures FirstNameField(line) == Some(line[..a])
    ensures LastNameField(line).None?
  {
    RunLengthExact(line, 0, NotAngleOrAt, a);
    var local := line[..a];
    assert NameText(line) == Some(local);
    assert forall m | 0 <= m < |local| :: !IsSpace(local[m]);
    assert TrimStart(local) == local;
    assert TrimEnd(local) == local;
    assert SplitSpaces(local) == [local];
  }

  /** The company expression needs white space after its keyword. */
  lemma CompanyNeedsSpace(line: string)
    ensures CompanyField(line).Some? ==> exists m | 0 <= m < |line| :: IsSpace(line[m])
  {
    if Search(CompanyAt, line, 0).Some? {
      var i := Search(CompanyAt, line, 0).value;
      CompanyAtSound(line, i);
      var g := CompanyAt(line, i).value;
      var k: nat :| CompanyShape(line, i, k, g.start, g.end);
      assert IsSpace(line[i + k]);
    }
  }
}
