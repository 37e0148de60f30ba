/** The regular expressions of the contact-line parser (src/index.ts:3770-3818), each
    re-implemented as a backtracking matcher tried at one start index, with the leftmost
    search that `String.prototype.match` performs on top of it. Every matcher is paired
    with a predicate that describes the strings its regular expression accepts, and
    lemmas tie the two together: what the matcher finds is accepted, and whatever is
    accepted at a start index is found there (for the email and phone expressions, the
    longest such match, which is what greedy backtracking produces). */
module Patterns {
  import opened Wrappers
  import opened Text

  /** The text `s[start..end]` of a capture group. */
  datatype Span = Span(start: nat, end: nat)

  predicate Within(s: string, g: Span) { g.start <= g.end <= |s| }

  function Slice(s: string, g: Span): string
    requires Within(s, g)
  {
    s[g.start..g.end]
  }

  /** A matcher tries one regular expression at one start index and gives its first capture
      group, or None when the expression cannot match there. */
  type Matcher = (string, nat) -> Option<Span>

  /** The leftmost start index at or after `from` where `m` matches, as a regular expression
      without the sticky flag searches a string. */
  function Search(m: Matcher, s: string, from: nat): (r: Option<nat>)
    requires from <= |s| + 1
    ensures r.Some? ==> from <= r.value <= |s| && m(s, r.value).Some?
    ensures r.Some? ==> forall k | from <= k < r.value :: m(s, k).None?
    ensures r.None? ==> forall k | from <= k <= |s| :: m(s, k).None?
    decreases |s| + 1 - from
  {
    if from > |s| then None
    else if m(s, from).Some? then Some(from)
    else Search(m, s, from + 1)
  }

  // ---------------------------------------------------------------------------------------
  // Email: /([a-zA-Z0-9._%+-]+@[a-zA-Z0-9.-]+\.[a-zA-Z]{2,})/g

  predicate IsLocalChar(c: char) {
    IsLetter(c) || IsDigit(c) || c == '.' || c == '_' || c == '%' || c == '+' || c == '-'
  }

  predicate IsDomainChar(c: char) {
    IsLetter(c) || IsDigit(c) || c == '.' || c == '-'
  }

  /** The email expression accepts `s[i..j]`, reading its `@` at `a` and its last `.` at `d`. */
  predicate EmailShape(s: string, i: nat, a: nat, d: nat, j: nat) {
    i < a && a + 1 < d && d + 3 <= j <= |s|
    && (forall k | i <= k < a :: IsLocalChar(s[k]))
    && s[a] == '@'
    && (forall k | a < k < d :: IsDomainChar(s[k]))
    && s[d] == '.'
    && (forall k | d < k < j :: IsLetter(s[k]))
  }

  /** `\.[a-zA-Z]{2,}` can follow a domain run that ends at `d`. */
  predicate TldAt(s: string, d: nat) {
    d + 2 < |s| && s[d] == '.' && IsLetter(s[d + 1]) && IsLetter(s[d + 2])
  }

  /** The domain run `[a-zA-Z0-9.-]+` starting at `lo` has greedily reached `d`; it gives
      back one character at a time until `\.[a-zA-Z]{2,}` can follow it. The result is
      the index of that dot: the last workable one. */
  function DotBacktrack(s: string, lo: nat, d: nat): (r: Option<nat>)
    requires lo < d <= |s|
    ensures r.Some? ==> lo < r.value <= d && TldAt(s, r.value)
    decreases d
  {
    if TldAt(s, d) then Some(d)
    else if d - 1 > lo then DotBacktrack(s, lo, d - 1)
    else None
  }

  /** The email expression tried at `i`. The local run cannot give anything back (`@` is not
      a local character), so the `@` must follow it; the domain run backtracks, and the
      letter run after the dot is taken whole. */
  function EmailAt(s: string, i: nat): (r: Option<Span>)
    ensures r.Some? ==> r.value.start == i && Within(s, r.value)
  {
    if i >= |s| then None
    else
      var a := i + RunLength(s, i, IsLocalChar);
      if a == i || a == |s| || s[a] != '@' then None
      else EmailAfterDomain(s, i, a + 1, a + 1 + RunLength(s, a + 1, IsDomainChar))
  }

  /** The domain run `s[lo..e]` has been read greedily; it backtracks to a dot followed by
      at least two letters, and the letters are taken whole. */
  function EmailAfterDomain(s: string, i: nat, lo: nat, e: nat): (r: Option<Span>)
    requires i < lo <= e <= |s|
    ensures r.Some? ==> r.value.start == i && Within(s, r.value)
  {
    if e == lo then None
    else
      match DotBacktrack(s, lo, e)
      case None => None
      case Some(d) => Some(Span(i, d + 1 + RunLength(s, d + 1, IsLetter)))
  }

  /** What the email matcher finds is accepted by the email expression, and it does not stop
      inside a run of top-level-domain letters. */
  lemma EmailAtSound(s: string, i: nat)
    requires EmailAt(s, i).Some?
    ensures exists a, d :: EmailShape(s, i, a, d, EmailAt(s, i).value.end)
    ensures EmailAt(s, i).value.end == |s| || !IsLetter(s[EmailAt(s, i).value.end])
  {
    var a := i + RunLength(s, i, IsLocalChar);
    var e := a + 1 + RunLength(s, a + 1, IsDomainChar);
    var d := DotBacktrack(s, a + 1, e).value;
    var j := EmailAt(s, i).value.end;
    RunLengthAll(s, i, IsLocalChar);
    RunLengthAll(s, a + 1, IsDomainChar);
    RunLengthAll(s, d + 1, IsLetter);
    assert j == d + 1 + RunLength(s, d + 1, IsLetter);
    assert EmailShape(s, i, a, d, j);
  }

  /** Whenever the email expression accepts some `s[i..j]`, the matcher finds a match at `i`,
      and none longer exists: greedy backtracking yields the longest address starting at `i`. */
  lemma EmailAtLongest(s: string, i: nat, a: nat, d: nat, j: nat)
    ensures EmailShape(s, i, a, d, j) ==> EmailAt(s, i).Some? && j <= EmailAt(s, i).value.end
  {
    if EmailShape(s, i, a, d, j) {
      EmailAtReaches(s, i, a, d, j);
    }
  }

  lemma EmailAtReaches(s: string, i: nat, a: nat, d: nat, j: nat)
    requires EmailShape(s, i, a, d, j)
    ensures EmailAt(s, i).Some? && j <= EmailAt(s, i).value.end
  {
    RunLengthExact(s, i, IsLocalChar, a);
    RunLengthAtLeast(s, a + 1, IsDomainChar, d + 1);
    RunLengthAtLeast(s, d + 1, IsLetter, j);
    assert TldAt(s, d);
    var d' := EmailAtDot(s, i, a, d);
    TldEndReaches(s, d, d', j);
  }

  /** Once the local run reaches the `@` and the domain run reaches a dot `d` where a
      top-level domain can follow, the matcher succeeds at `i`, settling on a dot at or
      after `d`. */
  lemma EmailAtDot(s: string, i: nat, a: nat, d: nat) returns (d': nat)
    requires i < a && a + 1 < d && TldAt(s, d) && s[a] == '@'
    requires i + RunLength(s, i, IsLocalChar) == a
    requires a + 1 + RunLength(s, a + 1, IsDomainChar) >= d + 1
    ensures d <= d' < |s| && s[d'] == '.'
    ensures EmailAt(s, i).Some? && EmailAt(s, i).value.end == d' + 1 + RunLength(s, d' + 1, IsLetter)
  {
    var e := a + 1 + RunLength(s, a + 1, IsDomainChar);
    d' := DotBacktrackReaches(s, a + 1, e, d);
    EmailAtFound(s, i, a, e, d');
  }

  /** The dot backtracking settles on is `d` itself or lies at or beyond `j`; either way the
      letters after it reach `j`. */
  lemma TldEndReaches(s: string, d: nat, d': nat, j: nat)
    requires d <= d' < |s| && s[d'] == '.' && j <= |s|
    requires d + 1 + RunLength(s, d + 1, IsLetter) >= j
    requires forall k | d < k < j :: s[k] != '.'
    ensures j <= d' + 1 + RunLength(s, d' + 1, IsLetter)
  {
  }

  /** The email matcher's result once the `@`, the end `e` of the domain run and the dot
      backtracking settles on are known. */
  lemma EmailAtFound(s: string, i: nat, a: nat, e: nat, d: nat)
    requires i < a < |s| && s[a] == '@' && i + RunLength(s, i, IsLocalChar) == a
    requires e == a + 1 + RunLength(s, a + 1, IsDomainChar) && a + 1 < e
    requires DotBacktrack(s, a + 1, e) == Some(d)
    ensures EmailAt(s, i).Some?
    ensures EmailAt(s, i).value.end == d + 1 + RunLength(s, d + 1, IsLetter)
  {
    assert EmailAfterDomain(s, i, a + 1, e).Some?;
  }

  /** Backtracking stops at or after every dot where a top-level domain could follow. */
  lemma {:induction false} DotBacktrackReaches(s: string, lo: nat, e: nat, d: nat) returns (d': nat)
    requires lo < d <= e <= |s| && TldAt(s, d)
    ensures DotBacktrack(s, lo, e) == Some(d') && d <= d' && TldAt(s, d')
    decreases e
  {
    if TldAt(s, e) {
      d' := e;
    } else {
      d' := DotBacktrackReaches(s, lo, e - 1, d);
    }
  }

  /** Backtracking settles on the last workable dot, and fails only when there is none. */
  lemma DotBacktrackLast(s: string, lo: nat, e: nat)
    requires lo < e <= |s|
    ensures DotBacktrack(s, lo, e).Some? ==>
      forall k {:trigger TldAt(s, k)} | DotBacktrack(s, lo, e).value < k <= e :: !TldAt(s, k)
    ensures DotBacktrack(s, lo, e).None? ==> forall k {:trigger TldAt(s, k)} | lo < k <= e :: !TldAt(s, k)
  {
    forall k | lo < k <= e && TldAt(s, k)
      ensures DotBacktrack(s, lo, e).Some? && k <= DotBacktrack(s, lo, e).value
    {
      var _ := DotBacktrackReaches(s, lo, e, k);
    }
  }

  // ---------------------------------------------------------------------------------------
  // Phone: /(\+?[\d\s\-\(\)]{10,})/g

  predicate IsPhoneChar(c: char) {
    IsDigit(c) || IsSpace(c) || c == '-' || c == '(' || c == ')'
  }

  /** The phone expression accepts `s[i..j]`; its class run starts at `p`, after the optional `+`. */
  predicate PhoneShape(s: string, i: nat, p: nat, j: nat) {
    (p == i || (p == i + 1 && i < |s| && s[i] == '+'))
    && p + 10 <= j <= |s|
    && forall k | p <= k < j :: IsPhoneChar(s[k])
  }

  /** `[\d\s\-\(\)]{10,}` at `p`, for a match that began at `i`. */
  function PhoneRun(s: string, i: nat, p: nat): (r: Option<Span>)
    requires i <= p <= |s|
  {
    var n := RunLength(s, p, IsPhoneChar);
    if n >= 10 then Some(Span(i, p + n)) else None
  }

  /** The phone expression tried at `i`: first with the `+`, then without it. */
  function PhoneAt(s: string, i: nat): (r: Option<Span>)
    ensures r.Some? ==> r.value.start == i && Within(s, r.value)
  {
    if i > |s| then None
    else
      var withPlus := if i < |s| && s[i] == '+' then PhoneRun(s, i, i + 1) else None;
      if withPlus.Some? then withPlus else PhoneRun(s, i, i)
  }

  /** What the phone matcher finds is accepted by the phone expression and is not followed
      by another phone character. */
  lemma PhoneAtSound(s: string, i: nat)
    requires PhoneAt(s, i).Some?
    ensures exists p :: PhoneShape(s, i, p, PhoneAt(s, i).value.end)
    ensures PhoneAt(s, i).value.end == |s| || !IsPhoneChar(s[PhoneAt(s, i).value.end])
  {
    var j := PhoneAt(s, i).value.end;
    if i < |s| && s[i] == '+' && PhoneRun(s, i, i + 1).Some? {
      RunLengthAll(s, i + 1, IsPhoneChar);
      assert PhoneShape(s, i, i + 1, j);
    } else {
      RunLengthAll(s, i, IsPhoneChar);
      assert PhoneShape(s, i, i, j);
    }
  }

  /** Whenever the phone expression accepts some `s[i..j]`, the matcher finds a match at `i`
      that is at least as long. */
  lemma PhoneAtLongest(s: string, i: nat, p: nat, j: nat)
    ensures PhoneShape(s, i, p, j) ==> PhoneAt(s, i).Some? && j <= PhoneAt(s, i).value.end
  {
    if PhoneShape(s, i, p, j) {
      RunLengthAtLeast(s, p, IsPhoneChar, j);
      if p == i {
        assert !(s[i] == '+') by {
          assert IsPhoneChar(s[i]);
        }
      }
    }
  }

  // ---------------------------------------------------------------------------------------
  // Name, first alternative: /^([^<@]+)<?/

  predicate NotAngleOrAt(c: char) { c != '<' && c != '@' }

  /** The anchored name expression: the group is the longest prefix without `<` or `@`; the
      optional `<` after it lies outside the group and cannot fail. It matches exactly the
      strings that do not begin with `<` or `@`. */
  function NameHead(s: string): (r: Option<Span>)
    ensures r.Some? <==> |s| > 0 && NotAngleOrAt(s[0])
    ensures r.Some? ==> r.value.start == 0 && 0 < r.value.end <= |s|
    ensures r.Some? ==> forall k | 0 <= k < r.value.end :: NotAngleOrAt(s[k])
    ensures r.Some? ==> r.value.end == |s| || !NotAngleOrAt(s[r.value.end])
  {
    var n := RunLength(s, 0, NotAngleOrAt);
    RunLengthAll(s, 0, NotAngleOrAt);
    if n >= 1 then Some(Span(0, n)) else None
  }

  // ---------------------------------------------------------------------------------------
  // Name, second alternative: /["']([^"']+)["']/

  predicate IsQuote(c: char) { c == '"' || c == '\'' }

  predicate NotQuote(c: char) { !IsQuote(c) }

  /** The quote expression accepts `s[i..j + 1]`: quotes at `i` and `j` (either kind, not
      necessarily the same) around a non-empty quote-free text. */
  predicate QuotedShape(s: string, i: nat, j: nat) {
    i + 1 < j < |s| && IsQuote(s[i]) && IsQuote(s[j])
    && forall k | i < k < j :: NotQuote(s[k])
  }

  /** The quote expression tried at `i`; the group is the text between the quotes, and it
      is found exactly when the expression accepts something at `i`. */
  function QuotedAt(s: string, i: nat): (r: Option<Span>)
    ensures r.Some? ==> r.value.start == i + 1 && QuotedShape(s, i, r.value.end)
    ensures forall j | QuotedShape(s, i, j) :: r == Some(Span(i + 1, j))
  {
    if i < |s| && IsQuote(s[i]) then
      var n := RunLength(s, i + 1, NotQuote);
      RunLengthAll(s, i + 1, NotQuote);
      if n >= 1 && i + 1 + n < |s| then Some(Span(i + 1, i + 1 + n)) else None
    else None
  }

  // ---------------------------------------------------------------------------------------
  // Name, third alternative: /\(([^)]+)\)/

  predicate NotCloseParen(c: char) { c != ')' }

  /** The parenthesis expression accepts `s[i..j + 1]`: `(` at `i`, `)` at `j`, and a
      non-empty text without `)` between them. */
  predicate ParenShape(s: string, i: nat, j: nat) {
    i + 1 < j < |s| && s[i] == '(' && s[j] == ')'
    && forall k | i < k < j :: NotCloseParen(s[k])
  }

  /** The parenthesis expression tried at `i`; found exactly when it accepts something at `i`. */
  function ParenAt(s: string, i: nat): (r: Option<Span>)
    ensures r.Some? ==> r.value.start == i + 1 && ParenShape(s, i, r.value.end)
    ensures forall j | ParenShape(s, i, j) :: r == Some(Span(i + 1, j))
  {
    if i < |s| && s[i] == '(' then
      var n := RunLength(s, i + 1, NotCloseParen);
      RunLengthAll(s, i + 1, NotCloseParen);
      if n >= 1 && i + 1 + n < |s| then Some(Span(i + 1, i + 1 + n)) else None
    else None
  }

  // ---------------------------------------------------------------------------------------
  // Company: /(?:at|@)\s+([^,<@]+)/i

  predicate IsA(c: char) { c == 'a' || c == 'A' }

  predicate IsT(c: char) { c == 't' || c == 'T' }

  predicate NotStop(c: char) { c != ',' && c != '<' && c != '@' }

  /** `(?:at|@)` matches the `k` characters at `i`, ignoring case. */
  predicate KeywordAt(s: string, i: nat, k: nat) {
    (k == 2 && i + 2 <= |s| && IsA(s[i]) && IsT(s[i + 1]))
    || (k == 1 && i < |s| && s[i] == '@')
  }

  /** The company expression accepts `s[i..e]`: a keyword of `k` characters, white space up
      to `q`, and the group `s[q..e]` free of `,`, `<` and `@`. */
  predicate CompanyShape(s: string, i: nat, k: nat, q: nat, e: nat) {
    KeywordAt(s, i, k) && i + k < q < e <= |s|
    && (forall m | i + k <= m < q :: IsSpace(s[m]))
    && (forall m | q <= m < e :: NotStop(s[m]))
  }

  /** `\s+` has consumed `s[p..p + w]`; `[^,<@]+` is tried after it, and on failure the
      white-space run gives back one character, which the group may then take. */
  function GiveBackSpaces(s: string, p: nat, w: nat): (r: Option<Span>)
    requires 1 <= w && p + w <= |s|
    ensures r.Some? ==> p < r.value.start <= p + w && r.value.start < r.value.end <= |s|
    ensures r.Some? ==> forall m | r.value.start <= m < r.value.end :: NotStop(s[m])
    ensures r.Some? ==> r.value.end == |s| || !NotStop(s[r.value.end])
    ensures r.Some? ==> forall m | r.value.start < m <= p + w :: m == |s| || !NotStop(s[m])
    ensures r.None? ==> forall m | p < m <= p + w :: m == |s| || !NotStop(s[m])
    decreases w
  {
    var q := p + w;
    var n := RunLength(s, q, NotStop);
    RunLengthAll(s, q, NotStop);
    if n >= 1 then Some(Span(q, q + n))
    else if w > 1 then GiveBackSpaces(s, p, w - 1)
    else None
  }

  /** `\s+([^,<@]+)` at `p`. */
  function SpacesThenName(s: string, p: nat): (r: Option<Span>)
    requires p <= |s|
    ensures r.Some? ==> p < r.value.start && Within(s, r.value)
  {
    var w := RunLength(s, p, IsSpace);
    if w == 0 then None else GiveBackSpaces(s, p, w)
  }

  /** The company expression tried at `i`: the `at` alternative first, then `@`. */
  function CompanyAt(s: string, i: nat): (r: Option<Span>)
    ensures r.Some? ==> Within(s, r.value)
  {
    if i >= |s| then None
    else
      var viaWord := if KeywordAt(s, i, 2) then SpacesThenName(s, i + 2) else None;
      if viaWord.Some? then viaWord
      else if KeywordAt(s, i, 1) then SpacesThenName(s, i + 1)
      else None
  }

  /** What the company matcher finds is accepted by the company expression, and its group
      runs up to the next `,`, `<` or `@` (or the end). */
  lemma CompanyAtSound(s: string, i: nat)
    requires CompanyAt(s, i).Some?
    ensures exists k :: CompanyShape(s, i, k, CompanyAt(s, i).value.start, CompanyAt(s, i).value.end)
    ensures CompanyAt(s, i).value.end == |s| || !NotStop(s[CompanyAt(s, i).value.end])
  {
    var g := CompanyAt(s, i).value;
    var k := CompanyKeyword(s, i);
    SpacesThenNameSound(s, i + k);
    assert CompanyShape(s, i, k, g.start, g.end);
  }

  /** A company match starts with one of the two keywords, and the rest is `\s+([^,<@]+)`
      after it. */
  lemma CompanyKeyword(s: string, i: nat) returns (k: nat)
    requires CompanyAt(s, i).Some?
    ensures KeywordAt(s, i, k) && i + k <= |s| && CompanyAt(s, i) == SpacesThenName(s, i + k)
  {
    k := if KeywordAt(s, i, 2) && SpacesThenName(s, i + 2).Some? then 2 else 1;
  }

  /** What `\s+([^,<@]+)` finds at `p`: white space from `p` up to the group, and a group
      that runs up to the next `,`, `<` or `@` (or the end). */
  lemma SpacesThenNameSound(s: string, p: nat)
    requires p <= |s| && SpacesThenName(s, p).Some?
    ensures var g := SpacesThenName(s, p).value;
      && p < g.start < g.end <= |s|
      && (forall m | p <= m < g.start :: IsSpace(s[m]))
      && (forall m | g.start <= m < g.end :: NotStop(s[m]))
      && (g.end == |s| || !NotStop(s[g.end]))
  {
    var w := RunLength(s, p, IsSpace);
    RunLengthAll(s, p, IsSpace);
    assert SpacesThenName(s, p) == GiveBackSpaces(s, p, w);
  }

  /** Whenever the company expression accepts something at `i`, the matcher finds it. */
  lemma CompanyAtComplete(s: string, i: nat, k: nat, q: nat, e: nat)
    ensures CompanyShape(s, i, k, q, e) ==> CompanyAt(s, i).Some?
  {
    if CompanyShape(s, i, k, q, e) {
      var p := i + k;
      RunLengthAtLeast(s, p, IsSpace, q);
      assert NotStop(s[q]);
      if k == 1 {
        assert !KeywordAt(s, i, 2);
      }
    }
  }
}
