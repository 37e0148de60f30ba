/** Option, the one wrapper the model needs for JavaScript's `null` / absent values. */
module Wrappers {
  datatype Option<+T> = None | Some(value: T) {
    function GetOr(default: T): T {
      match this
      case Some(v) => v
      case None => default
    }
  }
}

/** The JavaScript string operations the contact parser relies on: character classes,
    `trim`, `split` and `join`, and the decimal rendering of a count. */
module Text {

  /** ECMAScript WhiteSpace and LineTerminator code points: what `String.prototype.trim`
      strips and what the regular-expression class `\s` matches. */
  predicate IsSpace(c: char) {
    var n := c as int;
    n == 0x09 || n == 0x0A || n == 0x0B || n == 0x0C || n == 0x0D || n == 0x20
    || n == 0xA0 || n == 0x1680 || (0x2000 <= n <= 0x200A) || n == 0x2028
    || n == 0x2029 || n == 0x202F || n == 0x205F || n == 0x3000 || n == 0xFEFF
  }

  predicate NotSpace(c: char) { !IsSpace(c) }

  /** The class `\d`. */
  predicate IsDigit(c: char) { '0' <= c <= '9' }

  /** The class `[a-zA-Z]`. */
  predicate IsLetter(c: char) { 'a' <= c <= 'z' || 'A' <= c <= 'Z' }

  /** Length of the longest run of characters satisfying `p` that starts at `i`:
      what a greedy `[...]*` consumes before any backtracking. */
  function RunLength(s: string, i: nat, p: char -> bool): (n: nat)
    requires i <= |s|
    ensures i + n <= |s|
    ensures i + n == |s| || !p(s[i + n])
    decreases |s| - i
  {
    if i < |s| && p(s[i]) then 1 + RunLength(s, i + 1, p) else 0
  }

  /** Every character of the run satisfies `p`. */
  lemma {:induction false} RunLengthAll(s: string, i: nat, p: char -> bool)
    requires i <= |s|
    ensures forall k | i <= k < i + RunLength(s, i, p) :: p(s[k])
    decreases |s| - i
  {
    if i < |s| && p(s[i]) {
      RunLengthAll(s, i + 1, p);
    }
  }

  /** A run is determined by its content and the character that stops it. */
  lemma RunLengthExact(s: string, i: nat, p: char -> bool, j: nat)
    requires i <= j <= |s|
    requires forall k | i <= k < j :: p(s[k])
    requires j == |s| || !p(s[j])
    ensures RunLength(s, i, p) == j - i
    decreases j - i
  {
    if i < j {
      RunLengthExact(s, i + 1, p, j);
    }
  }

  /** A run reaches at least as far as any stretch of characters satisfying `p`. */
  lemma RunLengthAtLeast(s: string, i: nat, p: char -> bool, j: nat)
    requires i <= j <= |s|
    requires forall k | i <= k < j :: p(s[k])
    ensures i + RunLength(s, i, p) >= j
    decreases j - i
  {
    if i < j {
      RunLengthAtLeast(s, i + 1, p, j);
    }
  }

  /** `s.trimStart()`. */
  function TrimStart(s: string): string
  {
    if s != [] && IsSpace(s[0]) then TrimStart(s[1..]) else s
  }

  /** `s.trimEnd()`. */
  function TrimEnd(s: string): string
  {
    if s != [] && IsSpace(s[|s| - 1]) then TrimEnd(s[..|s| - 1]) else s
  }

  /** `trimStart` drops the leading white space and nothing else. */
  lemma {:induction false} TrimStartSpec(s: string)
    ensures |TrimStart(s)| <= |s| && TrimStart(s) == s[|s| - |TrimStart(s)|..]
    ensures forall k | 0 <= k < |s| - |TrimStart(s)| :: IsSpace(s[k])
    ensures TrimStart(s) == [] || !IsSpace(TrimStart(s)[0])
    decreases |s|
  {
    if s != [] && IsSpace(s[0]) {
      var r := TrimStart(s[1..]);
      TrimStartSpec(s[1..]);
      assert TrimStart(s) == r;
      assert s[1..][|s| - 1 - |r|..] == s[|s| - |r|..];
      forall k | 0 <= k < |s| - |r| ensures IsSpace(s[k]) {
        if k > 0 {
          assert s[k] == s[1..][k - 1];
        }
      }
    }
  }

  /** `trimEnd` drops the trailing white space and nothing else. */
  lemma {:induction false} TrimEndSpec(s: string)
    ensures |TrimEnd(s)| <= |s| && TrimEnd(s) == s[..|TrimEnd(s)|]
    ensures forall k | |TrimEnd(s)| <= k < |s| :: IsSpace(s[k])
    ensures TrimEnd(s) == [] || !IsSpace(TrimEnd(s)[|TrimEnd(s)| - 1])
    decreases |s|
  {
    if s != [] && IsSpace(s[|s| - 1]) {
      var init := s[..|s| - 1];
      var r := TrimEnd(init);
      TrimEndSpec(init);
      assert TrimEnd(s) == r;
      assert init[..|r|] == s[..|r|];
      forall k | |r| <= k < |s| ensures IsSpace(s[k]) {
        if k < |s| - 1 {
          assert s[k] == init[k];
        }
      }
    }
  }

  /** `s.trim()`. */
  function Trim(s: string): (r: string)
  {
    TrimEnd(TrimStart(s))
  }

  /** Trim keeps a contiguous piece of its input and removes only white space around it. */
  lemma TrimSlice(s: string) returns (i: nat)
    ensures i + |Trim(s)| <= |s| && Trim(s) == s[i..i + |Trim(s)|]
    ensures forall k | 0 <= k < i :: IsSpace(s[k])
    ensures forall k | i + |Trim(s)| <= k < |s| :: IsSpace(s[k])
    ensures Trim(s) == [] || (!IsSpace(Trim(s)[0]) && !IsSpace(Trim(s)[|Trim(s)| - 1]))
  {
    var t := TrimStart(s);
    TrimStartSpec(s);
    TrimEndSpec(t);
    i := |s| - |t|;
    TrimmedSlice(s, i, t, TrimEnd(t));
  }

  /** Cutting leading white space and then trailing white space leaves a slice of the
      original with white space on both sides of it. */
  lemma TrimmedSlice(s: string, i: nat, t: string, r: string)
    requires i <= |s| && t == s[i..] && |r| <= |t| && r == t[..|r|]
    requires forall k | 0 <= k < i :: IsSpace(s[k])
    requires forall k | |r| <= k < |t| :: IsSpace(t[k])
    requires t == [] || !IsSpace(t[0])
    requires r == [] || !IsSpace(r[|r| - 1])
    ensures i + |r| <= |s| && r == s[i..i + |r|]
    ensures forall k | i + |r| <= k < |s| :: IsSpace(s[k])
    ensures r == [] || (!IsSpace(r[0]) && !IsSpace(r[|r| - 1]))
  {
    forall k | i + |r| <= k < |s| ensures IsSpace(s[k]) {
      assert s[k] == t[k - i];
    }
    if r != [] {
      assert r[0] == t[0];
    }
  }

  /** Every character of `Trim(s)` occurs in `s`. */
  lemma TrimChars(s: string, c: char)
    requires c in Trim(s)
    ensures c in s
  {
    var i := TrimSlice(s);
    var k :| 0 <= k < |Trim(s)| && Trim(s)[k] == c;
    assert s[i + k] == c;
  }

  /** `trim` is empty exactly for all-blank strings: the test `line.trim()` of a filter. */
  lemma {:induction false} TrimEmptyIff(s: string)
    ensures Trim(s) == [] <==> forall k | 0 <= k < |s| :: IsSpace(s[k])
  {
    var i := TrimSlice(s);
    if Trim(s) != [] {
      assert !IsSpace(s[i]);
    }
  }

  /** Trimming twice trims no more than once. */
  lemma TrimIdempotent(s: string)
    ensures Trim(Trim(s)) == Trim(s)
  {
    var t := Trim(s);
    var _ := TrimSlice(s);
    if t != [] {
      assert TrimStart(t) == t;
      assert TrimEnd(t) == t;
    }
  }

  /** `parts.join(sep)`. */
  function Join(parts: seq<string>, sep: string): string
  {
    if |parts| == 0 then ""
    else if |parts| == 1 then parts[0]
    else parts[0] + sep + Join(parts[1..], sep)
  }

  /** `s.split(sep)` for a one-character separator: the pieces between separators,
      including the empty pieces at either end or between two adjacent separators. */
  function Split(s: string, sep: char): (r: seq<string>)
    ensures |r| >= 1
    ensures forall k | 0 <= k < |r| :: sep !in r[k]
    ensures Join(r, [sep]) == s
    ensures forall k, c | 0 <= k < |r| && c in r[k] :: c in s
    decreases |s|
  {
    var notSep := c => c != sep;
    var n := RunLength(s, 0, notSep);
    RunLengthAll(s, 0, notSep);
    if n == |s| then
      assert s[..n] == s;
      [s]
    else
      var rest := Split(s[n + 1..], sep);
      assert forall k | 0 <= k < |rest| :: rest[k] == ([s[..n]] + rest)[k + 1];
      assert s == s[..n] + [sep] + s[n + 1..];
      [s[..n]] + rest
  }

  /** `s.split(/\s+/)`: the pieces between maximal runs of white space, with an empty
      first (last) piece when `s` begins (ends) with white space. */
  function SplitSpaces(s: string): (r: seq<string>)
    ensures |r| >= 1
    decreases |s|
  {
    var n := RunLength(s, 0, NotSpace);
    if n == |s| then [s]
    else
      var w := RunLength(s, n, IsSpace);
      [s[..n]] + SplitSpaces(s[n + w..])
  }

  /** The first piece is the leading run of characters other than white space; there is
      one piece exactly when the string holds no white space, and it is then the string. */
  lemma SplitSpacesFirst(s: string)
    ensures var r := SplitSpaces(s);
      && r[0] == s[..RunLength(s, 0, NotSpace)]
      && (|r| == 1 <==> forall j | 0 <= j < |s| :: !IsSpace(s[j]))
      && (|r| == 1 ==> r[0] == s)
  {
    var n := RunLength(s, 0, NotSpace);
    RunLengthAll(s, 0, NotSpace);
    if n == |s| {
      assert s[..n] == s;
    } else {
      assert IsSpace(s[n]);
    }
  }

  /** No piece of `parts` holds white space. */
  predicate NoSpaceInPieces(parts: seq<string>) {
    forall k, j | 0 <= k < |parts| && 0 <= j < |parts[k]| :: !IsSpace(parts[k][j])
  }

  /** A piece without white space in front of pieces without white space. */
  lemma NoSpaceCons(first: string, rest: seq<string>, r: seq<string>)
    requires r == [first] + rest
    requires forall j | 0 <= j < |first| :: !IsSpace(first[j])
    requires NoSpaceInPieces(rest)
    ensures NoSpaceInPieces(r)
  {
    forall k, j | 0 <= k < |r| && 0 <= j < |r[k]| ensures !IsSpace(r[k][j]) {
      if k > 0 {
        assert r[k] == rest[k - 1];
      }
    }
  }

  /** No piece holds white space. */
  lemma {:induction false} SplitSpacesNoSpace(s: string)
    ensures forall k, j | 0 <= k < |SplitSpaces(s)| && 0 <= j < |SplitSpaces(s)[k]| :: !IsSpace(SplitSpaces(s)[k][j])
    decreases |s|
  {
    var n := RunLength(s, 0, NotSpace);
    RunLengthAll(s, 0, NotSpace);
    var first := s[..n];
    forall j | 0 <= j < |first| ensures !IsSpace(first[j]) {
      assert first[j] == s[j] && NotSpace(s[j]);
    }
    if n < |s| {
      var w := RunLength(s, n, IsSpace);
      var tail := s[n + w..];
      SplitSpacesNoSpace(tail);
      assert SplitSpaces(s) == [first] + SplitSpaces(tail);
      NoSpaceCons(first, SplitSpaces(tail), SplitSpaces(s));
    } else {
      assert first == s;
      NoSpaceCons(first, [], SplitSpaces(s));
    }
  }

  /** The pieces with the separators between them, in order:
      `pieces[0] + seps[0] + pieces[1] + ... + pieces[|seps|]`. */
  function Interleave(pieces: seq<string>, seps: seq<string>): string
    requires |pieces| == |seps| + 1
    decreases |seps|
  {
    if seps == [] then pieces[0]
    else pieces[0] + seps[0] + Interleave(pieces[1..], seps[1..])
  }

  /** Joining with `sep` is interleaving with one copy of `sep` in every gap. */
  lemma {:induction false} JoinIsInterleave(parts: seq<string>, sep: string) returns (seps: seq<string>)
    requires |parts| >= 1
    ensures |seps| + 1 == |parts| && forall k | 0 <= k < |seps| :: seps[k] == sep
    ensures Interleave(parts, seps) == Join(parts, sep)
    decreases |parts|
  {
    if |parts| == 1 {
      seps := [];
    } else {
      var rest := JoinIsInterleave(parts[1..], sep);
      seps := [sep] + rest;
      assert seps[1..] == rest;
    }
  }

  lemma InterleaveCons(a: string, pieces: seq<string>, r: string, seps: seq<string>)
    requires |pieces| == |seps| + 1
    ensures Interleave([a] + pieces, [r] + seps) == a + r + Interleave(pieces, seps)
  {
    assert ([a] + pieces)[1..] == pieces;
    assert ([r] + seps)[1..] == seps;
  }

  /** What `split(/\s+/)` drops: between consecutive pieces lies a non-empty run of white
      space, and putting the runs back between the pieces gives the text again. */
  lemma {:induction false} SplitSpacesRoundTrip(s: string) returns (seps: seq<string>)
    ensures |seps| + 1 == |SplitSpaces(s)|
    ensures forall k | 0 <= k < |seps| :: seps[k] != []
    ensures forall k, j | 0 <= k < |seps| && 0 <= j < |seps[k]| :: IsSpace(seps[k][j])
    ensures Interleave(SplitSpaces(s), seps) == s
    decreases |s|
  {
    var n := RunLength(s, 0, NotSpace);
    if n == |s| {
      seps := [];
      assert SplitSpaces(s) == [s];
    } else {
      var w := RunLength(s, n, IsSpace);
      var tail := s[n + w..];
      var rest := SplitSpacesRoundTrip(tail);
      var run := SpaceRun(s, n, w);
      seps := [run] + rest;
      SepsCons(run, rest);
      SplitSpacesStep(s, n, w, tail);
      InterleaveStep(s, n, w, SplitSpaces(s), SplitSpaces(tail), rest);
    }
  }

  lemma InterleaveStep(s: string, n: nat, w: nat, r: seq<string>, rt: seq<string>, rest: seq<string>)
    requires n + w <= |s| && |rt| == |rest| + 1
    requires r == [s[..n]] + rt && Interleave(rt, rest) == s[n + w..]
    ensures Interleave(r, [s[n..n + w]] + rest) == s
  {
    InterleaveCons(s[..n], rt, s[n..n + w], rest);
    assert s[..n] + s[n..n + w] + s[n + w..] == s;
  }

  /** The white space after the leading word is a non-empty run. */
  lemma SpaceRun(s: string, n: nat, w: nat) returns (run: string)
    requires n == RunLength(s, 0, NotSpace) < |s| && w == RunLength(s, n, IsSpace)
    ensures n + w <= |s| && run == s[n..n + w] && run != []
    ensures forall j | 0 <= j < |run| :: IsSpace(run[j])
  {
    RunLengthAtLeast(s, n, IsSpace, n + 1);
    RunLengthAll(s, n, IsSpace);
    run := s[n..n + w];
    forall j | 0 <= j < |run| ensures IsSpace(run[j]) {
      assert run[j] == s[n + j];
    }
  }

  lemma SepsCons(run: string, rest: seq<string>)
    requires run != [] && forall j | 0 <= j < |run| :: IsSpace(run[j])
    requires forall k | 0 <= k < |rest| :: rest[k] != []
    requires forall k, j | 0 <= k < |rest| && 0 <= j < |rest[k]| :: IsSpace(rest[k][j])
    ensures forall k | 0 <= k < |[run] + rest| :: ([run] + rest)[k] != []
    ensures forall k, j | 0 <= k < |[run] + rest| && 0 <= j < |([run] + rest)[k]| :: IsSpace(([run] + rest)[k][j])
  {
    forall k | 0 < k < |[run] + rest| ensures ([run] + rest)[k] == rest[k - 1] { }
  }

  /** Only the first and the last piece can be empty, and the first is not when the text
      begins with a character other than white space. */
  lemma {:induction false} SplitSpacesInnerNonEmpty(s: string)
    ensures forall k | 0 < k < |SplitSpaces(s)| - 1 :: SplitSpaces(s)[k] != []
    ensures s != [] && !IsSpace(s[0]) ==> SplitSpaces(s)[0] != []
    decreases |s|
  {
    if s != [] && !IsSpace(s[0]) {
      SplitSpacesFirstNonEmpty(s);
    }
    var n := RunLength(s, 0, NotSpace);
    if n == |s| {
      assert SplitSpaces(s) == [s];
    } else {
      var w := RunLength(s, n, IsSpace);
      var tail := s[n + w..];
      SplitSpacesInnerNonEmpty(tail);
      SplitSpacesStep(s, n, w, tail);
      if tail != [] {
        assert !IsSpace(tail[0]) by {
          assert tail[0] == s[n + w];
        }
      } else {
        assert SplitSpaces(tail) == [[]];
      }
      InnerPiecesStep(SplitSpaces(s), s[..n], SplitSpaces(tail));
    }
  }

  lemma SplitSpacesFirstNonEmpty(s: string)
    requires s != [] && !IsSpace(s[0])
    ensures SplitSpaces(s)[0] != []
  {
    SplitSpacesFirst(s);
    RunLengthAtLeast(s, 0, NotSpace, 1);
  }

  lemma InnerPiecesStep(r: seq<string>, first: string, rt: seq<string>)
    requires r == [first] + rt
    requires forall k | 0 < k < |rt| - 1 :: rt[k] != []
    requires |rt| >= 2 ==> rt[0] != []
    ensures forall k | 0 < k < |r| - 1 :: r[k] != []
  {
    forall k | 0 < k < |r| - 1 ensures r[k] != [] {
      assert r[k] == rt[k - 1];
    }
  }

  /** No piece of a trimmed, non-empty string is empty. */
  lemma {:induction false} SplitSpacesOfTrimmed(s: string)
    requires s != [] && !IsSpace(s[0]) && !IsSpace(s[|s| - 1])
    ensures forall k | 0 <= k < |SplitSpaces(s)| :: SplitSpaces(s)[k] != []
    decreases |s|
  {
    var n := RunLength(s, 0, NotSpace);
    RunLengthAtLeast(s, 0, NotSpace, 1);
    if n < |s| {
      var w := RunLength(s, n, IsSpace);
      RunLengthAll(s, n, IsSpace);
      assert !(n <= |s| - 1 < n + w);
      var tail := s[n + w..];
      assert tail[0] == s[n + w] && tail[|tail| - 1] == s[|s| - 1];
      SplitSpacesOfTrimmed(tail);
      SplitSpacesUnfold(s, n, w, tail);
    }
  }

  /** One step of the split of a string that holds white space. */
  lemma {:induction false} SplitSpacesUnfold(s: string, n: nat, w: nat, tail: string)
    requires n == RunLength(s, 0, NotSpace) < |s| && w == RunLength(s, n, IsSpace) && tail == s[n + w..]
    requires n > 0 && forall k | 0 <= k < |SplitSpaces(tail)| :: SplitSpaces(tail)[k] != []
    ensures forall k | 0 <= k < |SplitSpaces(s)| :: SplitSpaces(s)[k] != []
  {
    SplitSpacesStep(s, n, w, tail);
    var r := SplitSpaces(s);
    var rest := SplitSpaces(tail);
    forall k | 0 <= k < |r| ensures r[k] != [] {
      if k > 0 {
        assert r[k] == rest[k - 1];
      }
    }
  }

  lemma {:induction false} SplitSpacesStep(s: string, n: nat, w: nat, tail: string)
    requires n == RunLength(s, 0, NotSpace) < |s| && w == RunLength(s, n, IsSpace) && tail == s[n + w..]
    ensures SplitSpaces(s) == [s[..n]] + SplitSpaces(tail)
  {
  }

  /** Joining space-free, non-empty words with single spaces and splitting again on white
      space gives the words back. */
  lemma {:induction false} SplitSpacesOfJoin(words: seq<string>)
    requires |words| >= 1
    requires forall k | 0 <= k < |words| :: words[k] != []
    requires forall k, j | 0 <= k < |words| && 0 <= j < |words[k]| :: !IsSpace(words[k][j])
    ensures SplitSpaces(Join(words, " ")) == words
  {
    var s := Join(words, " ");
    if |words| == 1 {
      assert forall j | 0 <= j < |s| :: !IsSpace(s[j]) by {
        assert s == words[0];
      }
      SplitSpacesFirst(s);
    } else {
      var w0 := words[0];
      var rest := Join(words[1..], " ");
      assert s == w0 + " " + rest;
      assert rest != [] && !IsSpace(rest[0]) by {
        JoinStartsWithFirst(words[1..], " ");
        assert words[1..][0] == words[1];
        assert words[1][0] == rest[0];
      }
      assert forall j | 0 <= j < |w0| :: !IsSpace(w0[j]);
      SplitSpacesOfWordThenRest(w0, rest);
      SplitSpacesOfJoin(words[1..]);
      assert [w0] + words[1..] == words;
    }
  }

  /** A space-free word, one space and a text that does not begin with white space split
      into the word and the pieces of the text. */
  lemma SplitSpacesOfWordThenRest(w0: string, rest: string)
    requires w0 != [] && forall j | 0 <= j < |w0| :: !IsSpace(w0[j])
    requires rest != [] && !IsSpace(rest[0])
    ensures SplitSpaces(w0 + " " + rest) == [w0] + SplitSpaces(rest)
  {
    var s := w0 + " " + rest;
    var n := |w0|;
    forall k | 0 <= k < n ensures NotSpace(s[k]) {
      assert s[k] == w0[k];
    }
    RunLengthExact(s, 0, NotSpace, n);
    assert s[n + 1] == rest[0];
    RunLengthExact(s, n, IsSpace, n + 1);
    assert s[n + 1..] == rest;
    assert s[..n] == w0;
    SplitSpacesStep(s, n, 1, rest);
  }

  /** A join of words whose first word is non-empty begins with that word. */
  lemma {:induction false} JoinStartsWithFirst(words: seq<string>, sep: string)
    requires |words| >= 1
    ensures |Join(words, sep)| >= |words[0]| && Join(words, sep)[..|words[0]|] == words[0]
  {
  }

  /** The decimal digits of `n`, as a template literal renders a count. */
  function DecimalString(n: nat): (r: string)
    ensures |r| >= 1
    ensures forall k | 0 <= k < |r| :: IsDigit(r[k])
    ensures |r| > 1 ==> r[0] != '0'
    decreases n
  {
    if n < 10 then [DigitChar(n)] else DecimalString(n / 10) + [DigitChar(n % 10)]
  }

  function DigitChar(d: nat): (c: char)
    requires d < 10
    ensures IsDigit(c) && (c as int) - ('0' as int) == d
  {
    (('0' as int) + d) as char
  }

  /** The value of a string of decimal digits. */
  function DecimalValue(s: string): nat
    requires forall k | 0 <= k < |s| :: IsDigit(s[k])
  {
    if s == [] then 0
    else
      assert IsDigit(s[|s| - 1]);
      10 * DecimalValue(s[..|s| - 1]) + ((s[|s| - 1] as int) - ('0' as int))
  }

  /** Reading back a rendered count gives the count. */
  lemma {:induction false} DecimalRoundTrip(n: nat)
    ensures DecimalValue(DecimalString(n)) == n
    decreases n
  {
    var r := DecimalString(n);
    if n >= 10 {
      DecimalRoundTrip(n / 10);
      assert r[..|r| - 1] == DecimalString(n / 10);
    }
  }
}
