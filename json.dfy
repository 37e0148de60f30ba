/** `JSON.stringify(value, null, 2)` for the values a contact batch is made of: strings,
    arrays and objects whose members keep their insertion order. The dry-run reply of the
    bulk import prints a batch this way (src/index.ts:3718-3724). */
module Json {
  import opened Wrappers
  import opened Text
  import opened Patterns
  import opened Contacts

  datatype Value = Str(s: string) | Arr(items: seq<Value>) | Obj(members: seq<(string, Value)>)

  // ---------------------------------------------------------------------------------------
  // Strings

  /** The characters a JSON string literal may not hold unescaped. */
  predicate NeedsEscape(c: char) {
    c == '"' || c == '\\' || c < ' '
  }

  /** A lower-case hexadecimal digit, as `\u` escapes are written. */
  function HexDigit(n: nat): (c: char)
    requires n < 16
    ensures '0' <= c <= '9' || 'a' <= c <= 'f'
  {
    if n < 10 then (('0' as int) + n) as char else (('a' as int) + n - 10) as char
  }

  /** The escape JSON.stringify writes for one character: the two-character forms for
      quote, backslash, backspace, tab, line feed, form feed and carriage return, `\u00xx`
      for the other control characters, and the character itself otherwise. */
  function EscapeChar(c: char): (r: string)
    ensures r == [c] <==> !NeedsEscape(c)
    ensures forall k | 0 <= k < |r| :: r[k] >= ' '
  {
    if c == '"' then "\\\""
    else if c == '\\' then "\\\\"
    else if c == (8 as char) then "\\b"
    else if c == '\t' then "\\t"
    else if c == '\n' then "\\n"
    else if c == (12 as char) then "\\f"
    else if c == '\r' then "\\r"
    else if c < ' ' then
      var n := c as int;
      "\\u00" + [HexDigit(n / 16), HexDigit(n % 16)]
    else [c]
  }

  /** The body of a string literal. It never holds a control character, so a string value
      never breaks a line of the output. */
  function Escape(s: string): (r: string)
    ensures forall k | 0 <= k < |r| :: r[k] >= ' '
    ensures (forall k | 0 <= k < |s| :: !NeedsEscape(s[k])) ==> r == s
  {
    if s == [] then []
    else
      var head := EscapeChar(s[0]);
      var tail := Escape(s[1..]);
      assert forall k | |head| <= k < |head| + |tail| :: (head + tail)[k] == tail[k - |head|];
      head + tail
  }

  /** A string literal. */
  function Quote(s: string): string
  {
    "\"" + Escape(s) + "\""
  }

  // ---------------------------------------------------------------------------------------
  // Reading a string literal's body back, as JSON.parse does

  function HexValue(c: char): Option<nat>
  {
    if '0' <= c <= '9' then Some(c as int - '0' as int)
    else if 'a' <= c <= 'f' then Some(c as int - 'a' as int + 10)
    else if 'A' <= c <= 'F' then Some(c as int - 'A' as int + 10)
    else None
  }

  /** The value of four hexadecimal digits. */
  function Hex4(t: string): (r: Option<nat>)
    requires |t| == 4
    ensures r.Some? ==> r.value < 0x10000
  {
    match (HexValue(t[0]), HexValue(t[1]), HexValue(t[2]), HexValue(t[3]))
    case (Some(a), Some(b), Some(c), Some(d)) =>
      if a < 16 && b < 16 && c < 16 && d < 16 then Some(((a * 16 + b) * 16 + c) * 16 + d) else None
    case _ => None
  }

  /** The character a two-character escape stands for. */
  function SimpleUnescape(c: char): Option<char>
  {
    if c == '"' then Some('"')
    else if c == '\\' then Some('\\')
    else if c == '/' then Some('/')
    else if c == 'b' then Some((8 as char))
    else if c == 'f' then Some((12 as char))
    else if c == 'n' then Some('\n')
    else if c == 'r' then Some('\r')
    else if c == 't' then Some('\t')
    else None
  }

  function Cons(c: char, rest: Option<string>): Option<string>
  {
    if rest.Some? then Some([c] + rest.value) else None
  }

  /** The characters a string literal's body denotes, or None when the body is not valid
      JSON (a raw quote or control character, or an unknown or incomplete escape). */
  function Unescape(t: string): Option<string>
    decreases |t|
  {
    if t == [] then Some([])
    else if t[0] == '"' || t[0] < ' ' then None
    else if t[0] != '\\' then Cons(t[0], Unescape(t[1..]))
    else if |t| < 2 then None
    else if t[1] == 'u' then
      if |t| >= 6 && Hex4(t[2..6]).Some? && !(0xD800 <= Hex4(t[2..6]).value < 0xE000) then
        Cons(Hex4(t[2..6]).value as char, Unescape(t[6..]))
      else None
    else if SimpleUnescape(t[1]).Some? then Cons(SimpleUnescape(t[1]).value, Unescape(t[2..]))
    else None
  }

  /** Reading back one escaped character. */
  lemma UnescapeChar(c: char, rest: string)
    ensures Unescape(EscapeChar(c) + rest) == Cons(c, Unescape(rest))
  {
    if c == '"' || c == '\\' || c == (8 as char) || c == '\t' || c == '\n' || c == (12 as char) || c == '\r' {
      UnescapeShort(c, rest);
    } else if c < ' ' {
      UnescapeHex(c, rest);
    } else {
      var t := EscapeChar(c) + rest;
      assert t[1..] == rest;
    }
  }

  lemma UnescapeShort(c: char, rest: string)
    requires c == '"' || c == '\\' || c == (8 as char) || c == '\t' || c == '\n' || c == (12 as char) || c == '\r'
    ensures Unescape(EscapeChar(c) + rest) == Cons(c, Unescape(rest))
  {
    var t := EscapeChar(c) + rest;
    assert |EscapeChar(c)| == 2 && t[0] == '\\';
    assert SimpleUnescape(t[1]) == Some(c);
    assert t[2..] == rest;
  }

  lemma UnescapeHex(c: char, rest: string)
    requires c < ' ' && c != (8 as char) && c != '\t' && c != '\n' && c != (12 as char) && c != '\r'
    ensures Unescape(EscapeChar(c) + rest) == Cons(c, Unescape(rest))
  {
    var n := c as int;
    var e := EscapeChar(c);
    assert e == "\\u00" + [HexDigit(n / 16), HexDigit(n % 16)];
    var t := e + rest;
    assert t[0] == '\\' && t[1] == 'u';
    assert t[2..6] == ['0', '0', HexDigit(n / 16), HexDigit(n % 16)];
    assert Hex4(t[2..6]) == Some(n);
    assert t[6..] == rest;
  }

  /** Reading back an escaped string gives the string: the escape loses nothing. */
  lemma {:induction false} UnescapeEscape(s: string)
    ensures Unescape(Escape(s)) == Some(s)
  {
    if s != [] {
      UnescapeEscape(s[1..]);
      UnescapeChar(s[0], Escape(s[1..]));
      assert [s[0]] + s[1..] == s;
    }
  }

  // ---------------------------------------------------------------------------------------
  // Values

  /** The indentation of a value nested `depth` levels deep: the gap "  " repeated. */
  function Indent(depth: nat): (r: string)
    ensures |r| == 2 * depth && forall k | 0 <= k < |r| :: r[k] == ' '
  {
    if depth == 0 then "" else "  " + Indent(depth - 1)
  }

  /** JSON.stringify with a gap of two spaces, for a value nested `depth` levels deep:
      an empty array or object is `[]` or `{}`; otherwise each element or member goes on a
      line of its own, indented one level deeper, separated by commas, and the closing
      bracket goes on a line indented like the value. A member is its quoted key, `: ` and
      its value. */
  function Stringify(v: Value, depth: nat): string
    decreases v, 1
  {
    match v
    case Str(s) => Quote(s)
    case Arr(items) =>
      if items == [] then "[]"
      else "[\n" + Indent(depth + 1) + Elements(v, depth, 0) + "\n" + Indent(depth) + "]"
    case Obj(members) =>
      if members == [] then "{}"
      else "{\n" + Indent(depth + 1) + Members(v, depth, 0) + "\n" + Indent(depth) + "}"
  }

  /** The elements of an array from index `k` on, each followed by the separator but the last. */
  function Elements(v: Value, depth: nat, k: nat): string
    requires v.Arr? && k < |v.items|
    decreases v, 0, |v.items| - k
  {
    assert v.items[k] in v.items;
    Stringify(v.items[k], depth + 1)
    + if k + 1 < |v.items| then ",\n" + Indent(depth + 1) + Elements(v, depth, k + 1) else ""
  }

  /** The members of an object from index `k` on. */
  function Members(v: Value, depth: nat, k: nat): string
    requires v.Obj? && k < |v.members|
    decreases v, 0, |v.members| - k
  {
    assert v.members[k] in v.members;
    Quote(v.members[k].0) + ": " + Stringify(v.members[k].1, depth + 1)
    + if k + 1 < |v.members| then ",\n" + Indent(depth + 1) + Members(v, depth, k + 1) else ""
  }

  // ---------------------------------------------------------------------------------------
  // Contacts as JSON values

  /** The attributes object, its keys in the order the extractor assigns them. */
  function AttributesValue(a: Attributes): Value
  {
    Obj((if a.firstName.Some? then [("FIRSTNAME", Str(a.firstName.value))] else [])
      + (if a.lastName.Some? then [("LASTNAME", Str(a.lastName.value))] else [])
      + (if a.sms.Some? then [("SMS", Str(a.sms.value))] else [])
      + (if a.company.Some? then [("COMPANY", Str(a.company.value))] else []))
  }

  /** A contact object: `email` first, then `attributes` when present. */
  function ContactValue(c: Contact): Value
  {
    Obj([(EmailKey, Str(c.email))]
      + if c.attributes.Some? then [("attributes", AttributesValue(c.attributes.value))] else [])
  }

  /** The array of contact objects. */
  function BatchValue(contacts: seq<Contact>): Value
  {
    Arr(seq(|contacts|, i requires 0 <= i < |contacts| => ContactValue(contacts[i])))
  }

  /** `JSON.stringify(contacts, null, 2)`. */
  function BatchText(contacts: seq<Contact>): string
  {
    Stringify(BatchValue(contacts), 0)
  }

  // ---------------------------------------------------------------------------------------
  // Where the emails end up

  /** `t` occurs in `s` at position `k`. */
  predicate OccursAt(t: string, s: string, k: nat) {
    k + |t| <= |s| && s[k..k + |t|] == t
  }

  /** `t` occurs in `s` at some position. */
  ghost predicate Occurs(t: string, s: string) {
    exists k: nat | k <= |s| :: OccursAt(t, s, k)
  }

  lemma OccursInside(t: string, x: string, s: string, y: string)
    requires Occurs(t, s)
    ensures Occurs(t, x + s + y)
  {
    var k: nat :| OccursAt(t, s, k);
    assert OccursAt(t, s, k);
    var w := x + s + y;
    assert w[|x| + k..|x| + k + |t|] == s[k..k + |t|];
    assert OccursAt(t, w, |x| + k);
  }

  lemma OccursSelf(t: string)
    ensures Occurs(t, t)
  {
    assert t[0..|t|] == t;
    assert OccursAt(t, t, 0);
  }

  lemma OccursStart(t: string, y: string)
    ensures Occurs(t, t + y)
  {
    assert (t + y)[0..|t|] == t;
    assert OccursAt(t, t + y, 0);
  }

  lemma OccursTrans(t: string, s: string, u: string)
    requires Occurs(t, s) && Occurs(s, u)
    ensures Occurs(t, u)
  {
    var k: nat :| OccursAt(t, s, k);
    var l: nat :| OccursAt(s, u, l);
    assert OccursAt(t, s, k) && OccursAt(s, u, l);
    SliceOfSlice(u, l, |s|, k, |t|);
    assert OccursAt(t, u, l + k);
  }

  lemma SliceOfSlice(u: string, l: nat, m: nat, k: nat, n: nat)
    requires l + m <= |u| && k + n <= m
    ensures u[l..l + m][k..k + n] == u[l + k..l + k + n]
  {
    var a := u[l..l + m][k..k + n];
    var b := u[l + k..l + k + n];
    forall j | 0 <= j < n ensures a[j] == b[j] {
      assert a[j] == u[l..l + m][k + j];
    }
  }

  /** The key of a contact's address. */
  const EmailKey := "email"

  /** The member `"email": <the quoted address>`. */
  function EmailMember(email: string): string
  {
    Quote(EmailKey) + ": " + Quote(email)
  }

  /** The text of a non-empty array holds the text of its elements. */
  lemma ArrayHoldsElements(v: Value, depth: nat)
    requires v.Arr? && v.items != []
    ensures Occurs(Elements(v, depth, 0), Stringify(v, depth))
  {
    var e := Elements(v, depth, 0);
    assert Stringify(v, depth) == ("[\n" + Indent(depth + 1)) + e + ("\n" + Indent(depth) + "]");
    OccursSelf(e);
    OccursInside(e, "[\n" + Indent(depth + 1), e, "\n" + Indent(depth) + "]");
  }

  /** The text of a non-empty object holds the text of its members. */
  lemma ObjectHoldsMembers(v: Value, depth: nat)
    requires v.Obj? && v.members != []
    ensures Occurs(Members(v, depth, 0), Stringify(v, depth))
  {
    var m := Members(v, depth, 0);
    assert Stringify(v, depth) == ("{\n" + Indent(depth + 1)) + m + ("\n" + Indent(depth) + "}");
    OccursSelf(m);
    OccursInside(m, "{\n" + Indent(depth + 1), m, "\n" + Indent(depth) + "}");
  }

  /** An object's members begin with its first member, key and value. */
  lemma MembersHoldFirst(v: Value, depth: nat)
    requires v.Obj? && v.members != []
    ensures Occurs(Quote(v.members[0].0) + ": " + Stringify(v.members[0].1, depth + 1), Members(v, depth, 0))
  {
    var m := Quote(v.members[0].0) + ": " + Stringify(v.members[0].1, depth + 1);
    var tail := if 1 < |v.members| then ",\n" + Indent(depth + 1) + Members(v, depth, 1) else "";
    assert Members(v, depth, 0) == m + tail;
    OccursStart(m, tail);
  }

  /** A contact's text holds its email member. */
  lemma ContactTextHasEmail(c: Contact, depth: nat)
    ensures Occurs(EmailMember(c.email), Stringify(ContactValue(c), depth))
  {
    var v := ContactValue(c);
    assert Stringify(Str(c.email), depth + 1) == Quote(c.email);
    MembersHoldFirst(v, depth);
    ObjectHoldsMembers(v, depth);
    OccursTrans(EmailMember(c.email), Members(v, depth, 0), Stringify(v, depth));
  }

  /** An array's text from element `k` on begins with element `k`. */
  lemma ElementsHoldFirst(v: Value, depth: nat, k: nat)
    requires v.Arr? && k < |v.items|
    ensures Occurs(Stringify(v.items[k], depth + 1), Elements(v, depth, k))
  {
    var e := Stringify(v.items[k], depth + 1);
    var tail := if k + 1 < |v.items| then ",\n" + Indent(depth + 1) + Elements(v, depth, k + 1) else "";
    assert Elements(v, depth, k) == e + tail;
    OccursStart(e, tail);
  }

  /** An array's text from element `k` on holds its text from element `k + 1` on. */
  lemma ElementsHoldRest(v: Value, depth: nat, k: nat)
    requires v.Arr? && k + 1 < |v.items|
    ensures Occurs(Elements(v, depth, k + 1), Elements(v, depth, k))
  {
    var rest := Elements(v, depth, k + 1);
    var head := Stringify(v.items[k], depth + 1) + ",\n" + Indent(depth + 1);
    assert Elements(v, depth, k) == head + rest + [];
    OccursSelf(rest);
    OccursInside(rest, head, rest, []);
  }

  /** Each element from index `k` on is written out inside the rest of the array. */
  lemma {:induction false} ElementsHold(v: Value, depth: nat, k: nat, i: nat)
    requires v.Arr? && k <= i < |v.items|
    ensures Occurs(Stringify(v.items[i], depth + 1), Elements(v, depth, k))
    decreases |v.items| - k
  {
    if i == k {
      ElementsHoldFirst(v, depth, k);
    } else {
      ElementsHold(v, depth, k + 1, i);
      ElementsHoldRest(v, depth, k);
      OccursTrans(Stringify(v.items[i], depth + 1), Elements(v, depth, k + 1), Elements(v, depth, k));
    }
  }

  /** The printed batch holds the text of every contact, one level deep. */
  lemma BatchHoldsContact(contacts: seq<Contact>, i: nat)
    requires i < |contacts|
    ensures Occurs(Stringify(ContactValue(contacts[i]), 1), BatchText(contacts))
  {
    var v := BatchValue(contacts);
    ElementsHold(v, 0, 0, i);
    ArrayHoldsElements(v, 0);
    OccursTrans(Stringify(v.items[i], 1), Elements(v, 0, 0), Stringify(v, 0));
  }

  /** The printed batch holds, for every contact, its email member. */
  lemma BatchTextHasEveryEmail(contacts: seq<Contact>, i: nat)
    requires i < |contacts|
    ensures Occurs(EmailMember(contacts[i].email), BatchText(contacts))
  {
    ContactTextHasEmail(contacts[i], 1);
    BatchHoldsContact(contacts, i);
    OccursTrans(EmailMember(contacts[i].email), Stringify(ContactValue(contacts[i]), 1), BatchText(contacts));
  }

  /** An address the email expression accepts holds only characters that need no escaping. */
  lemma EmailShapeIsPlain(line: string, i: nat, a: nat, d: nat, j: nat)
    requires EmailShape(line, i, a, d, j)
    ensures forall m | i <= m < j :: !NeedsEscape(line[m])
  {
    forall m | i <= m < j ensures !NeedsEscape(line[m]) {
      if m < a {
        assert IsLocalChar(line[m]);
      } else if a < m < d {
        assert IsDomainChar(line[m]);
      } else if d < m {
        assert IsLetter(line[m]);
      }
    }
  }

  /** The leftmost address of a line needs no escaping. */
  lemma FirstEmailIsPlain(line: string)
    requires FirstEmail(line).Some?
    ensures forall k | 0 <= k < |FirstEmail(line).value| :: !NeedsEscape(FirstEmail(line).value[k])
  {
    var i := Search(EmailAt, line, 0).value;
    var j := EmailAt(line, i).value.end;
    EmailAtSound(line, i);
    var a: nat, d: nat :| EmailShape(line, i, a, d, j);
    EmailShapeIsPlain(line, i, a, d, j);
    assert FirstEmail(line).value == line[i..j];
  }

  /** An address that needs no escaping is written between quotes exactly as it stands:
      the member reads `"email": "<address>"`. */
  lemma PlainEmailMember(email: string)
    requires forall k | 0 <= k < |email| :: !NeedsEscape(email[k])
    ensures EmailMember(email) == Quote(EmailKey) + ": " + ("\"" + email + "\"")
  {
    QuotePlain(email);
  }

  /** A string without special characters is quoted as it stands. */
  lemma QuotePlain(s: string)
    requires forall k | 0 <= k < |s| :: !NeedsEscape(s[k])
    ensures Quote(s) == "\"" + s + "\""
  {
  }
}
