/** A reference serialiser for the flat JSON objects the QR payload imitates:
    members whose values are strings or integers, written as in RFC 8259
    (section 4 for objects, section 6 for numbers, section 7 for strings). */
module Json {
  import opened Strings

  datatype Scalar = JString(s: string) | JNumber(n: int)

  /** Section 7 of RFC 8259: the quotation mark, the reverse solidus and the
      control characters U+0000 to U+001F must be escaped inside a string. */
  predicate MustEscape(c: char)
  {
    c == '"' || c == '\\' || (c as int) < 0x20
  }

  predicate NeedsNoEscaping(s: string)
  {
    forall i :: 0 <= i < |s| ==> !MustEscape(s[i])
  }

  function HexDigit(d: int): (c: char)
    requires 0 <= d < 16
  {
    if d < 10 then ('0' as int + d) as char else ('a' as int + d - 10) as char
  }

  /** One character as it appears inside a string: two-character escapes for the
      quotation mark and the reverse solidus, `\u00XX` for a control character. */
  function EscapeChar(c: char): (r: string)
    ensures MustEscape(c) ==> |r| > 1
    ensures !MustEscape(c) ==> r == [c]
  {
    if c == '"' then "\\\""
    else if c == '\\' then "\\\\"
    else if (c as int) < 0x20 then "\\u00" + [HexDigit(c as int / 16), HexDigit(c as int % 16)]
    else [c]
  }

  /** Every character escaped as `EscapeChar` writes it. */
  function EscapeEach(s: string): (r: string)
    ensures |r| >= |s|
    ensures !NeedsNoEscaping(s) ==> |r| > |s|
  {
    if s == [] then []
    else
      var r := EscapeChar(s[0]) + EscapeEach(s[1..]);
      assert !NeedsNoEscaping(s) ==> MustEscape(s[0]) || !NeedsNoEscaping(s[1..]) by {
        if !NeedsNoEscaping(s) && !MustEscape(s[0]) {
          var i :| 0 <= i < |s| && MustEscape(s[i]);
          assert s[1..][i - 1] == s[i];
        }
      }
      r
  }

  /** A string's contents as written between quotes: unchanged when nothing in it
      must be escaped, escaped character by character otherwise. */
  function Escape(s: string): (r: string)
  {
    if NeedsNoEscaping(s) then s else EscapeEach(s)
  }

  /** Escaping changes a string exactly when one of its characters must be escaped. */
  lemma EscapeIsIdentityIff(s: string)
    ensures Escape(s) == s <==> NeedsNoEscaping(s)
    ensures |Escape(s)| >= |s|
    ensures !NeedsNoEscaping(s) ==> |Escape(s)| > |s|
  {
  }

  /** The shortcut for strings with nothing to escape agrees with escaping each
      character. */
  lemma {:induction false} EscapeEachOfSafe(s: string)
    requires NeedsNoEscaping(s)
    ensures EscapeEach(s) == s
  {
    if s != [] {
      assert NeedsNoEscaping(s[1..]) by {
        forall i | 0 <= i < |s[1..]| ensures !MustEscape(s[1..][i]) {
          assert s[1..][i] == s[i + 1];
        }
      }
      EscapeEachOfSafe(s[1..]);
      assert EscapeEach(s) == [s[0]] + s[1..];
    }
  }

  function Quoted(s: string): string
  {
    "\"" + Escape(s) + "\""
  }

  function ScalarText(v: Scalar): string
  {
    match v
    case JString(s) => Quoted(s)
    case JNumber(n) => IntToString(n)
  }

  function MemberText(name: string, v: Scalar): string
  {
    Quoted(name) + ":" + ScalarText(v)
  }

  /** The members separated by commas. */
  function Members(ms: seq<(string, Scalar)>): string
  {
    if |ms| == 0 then ""
    else if |ms| == 1 then MemberText(ms[0].0, ms[0].1)
    else MemberText(ms[0].0, ms[0].1) + "," + Members(ms[1..])
  }

  /** An object: its members between braces. */
  function ObjectText(ms: seq<(string, Scalar)>): string
  {
    "{" + Members(ms) + "}"
  }

  /** A string with nothing to escape is written between quotes as it is. */
  lemma QuotedAsIs(s: string)
    requires NeedsNoEscaping(s)
    ensures Quoted(s) == "\"" + s + "\""
  {
    EscapeIsIdentityIff(s);
  }

  /** Regrouping three members between braces. */
  lemma Braced3(a: string, b: string, c: string)
    ensures "{" + (a + "," + (b + "," + c)) + "}" == "{" + a + "," + b + "," + c + "}"
  {
  }

  /** An object of three members, written out. */
  lemma ThreeMembers(ms: seq<(string, Scalar)>)
    requires |ms| == 3
    ensures ObjectText(ms) ==
      "{" + MemberText(ms[0].0, ms[0].1) + "," + MemberText(ms[1].0, ms[1].1) + "," + MemberText(ms[2].0, ms[2].1) + "}"
  {
    var m0, m1, m2 := MemberText(ms[0].0, ms[0].1), MemberText(ms[1].0, ms[1].1), MemberText(ms[2].0, ms[2].1);
    var rest := ms[1..];
    assert rest[1..] == [ms[2]];
    assert Members(rest[1..]) == m2;
    assert Members(rest) == m1 + "," + m2;
    assert Members(ms) == m0 + "," + (m1 + "," + m2);
    Braced3(m0, m1, m2);
  }
}
