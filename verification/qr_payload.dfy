/** `QRCodeService.GenerateAttendanceQRData`: the text encoded in a session's QR
    image. It is assembled by string interpolation, with the code embedded
    verbatim. The image itself is not part of this model. */
module QRPayload {
  import opened Base
  import opened Strings
  import opened Json

  const Prefix: string := "{\"type\":\"attendance\",\"sessionId\":"
  const Middle: string := ",\"code\":\""
  const Suffix: string := "\"}"

  /** The payload: the fixed prefix, the decimal session id, the code's member
      name, the code and the closing quote and brace. */
  function AttendanceQRData(sessionId: int, code: string): (r: string)
    ensures |r| == 44 + |IntToString(sessionId)| + |code|
  {
    Prefix + IntToString(sessionId) + Middle + code + Suffix
  }

  /** The position of the first comma, or |s| when there is none. */
  function FirstComma(s: string): (k: nat)
    ensures k <= |s|
    ensures k < |s| ==> s[k] == ','
    ensures forall i :: 0 <= i < k ==> s[i] != ','
  {
    if s == [] || s[0] == ',' then 0 else 1 + FirstComma(s[1..])
  }

  /** Reading a payload back: strip the prefix and the suffix, split at the first
      comma into the decimal id and the code's member. */
  function ParseQRData(p: string): (r: Option<(int, string)>)
  {
    if |p| < |Prefix| + |Suffix| || p[..|Prefix|] != Prefix || p[|p| - |Suffix|..] != Suffix then None
    else
      var body := p[|Prefix|..|p| - |Suffix|];
      var k := FirstComma(body);
      var rest := body[k..];
      if |rest| < |Middle| || rest[..|Middle|] != Middle then None
      else
        match ParseInt(body[..k])
        case None => None
        case Some(id) => Some((id, rest[|Middle|..]))
  }

  /** A comma-free text followed by a comma: the first comma is right after it. */
  lemma {:induction false} FirstCommaAfter(s: string, t: string)
    requires forall i :: 0 <= i < |s| ==> s[i] != ','
    requires |t| > 0 && t[0] == ','
    ensures FirstComma(s + t) == |s|
  {
    if s != [] {
      assert (s + t)[1..] == s[1..] + t;
      FirstCommaAfter(s[1..], t);
    } else {
      assert s + t == t;
    }
  }

  /** Every payload reads back as the session id and code it was made from, the
      code being whatever follows the first comma's member name, commas included. */
  lemma ParseQRDataRoundTrip(sessionId: int, code: string)
    ensures ParseQRData(AttendanceQRData(sessionId, code)) == Some((sessionId, code))
  {
    var n := IntToString(sessionId);
    var p := AttendanceQRData(sessionId, code);
    assert p == Prefix + (n + Middle + code) + Suffix;
    var body := p[|Prefix|..|p| - |Suffix|];
    assert body == n + (Middle + code);
    assert p[..|Prefix|] == Prefix;
    assert p[|p| - |Suffix|..] == Suffix;
    forall i | 0 <= i < |n| ensures n[i] != ',' {
      if i == 0 && n[0] == '-' {} else { assert IsDigit(n[i]); }
    }
    FirstCommaAfter(n, Middle + code);
    assert body[..|n|] == n;
    assert body[|n|..] == Middle + code;
    IntToStringRoundTrip(sessionId);
    assert (Middle + code)[|Middle|..] == code;
  }

  /** Different sessions or codes never share a payload. */
  lemma QRDataInjective(id1: int, code1: string, id2: int, code2: string)
    requires AttendanceQRData(id1, code1) == AttendanceQRData(id2, code2)
    ensures id1 == id2 && code1 == code2
  {
    ParseQRDataRoundTrip(id1, code1);
    ParseQRDataRoundTrip(id2, code2);
  }

  /** The JSON object (section 4 of RFC 8259) the payload is meant to be. */
  function IntendedObject(sessionId: int, code: string): string
  {
    ObjectText([("type", JString("attendance")), ("sessionId", JNumber(sessionId)), ("code", JString(code))])
  }

  /** The fixed parts of the payload, spelled as the JSON members they are meant to be. */
  lemma FixedPartsSpelledOut()
    ensures Prefix == "{" + ("\"" + "type" + "\"") + ":" + ("\"" + "attendance" + "\"") + "," + ("\"" + "sessionId" + "\"") + ":"
    ensures Middle == "," + ("\"" + "code" + "\"") + ":" + "\""
    ensures Suffix == "\"" + "}"
  {
  }

  /** The member names and the type tag have nothing to escape. */
  lemma FixedNamesNeedNoEscaping()
    ensures NeedsNoEscaping("type") && NeedsNoEscaping("attendance")
    ensures NeedsNoEscaping("sessionId") && NeedsNoEscaping("code")
  {
  }

  /** Regrouping the object's pieces into the payload's pieces. */
  lemma Regroup(qt: string, qa: string, qs: string, qc: string, n: string, e: string)
    ensures "{" + (qt + ":" + qa) + "," + (qs + ":" + n) + "," + (qc + ":" + ("\"" + e + "\"")) + "}"
            == ("{" + qt + ":" + qa + "," + qs + ":") + n + ("," + qc + ":" + "\"") + e + ("\"" + "}")
  {
  }

  /** The payload is that JSON object exactly when the code needs no escaping
      under section 7 of RFC 8259, because the code is embedded verbatim. */
  lemma QRDataIsJsonIff(sessionId: int, code: string)
    ensures AttendanceQRData(sessionId, code) == IntendedObject(sessionId, code) <==> NeedsNoEscaping(code)
  {
    var n := IntToString(sessionId);
    var e := Escape(code);
    var json := IntendedObject(sessionId, code);
    var ms := [("type", JString("attendance")), ("sessionId", JNumber(sessionId)), ("code", JString(code))];
    ThreeMembers(ms);
    FixedNamesNeedNoEscaping();
    var qt, qa, qs, qc := "\"" + "type" + "\"", "\"" + "attendance" + "\"", "\"" + "sessionId" + "\"", "\"" + "code" + "\"";
    assert MemberText("type", JString("attendance")) == qt + ":" + qa;
    assert MemberText("sessionId", JNumber(sessionId)) == qs + ":" + n;
    assert MemberText("code", JString(code)) == qc + ":" + ("\"" + e + "\"");
    Regroup(qt, qa, qs, qc, n, e);
    FixedPartsSpelledOut();
    var head := Prefix + n + Middle;
    assert json == head + e + Suffix;
    EscapeIsIdentityIff(code);
    if AttendanceQRData(sessionId, code) == json {
      assert |e| == |code|;
      assert (head + code + Suffix)[|head|..|head| + |code|] == code;
      assert (head + e + Suffix)[|head|..|head| + |code|] == e;
    }
  }

  predicate IsLowerHexDigit(c: char)
  {
    '0' <= c <= '9' || 'a' <= c <= 'f'
  }

  /** `Guid.ToString()`: 32 lower-case hexadecimal digits in groups of 8-4-4-4-12
      separated by hyphens. */
  predicate IsGuidString(s: string)
  {
    && |s| == 36
    && forall i :: 0 <= i < 36 ==>
         if i == 8 || i == 13 || i == 18 || i == 23 then s[i] == '-' else IsLowerHexDigit(s[i])
  }

  /** A session code is a GUID string, so its payload is the intended JSON object
      and is 80 characters longer than its decimal id. */
  lemma GuidPayloadIsJson(sessionId: int, code: string)
    requires IsGuidString(code)
    ensures AttendanceQRData(sessionId, code) == IntendedObject(sessionId, code)
    ensures |AttendanceQRData(sessionId, code)| == 80 + |IntToString(sessionId)|
  {
    assert NeedsNoEscaping(code) by {
      forall i | 0 <= i < |code| ensures !MustEscape(code[i]) {
        assert i < 36;
      }
    }
    QRDataIsJsonIff(sessionId, code);
  }
}
