// The GSSAPI initial-context token around an AP-REQ (MarshalAPReqToken in
// apreq.go; section 3.1 of RFC 2743), and the test's function that strips it.

module GssTokens {
  import opened GoStrings
  import opened DerLengths

  // Kerberos 5 mechanism OID, 1.2.840.113554.1.2.2, as a DER object identifier.
  const MECH_OID: seq<byte> := [0x06, 0x09, 0x2A, 0x86, 0x48, 0x86, 0xF7, 0x12, 0x01, 0x02, 0x02]
  const TOK_ID: seq<byte> := [0x01, 0x00]

  function Inner(apreq: seq<byte>): (r: seq<byte>)
    ensures |r| == 13 + |apreq|
  {
    MECH_OID + TOK_ID + apreq
  }

  function Frame(apreq: seq<byte>): seq<byte> { [0x60] + Encode(|Inner(apreq)|) + Inner(apreq) }

  // The lengths a Go slice can have.
  predicate FitsSlice(apreq: seq<byte>) { |Inner(apreq)| < TWO_63 }

  // The framing part of MarshalAPReqToken.
  method FrameToken(apreq: seq<byte>) returns (token: seq<byte>)
    requires FitsSlice(apreq)
    ensures token == Frame(apreq)
  {
    var inner: seq<byte> := [];
    inner := inner + MECH_OID;
    inner := inner + TOK_ID;
    inner := inner + apreq;
    token := [0x60];
    var length := DerLength(|inner| as int64);
    token := token + length;
    token := token + inner;
  }

  // The stripped bytes, a failed test, or an index out of range.
  datatype Stripped = Payload(bytes: seq<byte>) | Fatal | Panic

  function LengthFieldSize(first: byte): nat { if first < 0x80 then 1 else 1 + (first as nat - 0x80) }

  function StripFrom(tok: seq<byte>, i: nat): Stripped {
    if i >= |tok| then Panic
    else if tok[i] != 0x06 then Fatal
    else if i + 1 >= |tok| then Panic
    else
      var end := i + 2 + tok[i + 1] as nat + 2;
      if end > |tok| then Panic else Payload(tok[end..])
  }

  function Strip(tok: seq<byte>): Stripped {
    if tok == [] then Panic
    else if tok[0] != 0x60 then Fatal
    else if |tok| == 1 then Panic
    else StripFrom(tok, 1 + LengthFieldSize(tok[1]))
  }

  // stripGSSAPIInitialContextToken
  method StripToken(tok: seq<byte>) returns (r: Stripped)
    ensures r == Strip(tok)
  {
    if |tok| == 0 {
      return Panic;
    }
    if tok[0] != 0x60 {
      return Fatal;
    }
    var i := 1;
    if i >= |tok| {
      return Panic;
    }
    if tok[i] < 0x80 {
      i := i + 1;
    } else {
      var n := tok[i] as nat - 0x80;
      i := i + 1 + n;
    }
    if i >= |tok| {
      return Panic;
    }
    if tok[i] != 0x06 {
      return Fatal;
    }
    if i + 1 >= |tok| {
      return Panic;
    }
    var oidLen := tok[i + 1] as nat;
    i := i + 2 + oidLen;
    i := i + 2;
    if i > |tok| {
      return Panic;
    }
    return Payload(tok[i..]);
  }

  // Stripping gives back the payload, and the declared length is the number of
  // bytes that follow the length field.
  lemma StripFrame(apreq: seq<byte>)
    requires FitsSlice(apreq)
    ensures Strip(Frame(apreq)) == Payload(apreq)
    ensures var h := Read(Frame(apreq)[1..]); h.length == |Frame(apreq)| - 1 - h.used
  {
    var token, n := Frame(apreq), |Inner(apreq)|;
    var i := 1 + |Encode(n)|;
    ReadEncode(n, Inner(apreq));
    assert token[1..] == Encode(n) + Inner(apreq);
    IntBytes(n);
    assert token[1] == Encode(n)[0];
    assert i == 1 + LengthFieldSize(token[1]);
    assert token[i..] == Inner(apreq);
    assert token[i] == 0x06 && token[i + 1] == 0x09;
    assert token[i + 13..] == Inner(apreq)[13..] == apreq;
  }

  // The numbers in an object identifier's contents: base 128, the last byte of
  // each below 0x80 (section 8.19 of X.690).
  function Subidentifiers(content: seq<byte>, high: nat): seq<nat> {
    if content == [] then []
    else if content[0] < 0x80 then [high * 128 + content[0] as nat] + Subidentifiers(content[1..], 0)
    else Subidentifiers(content[1..], high * 128 + (content[0] as nat - 0x80))
  }

  // The first of them stands for the first two arcs.
  function Arcs(content: seq<byte>): seq<nat> {
    var ids := Subidentifiers(content, 0);
    if ids == [] then []
    else
      var top := if ids[0] < 80 then ids[0] / 40 else 2;
      [top, ids[0] - 40 * top] + ids[1..]
  }

  // 1.2.840.113554.1.2.2, the Kerberos 5 mechanism (section 4.1 of RFC 4121).
  const KERBEROS_5: seq<nat> := [1, 2, 840, 113554, 1, 2, 2]

  // An initial-context token around an AP-REQ, field by field.
  ghost predicate Layout(token: seq<byte>, length: seq<byte>, oid: seq<byte>, apreq: seq<byte>) {
    && token == [0x60] + length + [0x06, 0x09] + oid + [0x01, 0x00] + apreq
    && |oid| == 9 && Arcs(oid) == KERBEROS_5
    && IsShortestForm(length, 4 + |oid| + |apreq|)
  }

  ghost predicate IsShortestForm(h: seq<byte>, n: nat) {
    IsDefiniteForm(h, n) && forall other :: IsDefiniteForm(other, n) ==> |h| <= |other|
  }

  ghost predicate Encloses(token: seq<byte>, apreq: seq<byte>) {
    exists length, oid :: Layout(token, length, oid, apreq)
  }

  lemma OneDigit(a: byte, rest: seq<byte>, high: nat)
    ensures Subidentifiers([a] + rest, high)
         == if a < 0x80 then [high * 128 + a as nat] + Subidentifiers(rest, 0)
            else Subidentifiers(rest, high * 128 + (a as nat - 0x80))
  {
    assert ([a] + rest)[1..] == rest;
  }

  lemma TwoDigits(a: byte, b: byte, rest: seq<byte>, high: nat)
    requires a >= 0x80 > b
    ensures Subidentifiers([a, b] + rest, high)
         == [high * 16384 + (a as nat - 0x80) * 128 + b as nat] + Subidentifiers(rest, 0)
  {
    assert [a, b] + rest == [a] + ([b] + rest);
    OneDigit(a, [b] + rest, high);
    OneDigit(b, rest, high * 128 + (a as nat - 0x80));
  }

  lemma ThreeDigits(a: byte, b: byte, c: byte, rest: seq<byte>, s: seq<byte>)
    requires a >= 0x80 && b >= 0x80 > c && s == [a, b, c] + rest
    ensures Subidentifiers(s, 0)
         == [(a as nat - 0x80) * 16384 + (b as nat - 0x80) * 128 + c as nat] + Subidentifiers(rest, 0)
  {
    assert s == [a] + ([b, c] + rest);
    OneDigit(a, [b, c] + rest, 0);
    TwoDigits(b, c, rest, a as nat - 0x80);
  }

  lemma MechOidArcs()
    ensures Arcs(MECH_OID[2..]) == KERBEROS_5
  {
    var rest := MECH_OID[3..];
    LaterArcs(rest);
    OneDigit(0x2A, rest, 0);
    assert MECH_OID[2..] == [0x2A] + rest;
  }

  lemma LaterArcs(s: seq<byte>)
    requires s == [0x86, 0x48, 0x86, 0xF7, 0x12, 0x01, 0x02, 0x02]
    ensures Subidentifiers(s, 0) == [840, 113554, 1, 2, 2]
  {
    var middle, tail := s[2..], s[5..];
    LastArcs(tail);
    ThreeDigits(0x86, 0xF7, 0x12, tail, middle);
    TwoDigits(0x86, 0x48, middle, 0);
    assert s == [0x86, 0x48] + middle;
  }

  lemma LastArcs(tail: seq<byte>)
    requires tail == [0x01, 0x02, 0x02]
    ensures Subidentifiers(tail, 0) == [1, 2, 2]
  {
    assert tail[1..] == [0x02, 0x02] && tail[2..] == [0x02] && tail[3..] == [];
    OneDigit(0x01, tail[1..], 0);
    OneDigit(0x02, tail[2..], 0);
    OneDigit(0x02, tail[3..], 0);
    assert tail == [0x01] + tail[1..] && tail[1..] == [0x02] + tail[2..] && tail[2..] == [0x02] + tail[3..];
  }

  // A framed AP-REQ is laid out as the standard has it.
  lemma FrameEncloses(apreq: seq<byte>)
    requires FitsSlice(apreq)
    ensures Encloses(Frame(apreq), apreq)
  {
    var n := |Inner(apreq)|;
    var length, oid := Encode(n), MECH_OID[2..];
    MechOidArcs();
    forall other | IsDefiniteForm(other, n)
      ensures |length| <= |other|
    {
      UniqueShortest(other, n);
    }
    UniqueShortest(length, n);
    assert Frame(apreq) == [0x60] + length + [0x06, 0x09] + oid + [0x01, 0x00] + apreq;
    assert Layout(Frame(apreq), length, oid, apreq);
  }

  // What the test's function accepts: any object identifier of less than 256
  // bytes, any token id, and a length field of which only the size matters.
  predicate Strippable(token: seq<byte>, length: seq<byte>, oid: seq<byte>, id: seq<byte>, rest: seq<byte>) {
    && |oid| < 256 && |id| == 2
    && token == [0x60] + length + [0x06, |oid| as byte] + oid + id + rest
    && ((|length| == 1 && length[0] < 0x80) || (|length| > 0 && 0x80 <= length[0] as int == 0x7F + |length|))
  }

  lemma StripAcceptsExactly(token: seq<byte>, rest: seq<byte>)
    ensures Strip(token) == Payload(rest) <==> exists length, oid, id :: Strippable(token, length, oid, id, rest)
  {
    if Strip(token) == Payload(rest) {
      StripSplits(token, rest);
    }
    if length, oid, id :| Strippable(token, length, oid, id, rest) {
      StripOne(token, length, oid, id, rest);
    }
  }

  lemma StripSplits(token: seq<byte>, rest: seq<byte>)
    requires Strip(token) == Payload(rest)
    ensures exists length, oid, id :: Strippable(token, length, oid, id, rest)
  {
    var i := 1 + LengthFieldSize(token[1]);
    var end := i + 2 + token[i + 1] as nat;
    var length, oid, id := token[1..i], token[i + 2..end], token[end..end + 2];
    assert token == [0x60] + length + [0x06, |oid| as byte] + oid + id + rest;
    assert Strippable(token, length, oid, id, rest);
  }

  lemma StripOne(token: seq<byte>, length: seq<byte>, oid: seq<byte>, id: seq<byte>, rest: seq<byte>)
    requires Strippable(token, length, oid, id, rest)
    ensures Strip(token) == Payload(rest)
  {
    var i := 1 + |length|;
    assert token[1] == length[0] && i == 1 + LengthFieldSize(token[1]);
    assert token[i] == 0x06 && token[i + 1] == |oid| as byte;
    assert token[i + 2 + |oid| + 2..] == rest;
  }

  lemma FrameInjective(a: seq<byte>, b: seq<byte>)
    requires FitsSlice(a) && FitsSlice(b) && Frame(a) == Frame(b)
    ensures a == b
  {
    StripFrame(a);
    StripFrame(b);
  }
}
