/** The Authentication Response (section 8.2.2 of TS 24.501). */
module NasAuthentication {
  import opened Text
  import opened Octets
  import opened NasBase

  /** RES*, behind any number of EAP messages; none when it is missing or cut short. */
  function ReadResStar(d: Bytes): Option<Bytes>
    decreases |d|
  {
    if d == [] then None
    else if d[0] == 0x2D then
      if |d| < 2 || 2 + ByteValue(d[1]) > |d| then None else Some(d[2..2 + ByteValue(d[1])])
    else if d[0] == 0x78 then
      if |d| < 3 then None else ReadResStar(Skip(d, 3 + Len16(d[1], d[2])))
    else None
  }

  function ReadAuthenticationResponse(data: Bytes): Option<Bytes> {
    if |data| < 3 || data[0] != EPD_5GMM || data[2] != AUTHENTICATION_RESPONSE then None else ReadResStar(data[3..])
  }

  lemma {:induction false} ReadResStarAt(data: Bytes, offset: nat)
    requires offset < |data|
    ensures ReadResStar(Rest(data, offset)) ==
            if data[offset] == 0x2D then
              if offset + 1 >= |data| || offset + 2 + ByteValue(data[offset + 1]) > |data| then None
              else Some(data[offset + 2..offset + 2 + ByteValue(data[offset + 1])])
            else if data[offset] == 0x78 then
              if offset + 3 > |data| then None
              else ReadResStar(Rest(data, offset + 3 + Len16(data[offset + 1], data[offset + 2])))
            else None
  {
    hide ByteValue, Len16, Skip;
    var d := Rest(data, offset);
    assert |d| == |data| - offset && d[0] == data[offset];
    assert |d| >= 2 ==> d[1] == data[offset + 1];
    assert |d| >= 3 ==> d[2] == data[offset + 2];
    if data[offset] == 0x2D {
      if |d| >= 2 && 2 + ByteValue(d[1]) <= |d| {
        SliceOfRest(data, offset, 2, 2 + ByteValue(d[1]));
      }
      hide Rest;
    } else if data[offset] == 0x78 {
      if |d| >= 3 {
        SkipOfRest(data, offset, 3 + Len16(d[1], d[2]));
      }
      hide Rest;
    }
  }

  method DecodeAuthenticationResponse(data: Bytes) returns (res: Option<Bytes>)
    ensures res == ReadAuthenticationResponse(data)
  {
    hide ByteValue, Len16, ReadResStar;
    if |data| < 3 {
      return None;
    }
    if data[0] != EPD_5GMM {
      return None;
    }
    if data[2] != AUTHENTICATION_RESPONSE {
      return None;
    }
    var offset := 3;
    while offset < |data|
      invariant 3 <= offset
      invariant ReadResStar(data[3..]) == ReadResStar(Rest(data, offset))
      decreases |data| - offset
    {
      ReadResStarAt(data, offset);
      var iei := data[offset];
      if iei == 0x2D {
        offset := offset + 1;
        if offset >= |data| {
          return None;
        }
        var paramLen := ByteValue(data[offset]);
        offset := offset + 1;
        if offset + paramLen > |data| {
          return None;
        }
        return Some(data[offset..offset + paramLen]);
      } else if iei == 0x78 {
        offset := offset + 1;
        if offset + 2 > |data| {
          return None;
        }
        var eapLen := Len16(data[offset], data[offset + 1]);
        offset := offset + 2 + eapLen;
      } else {
        return None;
      }
    }
    assert Rest(data, offset) == [];
    ReadResStarEnd();
    return None;
  }

  lemma ReadResStarEnd()
    ensures ReadResStar([]) == None
  {
  }

  ghost predicate EapMessages(eaps: seq<Bytes>) { forall i :: 0 <= i < |eaps| ==> |eaps[i]| < 65536 }

  function WriteEap(eap: Bytes): Bytes
    requires |eap| < 65536
  {
    [0x78, (|eap| / 256) as bv8, (|eap| % 256) as bv8] + eap
  }

  function WriteResponse(eaps: seq<Bytes>, res: Bytes, rest: Bytes): Bytes
    requires EapMessages(eaps) && |res| < 256
  {
    if eaps == [] then [0x2D, |res| as bv8] + res + rest else WriteEap(eaps[0]) + WriteResponse(eaps[1..], res, rest)
  }

  lemma {:induction false} ReadOneEap(eap: Bytes, rest: Bytes)
    requires |eap| < 65536
    ensures ReadResStar(WriteEap(eap) + rest) == ReadResStar(rest)
  {
    var d := WriteEap(eap) + rest;
    ByteValueOf(|eap| / 256);
    ByteValueOf(|eap| % 256);
    hide ByteValue;
    assert d[0] == 0x78 && Len16(d[1], d[2]) == |eap|;
    hide Len16;
    assert d[3 + |eap|..] == rest;
  }

  lemma {:induction false} ReadParameter(res: Bytes, rest: Bytes)
    requires |res| < 256
    ensures ReadResStar([0x2D, |res| as bv8] + res + rest) == Some(res)
  {
    var d := [0x2D, |res| as bv8] + res + rest;
    ByteValueOf(|res|);
    hide ByteValue;
    assert d[1] == |res| as bv8 && d[2..2 + |res|] == res;
  }

  /** RES* is recovered from behind any EAP messages and in front of anything. */
  lemma {:induction false} ResStarDecoded(eaps: seq<Bytes>, res: Bytes, rest: Bytes)
    requires EapMessages(eaps) && |res| < 256
    ensures ReadResStar(WriteResponse(eaps, res, rest)) == Some(res)
    decreases |eaps|
  {
    hide ReadResStar, WriteEap;
    if eaps == [] {
      ReadParameter(res, rest);
    } else {
      ResStarDecoded(eaps[1..], res, rest);
      ReadOneEap(eaps[0], WriteResponse(eaps[1..], res, rest));
    }
  }

  // ---- arbitrary bytes ---------------------------------------------------------------------------------

  lemma WrittenEap(eap: Bytes, hi: bv8, lo: bv8)
    requires |eap| == Len16(hi, lo)
    ensures |eap| < 65536 && WriteEap(eap) == [0x78, hi, lo] + eap
  {
    SameByte(hi);
    SameByte(lo);
    assert Len16(hi, lo) / 256 == ByteValue(hi) && Len16(hi, lo) % 256 == ByteValue(lo);
    hide ByteValue;
  }

  lemma WrittenParameter(res: Bytes, b: bv8, rest: Bytes)
    requires |res| == ByteValue(b)
    ensures WriteResponse([], res, rest) == [0x2D, b] + res + rest
  {
    SameByte(b);
    hide ByteValue;
  }

  lemma EapFits(d: Bytes)
    requires d != [] && d[0] == 0x78 && ReadResStar(d).Some?
    ensures |d| >= 3 && 3 + Len16(d[1], d[2]) <= |d| && ReadResStar(d[3 + Len16(d[1], d[2])..]) == ReadResStar(d)
  {
    hide Len16;
    ReadResStarEnd();
    assert ReadResStar(d) == ReadResStar(Skip(d, 3 + Len16(d[1], d[2])));
    hide ReadResStar;
  }

  /** The EAP message in front, when what follows it has a response. */
  lemma FirstEap(d: Bytes) returns (eap: Bytes, rest: Bytes)
    requires d != [] && d[0] == 0x78 && ReadResStar(d).Some?
    ensures |eap| < 65536 && d == WriteEap(eap) + rest && ReadResStar(rest) == ReadResStar(d) && |rest| < |d|
  {
    hide Len16, WriteEap, ReadResStar;
    EapFits(d);
    var n := Len16(d[1], d[2]);
    eap, rest := d[3..3 + n], d[3 + n..];
    WrittenEap(eap, d[1], d[2]);
    InThree(d, 3, 3 + n);
    assert d[..3] == [d[0], d[1], d[2]];
  }

  /** The response parameter in front. */
  lemma FirstParameter(d: Bytes) returns (res: Bytes, rest: Bytes)
    requires d != [] && d[0] == 0x2D && ReadResStar(d).Some?
    ensures |res| < 256 && d == WriteResponse([], res, rest) && ReadResStar(d) == Some(res)
  {
    hide ByteValue, WriteResponse;
    var n := ByteValue(d[1]);
    res, rest := d[2..2 + n], d[2 + n..];
    WrittenParameter(res, d[1], rest);
    InThree(d, 2, 2 + n);
    assert d[..2] == [d[0], d[1]];
  }

  /** Whatever yields a response is a row of EAP messages, then a response parameter, then anything. */
  lemma {:induction false} ResponseOnBytes(d: Bytes) returns (eaps: seq<Bytes>, res: Bytes, rest: Bytes)
    requires ReadResStar(d).Some?
    ensures EapMessages(eaps) && |res| < 256 && d == WriteResponse(eaps, res, rest) && ReadResStar(d) == Some(res)
    decreases |d|
  {
    hide WriteEap;
    if d[0] == 0x2D {
      res, rest := FirstParameter(d);
      eaps := [];
    } else {
      var eap, tail := FirstEap(d);
      hide ReadResStar;
      var more: seq<Bytes>;
      more, res, rest := ResponseOnBytes(tail);
      eaps := [eap] + more;
      assert eaps[1..] == more;
    }
  }

  /** A message is accepted if and only if it is a 5GMM Authentication Response, in any security header octet, in which EAP
      messages are followed by a complete response parameter; RES* is the value of that parameter. */
  lemma AuthenticationResponseIff(data: Bytes, resStar: Bytes)
    ensures ReadAuthenticationResponse(data) == Some(resStar) <==>
            && |data| >= 3 && data[0] == 0x7E && data[2] == 0x57
            && exists eaps, rest :: EapMessages(eaps) && |resStar| < 256 && data[3..] == WriteResponse(eaps, resStar, rest)
  {
    hide ReadResStar, WriteResponse;
    if ReadAuthenticationResponse(data) == Some(resStar) {
      var eaps, res, rest := ResponseOnBytes(data[3..]);
    }
    if |data| >= 3 && data[0] == 0x7E && data[2] == 0x57 {
      forall eaps, rest | EapMessages(eaps) && |resStar| < 256 && data[3..] == WriteResponse(eaps, resStar, rest)
        ensures ReadAuthenticationResponse(data) == Some(resStar)
      {
        ResStarDecoded(eaps, resStar, rest);
      }
    }
  }
}
