/** Mobile identities and the Registration Request that carries them (sections 8.2.6 and 9.11.3.4 of TS 24.501). */
module NasIdentity {
  import opened Text
  import opened Octets
  import opened NasBase
  import opened NasNssai

  // ---- mobile identities -------------------------------------------------------------------------------

  function Low(b: bv8): (n: nat)
    ensures n < 16
  {
    (b & 0x0F) as int
  }

  function High(b: bv8): (n: nat)
    ensures n < 16
  {
    ((b >> 4) & 0x0F) as int
  }

  /** The digits of a null-scheme MSIN, low nibble first; a high nibble of fifteen is a filler. */
  function ReadMsin(d: Bytes): string {
    if d == [] then ""
    else Dec(Low(d[0])) + (if High(d[0]) != 15 then Dec(High(d[0])) else "") + ReadMsin(d[1..])
  }

  function ReadSuci(data: Bytes): string {
    if |data| < 9 then "unknown-suci"
    else
      var mcc := Dec(Low(data[1])) + Dec(High(data[1])) + Dec(Low(data[2]));
      var mnc := Dec(Low(data[3])) + Dec(High(data[3])) + (if High(data[2]) == 15 then "" else Dec(High(data[2])));
      "imsi-" + mcc + mnc + ReadMsin(data[8..])
  }

  lemma {:induction false} ReadMsinAt(data: Bytes, i: nat)
    requires i < |data|
    ensures ReadMsin(Rest(data, i)) ==
            Dec(Low(data[i])) + (if High(data[i]) != 15 then Dec(High(data[i])) else "") + ReadMsin(Rest(data, i + 1))
  {
    hide Dec, Low, High;
    assert Rest(data, i)[0] == data[i] && Rest(data, i)[1..] == Rest(data, i + 1);
  }

  method DecodeMsin(data: Bytes) returns (msin: string)
    requires |data| >= 8
    ensures msin == ReadMsin(data[8..])
  {
    hide Dec, Low, High, ReadMsin;
    msin := "";
    var i := 8;
    while i < |data|
      invariant 8 <= i <= |data|
      invariant ReadMsin(Rest(data, 8)) == msin + ReadMsin(Rest(data, i))
    {
      ReadMsinAt(data, i);
      var here := Dec(Low(data[i]));
      if High(data[i]) != 15 {
        here := here + Dec(High(data[i]));
      }
      assert ReadMsin(Rest(data, i)) == here + ReadMsin(Rest(data, i + 1));
      Concatenate(msin, here, ReadMsin(Rest(data, i + 1)));
      msin := msin + here;
      i := i + 1;
    }
    assert Rest(data, i) == [];
    ReadMsinEnd();
  }

  method DecodeSuci(data: Bytes) returns (supi: string)
    ensures supi == ReadSuci(data)
  {
    hide Dec, Low, High, ReadMsin;
    if |data| < 9 {
      return "unknown-suci";
    }
    var mcc := Dec(Low(data[1])) + Dec(High(data[1])) + Dec(Low(data[2]));
    var mnc3 := High(data[2]);
    var mnc := Dec(Low(data[3])) + Dec(High(data[3]));
    if mnc3 != 15 {
      mnc := mnc + Dec(mnc3);
    } else {
      assert mnc + "" == mnc;
    }
    var msin := DecodeMsin(data);
    return "imsi-" + mcc + mnc + msin;
  }

  lemma ReadMsinEnd()
    ensures ReadMsin([]) == ""
  {
  }

  // The null-scheme layout of section 9.11.3.4 of TS 24.501.

  /** Decimal digits, or any other value of a half octet but the filler. */
  ghost predicate Digits(ds: seq<nat>) { forall i :: 0 <= i < |ds| ==> ds[i] < 15 }

  function Nibbles(low: nat, high: nat): bv8
    requires low < 16 && high < 16
  {
    ((high as bv8) << 4) | (low as bv8)
  }

  lemma NibblesRead(low: nat, high: nat)
    requires low < 16 && high < 16
    ensures Low(Nibbles(low, high)) == low && High(Nibbles(low, high)) == high
  {
    var l, h := low as bv8, high as bv8;
    assert l < 16 && h < 16;
    assert ((h << 4) | l) & 0x0F == l && (((h << 4) | l) >> 4) & 0x0F == h;
  }

  /** Digits in pairs, low nibble first; an odd last digit is paired with the filler. */
  function WriteBcd(ds: seq<nat>): Bytes
    requires Digits(ds)
  {
    if ds == [] then []
    else if |ds| == 1 then [Nibbles(ds[0], 15)]
    else [Nibbles(ds[0], ds[1])] + WriteBcd(ds[2..])
  }

  function Spell(ds: seq<nat>): string
    requires Digits(ds)
  {
    if ds == [] then "" else Dec(ds[0]) + Spell(ds[1..])
  }

  lemma {:induction false} MsinDecoded(ds: seq<nat>)
    requires Digits(ds)
    ensures ReadMsin(WriteBcd(ds)) == Spell(ds)
  {
    hide Dec, Low, High, Nibbles;
    if |ds| == 1 {
      NibblesRead(ds[0], 15);
      assert Spell(ds[1..]) == "" by { assert ds[1..] == []; }
      ReadMsinEnd();
    } else if |ds| >= 2 {
      NibblesRead(ds[0], ds[1]);
      MsinDecoded(ds[2..]);
      assert ds[1..][0] == ds[1] && ds[1..][1..] == ds[2..];
      Concatenate(Dec(ds[0]), Dec(ds[1]), Spell(ds[2..]));
    }
  }

  /** The identity octets: type, MCC and MNC digits, routing indicator, scheme, key identifier, MSIN. */
  function WriteSuci(first: bv8, mcc: seq<nat>, mnc: seq<nat>, routing: Bytes, scheme: bv8, key: bv8, msin: seq<nat>): Bytes
    requires Digits(mcc) && |mcc| == 3 && Digits(mnc) && 2 <= |mnc| <= 3 && Digits(msin) && |routing| == 2
  {
    [first, Nibbles(mcc[0], mcc[1]), Nibbles(mcc[2], if |mnc| == 3 then mnc[2] else 15), Nibbles(mnc[0], mnc[1])]
    + routing + [scheme, key] + WriteBcd(msin)
  }

  lemma {:induction false} SpellThree(ds: seq<nat>)
    requires Digits(ds) && 2 <= |ds| <= 3
    ensures Spell(ds) == Dec(ds[0]) + Dec(ds[1]) + if |ds| == 3 then Dec(ds[2]) else ""
  {
    hide Dec;
    assert Spell(ds) == Dec(ds[0]) + Spell(ds[1..]);
    assert Spell(ds[1..]) == Dec(ds[1]) + Spell(ds[2..]) by { assert ds[1..][1..] == ds[2..]; }
    if |ds| == 3 {
      assert ds[2..] == [ds[2]] && [ds[2]][1..] == [];
      assert Spell(ds[2..]) == Dec(ds[2]) + Spell([]);
    } else {
      assert ds[2..] == [];
    }
  }

  /** Decoding inverts the layout for two- and three-digit MNC and every MSIN, odd or even; an identity without
      any MSIN digit is too short to be read. */
  lemma {:induction false} SuciDecoded(first: bv8, mcc: seq<nat>, mnc: seq<nat>, routing: Bytes, scheme: bv8, key: bv8, msin: seq<nat>)
    requires Digits(mcc) && |mcc| == 3 && Digits(mnc) && 2 <= |mnc| <= 3 && Digits(msin) && |routing| == 2
    ensures ReadSuci(WriteSuci(first, mcc, mnc, routing, scheme, key, msin)) ==
            if msin == [] then "unknown-suci" else "imsi-" + Spell(mcc) + Spell(mnc) + Spell(msin)
  {
    var data := WriteSuci(first, mcc, mnc, routing, scheme, key, msin);
    hide Dec, Low, High, Nibbles, ReadMsin;
    assert data[8..] == WriteBcd(msin);
    if msin != [] {
      var mnc3 := if |mnc| == 3 then mnc[2] else 15;
      NibblesRead(mcc[0], mcc[1]);
      NibblesRead(mcc[2], mnc3);
      NibblesRead(mnc[0], mnc[1]);
      MsinDecoded(msin);
      SpellThree(mcc);
      SpellThree(mnc);
      hide Spell;
      assert data[1] == Nibbles(mcc[0], mcc[1]) && data[2] == Nibbles(mcc[2], mnc3) && data[3] == Nibbles(mnc[0], mnc[1]);
    }
  }

  // ---- Registration Request -----------------------------------------------------------------------------

  function HexDigit(n: nat): char
    requires n < 16
  {
    "0123456789abcdef"[n]
  }

  function Hex(d: Bytes): (s: string)
    ensures |s| == 2 * |d|
  {
    if d == [] then "" else [HexDigit(High(d[0])), HexDigit(Low(d[0]))] + Hex(d[1..])
  }

  function ReadGuti(data: Bytes): string {
    if |data| < 10 then "unknown-guti" else "5g-guti-" + Hex(data[1..6])
  }

  /** UE security capability: the algorithms offered, and the bytes as they came, for replay. */
  datatype SecurityCapability = SecurityCapability(
    ea0: bool, ea1: bool, ea2: bool, ea3: bool, ia0: bool, ia1: bool, ia2: bool, ia3: bool, raw: Bytes)

  function ReadSecurityCapability(v: Bytes): SecurityCapability
    requires |v| >= 2
  {
    SecurityCapability(v[0] & 0x80 != 0, v[0] & 0x40 != 0, v[0] & 0x20 != 0, v[0] & 0x10 != 0,
                       v[1] & 0x80 != 0, v[1] & 0x40 != 0, v[1] & 0x20 != 0, v[1] & 0x10 != 0, v)
  }

  datatype RegistrationRequest = RegistrationRequest(
    registrationType: bv8, ngKsi: bv8, idType: bv8, identity: string, secCap: Option<SecurityCapability>, requestedNssai: seq<Nssai>)

  function ReadIdentity(idData: Bytes): string
    requires idData != []
  {
    var idType := idData[0] & 0x07;
    if idType == SUCI then ReadSuci(idData)
    else if idType == GUTI then ReadGuti(idData)
    else "type-" + Dec(ByteValue(idType))
  }

  datatype RegistrationIes = RegistrationIes(secCap: Option<SecurityCapability>, requestedNssai: seq<Nssai>)

  function TakeRegistrationIe(tag: bv8, v: Bytes, r: RegistrationIes): RegistrationIes {
    if tag == 0x2E then (if |v| >= 2 then r.(secCap := Some(ReadSecurityCapability(v))) else r)
    else if tag == 0x15 then r.(requestedNssai := ReadNssais(v))
    else r
  }

  /** Optional elements, all read as type-length-value, up to the first that does not fit. */
  function ReadRegistrationIes(d: Bytes, r: RegistrationIes): RegistrationIes
    decreases |d|
  {
    if |d| < 2 || 2 + ByteValue(d[1]) > |d| then r
    else ReadRegistrationIes(d[2 + ByteValue(d[1])..], TakeRegistrationIe(d[0], d[2..2 + ByteValue(d[1])], r))
  }

  function ReadRegistrationRequest(data: Bytes): Option<RegistrationRequest> {
    if |data| < 7 || data[0] != EPD_5GMM || data[2] != REGISTRATION_REQUEST then None
    else
      var n := Len16(data[4], data[5]);
      if |data| < 6 + n || n < 1 then None
      else
        var idData := data[6..6 + n];
        var ies := ReadRegistrationIes(data[6 + n..], RegistrationIes(None, []));
        Some(RegistrationRequest(data[3] & 0x07, (data[3] >> 4) & 0x07, idData[0] & 0x07, ReadIdentity(idData), ies.secCap, ies.requestedNssai))
  }

  lemma {:induction false} ReadRegistrationIesAt(data: Bytes, offset: nat, r: RegistrationIes)
    requires offset + 1 < |data|
    ensures var n := ByteValue(data[offset + 1]);
            ReadRegistrationIes(Rest(data, offset), r) ==
            if offset + 2 + n > |data| then r
            else ReadRegistrationIes(Rest(data, offset + 2 + n),
                                     TakeRegistrationIe(data[offset], data[offset + 2..offset + 2 + n], r))
  {
    hide ByteValue, TakeRegistrationIe;
    var d := Rest(data, offset);
    assert d[0] == data[offset] && d[1] == data[offset + 1];
    if offset + 2 + ByteValue(d[1]) <= |data| {
      SliceOfRest(data, offset, 2, 2 + ByteValue(d[1]));
    }
  }

  method DecodeRegistrationIes(data: Bytes, start: nat) returns (r: RegistrationIes)
    requires start <= |data|
    ensures r == ReadRegistrationIes(data[start..], RegistrationIes(None, []))
  {
    hide ByteValue, ReadNssais, ReadRegistrationIes;
    r := RegistrationIes(None, []);
    var offset := start;
    while offset < |data| - 1
      invariant start <= offset <= |data|
      invariant ReadRegistrationIes(Rest(data, start), RegistrationIes(None, [])) == ReadRegistrationIes(Rest(data, offset), r)
    {
      ReadRegistrationIesAt(data, offset, r);
      var ieTag := data[offset];
      offset := offset + 1;
      var ieLen := ByteValue(data[offset]);
      offset := offset + 1;
      if offset + ieLen > |data| {
        return;
      }
      var ieVal := data[offset..offset + ieLen];
      offset := offset + ieLen;
      if ieTag == 0x2E {
        if |ieVal| >= 2 {
          r := r.(secCap := Some(ReadSecurityCapability(ieVal)));
        }
      } else if ieTag == 0x15 {
        var list := DecodeNssaiList(ieVal);
        r := r.(requestedNssai := list);
      }
    }
    ReadRegistrationIesEnd(Rest(data, offset), r);
  }

  lemma ReadRegistrationIesEnd(d: Bytes, r: RegistrationIes)
    requires |d| < 2
    ensures ReadRegistrationIes(d, r) == r
  {
  }

  method DecodeRegistrationRequest(data: Bytes) returns (req: Option<RegistrationRequest>)
    ensures req == ReadRegistrationRequest(data)
  {
    hide ByteValue, Len16, ReadRegistrationIes, ReadSuci, ReadGuti, Dec;
    if |data| < 7 {
      return None;
    }
    if data[0] != EPD_5GMM {
      return None;
    }
    if data[2] != REGISTRATION_REQUEST {
      return None;
    }
    var idLen := Len16(data[4], data[5]);
    if |data| < 6 + idLen || idLen < 1 {
      return None;
    }
    var idData := data[6..6 + idLen];
    var idType := idData[0] & 0x07;
    var value: string;
    if idType == SUCI {
      value := DecodeSuci(idData);
    } else if idType == GUTI {
      value := ReadGuti(idData);
    } else {
      value := "type-" + Dec(ByteValue(idType));
    }
    var ies := DecodeRegistrationIes(data, 6 + idLen);
    return Some(RegistrationRequest(data[3] & 0x07, (data[3] >> 4) & 0x07, idType, value, ies.secCap, ies.requestedNssai));
  }

  /** Every identity that a decoded request can carry has at least the five characters that the proxy drops
      from the front of a SUPI. */
  lemma {:induction false} IdentityLongEnough(data: Bytes)
    requires ReadRegistrationRequest(data).Some?
    ensures |ReadRegistrationRequest(data).value.identity| >= |"imsi-"|
  {
    hide ReadMsin, Dec, Low, High, ReadRegistrationIes;
  }

  /** The MSIN of any bytes is read byte by byte: the low half octet, and the high one unless it is the filler. */
  lemma {:induction false} MsinByteByByte(b: bv8, rest: Bytes)
    ensures ReadMsin([b] + rest) == Dec((b as int) % 16) + (if (b as int) / 16 == 15 then "" else Dec((b as int) / 16)) + ReadMsin(rest)
    ensures ReadMsin([]) == ""
  {
    assert ([b] + rest)[0] == b && ([b] + rest)[1..] == rest;
    HalvesOf(b);
    hide Dec, Low, High;
  }

  lemma HalvesOf(b: bv8)
    ensures Low(b) == (b as int) % 16 && High(b) == (b as int) / 16
  {
  }

  /** The GUTI in print: ten lower-case hexadecimal digits of the five bytes behind the first; a short one is unknown. */
  lemma GutiInPrint(data: Bytes)
    ensures |data| < 10 ==> ReadGuti(data) == "unknown-guti"
    ensures |data| >= 10 ==>
              var s := ReadGuti(data);
              && |s| == 18 && s[..8] == "5g-guti-"
              && forall i :: 0 <= i < 5 ==>
                   && s[8 + 2 * i] == "0123456789abcdef"[(data[1 + i] as int) / 16]
                   && s[9 + 2 * i] == "0123456789abcdef"[(data[1 + i] as int) % 16]
  {
    if |data| >= 10 {
      var d, s := data[1..6], ReadGuti(data);
      assert s[..8] == "5g-guti-" && s[8..] == Hex(d);
      forall i | 0 <= i < 5
        ensures s[8 + 2 * i] == "0123456789abcdef"[(data[1 + i] as int) / 16]
        ensures s[9 + 2 * i] == "0123456789abcdef"[(data[1 + i] as int) % 16]
      {
        HexAt(d, i);
        HalvesOf(d[i]);
        hide High, Low, Hex;
        assert s[8 + 2 * i] == Hex(d)[2 * i] && s[9 + 2 * i] == Hex(d)[2 * i + 1];
      }
    }
  }

  lemma {:induction false} HexAt(d: Bytes, i: nat)
    requires i < |d|
    ensures Hex(d)[2 * i] == HexDigit(High(d[i])) && Hex(d)[2 * i + 1] == HexDigit(Low(d[i]))
  {
    if i > 0 {
      HexAt(d[1..], i - 1);
      hide HexDigit;
    }
  }

  /** How the kind of an identity selects its reading. */
  lemma IdentityByKind(idData: Bytes)
    requires idData != []
    ensures idData[0] & 0x07 == 1 ==> ReadIdentity(idData) == ReadSuci(idData)
    ensures idData[0] & 0x07 == 2 ==> ReadIdentity(idData) == ReadGuti(idData)
    ensures idData[0] & 0x07 != 1 && idData[0] & 0x07 != 2 ==>
              ReadIdentity(idData) == "type-" + Dec((idData[0] & 0x07) as int)
  {
    hide ReadSuci, ReadGuti, Dec;
  }

  function Flag(on: bool, place: bv8): bv8 { if on then place else 0 }

  /** The algorithm octets that a capability without its raw bytes is encoded to. */
  function WriteAlgorithms(c: SecurityCapability): Bytes {
    [Flag(c.ea0, 0x80) | Flag(c.ea1, 0x40) | Flag(c.ea2, 0x20) | Flag(c.ea3, 0x10),
     Flag(c.ia0, 0x80) | Flag(c.ia1, 0x40) | Flag(c.ia2, 0x20) | Flag(c.ia3, 0x10)]
  }

  lemma OneOctet(b: bv8)
    ensures Flag(b & 0x80 != 0, 0x80) | Flag(b & 0x40 != 0, 0x40) | Flag(b & 0x20 != 0, 0x20) | Flag(b & 0x10 != 0, 0x10) == b & 0xF0
  {
  }

  /** Encoding the flags of a decoded capability gives the upper halves of its two octets back, so each flag is the bit of its own
      algorithm; the raw bytes are kept for replay. */
  lemma SecurityCapabilityRoundTrip(v: Bytes)
    requires |v| >= 2
    ensures WriteAlgorithms(ReadSecurityCapability(v)) == [v[0] & 0xF0, v[1] & 0xF0] && ReadSecurityCapability(v).raw == v
  {
    OneOctet(v[0]);
    OneOctet(v[1]);
  }

  // ---- what a UE may put on the wire -----------------------------------------------------------------------

  datatype RegistrationIe = RegistrationIe(tag: bv8, value: Bytes)

  ghost predicate AllFit(ies: seq<RegistrationIe>) { forall i :: 0 <= i < |ies| ==> |ies[i].value| < 256 }

  function WriteRegistrationIes(ies: seq<RegistrationIe>): Bytes
    requires AllFit(ies)
  {
    if ies == [] then []
    else WriteRegistrationIe(ies[0]) + WriteRegistrationIes(ies[1..])
  }

  /** The value of the last element with a tag that has at least so many bytes. */
  function LastOf(ies: seq<RegistrationIe>, tag: bv8, least: nat): (v: Option<Bytes>)
    ensures v.Some? ==> |v.value| >= least
  {
    if ies == [] then None
    else
      var ie := ies[|ies| - 1];
      if ie.tag == tag && |ie.value| >= least then Some(ie.value) else LastOf(ies[..|ies| - 1], tag, least)
  }

  /** What the list means: the last security capability of at least two bytes and the last requested NSSAI. */
  function LastRegistrationIes(ies: seq<RegistrationIe>): RegistrationIes {
    var cap, nssai := LastOf(ies, 0x2E, 2), LastOf(ies, 0x15, 0);
    RegistrationIes(if cap.Some? then Some(ReadSecurityCapability(cap.value)) else None,
                    if nssai.Some? then ReadNssais(nssai.value) else [])
  }

  function TakeRegistrationIes(ies: seq<RegistrationIe>, r: RegistrationIes): RegistrationIes {
    if ies == [] then r
    else TakeRegistrationIe(ies[|ies| - 1].tag, ies[|ies| - 1].value, TakeRegistrationIes(ies[..|ies| - 1], r))
  }

  lemma {:induction false} TakeFirst(ies: seq<RegistrationIe>, r: RegistrationIes)
    requires ies != []
    ensures TakeRegistrationIes(ies, r) == TakeRegistrationIes(ies[1..], TakeRegistrationIe(ies[0].tag, ies[0].value, r))
  {
    hide TakeRegistrationIe;
    var n := |ies| - 1;
    if n > 0 {
      TakeFirst(ies[..n], r);
      assert ies[..n][1..] == ies[1..][..n - 1];
    } else {
      assert ies[1..] == [] && ies[..0] == [];
    }
  }

  lemma {:induction false} ReadFirstIe(ie: RegistrationIe, rest: Bytes, r: RegistrationIes)
    requires |ie.value| < 256
    ensures ReadRegistrationIes(WriteRegistrationIe(ie) + rest, r)
            == ReadRegistrationIes(rest, TakeRegistrationIe(ie.tag, ie.value, r))
  {
    hide TakeRegistrationIe;
    var d := WriteRegistrationIe(ie) + rest;
    ByteValueOf(|ie.value|);
    hide ByteValue;
    assert d[2..2 + |ie.value|] == ie.value && d[2 + |ie.value|..] == rest;
  }

  /** Nothing more can be read: fewer than two bytes, or an element that is cut short. */
  predicate NoIe(d: Bytes) { |d| < 2 || |d| < 2 + ByteValue(d[1]) }

  lemma ReadNothing(d: Bytes, r: RegistrationIes)
    requires NoIe(d)
    ensures ReadRegistrationIes(d, r) == r
  {
  }

  function WriteRegistrationIe(ie: RegistrationIe): Bytes
    requires |ie.value| < 256
  {
    [ie.tag, |ie.value| as bv8] + ie.value
  }

  lemma IesThen(ies: seq<RegistrationIe>, tail: Bytes)
    requires AllFit(ies)
    ensures ies == [] ==> WriteRegistrationIes(ies) + tail == tail
    ensures ies != [] ==> WriteRegistrationIes(ies) + tail == WriteRegistrationIe(ies[0]) + (WriteRegistrationIes(ies[1..]) + tail)
  {
    hide WriteRegistrationIe;
  }

  lemma {:induction false} ReadWrittenIes(ies: seq<RegistrationIe>, tail: Bytes, r: RegistrationIes)
    requires AllFit(ies) && NoIe(tail)
    ensures ReadRegistrationIes(WriteRegistrationIes(ies) + tail, r) == TakeRegistrationIes(ies, r)
    decreases |ies|
  {
    hide TakeRegistrationIe, ReadRegistrationIes, WriteRegistrationIe, WriteRegistrationIes, NoIe;
    IesThen(ies, tail);
    if ies == [] {
      ReadNothing(tail, r);
    } else {
      ReadFirstIe(ies[0], WriteRegistrationIes(ies[1..]) + tail, r);
      ReadWrittenIes(ies[1..], tail, TakeRegistrationIe(ies[0].tag, ies[0].value, r));
      TakeFirst(ies, r);
    }
  }

  lemma WrittenIe(tag: bv8, b: bv8, v: Bytes)
    requires |v| == ByteValue(b)
    ensures WriteRegistrationIe(RegistrationIe(tag, v)) == [tag, b] + v
  {
    SameByte(b);
    hide ByteValue;
  }

  /** Every byte string is a list of elements followed by something that is none. */
  lemma {:induction false} SplitRegistrationIes(d: Bytes) returns (ies: seq<RegistrationIe>, tail: Bytes)
    ensures AllFit(ies) && NoIe(tail) && d == WriteRegistrationIes(ies) + tail
    decreases |d|
  {
    hide ByteValue, WriteRegistrationIe;
    if NoIe(d) {
      ies, tail := [], d;
    } else {
      var n := ByteValue(d[1]);
      var v := d[2..2 + n];
      WrittenIe(d[0], d[1], v);
      InThree(d, 2, 2 + n);
      assert d[..2] == [d[0], d[1]];
      var more, end := SplitRegistrationIes(d[2 + n..]);
      ies, tail := [RegistrationIe(d[0], v)] + more, end;
      assert ies[1..] == more;
      IesThen(ies, tail);
      hide WriteRegistrationIes, NoIe;
    }
  }

  lemma {:induction false} TakenAreTheLast(ies: seq<RegistrationIe>)
    ensures TakeRegistrationIes(ies, RegistrationIes(None, [])) == LastRegistrationIes(ies)
  {
    hide ReadSecurityCapability, ReadNssais;
    if ies != [] {
      TakenAreTheLast(ies[..|ies| - 1]);
    }
  }

  function WriteRegistrationRequest(secHdr: bv8, kinds: bv8, idData: Bytes, ies: seq<RegistrationIe>): Bytes
    requires 1 <= |idData| < 65536 && AllFit(ies)
  {
    [EPD_5GMM, secHdr, REGISTRATION_REQUEST, kinds, (|idData| / 256) as bv8, (|idData| % 256) as bv8]
    + idData + WriteRegistrationIes(ies)
  }

  lemma ReadRequest(secHdr: bv8, kinds: bv8, hi: bv8, lo: bv8, idData: Bytes, rest: Bytes)
    requires Len16(hi, lo) == |idData| >= 1
    ensures var ies := ReadRegistrationIes(rest, RegistrationIes(None, []));
            ReadRegistrationRequest([EPD_5GMM, secHdr, REGISTRATION_REQUEST, kinds, hi, lo] + idData + rest) ==
            Some(RegistrationRequest(kinds & 0x07, (kinds >> 4) & 0x07, idData[0] & 0x07, ReadIdentity(idData), ies.secCap, ies.requestedNssai))
  {
    hide Len16, ReadRegistrationIes, ReadIdentity;
    var data := [EPD_5GMM, secHdr, REGISTRATION_REQUEST, kinds, hi, lo] + idData + rest;
    assert data[6..6 + |idData|] == idData && data[6 + |idData|..] == rest;
  }

  /** Decoding a request of any identity and any list of type-length-value elements returns the identity read from its own
      bytes alone, the last security capability and the last requested NSSAI; all other elements are skipped, and so is a tail that
      is cut short. */
  lemma {:induction false} RegistrationRequestDecoded(secHdr: bv8, kinds: bv8, idData: Bytes, ies: seq<RegistrationIe>, tail: Bytes)
    requires 1 <= |idData| < 65536 && AllFit(ies) && NoIe(tail)
    ensures var last := LastRegistrationIes(ies);
            ReadRegistrationRequest(WriteRegistrationRequest(secHdr, kinds, idData, ies) + tail) ==
            Some(RegistrationRequest(kinds & 0x07, (kinds >> 4) & 0x07, idData[0] & 0x07, ReadIdentity(idData),
                                     last.secCap, last.requestedNssai))
  {
    hide ReadRegistrationIes, WriteRegistrationIes, LastRegistrationIes, ReadIdentity, NoIe;
    var data, rest := WriteRegistrationRequest(secHdr, kinds, idData, ies) + tail, WriteRegistrationIes(ies) + tail;
    var hi, lo := (|idData| / 256) as bv8, (|idData| % 256) as bv8;
    assert data == [EPD_5GMM, secHdr, REGISTRATION_REQUEST, kinds, hi, lo] + idData + rest;
    LengthInTwoBytes(|idData|);
    ReadRequest(secHdr, kinds, hi, lo, idData, rest);
    ReadWrittenIes(ies, tail, RegistrationIes(None, []));
    TakenAreTheLast(ies);
  }

  /** Arbitrary bytes are refused exactly when they are shorter than seven bytes, of another kind, or their identity is empty or
      does not fit; otherwise they decode to what their identity and some list of elements mean. */
  lemma RegistrationRequestOnBytes(data: Bytes) returns (ies: seq<RegistrationIe>, tail: Bytes)
    ensures AllFit(ies) && NoIe(tail)
    ensures ReadRegistrationRequest(data).None? <==>
              || |data| < 7 || data[0] != 0x7E || data[2] != 0x41
              || Len16(data[4], data[5]) == 0 || |data| < 6 + Len16(data[4], data[5])
    ensures ReadRegistrationRequest(data).Some? ==>
              var n, last := Len16(data[4], data[5]), LastRegistrationIes(ies);
              && data[6 + n..] == WriteRegistrationIes(ies) + tail
              && ReadRegistrationRequest(data) ==
                 Some(RegistrationRequest(data[3] & 0x07, (data[3] >> 4) & 0x07, data[6] & 0x07, ReadIdentity(data[6..6 + n]),
                                          last.secCap, last.requestedNssai))
  {
    hide Len16, ReadRegistrationIes, WriteRegistrationIes, LastRegistrationIes, ReadIdentity, NoIe;
    if ReadRegistrationRequest(data).Some? {
      ies, tail := SplitRegistrationIes(data[6 + Len16(data[4], data[5])..]);
      ReadWrittenIes(ies, tail, RegistrationIes(None, []));
      TakenAreTheLast(ies);
    } else {
      ies, tail := SplitRegistrationIes([]);
    }
  }
}
