/** UL NAS Transport (section 8.2.10 of TS 24.501): a payload container and a list of optional elements in four
    formats. The decoder is a loop with a moving offset, proved equal to a recursive reading of the remaining
    bytes; the reading is proved to invert what a sender may write. */
module NasTransport {
  import opened Text
  import opened Octets
  import opened NasBase
  import opened NasNssai

  // ---- data network names --------------------------------------------------------------------

  const DOT: bv8 := 0x2E

  function Extend(read: Bytes, name: Bytes): Bytes {
    (if read != [] then read + [DOT] else read) + name
  }

  /** Labels from the front, joined with dots after what was already read. */
  function ReadDnn(d: Bytes, read: Bytes): Bytes
    decreases |d|
  {
    if d == [] then read
    else
      var n := ByteValue(d[0]);
      if n == 0 || 1 + n > |d| then read
      else ReadDnn(d[1 + n..], Extend(read, d[1..1 + n]))
  }

  lemma {:induction false} ReadDnnAt(data: Bytes, i: nat, read: Bytes)
    requires i < |data|
    ensures var n := ByteValue(data[i]);
            ReadDnn(Rest(data, i), read) ==
            if n == 0 || i + 1 + n > |data| then read
            else ReadDnn(Rest(data, i + 1 + n), Extend(read, data[i + 1..i + 1 + n]))
  {
    hide ByteValue, Extend;
    var n, d := ByteValue(data[i]), Rest(data, i);
    assert d[0] == data[i] && |d| == |data| - i;
    if n != 0 && i + 1 + n <= |data| {
      SliceOfRest(data, i, 1, 1 + n);
    }
    hide Rest;
  }

  method DecodeDnn(data: Bytes) returns (result: Bytes)
    ensures result == ReadDnn(data, [])
  {
    hide ByteValue, ReadDnn;
    result := [];
    var i := 0;
    assert Rest(data, 0) == data;
    while i < |data|
      invariant 0 <= i <= |data|
      invariant ReadDnn(data, []) == ReadDnn(Rest(data, i), result)
    {
      ReadDnnAt(data, i, result);
      var labelLen := ByteValue(data[i]);
      i := i + 1;
      if i + labelLen > |data| || labelLen == 0 {
        return;
      }
      if result != [] {
        result := result + [DOT];
      }
      result := result + data[i..i + labelLen];
      i := i + labelLen;
    }
    assert Rest(data, i) == [];
    ReadDnnEnd(result);
  }

  lemma ReadDnnEnd(read: Bytes)
    ensures ReadDnn([], read) == read
  {
  }

  function Join(read: Bytes, ls: seq<Bytes>): Bytes
    decreases |ls|
  {
    if ls == [] then read else Join(Extend(read, ls[0]), ls[1..])
  }

  lemma {:induction false} ReadFirstLabel(l: Bytes, rest: Bytes, read: Bytes)
    requires 1 <= |l| < 256
    ensures ReadDnn(WriteEntry(l) + rest, read) == ReadDnn(rest, Extend(read, l))
  {
    var d := WriteEntry(l) + rest;
    ByteValueOf(|l|);
    hide ByteValue, Extend;
    assert d[1..1 + |l|] == l && d[1 + |l|..] == rest;
  }

  lemma ReadNoLabel(tail: Bytes, read: Bytes)
    requires NoEntry(tail)
    ensures ReadDnn(tail, read) == read
  {
  }

  lemma {:induction false} LabelsJoined(ls: seq<Bytes>, tail: Bytes, read: Bytes)
    requires Entries(ls) && NoEntry(tail)
    ensures ReadDnn(WriteEntries(ls) + tail, read) == Join(read, ls)
    decreases |ls|
  {
    hide ReadDnn, Extend, NoEntry, WriteEntry, WriteEntries;
    EntriesThen(ls, tail);
    if ls == [] {
      ReadNoLabel(tail, read);
    } else {
      LabelsJoined(ls[1..], tail, Extend(read, ls[0]));
      ReadFirstLabel(ls[0], WriteEntries(ls[1..]) + tail, read);
    }
  }

  /** Labels with a dot between any two. */
  function Dotted(ls: seq<Bytes>): Bytes {
    if ls == [] then []
    else if |ls| == 1 then ls[0]
    else Dotted(ls[..|ls| - 1]) + [0x2E] + ls[|ls| - 1]
  }

  lemma {:induction false} JoinLast(read: Bytes, ls: seq<Bytes>, l: Bytes)
    ensures Join(read, ls + [l]) == Extend(Join(read, ls), l)
    decreases |ls|
  {
    hide Extend;
    if ls == [] {
      assert ls + [l] == [l] && [l][1..] == [];
    } else {
      assert (ls + [l])[1..] == ls[1..] + [l];
      JoinLast(Extend(read, ls[0]), ls[1..], l);
    }
  }

  lemma {:induction false} JoinIsDotted(ls: seq<Bytes>)
    requires Entries(ls)
    ensures Join([], ls) == Dotted(ls) && (ls != [] ==> Dotted(ls) != [])
  {
    if ls != [] {
      var n := |ls| - 1;
      JoinIsDotted(ls[..n]);
      JoinLast([], ls[..n], ls[n]);
      assert ls[..n] + [ls[n]] == ls;
      hide Join;
    }
  }

  /** Arbitrary bytes decode to the labels in front, up to the first that is empty or does not fit, with dots between them. */
  lemma DnnDecoded(d: Bytes) returns (ls: seq<Bytes>, tail: Bytes)
    ensures Entries(ls) && NoEntry(tail) && d == WriteEntries(ls) + tail
    ensures ReadDnn(d, []) == Dotted(ls)
  {
    ls, tail := SplitEntries(d);
    LabelsJoined(ls, tail, []);
    JoinIsDotted(ls);
  }

  // ---- UL NAS Transport ------------------------------------------------------------------------------

  /** The optional fields that the decoder extracts. */
  datatype Fields = Fields(sessionId: bv8, dnn: Bytes, snssai: Option<Nssai>)

  const NO_FIELDS := Fields(0, [], None)

  /** Half-octet elements: Request type, MA PDU session information, Release assistance indication. */
  predicate IsHalfOctet(iei: bv8) { iei >> 4 == 0x08 || iei >> 4 == 0x0A || iei >> 4 == 0x0F }

  /** The three kinds by the value of the upper half octet. */
  lemma HalfOctetKinds(iei: bv8)
    ensures IsHalfOctet(iei) <==> (iei as int) / 16 == 8 || (iei as int) / 16 == 10 || (iei as int) / 16 == 15
  {
    assert (iei >> 4) as int == (iei as int) / 16;
  }

  /** What a type-length-value element contributes. */
  function TakeTlv(iei: bv8, v: Bytes, f: Fields): Fields {
    if v == [] then f
    else if iei == 0x22 then f.(snssai := Some(NssaiOf(v)))
    else if iei == 0x25 then f.(dnn := ReadDnn(v, []))
    else f
  }

  /** Reads optional elements up to the end or to the first that is cut short. */
  function ReadFields(d: Bytes, f: Fields): Fields
    decreases |d|
  {
    if d == [] then f
    else if IsHalfOctet(d[0]) then ReadFields(d[1..], f)
    else if d[0] == 0x12 then ReadFields(Skip(d, 2), if |d| > 1 then f.(sessionId := d[1]) else f)
    else if d[0] == 0x59 then ReadFields(Skip(d, 2), f)
    else if |d| < 2 || 2 + ByteValue(d[1]) > |d| then f
    else ReadFields(d[2 + ByteValue(d[1])..], TakeTlv(d[0], d[2..2 + ByteValue(d[1])], f))
  }

  datatype UlNasTransport = UlNasTransport(containerType: bv8, payload: Bytes, fields: Fields)

  /** The whole message; none when it is too short, of another kind, or its container does not fit. */
  function ReadUlNasTransport(data: Bytes): Option<UlNasTransport> {
    if |data| < 6 || data[0] != EPD_5GMM || data[2] != UL_NAS_TRANSPORT then None
    else
      var n := Len16(data[4], data[5]);
      if |data| < 6 + n then None
      else Some(UlNasTransport(data[3] & 0x0F, data[6..6 + n], ReadFields(data[6 + n..], NO_FIELDS)))
  }

  /** One element of the reading, in terms of offsets. */
  lemma {:induction false} ReadFieldsAt(data: Bytes, offset: nat, f: Fields)
    requires offset < |data|
    ensures var iei := data[offset];
            ReadFields(Rest(data, offset), f) ==
            if IsHalfOctet(iei) then ReadFields(Rest(data, offset + 1), f)
            else if iei == 0x12 then
              ReadFields(Rest(data, offset + 2), if offset + 1 < |data| then f.(sessionId := data[offset + 1]) else f)
            else if iei == 0x59 then ReadFields(Rest(data, offset + 2), f)
            else if offset + 1 >= |data| || offset + 2 + ByteValue(data[offset + 1]) > |data| then f
            else
              var n := ByteValue(data[offset + 1]);
              ReadFields(Rest(data, offset + 2 + n), TakeTlv(iei, data[offset + 2..offset + 2 + n], f))
  {
    hide ByteValue, TakeTlv, IsHalfOctet;
    var d := Rest(data, offset);
    assert d[0] == data[offset] && d[1..] == Rest(data, offset + 1);
    assert Skip(d, 2) == Rest(data, offset + 2);
    if |d| >= 2 && 2 + ByteValue(d[1]) <= |d| {
      SliceOfRest(data, offset, 2, 2 + ByteValue(d[1]));
    }
  }

  method DecodeFields(data: Bytes, start: nat) returns (f: Fields)
    requires start <= |data|
    ensures f == ReadFields(data[start..], NO_FIELDS)
  {
    hide ByteValue, ReadFields, TakeTlv;
    f := NO_FIELDS;
    var offset := start;
    while offset < |data|
      invariant start <= offset
      invariant ReadFields(Rest(data, start), NO_FIELDS) == ReadFields(Rest(data, offset), f)
      decreases |data| - offset
    {
      var iei := data[offset];
      ReadFieldsAt(data, offset, f);
      if IsHalfOctet(iei) {
        offset := offset + 1;
        continue;
      }
      if iei == 0x12 {
        if offset + 1 < |data| {
          f := f.(sessionId := data[offset + 1]);
        }
        offset := offset + 2;
        continue;
      }
      if iei == 0x59 {
        offset := offset + 2;
        continue;
      }
      offset := offset + 1;
      if offset >= |data| {
        return;
      }
      var ieLen := ByteValue(data[offset]);
      offset := offset + 1;
      if offset + ieLen > |data| {
        return;
      }
      f := DecodeTlv(iei, data[offset..offset + ieLen], f);
      offset := offset + ieLen;
    }
    assert Rest(data, offset) == [];
    ReadFieldsEnd(f);
  }

  lemma ReadFieldsEnd(f: Fields)
    ensures ReadFields([], f) == f
  {
  }

  method DecodeTlv(iei: bv8, v: Bytes, f: Fields) returns (g: Fields)
    ensures g == TakeTlv(iei, v, f)
  {
    g := f;
    if iei == 0x22 {
      if |v| >= 1 {
        var n := DecodeNssai(v);
        g := f.(snssai := Some(n));
      }
    } else if iei == 0x25 {
      if |v| >= 1 {
        var dnn := DecodeDnn(v);
        g := f.(dnn := dnn);
      }
    }
  }

  method DecodeUlNasTransport(data: Bytes) returns (msg: Option<UlNasTransport>)
    ensures msg == ReadUlNasTransport(data)
  {
    hide Len16, ReadFields;
    if |data| < 6 {
      return None;
    }
    if data[0] != EPD_5GMM {
      return None;
    }
    if data[2] != UL_NAS_TRANSPORT {
      return None;
    }
    var containerLen := Len16(data[4], data[5]);
    if |data| < 6 + containerLen {
      return None;
    }
    var fields := DecodeFields(data, 6 + containerLen);
    return Some(UlNasTransport(data[3] & 0x0F, data[6..6 + containerLen], fields));
  }

  // ---- what a sender may put on the wire ----------------------------------------------------------

  datatype Ie =
    | HalfOctet(octet: bv8)
    | SessionId(id: bv8)
    | OldSessionId(oldId: bv8)
    | Tlv(iei: bv8, value: Bytes)

  /** Optional elements as section 8.2.10 of TS 24.501 forms them: half octets of the three known kinds, the two
      fixed-length identities, and any type-length-value element, known or not. */
  predicate WellFormed(ie: Ie) {
    match ie
    case HalfOctet(octet) => IsHalfOctet(octet)
    case SessionId(_) => true
    case OldSessionId(_) => true
    case Tlv(iei, value) => !IsHalfOctet(iei) && iei != 0x12 && iei != 0x59 && |value| < 256
  }

  function WriteIe(ie: Ie): Bytes
    requires WellFormed(ie)
  {
    match ie
    case HalfOctet(octet) => [octet]
    case SessionId(id) => [0x12, id]
    case OldSessionId(id) => [0x59, id]
    case Tlv(iei, value) => [iei, |value| as bv8] + value
  }

  ghost predicate AllWellFormed(ies: seq<Ie>) { forall i :: 0 <= i < |ies| ==> WellFormed(ies[i]) }

  function WriteIes(ies: seq<Ie>): Bytes
    requires AllWellFormed(ies)
  {
    if ies == [] then [] else WriteIe(ies[0]) + WriteIes(ies[1..])
  }

  /** The last session identity of a list, 0 without one. */
  function LastSessionId(ies: seq<Ie>): bv8 {
    if ies == [] then 0
    else
      var ie := ies[|ies| - 1];
      if ie.SessionId? then ie.id else LastSessionId(ies[..|ies| - 1])
  }

  /** The value of the last non-empty element of a type. */
  function LastValue(ies: seq<Ie>, iei: bv8): Option<Bytes> {
    if ies == [] then None
    else
      var ie := ies[|ies| - 1];
      if ie.Tlv? && ie.iei == iei && ie.value != [] then Some(ie.value) else LastValue(ies[..|ies| - 1], iei)
  }

  /** The fields that the list means: the last occurrence of each. */
  function LastFields(ies: seq<Ie>): Fields {
    var snssai := LastValue(ies, 0x22);
    var dnn := LastValue(ies, 0x25);
    Fields(LastSessionId(ies),
           if dnn.Some? then ReadDnn(dnn.value, []) else [],
           if snssai.Some? && snssai.value != [] then Some(NssaiOf(snssai.value)) else None)
  }

  /** What one element does to the fields read so far. */
  function Take(ie: Ie, f: Fields): Fields {
    match ie
    case HalfOctet(_) => f
    case SessionId(id) => f.(sessionId := id)
    case OldSessionId(_) => f
    case Tlv(iei, value) => TakeTlv(iei, value, f)
  }

  function TakeAll(ies: seq<Ie>, f: Fields): Fields {
    if ies == [] then f else Take(ies[|ies| - 1], TakeAll(ies[..|ies| - 1], f))
  }

  lemma {:induction false} ReadOneIe(ie: Ie, rest: Bytes, f: Fields)
    requires WellFormed(ie)
    ensures ReadFields(WriteIe(ie) + rest, f) == ReadFields(rest, Take(ie, f))
  {
    hide ReadDnn, TakeTlv;
    var w := WriteIe(ie);
    var d := w + rest;
    assert d[0] == w[0] && d[|w|..] == rest;
    match ie
    case HalfOctet(octet) =>
    case SessionId(id) => assert d[1] == id && Skip(d, 2) == rest;
    case OldSessionId(id) => assert Skip(d, 2) == rest;
    case Tlv(iei, value) =>
      ByteValueOf(|value|);
      hide ByteValue;
      assert d[1] == w[1] && d[2..2 + |value|] == value;
  }

  lemma {:induction false} TakeAllFront(ies: seq<Ie>, f: Fields)
    requires ies != []
    ensures TakeAll(ies, f) == TakeAll(ies[1..], Take(ies[0], f))
  {
    var n := |ies| - 1;
    if n > 0 {
      TakeAllFront(ies[..n], f);
      assert ies[..n][1..] == ies[1..][..n - 1];
    } else {
      assert ies[1..] == [] && ies[..0] == [];
    }
  }

  /** Nothing more can be read: the end, a fixed-length element without its value, or a type-length-value element that is cut
      short. */
  predicate NoIe(d: Bytes) {
    || d == [] || d == [0x12] || d == [0x59]
    || (!IsHalfOctet(d[0]) && d[0] != 0x12 && d[0] != 0x59 && (|d| < 2 || |d| < 2 + ByteValue(d[1])))
  }

  lemma ReadNothing(d: Bytes, f: Fields)
    requires NoIe(d)
    ensures ReadFields(d, f) == f
  {
    if |d| == 1 { assert Skip(d, 2) == []; }
  }

  lemma {:induction false} ReadIes(ies: seq<Ie>, tail: Bytes, f: Fields)
    requires AllWellFormed(ies) && NoIe(tail)
    ensures ReadFields(WriteIes(ies) + tail, f) == TakeAll(ies, f)
    decreases |ies|
  {
    if ies == [] {
      assert WriteIes(ies) + tail == tail;
      ReadNothing(tail, f);
    } else {
      ReadOneIe(ies[0], WriteIes(ies[1..]) + tail, f);
      ReadIes(ies[1..], tail, Take(ies[0], f));
      TakeAllFront(ies, f);
      hide ReadFields, Take, TakeAll, WriteIe;
      assert WriteIes(ies) + tail == WriteIe(ies[0]) + (WriteIes(ies[1..]) + tail);
    }
  }

  lemma {:induction false} WriteIesFront(ie: Ie, ies: seq<Ie>)
    requires WellFormed(ie) && AllWellFormed(ies)
    ensures AllWellFormed([ie] + ies) && WriteIes([ie] + ies) == WriteIe(ie) + WriteIes(ies)
  {
    assert ([ie] + ies)[1..] == ies;
  }

  lemma WrittenTlv(iei: bv8, b: bv8, v: Bytes)
    requires WellFormed(Tlv(iei, v)) && |v| == ByteValue(b)
    ensures WriteIe(Tlv(iei, v)) == [iei, b] + v
  {
    SameByte(b);
    hide ByteValue;
  }

  lemma FirstTlv(d: Bytes) returns (ie: Ie, rest: Bytes)
    requires !NoIe(d) && !IsHalfOctet(d[0]) && d[0] != 0x12 && d[0] != 0x59
    ensures WellFormed(ie) && d == WriteIe(ie) + rest && |rest| < |d|
  {
    hide ByteValue, IsHalfOctet, WriteIe;
    var n := ByteValue(d[1]);
    ie, rest := Tlv(d[0], d[2..2 + n]), d[2 + n..];
    WrittenTlv(d[0], d[1], d[2..2 + n]);
    InThree(d, 2, 2 + n);
    assert d[..2] == [d[0], d[1]];
  }

  /** The element in front, when there is one. */
  lemma FirstIe(d: Bytes) returns (ie: Ie, rest: Bytes)
    requires !NoIe(d)
    ensures WellFormed(ie) && d == WriteIe(ie) + rest && |rest| < |d|
  {
    hide ByteValue, IsHalfOctet;
    if IsHalfOctet(d[0]) {
      ie, rest := HalfOctet(d[0]), d[1..];
    } else if d[0] == 0x12 {
      assert |d| == 1 ==> d == [0x12];
      ie, rest := SessionId(d[1]), d[2..];
    } else if d[0] == 0x59 {
      assert |d| == 1 ==> d == [0x59];
      ie, rest := OldSessionId(d[1]), d[2..];
    } else {
      hide WriteIe, NoIe, WellFormed;
      ie, rest := FirstTlv(d);
    }
  }

  /** Every byte string is a list of well-formed elements followed by something that is none. */
  lemma {:induction false} SplitIes(d: Bytes) returns (ies: seq<Ie>, tail: Bytes)
    ensures AllWellFormed(ies) && NoIe(tail) && d == WriteIes(ies) + tail
    decreases |d|
  {
    hide WriteIe, WellFormed;
    if NoIe(d) {
      ies, tail := [], d;
    } else {
      var ie, rest := FirstIe(d);
      hide NoIe;
      var more, end := SplitIes(rest);
      WriteIesFront(ie, more);
      hide WriteIes;
      ies, tail := [ie] + more, end;
      assert WriteIe(ie) + (WriteIes(more) + tail) == WriteIe(ie) + WriteIes(more) + tail;
    }
  }

  lemma {:induction false} TakeAllIsLast(ies: seq<Ie>)
    ensures TakeAll(ies, NO_FIELDS) == LastFields(ies)
  {
    if ies != [] {
      TakeAllIsLast(ies[..|ies| - 1]);
    }
  }

  /** The bytes of a message: header, container with its two-byte length, optional elements. */
  function WriteUlNasTransport(secHdr: bv8, containerType: bv8, payload: Bytes, ies: seq<Ie>): Bytes
    requires |payload| < 65536 && AllWellFormed(ies)
  {
    [EPD_5GMM, secHdr, UL_NAS_TRANSPORT, containerType, (|payload| / 256) as bv8, (|payload| % 256) as bv8]
    + payload + WriteIes(ies)
  }

  lemma ReadContainer(secHdr: bv8, containerType: bv8, hi: bv8, lo: bv8, payload: Bytes, rest: Bytes)
    requires Len16(hi, lo) == |payload|
    ensures ReadUlNasTransport([EPD_5GMM, secHdr, UL_NAS_TRANSPORT, containerType, hi, lo] + payload + rest)
            == Some(UlNasTransport(containerType & 0x0F, payload, ReadFields(rest, NO_FIELDS)))
  {
    hide Len16, ReadFields;
    var data := [EPD_5GMM, secHdr, UL_NAS_TRANSPORT, containerType, hi, lo] + payload + rest;
    assert data[6..6 + |payload|] == payload && data[6 + |payload|..] == rest;
  }

  /** Decoding returns the container unchanged and, of every optional field, the last occurrence in the list; half-octet,
      fixed-length and unknown elements in between are skipped, and so is a tail that is cut short. */
  lemma {:induction false} UlNasTransportDecoded(secHdr: bv8, containerType: bv8, payload: Bytes, ies: seq<Ie>, tail: Bytes)
    requires |payload| < 65536 && AllWellFormed(ies) && NoIe(tail)
    ensures ReadUlNasTransport(WriteUlNasTransport(secHdr, containerType, payload, ies) + tail)
            == Some(UlNasTransport(containerType & 0x0F, payload, LastFields(ies)))
  {
    hide ReadFields, WriteIes, LastFields, NoIe;
    var data, rest := WriteUlNasTransport(secHdr, containerType, payload, ies) + tail, WriteIes(ies) + tail;
    var hi, lo := (|payload| / 256) as bv8, (|payload| % 256) as bv8;
    assert data == [EPD_5GMM, secHdr, UL_NAS_TRANSPORT, containerType, hi, lo] + payload + rest;
    LengthInTwoBytes(|payload|);
    ReadContainer(secHdr, containerType, hi, lo, payload, rest);
    ReadIes(ies, tail, NO_FIELDS);
    TakeAllIsLast(ies);
  }

  /** Arbitrary bytes are refused exactly when they are shorter than their header and container, or of another kind; otherwise they
      are the message of some list of elements, and decode to what it means. */
  lemma UlNasTransportOnBytes(data: Bytes) returns (ies: seq<Ie>, tail: Bytes)
    ensures AllWellFormed(ies) && NoIe(tail)
    ensures ReadUlNasTransport(data).None? <==>
              |data| < 6 || data[0] != 0x7E || data[2] != 0x67 || |data| < 6 + Len16(data[4], data[5])
    ensures ReadUlNasTransport(data).Some? ==>
              var n := Len16(data[4], data[5]);
              && data[6 + n..] == WriteIes(ies) + tail
              && ReadUlNasTransport(data) == Some(UlNasTransport(data[3] & 0x0F, data[6..6 + n], LastFields(ies)))
  {
    hide Len16, ReadFields, WriteIes, LastFields, NoIe;
    if ReadUlNasTransport(data).Some? {
      ies, tail := SplitIes(data[6 + Len16(data[4], data[5])..]);
      ReadIes(ies, tail, NO_FIELDS);
      TakeAllIsLast(ies);
    } else {
      ies, tail := SplitIes([]);
    }
  }

  /** What the last S-NSSAI element of a list means, and the last DNN element. */
  lemma LastFieldsMean(ies: seq<Ie>)
    ensures var snssai, f := LastValue(ies, 0x22), LastFields(ies);
            && (snssai.None? ==> f.snssai.None?)
            && (snssai.Some? ==> snssai.value != [] && f.snssai.Some? && Means(snssai.value, f.snssai.value))
    ensures LastValue(ies, 0x25).None? ==> LastFields(ies).dnn == []
    ensures LastValue(ies, 0x25).Some? ==> LastFields(ies).dnn == ReadDnn(LastValue(ies, 0x25).value, [])
  {
    LastValueNotEmpty(ies, 0x22);
    if LastValue(ies, 0x22).Some? { NssaiOfMeans(LastValue(ies, 0x22).value); }
    hide ReadDnn, NssaiOf, LastValue;
  }

  lemma {:induction false} LastValueNotEmpty(ies: seq<Ie>, iei: bv8)
    ensures LastValue(ies, iei).Some? ==> LastValue(ies, iei).value != []
  {
    if ies != [] { LastValueNotEmpty(ies[..|ies| - 1], iei); }
  }
}
