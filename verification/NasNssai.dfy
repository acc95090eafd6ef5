/** S-NSSAI lists: length-value entries of SST alone or SST and SD. */
module NasNssai {
  import opened Text
  import opened Octets
  import opened NasBase

  type Sd = s: Bytes | |s| == 3 witness [0, 0, 0]

  const NO_SD: Sd := [0, 0, 0]

  datatype Nssai = Nssai(sst: bv8, sd: Sd, hasSd: bool)

  /** The value part of one S-NSSAI: SST alone, or SST and SD when there are four bytes or more. */
  function NssaiOf(v: Bytes): Nssai
    requires |v| >= 1
  {
    if |v| >= 4 then Nssai(v[0], v[1..4], true) else Nssai(v[0], NO_SD, false)
  }

  /** A list of length-value entries, up to the first one that is empty or does not fit. */
  function ReadNssais(d: Bytes): seq<Nssai> {
    if d == [] then []
    else
      var n := ByteValue(d[0]);
      if n < 1 || 1 + n > |d| then [] else [NssaiOf(d[1..1 + n])] + ReadNssais(d[1 + n..])
  }

  lemma {:induction false} ReadNssaisAt(data: Bytes, i: nat)
    requires i < |data|
    ensures var n := ByteValue(data[i]);
            ReadNssais(Rest(data, i)) ==
            if n < 1 || i + 1 + n > |data| then []
            else [NssaiOf(data[i + 1..i + 1 + n])] + ReadNssais(Rest(data, i + 1 + n))
  {
    var n, d := ByteValue(data[i]), Rest(data, i);
    assert d[0] == data[i] && |d| == |data| - i;
    hide ByteValue, NssaiOf, Rest;
    if n >= 1 && i + 1 + n <= |data| {
      SliceOfRest(data, i, 1, 1 + n);
    }
  }

  /** One entry of a list. */
  method DecodeNssai(v: Bytes) returns (n: Nssai)
    requires |v| >= 1
    ensures n == NssaiOf(v)
  {
    n := Nssai(v[0], NO_SD, false);
    if |v| >= 4 {
      n := n.(hasSd := true, sd := v[1..4]);
    }
  }

  lemma RestEnds(data: Bytes)
    ensures Rest(data, 0) == data && Rest(data, |data|) == []
  {
  }

  /** One round of the loop: what was read so far and what is left to read. */
  lemma OneEntryRead(data: Bytes, i: nat, list: seq<Nssai>, whole: seq<Nssai>)
    requires i < |data| && whole == list + ReadNssais(Rest(data, i))
    ensures var n := ByteValue(data[i]);
            if n < 1 || i + 1 + n > |data| then whole == list
            else whole == list + [NssaiOf(data[i + 1..i + 1 + n])] + ReadNssais(Rest(data, i + 1 + n))
  {
    hide ByteValue, ReadNssais, Rest, NssaiOf;
    ReadNssaisAt(data, i);
    var n := ByteValue(data[i]);
    if n >= 1 && i + 1 + n <= |data| {
      Concatenate(list, [NssaiOf(data[i + 1..i + 1 + n])], ReadNssais(Rest(data, i + 1 + n)));
    }
  }

  method DecodeNssaiList(data: Bytes) returns (list: seq<Nssai>)
    ensures list == ReadNssais(data)
  {
    hide ByteValue, ReadNssais, Rest, NssaiOf;
    RestEnds(data);
    ReadNssaisEnd();
    list := [];
    var i := 0;
    assert list + ReadNssais(data) == ReadNssais(data);
    while i < |data|
      invariant 0 <= i <= |data|
      invariant ReadNssais(data) == list + ReadNssais(Rest(data, i))
    {
      OneEntryRead(data, i, list, ReadNssais(data));
      var sLen := ByteValue(data[i]);
      i := i + 1;
      if i + sLen > |data| || sLen < 1 {
        return;
      }
      var n := DecodeNssai(data[i..i + sLen]);
      list := list + [n];
      i := i + sLen;
    }
  }

  lemma ReadNssaisEnd()
    ensures ReadNssais([]) == []
  {
  }

  function WriteNssai(n: Nssai): Bytes {
    if n.hasSd then [4, n.sst] + n.sd else [1, n.sst]
  }

  function WriteNssais(xs: seq<Nssai>): Bytes {
    if xs == [] then [] else WriteNssai(xs[0]) + WriteNssais(xs[1..])
  }

  lemma {:induction false} WriteNssaisAppend(xs: seq<Nssai>, n: Nssai)
    ensures WriteNssais(xs + [n]) == WriteNssais(xs) + WriteNssai(n)
  {
    if xs == [] {
      assert [n][1..] == [];
      assert xs + [n] == [n];
    } else {
      assert (xs + [n])[1..] == xs[1..] + [n];
      WriteNssaisAppend(xs[1..], n);
    }
  }

  method EncodeNssaiList(nssais: seq<Nssai>) returns (out: Bytes)
    ensures out == WriteNssais(nssais)
  {
    out := [];
    assert WriteNssais([]) == [];
    hide WriteNssais;
    for i := 0 to |nssais|
      invariant out == WriteNssais(nssais[..i])
    {
      var n := nssais[i];
      assert nssais[..i + 1] == nssais[..i] + [n];
      WriteNssaisAppend(nssais[..i], n);
      if n.hasSd {
        assert WriteNssai(n) == [4, n.sst, n.sd[0], n.sd[1], n.sd[2]];
        out := out + [4, n.sst, n.sd[0], n.sd[1], n.sd[2]];
      } else {
        out := out + [1, n.sst];
      }
    }
    assert nssais[..|nssais|] == nssais;
  }

  /** What the wire format keeps of an entry: an SD that is not flagged is not carried. */
  function Carried(n: Nssai): Nssai {
    if n.hasSd then n else n.(sd := NO_SD)
  }

  function CarriedAll(xs: seq<Nssai>): seq<Nssai> {
    if xs == [] then [] else [Carried(xs[0])] + CarriedAll(xs[1..])
  }

  lemma {:induction false} ReadOneNssai(n: Nssai, rest: Bytes)
    ensures ReadNssais(WriteNssai(n) + rest) == [Carried(n)] + ReadNssais(rest)
  {
    ByteValueOf(1);
    ByteValueOf(4);
    var d := WriteNssai(n) + rest;
    var k := if n.hasSd then 4 else 1;
    assert ByteValue(d[0]) == k;
    assert d[1 + k..] == rest;
    if n.hasSd {
      assert d[1..5][1..4] == n.sd;
    }
  }

  lemma {:induction false} NssaiListDecoded(xs: seq<Nssai>)
    ensures ReadNssais(WriteNssais(xs)) == CarriedAll(xs)
  {
    if xs != [] {
      NssaiListDecoded(xs[1..]);
      ReadOneNssai(xs[0], WriteNssais(xs[1..]));
    }
  }

  lemma {:induction false} CarriedIffNoHiddenSd(xs: seq<Nssai>)
    ensures CarriedAll(xs) == xs <==> forall i :: 0 <= i < |xs| && !xs[i].hasSd ==> xs[i].sd == NO_SD
  {
    if xs != [] {
      CarriedIffNoHiddenSd(xs[1..]);
      var c := CarriedAll(xs);
      assert c[0] == Carried(xs[0]) && c[1..] == CarriedAll(xs[1..]);
      assert xs == [xs[0]] + xs[1..];
      assert forall i :: 0 < i < |xs| ==> xs[i] == xs[1..][i - 1];
      if forall i :: 0 <= i < |xs[1..]| && !xs[1..][i].hasSd ==> xs[1..][i].sd == NO_SD {
        assert CarriedAll(xs[1..]) == xs[1..];
      }
    }
  }

  /** Decoding inverts encoding exactly on the lists whose unflagged entries have a zero SD. */
  lemma {:induction false} NssaiListRoundTrip(xs: seq<Nssai>)
    ensures ReadNssais(WriteNssais(xs)) == xs <==> forall i :: 0 <= i < |xs| && !xs[i].hasSd ==> xs[i].sd == NO_SD
  {
    NssaiListDecoded(xs);
    CarriedIffNoHiddenSd(xs);
  }

  lemma {:induction false} ReadNssaisAreCarried(d: Bytes)
    ensures CarriedAll(ReadNssais(d)) == ReadNssais(d)
  {
    if d != [] {
      var n := ByteValue(d[0]);
      if n >= 1 && 1 + n <= |d| {
        ReadNssaisAreCarried(d[1 + n..]);
        var xs := ReadNssais(d);
        assert xs[1..] == ReadNssais(d[1 + n..]);
      }
    }
  }

  /** On arbitrary bytes, encoding what was decoded and decoding again changes nothing. */
  lemma {:induction false} NssaiDecodeStable(d: Bytes)
    ensures ReadNssais(WriteNssais(ReadNssais(d))) == ReadNssais(d)
  {
    NssaiListDecoded(ReadNssais(d));
    ReadNssaisAreCarried(d);
  }

  // ---- arbitrary bytes ---------------------------------------------------------------------------------

  /** One decoded entry: the first byte is the SST, and the next three are the SD when there are at least four. */
  ghost predicate Means(v: Bytes, n: Nssai)
    requires v != []
  {
    && n.sst == v[0] && (n.hasSd <==> |v| >= 4)
    && n.sd == if |v| >= 4 then [v[1], v[2], v[3]] else [0, 0, 0]
  }

  lemma NssaiOfMeans(v: Bytes)
    requires v != []
    ensures Means(v, NssaiOf(v))
  {
    if |v| >= 4 { assert v[1..4] == [v[1], v[2], v[3]]; }
  }

  lemma {:induction false} ReadFirstEntry(v: Bytes, rest: Bytes)
    requires 1 <= |v| < 256
    ensures ReadNssais(WriteEntry(v) + rest) == [NssaiOf(v)] + ReadNssais(rest)
  {
    var d := WriteEntry(v) + rest;
    ByteValueOf(|v|);
    hide ByteValue, NssaiOf;
    assert d[1..1 + |v|] == v && d[1 + |v|..] == rest;
  }

  lemma ReadNoEntry(tail: Bytes)
    requires NoEntry(tail)
    ensures ReadNssais(tail) == []
  {
  }

  lemma {:induction false} EntriesDecoded(vs: seq<Bytes>, tail: Bytes)
    requires Entries(vs) && NoEntry(tail)
    ensures var list := ReadNssais(WriteEntries(vs) + tail);
            |list| == |vs| && forall i :: 0 <= i < |vs| ==> Means(vs[i], list[i])
    decreases |vs|
  {
    hide ReadNssais, NssaiOf, Means, NoEntry, WriteEntry, WriteEntries;
    EntriesThen(vs, tail);
    if vs == [] {
      ReadNoEntry(tail);
    } else {
      EntriesDecoded(vs[1..], tail);
      NssaiOfMeans(vs[0]);
      ReadFirstEntry(vs[0], WriteEntries(vs[1..]) + tail);
    }
  }

  /** Arbitrary bytes decode to one S-NSSAI per entry, of whatever length, up to the first that is empty or does not fit. */
  lemma NssaiListOnBytes(d: Bytes) returns (vs: seq<Bytes>, tail: Bytes)
    ensures Entries(vs) && NoEntry(tail) && d == WriteEntries(vs) + tail
    ensures |ReadNssais(d)| == |vs| && forall i :: 0 <= i < |vs| ==> Means(vs[i], ReadNssais(d)[i])
  {
    vs, tail := SplitEntries(d);
    EntriesDecoded(vs, tail);
  }

  /** The layout that the encoder writes, entry by entry. */
  lemma WrittenAsEntries(n: Nssai)
    ensures WriteNssai(n) == if n.hasSd then [4, n.sst, n.sd[0], n.sd[1], n.sd[2]] else [1, n.sst]
  {
  }
}
