/** What all NAS decoders share: byte strings, lengths, offsets, and the security header around a message. */
module NasBase {
  import opened Text
  import opened Octets

  const EPD_5GMM: bv8 := 0x7E
  const REGISTRATION_REQUEST: bv8 := 0x41
  const AUTHENTICATION_RESPONSE: bv8 := 0x57
  const UL_NAS_TRANSPORT: bv8 := 0x67
  const SUCI: bv8 := 0x01
  const GUTI: bv8 := 0x02

  /** The bytes from an offset on; none behind the end. */
  function Rest(data: Bytes, offset: nat): Bytes {
    if offset <= |data| then data[offset..] else []
  }

  lemma SliceOfRest(data: Bytes, offset: nat, a: nat, b: nat)
    requires a <= b && offset + b <= |data|
    ensures Rest(data, offset)[a..b] == data[offset + a..offset + b]
    ensures Rest(data, offset)[b..] == Rest(data, offset + b)
  {
  }

  function Len16(hi: bv8, lo: bv8): nat { 256 * ByteValue(hi) + ByteValue(lo) }

  /** A length in two bytes, the higher first. */
  lemma LengthInTwoBytes(n: nat)
    requires n < 65536
    ensures Len16((n / 256) as bv8, (n % 256) as bv8) == n
  {
    ByteValueOf(n / 256);
    ByteValueOf(n % 256);
    hide ByteValue;
  }

  function Skip(d: Bytes, n: nat): (r: Bytes)
    ensures |d| > 0 && n > 0 ==> |r| < |d|
  {
    if n <= |d| then d[n..] else []
  }

  lemma SkipOfRest(data: Bytes, offset: nat, n: nat)
    requires offset <= |data|
    ensures Skip(Rest(data, offset), n) == Rest(data, offset + n)
  {
  }

  lemma Concatenate<T>(a: seq<T>, b: seq<T>, c: seq<T>)
    ensures a + (b + c) == a + b + c
  {
  }

  lemma InThree(d: Bytes, a: nat, b: nat)
    requires a <= b <= |d|
    ensures d == d[..a] + d[a..b] + d[b..]
  {
  }

  // ---- security header ---------------------------------------------------------------------------

  function StripSecurityHeader(data: Bytes): Bytes {
    if |data| < 2 || data[1] & 0x0F == 0 || |data| <= 7 then data else data[7..]
  }

  /** EPD, security header type, MAC, sequence number and the plain message. */
  function Protected(secHdrType: bv8, mac: Bytes, sqn: bv8, inner: Bytes): Bytes {
    [EPD_5GMM, secHdrType] + mac + [sqn] + inner
  }

  function WrapSecurityHeader(inner: Bytes, secHdrType: bv8, sqn: bv8): Bytes {
    Protected(secHdrType, [0, 0, 0, 0], sqn, inner)
  }

  /** Stripping undoes protection exactly when the header type is not plain and the inner message not empty. */
  lemma StripUndoesProtection(secHdrType: bv8, mac: Bytes, sqn: bv8, inner: Bytes)
    requires |mac| == 4
    ensures StripSecurityHeader(Protected(secHdrType, mac, sqn, inner)) == inner
            <==> secHdrType & 0x0F != 0 && inner != []
    ensures Protected(secHdrType, mac, sqn, inner)[6] == sqn
  {
    var p := Protected(secHdrType, mac, sqn, inner);
    assert p[1] == secHdrType && |p| == 7 + |inner| && p[7..] == inner;
  }

  /** A message that is plain, or too short to be protected, is left alone; of any other the seven bytes of the header go,
      whatever they are. */
  lemma StripOnBytes(data: Bytes)
    ensures var s := StripSecurityHeader(data);
            if |data| <= 7 || data[1] & 0x0F == 0 then s == data else |s| == |data| - 7 && data == data[..7] + s
  {
  }

  // ---- lists of length-value entries -----------------------------------------------------------------

  ghost predicate Entries(vs: seq<Bytes>) { forall i :: 0 <= i < |vs| ==> 1 <= |vs[i]| < 256 }

  function WriteEntry(v: Bytes): Bytes
    requires 1 <= |v| < 256
  {
    [|v| as bv8] + v
  }

  function WriteEntries(vs: seq<Bytes>): Bytes
    requires Entries(vs)
  {
    if vs == [] then [] else WriteEntry(vs[0]) + WriteEntries(vs[1..])
  }

  /** Nothing more can be read: the end, an empty entry, or one that does not fit. */
  predicate NoEntry(d: Bytes) {
    d == [] || ByteValue(d[0]) == 0 || |d| < 1 + ByteValue(d[0])
  }

  lemma EntriesThen(vs: seq<Bytes>, tail: Bytes)
    requires Entries(vs)
    ensures vs == [] ==> WriteEntries(vs) + tail == tail
    ensures vs != [] ==> WriteEntries(vs) + tail == WriteEntry(vs[0]) + (WriteEntries(vs[1..]) + tail)
  {
    hide WriteEntry;
  }

  lemma WrittenEntry(v: Bytes, b: bv8)
    requires |v| == ByteValue(b) > 0
    ensures WriteEntry(v) == [b] + v
  {
    SameByte(b);
    hide ByteValue;
  }

  /** The entry in front, when there is one. */
  lemma FirstEntry(d: Bytes) returns (v: Bytes, rest: Bytes)
    requires !NoEntry(d)
    ensures 1 <= |v| < 256 && d == WriteEntry(v) + rest && |rest| < |d|
  {
    hide ByteValue, WriteEntry;
    var n := ByteValue(d[0]);
    v, rest := d[1..1 + n], d[1 + n..];
    WrittenEntry(v, d[0]);
    InThree(d, 1, 1 + n);
    assert d[..1] == [d[0]];
  }

  lemma SameByte(b: bv8)
    ensures ByteValue(b) as bv8 == b
  {
  }

  /** Every byte string is a list of entries followed by something that is none. */
  lemma {:induction false} SplitEntries(d: Bytes) returns (vs: seq<Bytes>, tail: Bytes)
    ensures Entries(vs) && NoEntry(tail) && d == WriteEntries(vs) + tail
    decreases |d|
  {
    hide WriteEntry, NoEntry;
    if NoEntry(d) {
      vs, tail := [], d;
    } else {
      var v, rest := FirstEntry(d);
      var more, end := SplitEntries(rest);
      vs, tail := [v] + more, end;
      assert vs[1..] == more;
      EntriesThen(vs, tail);
    }
  }
}
