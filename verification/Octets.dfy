/** Byte strings and the numbers they stand for. */
module Octets {
  import opened Arith

  type Bytes = seq<bv8>

  function Pow256(n: nat): (p: nat)
    ensures p >= 1
  {
    if n == 0 then 1 else 256 * Pow256(n - 1)
  }

  function ByteValue(b: bv8): (n: nat)
    ensures n < 256
  {
    b as int
  }

  /** A byte string as a big-endian number. */
  function Value(b: Bytes): nat {
    if b == [] then 0 else ByteValue(b[0]) * Pow256(|b| - 1) + Value(b[1..])
  }

  lemma LeadingByte(d: nat, p: nat, v: nat)
    requires d < 256 && v < p
    ensures d * p + v < 256 * p
  {
    assert d * p <= 255 * p;
  }

  lemma {:induction false} ValueBound(b: Bytes)
    ensures Value(b) < Pow256(|b|)
  {
    hide ByteValue;
    if b != [] {
      ValueBound(b[1..]);
      LeadingByte(ByteValue(b[0]), Pow256(|b| - 1), Value(b[1..]));
    }
  }

  lemma ByteValueOf(n: nat)
    requires n < 256
    ensures ByteValue(n as bv8) == n
  {
  }

  lemma AppendPlaces(d: int, p: int, vt: int, vs: int, c: int)
    requires vs == 256 * vt + c
    ensures d * (256 * p) + vs == 256 * (d * p + vt) + c
  {
    assert d * (256 * p) == 256 * (d * p);
  }

  lemma {:induction false} ValueAppend(b: Bytes, c: bv8)
    ensures Value(b + [c]) == 256 * Value(b) + ByteValue(c)
  {
    hide ByteValue;
    var s := b + [c];
    if b == [] {
      assert s == [c] && [c][1..] == [];
      assert Value([c]) == ByteValue(c) * Pow256(0) + Value([]);
    } else {
      assert s[1..] == b[1..] + [c] && s[0] == b[0];
      ValueAppend(b[1..], c);
      assert Pow256(|s| - 1) == 256 * Pow256(|b| - 1);
      AppendPlaces(ByteValue(b[0]), Pow256(|b| - 1), Value(b[1..]), Value(s[1..]), ByteValue(c));
    }
  }

  /** The last k bytes of a number, big-endian. */
  function BigEndian(n: nat, k: nat): (b: Bytes)
    ensures |b| == k
  {
    if k == 0 then [] else BigEndian(n / 256, k - 1) + [(n % 256) as bv8]
  }

  lemma {:induction false} ValueOfBigEndian(n: nat, k: nat)
    ensures Value(BigEndian(n, k)) == n % Pow256(k)
  {
    if k > 0 {
      ValueOfBigEndian(n / 256, k - 1);
      ValueAppend(BigEndian(n / 256, k - 1), (n % 256) as bv8);
      ByteValueOf(n % 256);
      hide Value, BigEndian, ByteValue;
      ModByPlaces(n, Pow256(k - 1));
    }
  }

  lemma ModByPlaces(n: nat, p: nat)
    requires p >= 1
    ensures 256 * ((n / 256) % p) + n % 256 == n % (256 * p)
  {
    var m, q := (n / 256) % p, (n / 256) / p;
    assert n / 256 == q * p + m;
    assert n == 256 * (q * p + m) + n % 256;
    assert 256 * (q * p) == q * (256 * p);
    ModOfSum(n, 256 * m + n % 256, q, 256 * p);
  }
}
