/** AES-CMAC (sections 2.3 and 2.4 of RFC 4493) under the 128-EIA2 framing (Annex B.2.3 of TS 33.401), over an
    arbitrary block cipher. */
module Cmac {
  import opened Text
  import opened Arith
  import opened Octets

  const BLOCK := 16

  type Block = b: seq<bv8> | |b| == 16 witness [0, 0, 0, 0, 0, 0, 0, 0, 0, 0, 0, 0, 0, 0, 0, 0]

  /** The block cipher under a fixed key. */
  type Cipher = Block -> Block

  function Zeros(n: nat): (z: seq<bv8>)
    ensures |z| == n && forall i :: 0 <= i < n ==> z[i] == 0
  {
    if n == 0 then [] else Zeros(n - 1) + [0]
  }

  const ZERO: Block := Zeros(BLOCK)

  // ---- the definition -------------------------------------------------------------------

  function Xor(a: Block, b: Block): Block {
    seq(BLOCK, i requires 0 <= i < BLOCK => a[i] ^ b[i])
  }

  function Shift(b: seq<bv8>): (s: seq<bv8>)
    ensures |s| == |b|
  {
    if |b| == 0 then []
    else if |b| == 1 then [b[0] << 1]
    else [(b[0] << 1) | (b[1] >> 7)] + Shift(b[1..])
  }

  /** One step of subkey generation: shift, and fold the carried bit back in with Rb = 0x87. */
  function Double(b: Block): Block {
    var s := Shift(b);
    if b[0] & 0x80 != 0 then s[15 := s[15] ^ 0x87] else s
  }

  function K1(e: Cipher): Block { Double(e(ZERO)) }

  function K2(e: Cipher): Block { Double(K1(e)) }

  /** The padding of a last block that is not complete. */
  function Pad(m: seq<bv8>): (b: Block)
    requires |m| < BLOCK
  {
    m + [0x80] + Zeros(BLOCK - 1 - |m|)
  }

  /** CBC-MAC from chaining value x over a message: full blocks first, then the last one under its subkey. */
  function Chain(e: Cipher, x: Block, m: seq<bv8>): Block
    decreases |m|
  {
    if |m| > BLOCK then Chain(e, e(Xor(x, m[..BLOCK])), m[BLOCK..])
    else if |m| == BLOCK then e(Xor(x, Xor(m, K1(e))))
    else e(Xor(x, Xor(Pad(m), K2(e))))
  }

  /** AES-CMAC */
  function Tag(e: Cipher, m: seq<bv8>): Block { Chain(e, ZERO, m) }

  // ---- the code -----------------------------------------------------------------------------

  /** block.Encrypt(x, x) */
  method Encrypt(e: Cipher, x: array<bv8>)
    requires x.Length == BLOCK
    modifies x
    ensures x[..] == e(old(x[..]))
  {
    var out := e(x[..]);
    for i := 0 to BLOCK
      invariant forall j :: 0 <= j < i ==> x[j] == out[j]
    {
      x[i] := out[i];
    }
  }

  /** x[j] ^= b[j] for the sixteen bytes of b */
  method XorInto(x: array<bv8>, b: seq<bv8>)
    requires x.Length == BLOCK && |b| == BLOCK
    modifies x
    ensures x[..] == Xor(old(x[..]), b)
  {
    for j := 0 to BLOCK
      invariant forall k :: 0 <= k < j ==> x[k] == old(x[k]) ^ b[k]
      invariant forall k :: j <= k < BLOCK ==> x[k] == old(x[k])
    {
      x[j] := x[j] ^ b[j];
    }
  }

  lemma {:induction false} ShiftAt(b: seq<bv8>, i: nat)
    requires i < |b|
    ensures Shift(b)[i] == if i + 1 < |b| then (b[i] << 1) | (b[i + 1] >> 7) else b[i] << 1
  {
    if i > 0 {
      ShiftAt(b[1..], i - 1);
    }
  }

  method ShiftLeft(data: array<bv8>) returns (out: array<bv8>)
    requires data.Length >= 1
    ensures fresh(out) && out.Length == data.Length && out[..] == Shift(data[..])
  {
    out := new bv8[data.Length];
    var i := 0;
    while i < data.Length - 1
      invariant 0 <= i <= data.Length - 1
      invariant forall k :: 0 <= k < i ==> out[k] == (data[k] << 1) | (data[k + 1] >> 7)
    {
      out[i] := (data[i] << 1) | (data[i + 1] >> 7);
      i := i + 1;
    }
    out[data.Length - 1] := data[data.Length - 1] << 1;
    forall k | 0 <= k < data.Length ensures out[k] == Shift(data[..])[k] {
      ShiftAt(data[..], k);
    }
  }

  /** One subkey from the value before it: shift, and fold Rb into the last byte when the top bit was set. */
  method NextSubkey(l: array<bv8>) returns (k: array<bv8>)
    requires l.Length == BLOCK
    ensures fresh(k) && k.Length == BLOCK && k[..] == Double(l[..])
  {
    hide Shift;
    k := ShiftLeft(l);
    ghost var s := k[..];
    if l[0] & 0x80 != 0 {
      k[BLOCK - 1] := k[BLOCK - 1] ^ 0x87;
      assert k[..] == s[15 := s[15] ^ 0x87];
    }
  }

  method GenerateSubkeys(e: Cipher) returns (k1: array<bv8>, k2: array<bv8>)
    ensures fresh(k1) && fresh(k2) && k1.Length == BLOCK && k2.Length == BLOCK
    ensures k1[..] == K1(e) && k2[..] == K2(e)
  {
    hide Double, Zeros;
    var l := new bv8[BLOCK](_ => 0);
    assert l[..] == ZERO;
    Encrypt(e, l);
    k1 := NextSubkey(l);
    k2 := NextSubkey(k1);
  }

  /** A complete last block under K1. */
  method MaskComplete(block: seq<bv8>, k1: array<bv8>) returns (lastBlock: array<bv8>)
    requires |block| == BLOCK && k1.Length == BLOCK
    ensures fresh(lastBlock) && lastBlock.Length == BLOCK && lastBlock[..] == Xor(block, k1[..])
  {
    lastBlock := new bv8[BLOCK];
    for i := 0 to BLOCK
      invariant forall k :: 0 <= k < i ==> lastBlock[k] == block[k] ^ k1[k]
    {
      lastBlock[i] := block[i] ^ k1[i];
    }
  }

  /** A partial last block, padded, under K2. */
  method MaskPadded(tail: seq<bv8>, k2: array<bv8>) returns (lastBlock: array<bv8>)
    requires |tail| < BLOCK && k2.Length == BLOCK
    ensures fresh(lastBlock) && lastBlock.Length == BLOCK && lastBlock[..] == Xor(Pad(tail), k2[..])
  {
    var padded := new bv8[BLOCK](_ => 0);
    for i := 0 to |tail|
      invariant forall k :: 0 <= k < i ==> padded[k] == tail[k]
      invariant forall k :: i <= k < BLOCK ==> padded[k] == 0
    {
      padded[i] := tail[i];
    }
    padded[|tail|] := 0x80;
    assert padded[..] == Pad(tail);
    lastBlock := MaskComplete(padded[..], k2);
  }

  /** The last block of a message, prepared with its subkey. */
  function LastBlock(e: Cipher, m: seq<bv8>): Block
    requires |m| <= BLOCK
  {
    if |m| == BLOCK then Xor(m, K1(e)) else Xor(Pad(m), K2(e))
  }

  method PrepareLastBlock(e: Cipher, message: seq<bv8>, n: nat) returns (lastBlock: array<bv8>)
    requires n >= 1 && (n - 1) * BLOCK <= |message| <= n * BLOCK
    requires n > 1 ==> (n - 1) * BLOCK < |message|
    ensures fresh(lastBlock) && lastBlock.Length == BLOCK
    ensures lastBlock[..] == LastBlock(e, message[(n - 1) * BLOCK..])
  {
    hide K1, K2, Xor, Pad;
    var k1, k2 := GenerateSubkeys(e);
    var lastBlockComplete := |message| > 0 && |message| % BLOCK == 0;
    var start := (n - 1) * BLOCK;
    if lastBlockComplete {
      lastBlock := MaskComplete(message[start..], k1);
    } else {
      lastBlock := MaskPadded(message[start..], k2);
    }
  }

  /** aesCMAC: the loops compute the definition, for every message length and every cipher. */
  method AesCmac(e: Cipher, message: seq<bv8>) returns (x: array<bv8>)
    ensures fresh(x) && x.Length == BLOCK && x[..] == Tag(e, message)
  {
    hide K1, K2, Xor, Pad;
    var n := (|message| + BLOCK - 1) / BLOCK;
    if n == 0 {
      n := 1;
    }
    var lastBlock := PrepareLastBlock(e, message, n);
    x := new bv8[BLOCK](_ => 0);
    assert x[..] == ZERO && message[0..] == message;
    var i := 0;
    while i < n - 1
      invariant 0 <= i <= n - 1
      invariant Tag(e, message) == Chain(e, x[..], message[i * BLOCK..])
      invariant lastBlock[..] == LastBlock(e, message[(n - 1) * BLOCK..])
    {
      var start := i * BLOCK;
      var rest := message[start..];
      assert rest[..BLOCK] == message[start..start + BLOCK] && rest[BLOCK..] == message[(i + 1) * BLOCK..];
      XorInto(x, message[start..start + BLOCK]);
      Encrypt(e, x);
      i := i + 1;
    }
    XorInto(x, lastBlock[..]);
    Encrypt(e, x);
  }

  // ---- the tag byte by byte ---------------------------------------------------------------------

  ghost predicate XorsTo(b: Block, x: Block, y: seq<bv8>) {
    |y| == 16 && forall j :: 0 <= j < 16 ==> b[j] == x[j] ^ y[j]
  }

  /** Step 4 of section 2.4 of RFC 4493 on the bytes of the last block: a complete one under K1, one cut short with a one
      bit and zeros behind it under K2. */
  ghost predicate MaskedLast(e: Cipher, tail: seq<bv8>, l: Block) {
    if |tail| == 16 then XorsTo(l, K1(e), tail)
    else
      forall j :: 0 <= j < 16 ==>
        l[j] == K2(e)[j] ^ (if j < |tail| then tail[j] else if j == |tail| then 0x80 else 0)
  }

  /** Steps 5 and 6: chaining values x, cipher inputs b, and the masked last block l, over n blocks. */
  ghost predicate Chained(e: Cipher, m: seq<bv8>, n: nat, x: seq<Block>, b: seq<Block>, l: Block) {
    && n >= 1 && |x| == n + 1 && |b| == n && 16 * (n - 1) <= |m| <= 16 * n
    && (forall i :: 0 <= i < n ==> x[i + 1] == e(b[i]))
    && (forall i :: 0 <= i < n - 1 ==> XorsTo(b[i], x[i], m[16 * i..16 * i + 16]))
    && MaskedLast(e, m[16 * (n - 1)..], l) && XorsTo(b[n - 1], x[n - 1], l)
  }

  lemma XorIsXor(x: Block, y: Block)
    ensures XorsTo(Xor(x, y), x, y) && XorsTo(Xor(x, y), y, x)
  {
  }

  lemma LastIsMasked(e: Cipher, tail: seq<bv8>)
    requires |tail| <= 16
    ensures MaskedLast(e, tail, LastBlock(e, tail))
  {
    hide K1, K2;
    if |tail| == 16 {
      XorIsXor(tail, K1(e));
    } else {
      XorIsXor(Pad(tail), K2(e));
      assert forall j :: 0 <= j < 16 ==> Pad(tail)[j] == (if j < |tail| then tail[j] else if j == |tail| then 0x80 else 0);
      hide Pad, Xor;
    }
  }

  lemma ChainOfOne(e: Cipher, x0: Block, m: seq<bv8>)
    requires |m| <= 16
    ensures var l := LastBlock(e, m);
            Chain(e, x0, m) == e(Xor(x0, l)) && Chained(e, m, 1, [x0, Chain(e, x0, m)], [Xor(x0, l)], l)
  {
    LastIsMasked(e, m);
    XorIsXor(x0, LastBlock(e, m));
    assert m[0..] == m;
    hide Xor, Pad, K1, K2, MaskedLast;
  }

  lemma ChainedOneMore(e: Cipher, x0: Block, m: seq<bv8>, n: nat, x: seq<Block>, b: seq<Block>, l: Block)
    requires |m| > 16 && Chained(e, m[16..], n, x, b, l) && x[0] == e(Xor(x0, m[..16]))
    ensures Chained(e, m, n + 1, [x0] + x, [Xor(x0, m[..16])] + b, l)
  {
    var b0 := Xor(x0, m[..16]);
    XorIsXor(x0, m[..16]);
    hide Xor, MaskedLast, XorsTo;
    var x', b' := [x0] + x, [b0] + b;
    assert m[16 * n..] == m[16..][16 * (n - 1)..];
    forall i | 0 <= i < n + 1 ensures x'[i + 1] == e(b'[i]) {
      if i > 0 {
        var k := i - 1;
        assert x[k + 1] == e(b[k]);
      }
    }
    forall i | 0 <= i < n ensures XorsTo(b'[i], x'[i], m[16 * i..16 * i + 16]) {
      OneBlockOn(m, i);
      if i > 0 {
        var k := i - 1;
        assert XorsTo(b[k], x[k], m[16..][16 * k..16 * k + 16]);
      }
    }
  }

  lemma OneBlockOn(m: seq<bv8>, i: nat)
    requires 16 * i + 16 <= |m|
    ensures i == 0 ==> m[16 * i..16 * i + 16] == m[..16]
    ensures i > 0 ==> m[16 * i..16 * i + 16] == m[16..][16 * (i - 1)..16 * (i - 1) + 16]
  {
  }

  lemma {:induction false} ChainBySteps(e: Cipher, x0: Block, m: seq<bv8>) returns (n: nat, x: seq<Block>, b: seq<Block>, l: Block)
    ensures Chained(e, m, n, x, b, l) && x[0] == x0 && x[n] == Chain(e, x0, m)
    ensures n > 1 ==> 16 * (n - 1) < |m|
    decreases |m|
  {
    hide Chained, Xor;
    if |m| <= 16 {
      ChainOfOne(e, x0, m);
      n, l := 1, LastBlock(e, m);
      x, b := [x0, Chain(e, x0, m)], [Xor(x0, l)];
    } else {
      var n1, x1, b1, l1 := ChainBySteps(e, e(Xor(x0, m[..16])), m[16..]);
      ChainedOneMore(e, x0, m, n1, x1, b1, l1);
      n, x, b, l := n1 + 1, [x0] + x1, [Xor(x0, m[..16])] + b1, l1;
      assert |x1| == n1 + 1 by { ChainedLength(e, m[16..], n1, x1, b1, l1); }
    }
  }

  lemma ChainedLength(e: Cipher, m: seq<bv8>, n: nat, x: seq<Block>, b: seq<Block>, l: Block)
    requires Chained(e, m, n, x, b, l)
    ensures |x| == n + 1
  {
  }

  /** The tag of a message of any length is what the steps of RFC 4493 compute on its bytes: from a zero block, through the
      cipher, over all blocks but the last as they are, and over the last one masked. */
  lemma TagBySteps(e: Cipher, m: seq<bv8>) returns (n: nat, x: seq<Block>, b: seq<Block>, l: Block)
    ensures Chained(e, m, n, x, b, l) && Tag(e, m) == x[n]
    ensures n == if m == [] then 1 else (|m| + 15) / 16
    ensures forall j :: 0 <= j < 16 ==> x[0][j] == 0
  {
    n, x, b, l := ChainBySteps(e, ZERO, m);
  }

  // ---- shifting is doubling ------------------------------------------------------------------

  /** The bit that a doubling carries out. */
  function Carry(b: seq<bv8>): nat {
    if b == [] then 0 else ByteValue(b[0]) / 128
  }

  lemma ByteShiftModulo(b: bv8, c: bv8)
    ensures ByteValue((b << 1) | (c >> 7)) == (2 * ByteValue(b)) % 256 + ByteValue(c) / 128
    ensures ByteValue(b << 1) == (2 * ByteValue(b)) % 256
  {
  }

  lemma ByteShift(b: bv8, c: bv8)
    ensures ByteValue((b << 1) | (c >> 7)) + 256 * (ByteValue(b) / 128) == 2 * ByteValue(b) + ByteValue(c) / 128
    ensures ByteValue(b << 1) + 256 * (ByteValue(b) / 128) == 2 * ByteValue(b)
  {
    ByteShiftModulo(b, c);
    hide ByteValue;
  }

  lemma LeadingByteOfShift(b: seq<bv8>)
    requires b != []
    ensures ByteValue(Shift(b)[0]) + 256 * Carry(b) == 2 * ByteValue(b[0]) + Carry(b[1..])
    ensures Shift(b)[1..] == Shift(b[1..])
  {
    hide ByteValue;
    ByteShift(b[0], if |b| == 1 then 0 else b[1]);
  }

  lemma {:induction false} ShiftDoubles(b: seq<bv8>)
    ensures Value(Shift(b)) + Carry(b) * Pow256(|b|) == 2 * Value(b)
  {
    hide ByteValue, Shift;
    if b == [] {
      assert Shift(b) == [];
    } else {
      var s, t := Shift(b), b[1..];
      var p := Pow256(|t|);
      ShiftDoubles(t);
      LeadingByteOfShift(b);
      assert Value(s) == ByteValue(s[0]) * p + Value(Shift(t));
      AddPlaces(ByteValue(s[0]), Carry(b), ByteValue(b[0]), Carry(t), p, Value(Shift(t)), Value(t));
    }
  }

  lemma AddPlaces(s0: int, carry: int, b0: int, c: int, p: int, vs: int, vt: int)
    requires s0 + 256 * carry == 2 * b0 + c && vs + c * p == 2 * vt
    ensures s0 * p + vs + carry * (256 * p) == 2 * (b0 * p + vt)
  {
    assert (s0 + 256 * carry) * p == s0 * p + carry * (256 * p);
    assert (2 * b0 + c) * p == 2 * (b0 * p) + c * p;
  }

  /** shiftLeft doubles modulo 2^(8 n), for every byte string of n >= 1 bytes. */
  lemma ShiftIsDoubling(b: seq<bv8>)
    requires |b| >= 1
    ensures Value(Shift(b)) == (2 * Value(b)) % Pow256(|b|)
  {
    ShiftDoubles(b);
    ValueBound(Shift(b));
    hide Value, Shift, Carry, Pow256;
    ModOfSum(2 * Value(b), Value(Shift(b)), Carry(b), Pow256(|b|));
  }

  // ---- subkeys in GF(2^128) --------------------------------------------------------------------

  /** A polynomial over GF(2), as the set of its exponents. */
  type Poly = set<nat>

  function Plus(p: Poly, q: Poly): Poly { (p - q) + (q - p) }

  function TimesX(p: Poly): Poly { set i | i in p :: i + 1 }

  /** x^128 + x^7 + x^2 + x + 1 */
  const MODULUS: Poly := {128, 7, 2, 1, 0}

  /** Multiplication by x modulo the field polynomial. */
  function TimesXMod(p: Poly): Poly {
    var q := TimesX(p);
    if 128 in q then Plus(q, MODULUS) else q
  }

  predicate Bit(b: bv8, k: nat)
    requires k < 8
  {
    (b >> k) & 1 == 1
  }

  /** Coefficient i of a block: bit 0 is the lowest bit of the last byte. */
  predicate Coefficient(b: Block, i: nat)
    requires i < 128
  {
    Bit(b[15 - i / 8], i % 8)
  }

  function ToPoly(b: Block): Poly { set i | 0 <= i < 128 && Coefficient(b, i) }

  lemma BitOfShift(b: bv8, c: bv8, k: nat)
    requires k < 8
    ensures Bit((b << 1) | (c >> 7), k) == if k == 0 then Bit(c, 7) else Bit(b, k - 1)
    ensures Bit(b << 1, k) == (k != 0 && Bit(b, k - 1))
  {
  }

  lemma BitOfXor(b: bv8, k: nat)
    requires k < 8
    ensures Bit(b ^ 0x87, k) == if k == 7 || k == 2 || k == 1 || k == 0 then !Bit(b, k) else Bit(b, k)
  {
    if k == 0 {} else if k == 1 {} else if k == 2 {} else if k == 3 {}
    else if k == 4 {} else if k == 5 {} else if k == 6 {} else {}
  }

  lemma CoefficientOfShift(b: Block, i: nat)
    requires i < 128
    ensures Coefficient(Shift(b), i) == (i > 0 && Coefficient(b, i - 1))
  {
    var j := 15 - i / 8;
    ShiftAt(b, j);
    hide Shift;
    if j < 15 {
      BitOfShift(b[j], b[j + 1], i % 8);
    } else {
      BitOfShift(b[j], 0, i % 8);
    }
    hide Bit;
    if i > 0 {
      if i % 8 == 0 {
        assert (i - 1) / 8 == i / 8 - 1 && (i - 1) % 8 == 7;
      } else {
        assert (i - 1) / 8 == i / 8 && (i - 1) % 8 == i % 8 - 1;
      }
    }
  }

  lemma TopCoefficient(b: Block)
    ensures Coefficient(b, 127) == (b[0] & 0x80 != 0)
  {
    assert 127 / 8 == 15 && 127 % 8 == 7;
  }

  lemma CoefficientOfFold(s: Block, i: nat)
    requires i < 128
    ensures Coefficient(s[15 := s[15] ^ 0x87], i) == (Coefficient(s, i) != (i in {7, 2, 1, 0}))
  {
    BitOfXor(s[15], i % 8);
    hide Bit;
    if i < 8 {
      assert i / 8 == 0 && i % 8 == i;
    } else {
      assert 15 - i / 8 < 15;
    }
  }

  lemma CoefficientOfDouble(b: Block, i: nat)
    requires i < 128
    ensures Coefficient(Double(b), i) ==
            ((i > 0 && Coefficient(b, i - 1)) != (Coefficient(b, 127) && i in {7, 2, 1, 0}))
  {
    CoefficientOfShift(b, i);
    TopCoefficient(b);
    CoefficientOfFold(Shift(b), i);
    hide Coefficient, Shift;
  }

  lemma MemberOfTimesX(p: Poly, i: nat)
    ensures i in TimesX(p) <==> i > 0 && i - 1 in p
  {
    if i > 0 { assert i - 1 in p ==> (i - 1) + 1 in TimesX(p); }
  }

  lemma MemberOfReduced(q: Poly, i: nat)
    ensures i in (if 128 in q then Plus(q, MODULUS) else q) <==>
            (i in q) != (128 in q && (i == 128 || i == 7 || i == 2 || i == 1 || i == 0))
  {
  }

  lemma MemberOfTimesXMod(b: Block, i: nat)
    ensures i in TimesXMod(ToPoly(b)) <==> i in ToPoly(Double(b))
  {
    var p := ToPoly(b);
    MemberOfReduced(TimesX(p), i);
    MemberOfTimesX(p, 128);
    MemberOfTimesX(p, i);
    hide TimesX, Plus, Double;
    if i < 128 {
      CoefficientOfDouble(b, i);
      hide Coefficient;
    }
  }

  /** One subkey step is multiplication by x in GF(2^128). */
  lemma DoubleIsTimesX(b: Block)
    ensures ToPoly(Double(b)) == TimesXMod(ToPoly(b))
  {
    hide ToPoly, TimesXMod, Double;
    forall i: nat ensures i in ToPoly(Double(b)) <==> i in TimesXMod(ToPoly(b)) {
      MemberOfTimesXMod(b, i);
    }
  }

  /** K1 = x L and K2 = x^2 L, with L the encryption of the zero block. */
  lemma SubkeysArePowersOfX(e: Cipher)
    ensures ToPoly(K1(e)) == TimesXMod(ToPoly(e(ZERO)))
    ensures ToPoly(K2(e)) == TimesXMod(TimesXMod(ToPoly(e(ZERO))))
  {
    DoubleIsTimesX(e(ZERO));
    DoubleIsTimesX(K1(e));
  }

  // ---- the input of the MAC ---------------------------------------------------------------------

  type Word = n: nat | n < 0x1_0000_0000

  /** The four bytes of a uint32, most significant first. */
  function BigEndian32(c: Word): (s: seq<bv8>)
    ensures |s| == 4
  {
    [(c / 0x100_0000) as bv8, (c / 0x1_0000 % 256) as bv8, (c / 256 % 256) as bv8, (c % 256) as bv8]
  }

  /** COUNT, BEARER, DIRECTION and 26 zero bits in front of the message. */
  function Frame(count: Word, bearer: bv8, direction: bv8, message: seq<bv8>): seq<bv8> {
    BigEndian32(count) + [(bearer << 3) | (direction << 2), 0, 0, 0] + message
  }

  /** The buffer that goes into AES-CMAC. */
  method BuildInput(count: Word, bearer: bv8, direction: bv8, message: seq<bv8>) returns (input: array<bv8>)
    ensures fresh(input) && input[..] == Frame(count, bearer, direction, message)
  {
    hide BigEndian32;
    input := new bv8[8 + |message|](_ => 0);
    var head, octet := BigEndian32(count), (bearer << 3) | (direction << 2);
    input[0], input[1], input[2], input[3] := head[0], head[1], head[2], head[3];
    input[4] := octet;
    assert input[..8] == head + [octet, 0, 0, 0];
    for i := 0 to |message|
      invariant input[..8] == head + [octet, 0, 0, 0]
      invariant forall k :: 0 <= k < i ==> input[8 + k] == message[k]
    {
      input[8 + i] := message[i];
    }
    assert input[8..] == message;
    assert input[..] == input[..8] + input[8..];
  }

  /** ComputeNASMAC: a key of another length than 16 is refused; else the first four bytes of the tag. */
  method ComputeNasMac(aes: seq<bv8> -> Cipher, knasInt: seq<bv8>, count: Word, bearer: bv8, direction: bv8, message: seq<bv8>)
    returns (mac: Option<seq<bv8>>)
    ensures mac == if |knasInt| != 16 then None else Some(Tag(aes(knasInt), Frame(count, bearer, direction, message))[..4])
  {
    if |knasInt| != 16 {
      return None;
    }
    hide Tag, Frame;
    var input := BuildInput(count, bearer, direction, message);
    var x := AesCmac(aes(knasInt), input[..]);
    assert x[..4] == x[..][..4];
    return Some(x[..4]);
  }

  lemma BigEndian32Injective(c: Word, c': Word)
    requires BigEndian32(c) == BigEndian32(c')
    ensures c == c'
  {
    BigEndian32Value(c);
    BigEndian32Value(c');
  }

  lemma BigEndian32Value(c: Word)
    ensures Value(BigEndian32(c)) == c
  {
    BytesOfWord(c);
    var s := BigEndian32(c);
    hide BigEndian32, ByteValue;
    assert s[1..][1..] == s[2..] && s[2..][1..] == s[3..] && s[3..][1..] == [];
    assert Value(s[3..]) == ByteValue(s[3]);
    assert Value(s[2..]) == ByteValue(s[2]) * 256 + ByteValue(s[3]);
    assert Value(s[1..]) == ByteValue(s[1]) * 0x1_0000 + ByteValue(s[2]) * 256 + ByteValue(s[3]);
    assert Pow256(3) == 0x100_0000;
  }

  lemma Places(c: Word)
    ensures c == c / 0x100_0000 * 0x100_0000 + c / 0x1_0000 % 256 * 0x1_0000 + c / 256 % 256 * 256 + c % 256
    ensures c / 0x100_0000 < 256
  {
    assert c / 256 / 256 == c / 0x1_0000;
    assert c / 0x1_0000 / 256 == c / 0x100_0000;
  }

  lemma BytesOfWord(c: Word)
    ensures var s := BigEndian32(c);
            ByteValue(s[0]) * 0x100_0000 + ByteValue(s[1]) * 0x1_0000 + ByteValue(s[2]) * 256 + ByteValue(s[3]) == c
  {
    Places(c);
    var b0, b1, b2, b3 := c / 0x100_0000, c / 0x1_0000 % 256, c / 256 % 256, c % 256;
    ByteValueOf(b0);
    ByteValueOf(b1);
    ByteValueOf(b2);
    ByteValueOf(b3);
    hide ByteValue;
    var s := BigEndian32(c);
    assert s[0] == b0 as bv8 && s[1] == b1 as bv8 && s[2] == b2 as bv8 && s[3] == b3 as bv8;
    hide BigEndian32;
  }

  /** The 128-EIA2 layout: COUNT as a big-endian number, BEARER in the upper five bits of the fifth octet, DIRECTION in the
      next, and zeros up to the message. */
  lemma FrameFields(c: Word, b: bv8, d: bv8, m: seq<bv8>)
    requires b < 32 && d < 2
    ensures var f := Frame(c, b, d, m);
            && |f| == 8 + |m| && Value(f[..4]) == c
            && f[4] >> 3 == b && (f[4] >> 2) & 1 == d && f[4] & 3 == 0
            && f[5..8] == [0, 0, 0] && f[8..] == m
  {
    var f := Frame(c, b, d, m);
    assert f[..4] == BigEndian32(c);
    BigEndian32Value(c);
    hide Value;
    FifthOctet(b, d);
    assert f[4] == (b << 3) | (d << 2);
    assert f[5..8] == [0, 0, 0] && f[8..] == m;
  }

  lemma FifthOctet(b: bv8, d: bv8)
    requires b < 32 && d < 2
    ensures var o := (b << 3) | (d << 2); o >> 3 == b && (o >> 2) & 1 == d && o & 3 == 0
  {
  }

  /** The framed input determines all four of its parts. */
  lemma FrameInjective(c: Word, b: bv8, d: bv8, m: seq<bv8>, c': Word, b': bv8, d': bv8, m': seq<bv8>)
    requires b < 32 && b' < 32 && d < 2 && d' < 2
    requires Frame(c, b, d, m) == Frame(c', b', d', m')
    ensures c == c' && b == b' && d == d' && m == m'
  {
    var f, f' := Frame(c, b, d, m), Frame(c', b', d', m');
    assert f[..4] == BigEndian32(c) && f'[..4] == BigEndian32(c');
    BigEndian32Injective(c, c');
    assert f[4] == (b << 3) | (d << 2) && f'[4] == (b' << 3) | (d' << 2);
    assert f[8..] == m && f'[8..] == m';
  }

  /** The blocks that CMAC chains, before the last is masked, and whether the last was complete. */
  predicate Complete(m: seq<bv8>) { |m| > 0 && |m| % BLOCK == 0 }

  function Padded(m: seq<bv8>): seq<bv8> {
    if Complete(m) then m else m + [0x80] + Zeros(BLOCK - 1 - |m| % BLOCK)
  }

  /** The padded blocks and the completeness flag determine the message, so no two inputs share both. */
  lemma PaddingInjective(m: seq<bv8>, m': seq<bv8>)
    requires Padded(m) == Padded(m') && Complete(m) == Complete(m')
    ensures m == m'
  {
    if !Complete(m) {
      var p := Padded(m);
      assert p[|m|] == 0x80 && p[|m'|] == 0x80;
      assert forall k :: |m| < k < |p| ==> p[k] == 0;
      assert forall k :: |m'| < k < |p| ==> p[k] == 0;
      assert |m| == |m'|;
      assert p[..|m|] == m && p[..|m'|] == m';
    }
  }

  /** CBC-MAC over whole blocks, the last of them under a mask. */
  function Cbc(e: Cipher, x: Block, p: seq<bv8>, mask: Block): Block
    requires p != [] && |p| % BLOCK == 0
    decreases |p|
  {
    if |p| == BLOCK then e(Xor(x, Xor(p, mask)))
    else Cbc(e, e(Xor(x, p[..BLOCK])), p[BLOCK..], mask)
  }

  function Mask(e: Cipher, complete: bool): Block { if complete then K1(e) else K2(e) }

  lemma PaddedWhole(m: seq<bv8>)
    ensures Padded(m) != [] && |Padded(m)| % BLOCK == 0
    ensures |m| > BLOCK ==> Padded(m)[..BLOCK] == m[..BLOCK] && Padded(m)[BLOCK..] == Padded(m[BLOCK..])
                            && Complete(m) == Complete(m[BLOCK..]) && |Padded(m)| > BLOCK
    ensures |m| < BLOCK ==> Padded(m) == Pad(m)
  {
    if |m| > BLOCK {
      assert |m[BLOCK..]| % BLOCK == |m| % BLOCK;
    }
  }

  /** The tag depends on the message through its padded blocks and the completeness flag alone: the padded blocks are
      what is chained, and the flag selects the mask of the last. */
  lemma {:induction false} ChainIsCbcOfPadded(e: Cipher, x: Block, m: seq<bv8>)
    ensures Padded(m) != [] && |Padded(m)| % BLOCK == 0
    ensures Chain(e, x, m) == Cbc(e, x, Padded(m), Mask(e, Complete(m)))
    decreases |m|
  {
    hide K1, K2, Xor, Padded, Pad;
    PaddedWhole(m);
    if |m| > BLOCK {
      ChainIsCbcOfPadded(e, e(Xor(x, m[..BLOCK])), m[BLOCK..]);
    } else if |m| == BLOCK {
      assert Padded(m) == m by { CompletePadsToItself(m); }
    }
  }

  lemma CompletePadsToItself(m: seq<bv8>)
    requires Complete(m)
    ensures Padded(m) == m
  {
  }

  /** The MAC of a framed message is the chain over its padded blocks, and these together with the completeness flag
      determine COUNT, BEARER, DIRECTION and message. */
  lemma MacInputDeterminesMessage(e: Cipher, c: Word, b: bv8, d: bv8, m: seq<bv8>, c': Word, b': bv8, d': bv8, m': seq<bv8>)
    requires b < 32 && b' < 32 && d < 2 && d' < 2
    ensures var f, f' := Frame(c, b, d, m), Frame(c', b', d', m');
            && Padded(f) != [] && |Padded(f)| % BLOCK == 0
            && Tag(e, f) == Cbc(e, ZERO, Padded(f), Mask(e, Complete(f)))
            && (Padded(f) == Padded(f') && Complete(f) == Complete(f') ==> c == c' && b == b' && d == d' && m == m')
  {
    var f, f' := Frame(c, b, d, m), Frame(c', b', d', m');
    ChainIsCbcOfPadded(e, ZERO, f);
    hide Cbc, Chain, Mask;
    if Padded(f) == Padded(f') && Complete(f) == Complete(f') {
      PaddingInjective(f, f');
      FrameInjective(c, b, d, m, c', b', d', m');
    }
  }
}
