/** 5G-AKA: the sequence number that the UDM advances for every vector, and the vector that the AUSF compares
    with and consumes. */
module Aka {
  import opened Text
  import opened Arith
  import opened Octets
  import opened Models

  const TWO48: nat := 0x1_0000_0000_0000
  const SEQ_STEP: nat := 32

  /** The 48-bit number after one step of SEQ, as six bytes. */
  function AdvanceSqn(sqn: Bytes): Bytes {
    BigEndian((Value(sqn) + SEQ_STEP) % TWO48, 6)
  }

  lemma PowersOf256()
    ensures Pow256(6) == TWO48 && Pow256(8) == TWO64
  {
    assert Pow256(2) == 65536;
    assert Pow256(4) == 0x1_0000_0000;
  }

  lemma Wrap48(v: nat)
    ensures ((v % TWO64 + SEQ_STEP) % TWO64) % TWO48 == (v + SEQ_STEP) % TWO48
  {
    AddModulo(v, SEQ_STEP, TWO64);
    ModuloOfMultiple(v + SEQ_STEP, 65536, TWO48, TWO64);
  }

  lemma ShiftInByte(v: nat, b: nat)
    requires b < 256
    ensures (v % TWO64 * 256) % TWO64 + b == (256 * v + b) % TWO64
  {
  }

  /** advanceSQN: two loops over bytes around uint64 arithmetic, for an input of any length. */
  method AdvanceSqnBytes(sqn: Bytes) returns (out: array<bv8>)
    ensures fresh(out) && out.Length == 6 && out[..] == AdvanceSqn(sqn)
  {
    hide Value, BigEndian, ByteValue;
    var v: nat := 0;
    assert sqn[..0] == [];
    ValueOfEmpty();
    for i := 0 to |sqn|
      invariant v == Value(sqn[..i]) % TWO64
    {
      assert sqn[..i + 1] == sqn[..i] + [sqn[i]];
      ValueAppend(sqn[..i], sqn[i]);
      ShiftInByte(Value(sqn[..i]), ByteValue(sqn[i]));
      v := (v * 256) % TWO64 + ByteValue(sqn[i]);
    }
    assert sqn[..|sqn|] == sqn;
    Wrap48(Value(sqn));
    v := ((v + SEQ_STEP) % TWO64) % TWO48;
    ghost var w := v;
    out := new bv8[6];
    var i := 5;
    assert BigEndian(w, 6) == BigEndian(v, 6) + out[6..];
    while i >= 0
      invariant -1 <= i <= 5
      invariant BigEndian(w, 6) == BigEndian(v, i + 1) + out[i + 1..]
    {
      BigEndianSplit(v, i + 1);
      out[i] := (v % 256) as bv8;
      assert out[i..] == [out[i]] + out[i + 1..];
      v := v / 256;
      i := i - 1;
    }
    BigEndianOfNothing(v);
    assert out[0..] == out[..];
  }

  lemma ValueOfEmpty()
    ensures Value([]) == 0
  {
  }

  lemma BigEndianSplit(n: nat, k: nat)
    requires k > 0
    ensures BigEndian(n, k) == BigEndian(n / 256, k - 1) + [(n % 256) as bv8]
  {
  }

  lemma BigEndianOfNothing(n: nat)
    ensures BigEndian(n, 0) == []
  {
  }

  function SeqOf(sqn: Bytes): nat { Value(sqn) / SEQ_STEP }

  function IndOf(sqn: Bytes): nat { Value(sqn) % SEQ_STEP }

  lemma SixBytes(n: nat)
    requires n < TWO48
    ensures Value(BigEndian(n, 6)) == n
  {
    ValueOfBigEndian(n, 6);
    PowersOf256();
    hide Value, BigEndian, Pow256;
  }

  /** The advanced number is the old one plus 32 modulo 2^48; its five low bits are kept. */
  lemma AdvanceSqnValue(sqn: Bytes)
    ensures Value(AdvanceSqn(sqn)) == (Value(sqn) + SEQ_STEP) % TWO48
    ensures IndOf(AdvanceSqn(sqn)) == IndOf(sqn)
  {
    hide Value, BigEndian;
    SixBytes((Value(sqn) + SEQ_STEP) % TWO48);
    KeepsLowBits(Value(sqn));
  }

  lemma KeepsLowBits(v: nat)
    ensures ((v + SEQ_STEP) % TWO48) % SEQ_STEP == v % SEQ_STEP
  {
  }

  // ---- the handlers ------------------------------------------------------------------------------

  /** An authentication vector: the sequence number in its AUTN and the response it expects. */
  datatype Vector = Vector(sqn: Bytes, xres: Bytes)

  /** Stored sequence numbers of subscribers (none when they have no authentication data) and pending vectors. */
  datatype State = State(subscribers: map<string, Option<Bytes>>, vectors: map<string, Vector>)

  /** The expected response that vector generation comes up with, if it succeeds, and which Puts succeed. */
  datatype GenerateEnv = GenerateEnv(xres: Option<Bytes>, sqnPut: bool, vectorPut: bool)

  /** Nudm_UEAuthentication_Get: the advanced number is persisted before the vector is. */
  function Generate(s: State, supi: string, env: GenerateEnv): (State, Option<Vector>) {
    if supi == "" || supi !in s.subscribers || s.subscribers[supi].None? || env.xres.None? || !env.sqnPut then (s, None)
    else
      var sqn := AdvanceSqn(s.subscribers[supi].value);
      var s1 := s.(subscribers := s.subscribers[supi := Some(sqn)]);
      if !env.vectorPut then (s1, None)
      else
        var av := Vector(sqn, env.xres.value);
        (s1.(vectors := s1.vectors[supi := av]), Some(av))
  }

  datatype Verdict = Refused | NoVector | Mismatch | Success

  /** Nausf_UEAuthentication: a matching response consumes the vector. */
  function Authenticate(s: State, supi: string, resStar: Bytes): (State, Verdict) {
    if supi == "" || resStar == [] then (s, Refused)
    else if supi !in s.vectors then (s, NoVector)
    else if resStar != s.vectors[supi].xres then (s, Mismatch)
    else (s.(vectors := s.vectors - {supi}), Success)
  }

  class Authenticator {
    var subscribers: map<string, Option<Bytes>>
    var vectors: map<string, Vector>

    ghost function Abs(): State
      reads this
    {
      State(subscribers, vectors)
    }

    method GenerateAuthData(supi: string, env: GenerateEnv) returns (av: Option<Vector>)
      modifies this
      ensures (Abs(), av) == Generate(old(Abs()), supi, env)
    {
      hide AdvanceSqn;
      if supi == "" {
        return None;
      }
      if supi !in subscribers {
        return None;
      }
      if subscribers[supi].None? {
        return None;
      }
      var newSqn := AdvanceSqnBytes(subscribers[supi].value);
      if env.xres.None? {
        return None;
      }
      var vector := Vector(newSqn[..], env.xres.value);
      if !env.sqnPut {
        return None;
      }
      subscribers := subscribers[supi := Some(newSqn[..])];
      if !env.vectorPut {
        return None;
      }
      vectors := vectors[supi := vector];
      return Some(vector);
    }

    method Verify(supi: string, resStar: Bytes) returns (verdict: Verdict)
      modifies this`vectors
      ensures (Abs(), verdict) == Authenticate(old(Abs()), supi, resStar)
    {
      if supi == "" || resStar == [] {
        return Refused;
      }
      if supi !in vectors {
        return NoVector;
      }
      if resStar != vectors[supi].xres {
        return Mismatch;
      }
      vectors := vectors - {supi};
      return Success;
    }
  }

  // ---- every sequential run, without provisioning in between ------------------------------------------

  datatype Op = GenerateOp(supi: string, env: GenerateEnv) | AuthenticateOp(ue: string, resStar: Bytes)

  function Step(s: State, op: Op): State {
    match op
    case GenerateOp(supi, env) => Generate(s, supi, env).0
    case AuthenticateOp(supi, res) => Authenticate(s, supi, res).0
  }

  function Run(s: State, ops: seq<Op>): State {
    if ops == [] then s else Step(Run(s, ops[..|ops| - 1]), ops[|ops| - 1])
  }

  /** The vector that the k-th operation of a run returns for a subscriber, if it returns one. */
  function ReturnedAt(s: State, ops: seq<Op>, k: nat, supi: string): Option<Vector>
    requires k < |ops|
  {
    if ops[k].GenerateOp? && ops[k].supi == supi then Generate(Run(s, ops[..k]), supi, ops[k].env).1 else None
  }

  predicate SucceedsAt(s: State, ops: seq<Op>, k: nat, supi: string)
    requires k < |ops|
  {
    ops[k].AuthenticateOp? && ops[k].ue == supi && Authenticate(Run(s, ops[..k]), supi, ops[k].resStar).1 == Success
  }

  function Returned(s: State, ops: seq<Op>, supi: string): nat {
    if ops == [] then 0
    else Returned(s, ops[..|ops| - 1], supi) + if ReturnedAt(s, ops, |ops| - 1, supi).Some? then 1 else 0
  }

  function Successes(s: State, ops: seq<Op>, supi: string): nat {
    if ops == [] then 0
    else Successes(s, ops[..|ops| - 1], supi) + if SucceedsAt(s, ops, |ops| - 1, supi) then 1 else 0
  }

  function LastReturned(s: State, ops: seq<Op>, supi: string): Option<Vector> {
    if ops == [] then None
    else
      var here := ReturnedAt(s, ops, |ops| - 1, supi);
      if here.Some? then here else LastReturned(s, ops[..|ops| - 1], supi)
  }

  /** The operation persists an advanced number for the subscriber, provided the subscriber has authentication data. */
  predicate Persists(op: Op, supi: string) {
    op.GenerateOp? && op.supi == supi != "" && op.env.xres.Some? && op.env.sqnPut
  }

  function Persisted(ops: seq<Op>, supi: string): nat {
    if ops == [] then 0
    else Persisted(ops[..|ops| - 1], supi) + if Persists(ops[|ops| - 1], supi) then 1 else 0
  }

  predicate HasNumber(s: State, supi: string) { supi in s.subscribers && s.subscribers[supi].Some? }

  function Number(s: State, supi: string): nat
    requires HasNumber(s, supi)
  {
    Value(s.subscribers[supi].value)
  }

  /** The number after n steps; before the first step it may have any length. */
  function After(start: nat, n: nat): nat {
    if n == 0 then start else (start + SEQ_STEP * n) % TWO48
  }

  lemma AfterOneMore(start: nat, n: nat)
    ensures (After(start, n) + SEQ_STEP) % TWO48 == After(start, n + 1)
  {
    if n > 0 { AddModulo(start + SEQ_STEP * n, SEQ_STEP, TWO48); }
  }

  lemma StepNumber(s: State, op: Op, supi: string)
    requires HasNumber(s, supi)
    ensures HasNumber(Step(s, op), supi)
    ensures Number(Step(s, op), supi) == if Persists(op, supi) then (Number(s, supi) + SEQ_STEP) % TWO48 else Number(s, supi)
    ensures op.GenerateOp? && op.supi == supi && Generate(s, supi, op.env).1.Some? ==>
              Persists(op, supi) && Value(Generate(s, supi, op.env).1.value.sqn) == Number(Step(s, op), supi)
  {
    AdvanceSqnValue(s.subscribers[supi].value);
    hide Value, AdvanceSqn, IndOf;
  }

  /** In every run, whatever fails, the stored number is the one at the start plus 32 for every number persisted for this
      subscriber, modulo 2^48. */
  lemma {:induction false} NumberAfterRun(s: State, ops: seq<Op>, supi: string)
    requires HasNumber(s, supi)
    ensures HasNumber(Run(s, ops), supi)
    ensures Number(Run(s, ops), supi) == After(Number(s, supi), Persisted(ops, supi))
  {
    if ops != [] {
      var n := |ops| - 1;
      NumberAfterRun(s, ops[..n], supi);
      hide Number, HasNumber, Step, After;
      StepNumber(Run(s, ops[..n]), ops[n], supi);
      AfterOneMore(Number(s, supi), Persisted(ops[..n], supi));
    }
  }

  /** A subscriber without authentication data is never given a vector. */
  lemma {:induction false} NoNumberNoVector(s: State, ops: seq<Op>, supi: string)
    requires !HasNumber(s, supi)
    ensures !HasNumber(Run(s, ops), supi)
    ensures forall env :: Generate(Run(s, ops), supi, env).1.None?
  {
    if ops != [] {
      NoNumberNoVector(s, ops[..|ops| - 1], supi);
      hide AdvanceSqn;
    }
  }

  /** The number of every vector that a run returns, for every run of every length. */
  lemma VectorNumber(s: State, ops: seq<Op>, k: nat, supi: string)
    requires k < |ops| && ReturnedAt(s, ops, k, supi).Some?
    ensures HasNumber(s, supi) && Persists(ops[k], supi)
    ensures Value(ReturnedAt(s, ops, k, supi).value.sqn) == After(Number(s, supi), Persisted(ops[..k + 1], supi))
  {
    if !HasNumber(s, supi) { NoNumberNoVector(s, ops[..k], supi); }
    assert ops[..k + 1][..k] == ops[..k];
    hide Number, HasNumber, After, Generate, Value;
    NumberAfterRun(s, ops[..k], supi);
    NumberAfterRun(s, ops[..k + 1], supi);
    StepNumber(Run(s, ops[..k]), ops[k], supi);
  }

  lemma {:induction false} PersistedGrows(ops: seq<Op>, i: nat, supi: string)
    requires i <= |ops|
    ensures Persisted(ops[..i], supi) <= Persisted(ops, supi)
    decreases |ops|
  {
    if i == |ops| {
      assert ops[..i] == ops;
    } else {
      PersistedGrows(ops[..|ops| - 1], i, supi);
      assert ops[..|ops| - 1][..i] == ops[..i];
    }
  }

  /** Later vectors of a subscriber carry a strictly larger SEQ as long as the persisted steps do not take its number past
      2^48, whatever fails and whatever other subscribers do in between. */
  lemma ReturnedVectorsFresh(s: State, ops: seq<Op>, i: nat, j: nat, supi: string)
    requires i < j < |ops|
    requires ReturnedAt(s, ops, i, supi).Some? && ReturnedAt(s, ops, j, supi).Some?
    requires HasNumber(s, supi) ==> Number(s, supi) + SEQ_STEP * Persisted(ops[..j + 1], supi) < TWO48
    ensures SeqOf(ReturnedAt(s, ops, i, supi).value.sqn) < SeqOf(ReturnedAt(s, ops, j, supi).value.sqn)
  {
    VectorNumber(s, ops, i, supi);
    VectorNumber(s, ops, j, supi);
    assert ops[..j + 1][..j] == ops[..j] && ops[..j][..i + 1] == ops[..i + 1] && ops[..i + 1][..i] == ops[..i];
    PersistedGrows(ops[..j], i + 1, supi);
    var p, q := Persisted(ops[..i + 1], supi), Persisted(ops[..j + 1], supi);
    hide Persisted, Number, HasNumber, Persists, ReturnedAt, Value;
    var v := Number(s, supi);
    assert 1 <= p < q;
    StepsRise(v, p, q);
  }

  lemma StepsRise(v: nat, p: nat, q: nat)
    requires 1 <= p < q && v + SEQ_STEP * q < TWO48
    ensures After(v, p) / SEQ_STEP < After(v, q) / SEQ_STEP
  {
  }

  // ---- single use ---------------------------------------------------------------------------------------------

  /** The pending vector of a subscriber is always the last one returned, and every success takes one away:
      there are never more successes than vectors returned. */
  lemma {:induction false} PendingIsLatest(s: State, ops: seq<Op>, supi: string)
    requires supi !in s.vectors
    ensures var t := Run(s, ops);
            && (supi in t.vectors ==> LastReturned(s, ops, supi) == Some(t.vectors[supi]))
            && Successes(s, ops, supi) + (if supi in t.vectors then 1 else 0) <= Returned(s, ops, supi)
  {
    if ops != [] {
      var n := |ops| - 1;
      PendingIsLatest(s, ops[..n], supi);
      hide AdvanceSqn;
    }
  }

  /** Operation k returned a vector of the subscriber, and since then none was returned and none used up. */
  ghost predicate Unused(s: State, ops: seq<Op>, k: nat, supi: string) {
    && k < |ops| && ReturnedAt(s, ops, k, supi).Some?
    && forall n :: k < n < |ops| ==> ReturnedAt(s, ops, n, supi).None? && !SucceedsAt(s, ops, n, supi)
  }

  lemma AtPrefix(s: State, ops: seq<Op>, m: nat, k: nat, supi: string)
    requires k < m <= |ops|
    ensures ReturnedAt(s, ops[..m], k, supi) == ReturnedAt(s, ops, k, supi)
    ensures SucceedsAt(s, ops[..m], k, supi) == SucceedsAt(s, ops, k, supi)
  {
    assert ops[..m][..k] == ops[..k];
  }

  /** Behind every pending vector there is the operation that returned it, with neither a newer vector nor a success
      since. */
  lemma {:induction false} PendingWasReturned(s: State, ops: seq<Op>, supi: string) returns (k: nat)
    requires supi !in s.vectors && supi in Run(s, ops).vectors
    ensures Unused(s, ops, k, supi) && ReturnedAt(s, ops, k, supi) == Some(Run(s, ops).vectors[supi])
  {
    var m := |ops| - 1;
    hide AdvanceSqn;
    if ReturnedAt(s, ops, m, supi).Some? {
      k := m;
    } else {
      assert supi in Run(s, ops[..m]).vectors && Run(s, ops[..m]).vectors[supi] == Run(s, ops).vectors[supi];
      assert !SucceedsAt(s, ops, m, supi);
      k := PendingWasReturned(s, ops[..m], supi);
      hide ReturnedAt, SucceedsAt;
      forall n | k <= n < m
        ensures ReturnedAt(s, ops[..m], n, supi) == ReturnedAt(s, ops, n, supi)
        ensures SucceedsAt(s, ops[..m], n, supi) == SucceedsAt(s, ops, n, supi)
      {
        AtPrefix(s, ops, m, n, supi);
      }
    }
  }

  /** In every run, a success matches the latest vector returned to its subscriber, and no other success used that
      vector before. */
  lemma SuccessUsesTheLatestVector(s: State, ops: seq<Op>, j: nat, supi: string) returns (k: nat)
    requires supi !in s.vectors && j < |ops| && SucceedsAt(s, ops, j, supi)
    ensures k < j && Unused(s, ops[..j], k, supi)
    ensures ReturnedAt(s, ops, k, supi).Some? && ReturnedAt(s, ops, k, supi).value.xres == ops[j].resStar
  {
    k := PendingWasReturned(s, ops[..j], supi);
    AtPrefix(s, ops, j, k, supi);
  }

  /** Between two successes of one subscriber a vector was returned to it. */
  lemma NewVectorBetweenSuccesses(s: State, ops: seq<Op>, i: nat, j: nat, supi: string) returns (k: nat)
    requires supi !in s.vectors && i < j < |ops|
    requires SucceedsAt(s, ops, i, supi) && SucceedsAt(s, ops, j, supi)
    ensures i < k < j && ReturnedAt(s, ops, k, supi).Some?
  {
    k := SuccessUsesTheLatestVector(s, ops, j, supi);
    AtPrefix(s, ops, j, i, supi);
    hide Run, Generate, Authenticate;
  }

  lemma UnusedIsPending(s: State, ops: seq<Op>, k: nat, supi: string)
    requires Unused(s, ops, k, supi)
    ensures supi in Run(s, ops).vectors && Some(Run(s, ops).vectors[supi]) == ReturnedAt(s, ops, k, supi)
    decreases |ops|
  {
    var m := |ops| - 1;
    hide AdvanceSqn;
    if k < m {
      hide Run, Generate, Authenticate;
      forall n | k <= n < m
        ensures ReturnedAt(s, ops[..m], n, supi) == ReturnedAt(s, ops, n, supi)
        ensures SucceedsAt(s, ops[..m], n, supi) == SucceedsAt(s, ops, n, supi)
      {
        AtPrefix(s, ops, m, n, supi);
      }
      hide ReturnedAt, SucceedsAt;
      UnusedIsPending(s, ops[..m], k, supi);
      LastKeepsPending(s, ops, supi);
    } else {
      assert ops[..m] == ops[..k];
    }
  }

  /** An operation that neither returns a vector to the subscriber nor uses one up leaves the pending one. */
  lemma LastKeepsPending(s: State, ops: seq<Op>, supi: string)
    requires ops != [] && supi in Run(s, ops[..|ops| - 1]).vectors
    requires ReturnedAt(s, ops, |ops| - 1, supi).None? && !SucceedsAt(s, ops, |ops| - 1, supi)
    ensures supi in Run(s, ops).vectors && Run(s, ops).vectors[supi] == Run(s, ops[..|ops| - 1]).vectors[supi]
  {
    hide AdvanceSqn;
  }

  /** A success is owed and given: in every run, an authentication with a nonempty response succeeds if and only if that
      response is the expected one of the latest vector returned to the subscriber, with no success since. */
  lemma SucceedsIff(s: State, ops: seq<Op>, j: nat, supi: string)
    requires supi !in s.vectors && supi != "" && j < |ops|
    requires ops[j].AuthenticateOp? && ops[j].ue == supi && ops[j].resStar != []
    ensures SucceedsAt(s, ops, j, supi) <==>
            exists k :: 0 <= k < j && Unused(s, ops[..j], k, supi) && ReturnedAt(s, ops[..j], k, supi).value.xres == ops[j].resStar
  {
    if SucceedsAt(s, ops, j, supi) {
      var k := SuccessUsesTheLatestVector(s, ops, j, supi);
      AtPrefix(s, ops, j, k, supi);
    }
    hide Generate, Run;
    forall k | 0 <= k < j && Unused(s, ops[..j], k, supi) && ReturnedAt(s, ops[..j], k, supi).value.xres == ops[j].resStar
      ensures SucceedsAt(s, ops, j, supi)
    {
      AtPrefix(s, ops, j, k, supi);
      UnusedIsPending(s, ops[..j], k, supi);
    }
  }

  /** What an authentication answers, and that only a success changes anything: the vector it used is gone. */
  lemma AuthenticateAnswers(s: State, supi: string, res: Bytes)
    ensures var (s', verdict) := Authenticate(s, supi, res);
            && (verdict == Refused <==> supi == "" || res == [])
            && (verdict == NoVector <==> supi != "" && res != [] && supi !in s.vectors)
            && (verdict != Success ==> s' == s)
            && (verdict == Success ==> s'.subscribers == s.subscribers && s'.vectors.Keys == s.vectors.Keys - {supi}
                                       && forall other :: other in s'.vectors ==> s'.vectors[other] == s.vectors[other])
  {
  }

  /** A vector is returned if and only if the subscriber has authentication data, the vector can be computed and both Puts
      succeed; it expects the response computed for it, and nothing of any other subscriber changes. */
  lemma GenerateReturnsIff(s: State, supi: string, env: GenerateEnv)
    ensures var (s', av) := Generate(s, supi, env);
            && (av.Some? <==> supi != "" && HasNumber(s, supi) && env.xres.Some? && env.sqnPut && env.vectorPut)
            && (av.Some? ==> av.value.xres == env.xres.value && supi in s'.vectors && s'.vectors[supi] == av.value)
            && (av.None? ==> s'.vectors == s.vectors)
            && s'.subscribers.Keys == s.subscribers.Keys
            && (forall other :: other in s.subscribers && other != supi ==> s'.subscribers[other] == s.subscribers[other])
            && (forall other :: other != supi ==>
                  && (other in s'.vectors <==> other in s.vectors)
                  && (other in s.vectors ==> s'.vectors[other] == s.vectors[other]))
  {
    hide AdvanceSqn;
  }
}
