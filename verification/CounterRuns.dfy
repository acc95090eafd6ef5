/** The slice counters of the NSACF over whole runs: session counters are exact, UE counters drift by a balance that is read
    off the run. */
module CounterRuns {
  import opened Text
  import opened Models
  import opened World
  import opened SmfInvariant
  import opened Runs
  import Smf
  import Amf
  import Bsf
  import Chf
  import Nsacf

  // ---- session counters --------------------------------------------------------------------------

  ghost function SessionsOn(sessions: map<string, PduSession>, s: Snssai): set<string> {
    set id | id in sessions && sessions[id].snssai == s
  }

  function SessionReading(w: World, s: Snssai): int { Nsacf.Reading(w.slices, s, Nsacf.PduSessions) }

  /** The session counter calls of an operation take effect. */
  predicate SessionCountServed(op: Op) {
    match op
    case CreateOp(_, env) => env.count != Unreached && env.countPut
    case ReleaseOp(_, env) => env.count != Unreached && env.countPut
    case _ => true
  }

  lemma SessionsOnRemoved(sessions: map<string, PduSession>, id: string, s: Snssai)
    requires id in sessions
    ensures |SessionsOn(sessions, s)| == |SessionsOn(sessions - {id}, s)| + if sessions[id].snssai == s then 1 else 0
  {
    if sessions[id].snssai == s {
      assert SessionsOn(sessions, s) == SessionsOn(sessions - {id}, s) + {id};
    } else {
      assert SessionsOn(sessions, s) == SessionsOn(sessions - {id}, s);
    }
  }

  lemma SessionsOnAdded(before: map<string, PduSession>, after: map<string, PduSession>, id: string, s: Snssai)
    requires id !in before && after.Keys == before.Keys + {id}
    requires forall j :: j in before && j != id ==> after[j] == before[j]
    ensures |SessionsOn(after, s)| == |SessionsOn(before, s)| + if after[id].snssai == s then 1 else 0
  {
    hide SessionsOn;
    assert id in after.Keys;
    assert (after - {id}).Keys == before.Keys;
    assert after - {id} == before;
    SessionsOnRemoved(after, id, s);
  }

  lemma CreateCounts(w: World, cfg: Config, req: Smf.CreateRequest, env: Smf.CreateEnv, s: Snssai)
    requires Smf.Named(w.sessions, w.seid) && w.seid + 1 < TWO64 && cfg.nsacf && cfg.sbi
    requires env.count != Unreached && env.countPut && s.sst > 0
    requires SessionReading(w, s) == |SessionsOn(w.sessions, s)|
    ensures var w' := Smf.Create(w, cfg, req, env).0;
            SessionReading(w', s) == |SessionsOn(w'.sessions, s)|
  {
    hide Smf.Create, Smf.Named, Nsacf.Update, Nsacf.Reading, SessionsOn;
    CreateTouches(w, cfg, req, env);
    var (w', reply) := Smf.Create(w, cfg, req, env);
    if reply.status == CREATED {
      SessionsOnAdded(w.sessions, w'.sessions, reply.sessionId, s);
      Nsacf.UpdateMovesOneCounter(w.slices, req.snssai, Nsacf.PduSessions, Nsacf.Increment, s, Nsacf.PduSessions);
    }
  }

  /** A release that counts: the counter of the slice reads at least one, so the clamp is not taken. */
  lemma ReleaseCounts(w: World, cfg: Config, id: string, env: Smf.ReleaseEnv, s: Snssai)
    requires cfg.nsacf && cfg.sbi && env.count != Unreached && env.countPut && s.sst > 0
    requires SessionReading(w, s) == |SessionsOn(w.sessions, s)|
    ensures var w' := Smf.Release(w, cfg, id, env).0;
            SessionReading(w', s) == |SessionsOn(w'.sessions, s)|
  {
    hide Bsf.Deregister, Chf.Release, Serial, Nsacf.Update, Nsacf.Reading, SessionsOn;
    if id != "" && id in w.sessions && (cfg.pfcp ==> env.deleted) {
      SessionsOnRemoved(w.sessions, id, s);
      Nsacf.UpdateMovesOneCounter(w.slices, w.sessions[id].snssai, Nsacf.PduSessions, Nsacf.Decrement, s, Nsacf.PduSessions);
    }
  }

  lemma OtherStepsKeepSessionCounts(w: World, cfg: Config, op: Op, s: Snssai)
    requires !op.CreateOp? && !op.ReleaseOp? && s.sst > 0
    ensures var w' := Step(w, cfg, op);
            SessionReading(w', s) == SessionReading(w, s) && SessionsOn(w'.sessions, s) == SessionsOn(w.sessions, s)
  {
    match op
    case RegisterOp(req, env) =>
      if env.subscription.Some? {
        Amf.CountAllKeepsSessions(w.slices, env.subscription.value, Nsacf.Increment, env.lost, s);
      }
    case DeregisterOp(supi, lost) =>
      if supi in w.contexts {
        Amf.CountAllKeepsSessions(w.slices, w.contexts[supi].allowedNssai, Nsacf.Decrement, lost, s);
      }
    case _ =>
  }

  /** With NSACF enabled and its session counter calls served, every slice's counter reads exactly the number
      of stored sessions on that slice, in every reachable state. */
  lemma {:induction false} SessionCountersExact(cfg: Config, ops: seq<Op>, s: Snssai)
    requires |ops| < TWO64 && cfg.nsacf && cfg.sbi && s.sst > 0
    requires forall i :: 0 <= i < |ops| ==> SessionCountServed(ops[i])
    ensures SessionReading(Run(cfg, ops), s) == |SessionsOn(Run(cfg, ops).sessions, s)|
  {
    if ops == [] {
      assert SessionsOn(INITIAL.sessions, s) == {};
    } else {
      var init, op := ops[..|ops| - 1], ops[|ops| - 1];
      SessionCountersExact(cfg, init, s);
      RunConsistent(cfg, init);
      var w := Run(cfg, init);
      assert SessionCountServed(op);
      assert Smf.Named(w.sessions, w.seid);
      hide Smf.Consistent, Smf.Named;
      match op
      case CreateOp(req, env) => CreateCounts(w, cfg, req, env, s);
      case ReleaseOp(id, env) => ReleaseCounts(w, cfg, id, env, s);
      case _ => OtherStepsKeepSessionCounts(w, cfg, op, s);
    }
  }

  // ---- UE counters -------------------------------------------------------------------------------

  /** What an operation adds to the drift of a slice's UE counter: occurrences counted and then orphaned, because the
      context was overwritten by a registration of the same SUPI or never stored, and decrements that were lost; less the
      increments that were lost. */
  function Adds(w: World, cfg: Config, op: Op, s: Snssai): int {
    match op
    case RegisterOp(req, env) => multiset(Amf.Orphaned(w, cfg, req, env))[s] - Amf.Uncounted(cfg, req, env, s)
    case DeregisterOp(supi, lost) => Amf.Unreturned(w, supi, lost, s)
    case _ => 0
  }

  function Balance(cfg: Config, ops: seq<Op>, s: Snssai): int {
    if ops == [] then 0
    else Balance(cfg, ops[..|ops| - 1], s) + Adds(Run(cfg, ops[..|ops| - 1]), cfg, ops[|ops| - 1], s)
  }

  lemma CountKeepsUes(t: Nsacf.Table, slice: Snssai, op: Nsacf.Operation, putOk: bool, s: Snssai)
    requires s.sst > 0
    ensures Amf.UeReading(Nsacf.Update(t, slice, Nsacf.PduSessions, op, putOk).0, s) == Amf.UeReading(t, s)
  {
    Nsacf.UpdateMovesOneCounter(t, slice, Nsacf.PduSessions, op, s, Nsacf.Ue);
    assert !putOk ==> Nsacf.Update(t, slice, Nsacf.PduSessions, op, putOk).0 == t;
  }

  /** Session requests never move a UE counter, whether their own counter calls are served or not. */
  lemma SessionStepsKeepDrift(w: World, cfg: Config, op: Op, s: Snssai)
    requires !op.RegisterOp? && !op.DeregisterOp? && s.sst > 0
    requires Smf.Named(w.sessions, w.seid) && w.seid + 1 < TWO64
    ensures Amf.Drift(Step(w, cfg, op), s) == Amf.Drift(w, s)
  {
    hide Smf.Create, Smf.Named, Nsacf.Update, Nsacf.Reading, Bsf.Deregister, Chf.Release, Serial;
    match op
    case CreateOp(req, env) =>
      CreateTouches(w, cfg, req, env);
      CountKeepsUes(w.slices, req.snssai, Nsacf.Increment, env.countPut, s);
    case ReleaseOp(id, env) =>
      if id in w.sessions {
        CountKeepsUes(w.slices, w.sessions[id].snssai, Nsacf.Decrement, env.countPut, s);
      }
    case _ =>
  }

  /** The balance was not negative at any earlier moment of the run. */
  predicate InCredit(cfg: Config, ops: seq<Op>, s: Snssai) {
    ops == [] || (Balance(cfg, ops[..|ops| - 1], s) >= 0 && InCredit(cfg, ops[..|ops| - 1], s))
  }

  /** Whichever calls are lost, a slice's UE counter exceeds the occurrences of the slice in stored contexts by exactly the
      balance of the run, as long as the balance did not go negative before. */
  lemma {:induction false} UeCounterBalance(cfg: Config, ops: seq<Op>, s: Snssai)
    requires |ops| < TWO64 && cfg.nsacf && cfg.sbi && s.sst > 0
    requires InCredit(cfg, ops, s)
    ensures Amf.Drift(Run(cfg, ops), s) == Balance(cfg, ops, s)
  {
    if ops == [] {
      assert Amf.Positions(INITIAL.contexts, s) == {};
    } else {
      var init, op := ops[..|ops| - 1], ops[|ops| - 1];
      UeCounterBalance(cfg, init, s);
      RunConsistent(cfg, init);
      var w := Run(cfg, init);
      assert Smf.Named(w.sessions, w.seid);
      hide Smf.Consistent, Smf.Named, Step;
      match op
      case RegisterOp(req, env) => Amf.RegisterDrift(w, cfg, req, env, s);
      case DeregisterOp(supi, lost) => Amf.DeregisterDrift(w, cfg, supi, lost, s);
      case _ => SessionStepsKeepDrift(w, cfg, op, s);
    }
  }

  /** The counter covers the stored contexts now and at every earlier moment of the run. */
  ghost predicate NeverUnderCounts(cfg: Config, ops: seq<Op>, s: Snssai) {
    Amf.Drift(Run(cfg, ops), s) >= 0 && (ops == [] || NeverUnderCounts(cfg, ops[..|ops| - 1], s))
  }

  /** A UE counter never under-counts if and only if the increments lost never outweigh what was orphaned and what
      decrements were lost. */
  lemma {:induction false} NeverUnderCountsIff(cfg: Config, ops: seq<Op>, s: Snssai)
    requires |ops| < TWO64 && cfg.nsacf && cfg.sbi && s.sst > 0
    ensures NeverUnderCounts(cfg, ops, s) <==> Balance(cfg, ops, s) >= 0 && InCredit(cfg, ops, s)
  {
    hide Run, Balance, Amf.Drift;
    if ops != [] {
      NeverUnderCountsIff(cfg, ops[..|ops| - 1], s);
    }
    if InCredit(cfg, ops, s) { UeCounterBalance(cfg, ops, s); }
  }

  /** The increments that an operation asks for on a slice are served. */
  predicate IncrementsServed(cfg: Config, op: Op, s: Snssai) {
    op.RegisterOp? ==> Amf.Uncounted(cfg, op.registration, op.registerEnv, s) == 0
  }

  /** No operation of the run added to the drift. */
  predicate NothingAdded(cfg: Config, ops: seq<Op>, s: Snssai) {
    ops == [] ||
    (Adds(Run(cfg, ops[..|ops| - 1]), cfg, ops[|ops| - 1], s) == 0 && NothingAdded(cfg, ops[..|ops| - 1], s))
  }

  /** With the increments served, whatever happens to decrements and session counter calls, a UE counter never under-counts,
      deregistration never meets the clamp, and the counter is exact if and only if nothing was orphaned and no decrement
      was lost. */
  lemma {:induction false} UeCountersNeverUnderCount(cfg: Config, ops: seq<Op>, s: Snssai)
    requires |ops| < TWO64 && cfg.nsacf && cfg.sbi && s.sst > 0
    requires forall i :: 0 <= i < |ops| ==> IncrementsServed(cfg, ops[i], s)
    ensures NeverUnderCounts(cfg, ops, s)
    ensures Amf.Drift(Run(cfg, ops), s) == Balance(cfg, ops, s)
    ensures Balance(cfg, ops, s) == 0 <==> NothingAdded(cfg, ops, s)
  {
    BalanceGrows(cfg, ops, s);
    hide Run, Balance, NothingAdded, IncrementsServed;
    NeverUnderCountsIff(cfg, ops, s);
    UeCounterBalance(cfg, ops, s);
  }

  lemma {:induction false} BalanceGrows(cfg: Config, ops: seq<Op>, s: Snssai)
    requires forall i :: 0 <= i < |ops| ==> IncrementsServed(cfg, ops[i], s)
    ensures Balance(cfg, ops, s) >= 0 && InCredit(cfg, ops, s)
    ensures Balance(cfg, ops, s) == 0 <==> NothingAdded(cfg, ops, s)
  {
    hide Run;
    if ops != [] {
      var n := |ops| - 1;
      BalanceGrows(cfg, ops[..n], s);
      assert IncrementsServed(cfg, ops[n], s);
      assert Adds(Run(cfg, ops[..n]), cfg, ops[n], s) >= 0;
    }
  }

  // ---- inputs on which the counters go wrong -------------------------------------------------------------

  lemma RunOfTwo(cfg: Config, a: Op, b: Op)
    ensures Run(cfg, [a]) == Step(INITIAL, cfg, a)
    ensures Run(cfg, [a, b]) == Step(Step(INITIAL, cfg, a), cfg, b)
  {
    assert [a, b][..1] == [a] && [a][..0] == [];
    hide Step;
    assert Run(cfg, [a]) == Step(Run(cfg, []), cfg, a);
  }

  /** A registration that passes authentication, on one slice. */
  function Registering(supi: string, s: Snssai, lost: set<nat>): Op {
    RegisterOp(Amf.RegisterRequest(supi, false),
               Amf.RegisterEnv(true, true, Amf.Success, Some([s]), {}, lost, true))
  }

  /** A second registration of a SUPI leaves the counter one too high, and a registration whose increment is lost leaves it
      one too low. */
  lemma CountersCanDrift(cfg: Config, supi: string, s: Snssai)
    requires cfg.nsacf && cfg.sbi && s.sst > 0 && supi != ""
    ensures Amf.Drift(Run(cfg, [Registering(supi, s, {}), Registering(supi, s, {})]), s) == 1
    ensures Amf.Drift(Run(cfg, [Registering(supi, s, {0})]), s) == -1
  {
    var a, b := Registering(supi, s, {}), Registering(supi, s, {0});
    RunOfTwo(cfg, a, a);
    RunOfTwo(cfg, b, b);
    assert Amf.Positions(INITIAL.contexts, s) == {};
    var w := Step(INITIAL, cfg, a);
    assert w.contexts[supi].allowedNssai == [s];
    OneOnList(s);
    hide Run, Amf.Drift, Amf.CountAll, Amf.LostOn;
    Amf.RegisterDrift(INITIAL, cfg, a.registration, a.registerEnv, s);
    Amf.RegisterDrift(w, cfg, a.registration, a.registerEnv, s);
    Amf.RegisterDrift(INITIAL, cfg, b.registration, b.registerEnv, s);
    assert Amf.Drift(INITIAL, s) == 0 by { NoDriftInitially(s); }
  }

  lemma NoDriftInitially(s: Snssai)
    ensures Amf.Drift(INITIAL, s) == 0
  {
    assert Amf.Positions(INITIAL.contexts, s) == {};
  }

  lemma OneOnList(s: Snssai)
    ensures multiset([s])[s] == 1 && Amf.LostOn([s], {}, s) == 0 && Amf.LostOn([s], {0}, s) == 1
  {
    assert [s][..0] == [];
  }

  lemma {:induction false} CountAllKeepsUncountable(t: Nsacf.Table, slices: seq<Snssai>, op: Nsacf.Operation, lost: set<nat>, s: Snssai, ctype: Nsacf.CounterType)
    requires s.sst <= 0
    ensures Nsacf.Reading(Amf.CountAll(t, slices, op, lost), s, ctype) == Nsacf.Reading(t, s, ctype)
  {
    if slices != [] {
      var n := |slices| - 1;
      CountAllKeepsUncountable(t, slices[..n], op, lost, s, ctype);
      Nsacf.UpdateKeepsUncountable(Amf.CountAll(t, slices[..n], op, lost), slices[n], Nsacf.Ue, op, true, s, ctype);
    }
  }

  lemma StepKeepsUncountable(w: World, cfg: Config, op: Op, s: Snssai, ctype: Nsacf.CounterType)
    requires Smf.Named(w.sessions, w.seid) && w.seid + 1 < TWO64 && s.sst <= 0
    ensures Nsacf.Reading(Step(w, cfg, op).slices, s, ctype) == Nsacf.Reading(w.slices, s, ctype)
  {
    hide Smf.Named, Smf.Create, Nsacf.Update, Nsacf.Reading, Bsf.Deregister, Chf.Release, Serial, Amf.CountAll;
    match op
    case CreateOp(req, env) =>
      CreateTouches(w, cfg, req, env);
      Nsacf.UpdateKeepsUncountable(w.slices, req.snssai, Nsacf.PduSessions, Nsacf.Increment, env.countPut, s, ctype);
    case ReleaseOp(id, env) =>
      if id in w.sessions {
        Nsacf.UpdateKeepsUncountable(w.slices, w.sessions[id].snssai, Nsacf.PduSessions, Nsacf.Decrement, env.countPut, s, ctype);
      }
    case RegisterOp(req, env) =>
      if env.subscription.Some? {
        CountAllKeepsUncountable(w.slices, env.subscription.value, Nsacf.Increment, env.lost, s, ctype);
      }
    case DeregisterOp(supi, lost) =>
      if supi in w.contexts {
        CountAllKeepsUncountable(w.slices, w.contexts[supi].allowedNssai, Nsacf.Decrement, lost, s, ctype);
      }
    case _ =>
  }

  /** The bound on the SST is needed: a slice whose SST is not positive is refused by the counter function, so its counters
      read zero in every run, whatever is stored. */
  lemma {:induction false} UncountableSlicesReadZero(cfg: Config, ops: seq<Op>, s: Snssai, ctype: Nsacf.CounterType)
    requires |ops| < TWO64 && s.sst <= 0
    ensures Nsacf.Reading(Run(cfg, ops).slices, s, ctype) == 0
  {
    if ops != [] {
      var init := ops[..|ops| - 1];
      UncountableSlicesReadZero(cfg, init, s, ctype);
      RunConsistent(cfg, init);
      var w := Run(cfg, init);
      assert Smf.Named(w.sessions, w.seid);
      hide Smf.Consistent, Smf.Named, Step, Nsacf.Reading;
      StepKeepsUncountable(w, cfg, ops[|ops| - 1], s, ctype);
    }
  }
}
