/** Bindings within whole runs of the core: what the core hands to the BSF is a run of the BSF. */
module BindingRuns {
  import opened Text
  import opened Models
  import opened World
  import opened SmfInvariant
  import opened Runs
  import Smf
  import Amf
  import Bsf
  import Chf
  import Nsacf

  /** The calls to the BSF that one request leads to. */
  function Calls(w: World, cfg: Config, op: Op): seq<Bsf.Op> {
    match op
    case CreateOp(req, env) =>
      var reply := Smf.Create(w, cfg, req, env).1;
      if reply.status == CREATED && cfg.bsf && cfg.sbi && env.bind != Unreached
      then [Bsf.RegisterOp(Binding(req.supi, OrDefault(req.dnn, "internet"), req.snssai, reply.ueAddress, reply.sessionId), env.bindPuts)]
      else []
    case ReleaseOp(id, env) =>
      if Smf.Release(w, cfg, id, env).1 == OK && cfg.bsf && cfg.sbi && w.sessions[id].bsfBindingId != "" && env.unbind != Unreached
      then [Bsf.DeregisterOp(w.sessions[id].bsfBindingId)] else []
    case _ => []
  }

  function BsfOps(cfg: Config, ops: seq<Op>): seq<Bsf.Op> {
    if ops == [] then [] else BsfOps(cfg, ops[..|ops| - 1]) + Calls(Run(cfg, ops[..|ops| - 1]), cfg, ops[|ops| - 1])
  }

  lemma BsfRunAppend(ops: seq<Bsf.Op>, more: seq<Bsf.Op>)
    requires |more| <= 1
    ensures Bsf.Run(ops + more) == if more == [] then Bsf.Run(ops) else Bsf.Step(Bsf.Run(ops), more[0])
  {
    if more == [] {
      assert ops + more == ops;
    } else {
      assert (ops + more)[..|ops|] == ops && (ops + more)[|ops|] == more[0];
    }
  }

  lemma StepCalls(w: World, cfg: Config, op: Op)
    ensures var calls := Calls(w, cfg, op);
            |calls| <= 1 && Step(w, cfg, op).bsf == if calls == [] then w.bsf else Bsf.Step(w.bsf, calls[0])
  {
    hide Smf.Create, Chf.Create, Chf.Release, Chf.Update, Bsf.Deregister, Bsf.Register, Nsacf.Update, Serial, Amf.CountAll;
    if op.CreateOp? { CreateHands(w, cfg, op.creation, op.createEnv); }
  }

  lemma EmptyBsfRun()
    ensures Bsf.Run([]) == Bsf.EMPTY
  {
  }

  /** In every run the state of the BSF is that of a run of its own, of at most as many operations. */
  lemma {:induction false} CoreRunIsBsfRun(cfg: Config, ops: seq<Op>)
    ensures Run(cfg, ops).bsf == Bsf.Run(BsfOps(cfg, ops)) && |BsfOps(cfg, ops)| <= |ops|
  {
    hide Step, Bsf.Step, Calls, Bsf.Run;
    if ops == [] {
      EmptyBsfRun();
    } else {
      var n := |ops| - 1;
      CoreRunIsBsfRun(cfg, ops[..n]);
      var w := Run(cfg, ops[..n]);
      StepCalls(w, cfg, ops[n]);
      BsfRunAppend(BsfOps(cfg, ops[..n]), Calls(w, cfg, ops[n]));
    }
  }

  lemma EntrySurvivesStep(w: World, cfg: Config, op: Op, slot: Bsf.Slot, id: string)
    requires Bsf.Valid(w.bsf) && w.bsf.counter + 1 < TWO64 && Bsf.Entry(w.bsf, slot) == Some(id)
    ensures Bsf.Entry(Step(w, cfg, op).bsf, slot) == Some(id) <==>
            forall call :: call in Calls(w, cfg, op) ==> Bsf.TouchOf(w.bsf, call, slot) == Bsf.Untouched
  {
    hide Step, Calls, Bsf.Valid, Bsf.Step, Bsf.TouchOf;
    StepCalls(w, cfg, op);
    var calls := Calls(w, cfg, op);
    if calls != [] {
      assert calls == [calls[0]];
      Bsf.StaysIndexedIffUntouched(w.bsf, calls[0], slot, id);
    }
  }

  /** In every run of the core, an index entry survives a request exactly when no call that the request makes to the BSF
      touches the key of the entry. */
  lemma EntrySurvivesIff(cfg: Config, ops: seq<Op>, op: Op, slot: Bsf.Slot, id: string)
    requires |ops| + 1 < TWO64 && Bsf.Entry(Run(cfg, ops).bsf, slot) == Some(id)
    ensures var w := Run(cfg, ops);
            Bsf.Entry(Run(cfg, ops + [op]).bsf, slot) == Some(id) <==>
            forall call :: call in Calls(w, cfg, op) ==> Bsf.TouchOf(w.bsf, call, slot) == Bsf.Untouched
  {
    hide Step, Calls, Bsf.Valid, Bsf.Entry, Bsf.TouchOf;
    assert (ops + [op])[..|ops|] == ops && (ops + [op])[|ops|] == op;
    RunConsistent(cfg, ops);
    EntrySurvivesStep(Run(cfg, ops), cfg, op, slot, id);
  }
}
