/** Charging within whole runs of the core: what the core hands to the CHF is a run of the CHF, so that every record
    and every grant is accounted for by the reports of the core run. */
module ChargingRuns {
  import opened Text
  import opened Models
  import opened World
  import opened SmfInvariant
  import opened Runs
  import Smf
  import Amf
  import Bsf
  import Chf
  import Nsacf

  /** The calls to the CHF that one request leads to. */
  function Calls(w: World, cfg: Config, op: Op): seq<Chf.Op> {
    match op
    case CreateOp(req, env) =>
      var reply := Smf.Create(w, cfg, req, env).1;
      if reply.status == CREATED && cfg.charging && cfg.sbi && env.charge != Unreached
      then [Chf.CreateOp(Charging(req.supi, OrDefault(req.dnn, "internet"), req.snssai, reply.sessionId), env.chargePut)]
      else []
    case ReleaseOp(id, env) =>
      if Smf.Release(w, cfg, id, env).1 == OK && cfg.charging && cfg.sbi && w.sessions[id].chargingId != "" && env.charge != Unreached
      then [Chf.ReleaseOp(w.sessions[id].chargingId, env.recordPut)] else []
    case ReportOp(id, report, ok) => [Chf.UpdateOp(id, report, ok)]
    case _ => []
  }

  function ChfOps(cfg: Config, ops: seq<Op>): seq<Chf.Op> {
    if ops == [] then [] else ChfOps(cfg, ops[..|ops| - 1]) + Calls(Run(cfg, ops[..|ops| - 1]), cfg, ops[|ops| - 1])
  }

  lemma ChfRunAppend(ops: seq<Chf.Op>, more: seq<Chf.Op>)
    requires |more| <= 1
    ensures Chf.Run(ops + more) == if more == [] then Chf.Run(ops) else Chf.Step(Chf.Run(ops), more[0])
  {
    if more == [] {
      assert ops + more == ops;
    } else {
      assert (ops + more)[..|ops|] == ops && (ops + more)[|ops|] == more[0];
    }
  }

  lemma StepCalls(w: World, cfg: Config, op: Op)
    ensures var calls := Calls(w, cfg, op);
            |calls| <= 1 && Step(w, cfg, op).chf == if calls == [] then w.chf else Chf.Step(w.chf, calls[0])
  {
    hide Smf.Create, Chf.Create, Chf.Release, Chf.Update, Bsf.Deregister, Bsf.Register, Nsacf.Update, Serial, Amf.CountAll;
    if op.CreateOp? { CreateHands(w, cfg, op.creation, op.createEnv); }
  }

  /** In every run the state of the CHF is that of a run of its own, of at most as many operations. */
  lemma {:induction false} CoreRunIsChfRun(cfg: Config, ops: seq<Op>)
    ensures Run(cfg, ops).chf == Chf.Run(ChfOps(cfg, ops)) && |ChfOps(cfg, ops)| <= |ops|
  {
    hide Step, Chf.Step, Calls, Chf.Run;
    if ops == [] {
      assert Chf.Run([]) == Chf.EMPTY by { EmptyChfRun(); }
    } else {
      var n := |ops| - 1;
      CoreRunIsChfRun(cfg, ops[..n]);
      var w := Run(cfg, ops[..n]);
      StepCalls(w, cfg, ops[n]);
      ChfRunAppend(ChfOps(cfg, ops[..n]), Calls(w, cfg, ops[n]));
    }
  }

  lemma EmptyChfRun()
    ensures Chf.Run([]) == Chf.EMPTY
  {
  }

  // ---- accepted reports -----------------------------------------------------------------------------

  /** The report on a charging session that an operation of the core delivers with success, if any. */
  function Delivered(w: World, op: Op, id: string): seq<Chf.Report> {
    if op.ReportOp? && op.chargingId == id && Chf.Update(w.chf, id, op.report, op.reportPut).1 == OK then [op.report] else []
  }

  /** All reports on a charging session answered with 200 in a run of the core. */
  function Accepted(cfg: Config, ops: seq<Op>, id: string): seq<Chf.Report> {
    if ops == [] then []
    else Accepted(cfg, ops[..|ops| - 1], id) + Delivered(Run(cfg, ops[..|ops| - 1]), ops[|ops| - 1], id)
  }

  function Reported(h: Option<Chf.History>): seq<Chf.Report> { if h.Some? then h.value.reports else [] }

  lemma ObservedAppend(ops: seq<Chf.Op>, op: Chf.Op, id: string)
    requires |ops| + 1 < TWO64
    ensures Reported(Chf.Observed(ops + [op], id)) ==
            Reported(Chf.Observed(ops, id)) +
            if op.UpdateOp? && op.updated == id && Chf.Update(Chf.Run(ops), id, op.report, op.updatePut).1 == OK then [op.report] else []
  {
    assert (ops + [op])[..|ops|] == ops && (ops + [op])[|ops|] == op;
    Chf.RunAccountsForEveryId(ops, id);
    match op
    case CreateOp(req, ok) => Chf.NextIdFresh(Chf.Run(ops), req.supi); hide Chf.Run, Serial, Identifier;
    case UpdateOp(id', r, ok) =>
    case ReleaseOp(_, _) =>
  }

  /** The history that callers of the CHF observe of an identifier consists of the accepted reports of the core run. */
  lemma {:induction false} ObservedReports(cfg: Config, ops: seq<Op>, id: string)
    requires |ops| < TWO64
    ensures Reported(Chf.Observed(ChfOps(cfg, ops), id)) == Accepted(cfg, ops, id)
  {
    if ops != [] {
      var n := |ops| - 1;
      var w, before := Run(cfg, ops[..n]), ChfOps(cfg, ops[..n]);
      ObservedReports(cfg, ops[..n], id);
      CoreRunIsChfRun(cfg, ops[..n]);
      StepCalls(w, cfg, ops[n]);
      hide Run, Step, Chf.Run, Chf.Observed, Smf.Create, Smf.Release, Chf.Update;
      var calls := Calls(w, cfg, ops[n]);
      if calls == [] {
        assert before + calls == before;
      } else {
        assert calls == [calls[0]];
        ObservedAppend(before, calls[0], id);
      }
    }
  }

  /** In every run of the core, a record carries the sums modulo 2^64 of all accepted reports on its charging session, and the
      session is no longer live. */
  lemma RecordsCarryTheReports(cfg: Config, ops: seq<Op>, id: string)
    requires |ops| < TWO64 && Chf.RecordId(id) in Run(cfg, ops).chf.records
    ensures var c := Run(cfg, ops).chf;
            var cdr, rs := c.records[Chf.RecordId(id)], Accepted(cfg, ops, id);
            && cdr.volumeUplink == Chf.SumUplink(rs) % TWO64 && cdr.volumeDownlink == Chf.SumDownlink(rs) % TWO64
            && cdr.chargingId == id && id !in c.sessions
  {
    CoreRunIsChfRun(cfg, ops);
    ObservedReports(cfg, ops, id);
    hide Run, Chf.Run, Chf.Observed, Accepted;
    Chf.RecordCarriesTheSums(ChfOps(cfg, ops), id);
  }

  /** In every run of the core, as long as nothing overflows, the grant of a live charging session is at most 10^6 ahead of its
      usage, and usage is ahead of the grant by no more than the excess of oversized reports. */
  lemma GrantsFollowTheReports(cfg: Config, ops: seq<Op>, id: string)
    requires |ops| < TWO64 && id in Run(cfg, ops).chf.sessions
    requires Chf.Used(Accepted(cfg, ops, id)) + Chf.GRANT < TWO64
    ensures var s, rs := Run(cfg, ops).chf.sessions[id], Accepted(cfg, ops, id);
            && s.volumeUplink + s.volumeDownlink == Chf.Used(rs)
            && Chf.GRANT <= s.grantedUnits <= Chf.Used(rs) + Chf.GRANT
            && Chf.Used(rs) - s.grantedUnits <= Chf.Excess(rs)
  {
    CoreRunIsChfRun(cfg, ops);
    ObservedReports(cfg, ops, id);
    Chf.RunAccountsForEveryId(ChfOps(cfg, ops), id);
    hide Run, Chf.Run, Chf.Observed, Accepted;
    var h := Chf.Observed(ChfOps(cfg, ops), id).value;
    Chf.QuotaBounds(Chf.NewSession(id, h.creation), h.reports);
  }

  /** When the charging release of a stored session is served, its charging session ends in a record that names the session and
      carries the sums of all reports accepted since it was created. */
  lemma ReleasedSessionIsBilled(cfg: Config, ops: seq<Op>, id: string, env: Smf.ReleaseEnv)
    requires |ops| + 1 < TWO64 && cfg.charging && cfg.sbi && env.charge != Unreached && env.recordPut && (cfg.pfcp ==> env.deleted)
    requires id in Run(cfg, ops).sessions && Run(cfg, ops).sessions[id].chargingId != ""
    ensures var chargingId, c := Run(cfg, ops).sessions[id].chargingId, Run(cfg, ops + [ReleaseOp(id, env)]).chf;
            && chargingId !in c.sessions && Chf.RecordId(chargingId) in c.records
            && var cdr, rs := c.records[Chf.RecordId(chargingId)], Accepted(cfg, ops, chargingId);
               && cdr.pduSessionId == id
               && cdr.volumeUplink == Chf.SumUplink(rs) % TWO64 && cdr.volumeDownlink == Chf.SumDownlink(rs) % TWO64
  {
    var op := ReleaseOp(id, env);
    var all := ops + [op];
    var chargingId := Run(cfg, ops).sessions[id].chargingId;
    assert all[..|ops|] == ops && all[|ops|] == op;
    ReleaseWritesTheRecord(cfg, ops, id, env);
    assert Run(cfg, all) == Step(Run(cfg, ops), cfg, op);
    assert Accepted(cfg, all, chargingId) == Accepted(cfg, ops, chargingId);
    hide Run, Smf.Release, Accepted;
    RecordsCarryTheReports(cfg, all, chargingId);
  }

  lemma {:induction false} OpsExtend(cfg: Config, ops: seq<Op>, more: seq<Op>) returns (calls: seq<Chf.Op>)
    ensures ChfOps(cfg, ops + more) == ChfOps(cfg, ops) + calls
    decreases |more|
  {
    hide Run, Calls;
    if more == [] {
      assert ops + more == ops;
      calls := [];
    } else {
      var n := |more| - 1;
      assert (ops + more)[..|ops| + n] == ops + more[..n];
      var before := OpsExtend(cfg, ops, more[..n]);
      var last := Calls(Run(cfg, ops + more[..n]), cfg, more[n]);
      assert (ops + more)[|ops| + n] == more[n];
      assert ChfOps(cfg, ops + more) == ChfOps(cfg, ops + more[..n]) + last;
      hide ChfOps;
      calls := before + last;
      assert ChfOps(cfg, ops) + before + last == ChfOps(cfg, ops) + calls;
    }
  }

  /** Once a record is written, no request of any kind changes it, and no report on it is accepted any more. */
  lemma RecordsAreFinal(cfg: Config, ops: seq<Op>, more: seq<Op>, id: string)
    requires |ops + more| < TWO64 && Chf.RecordId(id) in Run(cfg, ops).chf.records
    ensures var c, c' := Run(cfg, ops).chf, Run(cfg, ops + more).chf;
            && Chf.RecordId(id) in c'.records && c'.records[Chf.RecordId(id)] == c.records[Chf.RecordId(id)]
            && id !in c'.sessions && forall r, ok :: Chf.Update(c', id, r, ok).1 == NOT_FOUND
  {
    CoreRunIsChfRun(cfg, ops);
    CoreRunIsChfRun(cfg, ops + more);
    var calls := OpsExtend(cfg, ops, more);
    hide Run, Chf.Run, ChfOps, Chf.Update, Chf.Release;
    Chf.ClosedStaysClosed(ChfOps(cfg, ops), calls, id);
  }
}
