/** What stays at the user plane: every SEID there belongs to a stored session or was stranded by a failed create. */
module UpfRuns {
  import opened Text
  import opened Models
  import opened IpPool
  import opened World
  import opened SmfInvariant
  import opened Runs
  import Smf
  import Amf
  import Bsf
  import Chf
  import Nsacf

  // ---- what a create comes to, told before the call -------------------------------------------------

  /** The request passes every check up to address allocation, which finds a free address and can store it. */
  ghost predicate GetsAddress(w: World, cfg: Config, req: Smf.CreateRequest, env: Smf.CreateEnv) {
    && req.supi != "" && (cfg.sbi ==> env.policy.Some?) && !(cfg.nsacf && cfg.sbi && env.admission == Smf.Denied)
    && (exists a :: a in Addresses(cfg.prefix) && a !in w.leases) && env.allocatePut
  }

  /** A session is established at the UPF for the request. */
  ghost predicate Establishes(w: World, cfg: Config, req: Smf.CreateRequest, env: Smf.CreateEnv) {
    GetsAddress(w, cfg, req, env) && env.addressParses && cfg.pfcp && env.established
  }

  /** The session is established at the UPF and then cannot be stored. */
  ghost predicate Strands(w: World, cfg: Config, req: Smf.CreateRequest, env: Smf.CreateEnv) {
    Establishes(w, cfg, req, env) && !env.sessionPut
  }

  lemma GetsAddressIff(w: World, cfg: Config, req: Smf.CreateRequest, env: Smf.CreateEnv)
    requires req.supi != "" && (cfg.sbi ==> env.policy.Some?) && !(cfg.nsacf && cfg.sbi && env.admission == Smf.Denied)
    ensures Smf.Allocate(w, cfg.prefix, env.allocatePut).1.Some? <==> GetsAddress(w, cfg, req, env)
  {
    ExhaustedIffFull(Addresses(cfg.prefix), w.leases.Keys, Cursor(w));
    hide Addresses, FirstFree, Probe;
  }

  /** A create answers 201 exactly when it gets an address, the UPF goes along and the session is stored. Otherwise it leaves
      every table as it was: only the SEID counter and the cursor move on, and the next SEID stays behind at the UPF exactly
      when the create strands it. */
  lemma CreateAtUpf(w: World, cfg: Config, req: Smf.CreateRequest, env: Smf.CreateEnv)
    ensures var (w', reply) := Smf.Create(w, cfg, req, env);
            && (reply.status == CREATED <==>
                  GetsAddress(w, cfg, req, env) && env.addressParses && (cfg.pfcp ==> env.established) && env.sessionPut)
            && (reply.status == CREATED ==> reply.sessionId == Smf.SessionId(req.supi, Next64(w.seid)))
            && (reply.status != CREATED ==> w' == w.(subnet := w'.subnet, host := w'.host, seid := w'.seid, upf := w'.upf))
            && w'.seid == (if GetsAddress(w, cfg, req, env) && env.addressParses then Next64(w.seid) else w.seid)
            && w'.upf == (if Establishes(w, cfg, req, env) then w.upf + {Next64(w.seid)} else w.upf)
  {
    hide Smf.Allocate, Smf.Install, GetsAddress;
    AllocateEffect(w, cfg.prefix, env.allocatePut);
    var (w1, ip) := Smf.Allocate(w, cfg.prefix, env.allocatePut);
    var policy := Smf.DefaultPolicy(cfg, env);
    if req.supi == "" || policy.None? || (cfg.nsacf && cfg.sbi && env.admission == Smf.Denied) {
      assert !GetsAddress(w, cfg, req, env) by { RefusedGetsNoAddress(w, cfg, req, env); }
    } else {
      GetsAddressIff(w, cfg, req, env);
      if ip.Some? {
        InstallReachesUpf(w1, cfg, req, policy.value, ip.value, env);
        assert w.leases[ip.value := ip.value] - {ip.value} == w.leases;
      }
    }
  }

  lemma RefusedGetsNoAddress(w: World, cfg: Config, req: Smf.CreateRequest, env: Smf.CreateEnv)
    requires req.supi == "" || Smf.DefaultPolicy(cfg, env).None? || (cfg.nsacf && cfg.sbi && env.admission == Smf.Denied)
    ensures !GetsAddress(w, cfg, req, env)
  {
  }

  /** A create that does not answer 201 leaves every table of the run as it was. The next SEID, which was not at the UPF
      before, is there afterwards if and only if the create strands it; nothing else changes at the UPF. */
  lemma FailedCreateRollsBack(cfg: Config, ops: seq<Op>, req: Smf.CreateRequest, env: Smf.CreateEnv)
    requires |ops| < TWO64
    requires Smf.Create(Run(cfg, ops), cfg, req, env).1.status != CREATED
    ensures var w := Run(cfg, ops);
            var w' := Smf.Create(w, cfg, req, env).0;
            && w' == w.(subnet := w'.subnet, host := w'.host, seid := w'.seid, upf := w'.upf)
            && Next64(w.seid) !in w.upf
            && w'.upf == if Strands(w, cfg, req, env) then w.upf + {Next64(w.seid)} else w.upf
  {
    hide Run, Smf.Create, GetsAddress;
    CreateAtUpf(Run(cfg, ops), cfg, req, env);
    SeidsBelowCounter(cfg, ops);
  }

  // ---- sessions at the UPF ---------------------------------------------------------------------

  ghost function Seids(sessions: map<string, PduSession>): set<nat> {
    set id | id in sessions :: Serial(id)
  }

  lemma SeidsAdded(before: map<string, PduSession>, after: map<string, PduSession>, id: string)
    requires after.Keys == before.Keys + {id}
    ensures Seids(after) == Seids(before) + {Serial(id)}
  {
    hide Serial;
    assert id in after.Keys;
    forall n | n in Seids(before) ensures n in Seids(after) {
      var j :| j in before && Serial(j) == n;
      assert j in after.Keys;
    }
  }

  lemma SeidsRemoved(sessions: map<string, PduSession>, id: string)
    requires id in sessions
    requires forall j :: j in sessions && Serial(j) == Serial(id) ==> j == id
    ensures Seids(sessions - {id}) == Seids(sessions) - {Serial(id)}
  {
    hide Serial;
    forall n | n in Seids(sessions) - {Serial(id)} ensures n in Seids(sessions - {id}) {
      var j :| j in sessions && Serial(j) == n;
      assert j in sessions - {id};
    }
  }

  // ---- the account of the UPF over whole runs ------------------------------------------------------------

  /** The SEIDs that the creates of a run stranded. */
  ghost function Stranded(cfg: Config, ops: seq<Op>): set<nat> {
    if ops == [] then {}
    else
      var init, op := ops[..|ops| - 1], ops[|ops| - 1];
      var w := Run(cfg, init);
      if op.CreateOp? && Strands(w, cfg, op.creation, op.createEnv)
      then Stranded(cfg, init) + {Next64(w.seid)} else Stranded(cfg, init)
  }

  /** What is at the UPF is stored or stranded, nothing is both, and all stranded numbers were issued. */
  ghost predicate Splits(upf: set<nat>, stored: set<nat>, stranded: set<nat>, seid: nat) {
    upf == stored + stranded && stored !! stranded && forall n :: n in stranded ==> 1 <= n <= seid
  }

  ghost predicate Accounted(w: World, stranded: set<nat>) {
    Splits(w.upf, Seids(w.sessions), stranded, w.seid)
  }

  lemma SplitsOneMore(upf: set<nat>, stored: set<nat>, stranded: set<nat>, seid: nat)
    requires Splits(upf, stored, stranded, seid) && forall n :: n in stored ==> n <= seid
    ensures Splits(upf, stored, stranded, seid + 1)
    ensures Splits(upf + {seid + 1}, stored + {seid + 1}, stranded, seid + 1)
    ensures Splits(upf + {seid + 1}, stored, stranded + {seid + 1}, seid + 1)
  {
  }

  lemma CreateAccounts(w: World, cfg: Config, req: Smf.CreateRequest, env: Smf.CreateEnv, stranded: set<nat>)
    requires Smf.Named(w.sessions, w.seid) && w.seid + 1 < TWO64 && cfg.pfcp
    requires Accounted(w, stranded)
    ensures Accounted(Smf.Create(w, cfg, req, env).0,
                      if Strands(w, cfg, req, env) then stranded + {Next64(w.seid)} else stranded)
  {
    hide Smf.Create, Smf.Named, GetsAddress, Splits, Seids;
    assert Next64(w.seid) == w.seid + 1;
    hide Next64;
    CreateAtUpf(w, cfg, req, env);
    CreateSeids(w, cfg, req, env);
    SeidsIssued(w.sessions, w.seid);
    SplitsOneMore(w.upf, Seids(w.sessions), stranded, w.seid);
  }

  /** A create adds the next SEID to those of the stored sessions, or none. */
  lemma CreateSeids(w: World, cfg: Config, req: Smf.CreateRequest, env: Smf.CreateEnv)
    requires Smf.Named(w.sessions, w.seid) && w.seid + 1 < TWO64
    ensures var (w', reply) := Smf.Create(w, cfg, req, env);
            Seids(w'.sessions) == if reply.status == CREATED then Seids(w.sessions) + {Next64(w.seid)} else Seids(w.sessions)
  {
    CreateAtUpf(w, cfg, req, env);
    CreateTouches(w, cfg, req, env);
    NamedNextSeid(w.sessions, w.seid, req.supi);
    hide Smf.Create, Smf.Named, Nsacf.Update, GetsAddress, Establishes, Seids, Serial, Identifier;
    var (w', reply) := Smf.Create(w, cfg, req, env);
    if reply.status == CREATED { SeidsAdded(w.sessions, w'.sessions, reply.sessionId); }
  }

  lemma SeidsIssued(sessions: map<string, PduSession>, seid: nat)
    requires Smf.Named(sessions, seid)
    ensures forall n :: n in Seids(sessions) ==> 1 <= n <= seid
  {
    hide Serial, Identifier;
  }

  lemma StepAccounts(w: World, cfg: Config, op: Op, stranded: set<nat>)
    requires Smf.Named(w.sessions, w.seid) && w.seid + 1 < TWO64 && cfg.pfcp
    requires Accounted(w, stranded)
    ensures Accounted(Step(w, cfg, op),
                      if op.CreateOp? && Strands(w, cfg, op.creation, op.createEnv) then stranded + {Next64(w.seid)} else stranded)
  {
    hide Seids, Serial, Identifier;
    match op
    case CreateOp(req, env) =>
      hide Accounted, Smf.Create, Strands, Smf.Named;
      CreateAccounts(w, cfg, req, env, stranded);
    case ReleaseOp(id, env) =>
      hide Bsf.Deregister, Chf.Release, Nsacf.Update;
      if id in w.sessions { SeidsRemoved(w.sessions, id); SeidsHas(w.sessions, id); }
    case UpdateOp(req, modified, putOk) =>
      assert Step(w, cfg, op).sessions.Keys == w.sessions.Keys;
      SeidsOfKeys(w.sessions, Step(w, cfg, op).sessions);
    case _ =>
  }

  lemma SeidsHas(sessions: map<string, PduSession>, id: string)
    requires id in sessions
    ensures Serial(id) in Seids(sessions)
  {
    hide Serial;
  }

  lemma SeidsOfKeys(before: map<string, PduSession>, after: map<string, PduSession>)
    requires after.Keys == before.Keys
    ensures Seids(after) == Seids(before)
  {
    hide Serial;
    assert forall id :: id in before.Keys <==> id in after.Keys;
  }

  /** In every run, whatever fails, the SEIDs at the UPF are those of the stored sessions and those stranded, and no SEID is
      both. */
  lemma {:induction false} UpfAccount(cfg: Config, ops: seq<Op>)
    requires |ops| < TWO64 && cfg.pfcp
    ensures Accounted(Run(cfg, ops), Stranded(cfg, ops))
  {
    if ops == [] {
      assert Seids(INITIAL.sessions) == {};
    } else {
      var init, op := ops[..|ops| - 1], ops[|ops| - 1];
      UpfAccount(cfg, init);
      RunConsistent(cfg, init);
      var w := Run(cfg, init);
      assert Smf.Named(w.sessions, w.seid);
      hide Smf.Consistent, Smf.Named, Step, Accounted, Strands;
      StepAccounts(w, cfg, op, Stranded(cfg, init));
    }
  }

  /** Without PFCP nothing is ever established. */
  lemma {:induction false} NothingWithoutPfcp(cfg: Config, ops: seq<Op>)
    requires !cfg.pfcp
    ensures Run(cfg, ops).upf == {}
  {
    if ops != [] {
      var init, op := ops[..|ops| - 1], ops[|ops| - 1];
      NothingWithoutPfcp(cfg, init);
      hide Smf.Create, GetsAddress, Bsf.Deregister, Chf.Release, Nsacf.Update, Serial;
      if op.CreateOp? { CreateAtUpf(Run(cfg, init), cfg, op.creation, op.createEnv); }
    }
  }

  lemma SeidsBelowCounter(cfg: Config, ops: seq<Op>)
    requires |ops| < TWO64
    ensures forall n :: n in Run(cfg, ops).upf ==> 1 <= n <= Run(cfg, ops).seid < TWO64
  {
    var w := Run(cfg, ops);
    if cfg.pfcp {
      UpfAccount(cfg, ops);
      RunConsistent(cfg, ops);
      SeidsIssued(w.sessions, w.seid);
    } else {
      RunConsistent(cfg, ops);
      NothingWithoutPfcp(cfg, ops);
    }
  }

  /** No create of the run strands a SEID. */
  ghost predicate NeverStrands(cfg: Config, ops: seq<Op>) {
    ops == [] ||
    (var init, op := ops[..|ops| - 1], ops[|ops| - 1];
     NeverStrands(cfg, init) && !(op.CreateOp? && Strands(Run(cfg, init), cfg, op.creation, op.createEnv)))
  }

  lemma {:induction false} StrandedNoneIff(cfg: Config, ops: seq<Op>)
    ensures Stranded(cfg, ops) == {} <==> NeverStrands(cfg, ops)
  {
    hide Run, Strands;
    if ops != [] { StrandedNoneIff(cfg, ops[..|ops| - 1]); }
  }

  /** With PFCP, the sessions at the UPF are exactly the stored ones if and only if no create of the run stranded a SEID. */
  lemma UpfHoldsExactlyTheStoredSessions(cfg: Config, ops: seq<Op>)
    requires |ops| < TWO64 && cfg.pfcp
    ensures Run(cfg, ops).upf == Seids(Run(cfg, ops).sessions) <==> NeverStrands(cfg, ops)
  {
    UpfAccount(cfg, ops);
    StrandedNoneIff(cfg, ops);
    hide Run, Seids, Stranded, NeverStrands;
  }

  /** A request with defaults throughout, and an environment in which everything works but the Put of the session. */
  function Doomed(supi: string): Op {
    CreateOp(Smf.CreateRequest(supi, Snssai(1, ""), "", "", 0, 0),
             Smf.CreateEnv(Some(Smf.Policy(1, 1, 1)), Smf.Allowed, true, true, true, false,
                           Served, Bsf.Puts(true, true, true), true, Served, true, true, Served, true))
  }

  /** One failed Put is enough: no session is stored, and SEID 1 is at the UPF. */
  lemma StrandingHappens(cfg: Config, supi: string)
    requires cfg.pfcp && supi != ""
    ensures var w := Run(cfg, [Doomed(supi)]);
            w.sessions == map[] && w.upf == {1}
  {
    var op := Doomed(supi);
    assert [op][..0] == [];
    assert Run(cfg, [op]) == Step(INITIAL, cfg, op);
    CreateAtUpf(INITIAL, cfg, op.creation, op.createEnv);
    hide Smf.Create, Run, Addresses;
    assert Addresses(cfg.prefix)[0] !in INITIAL.leases;
  }
}
