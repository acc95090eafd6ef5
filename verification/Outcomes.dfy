/** What callers of the session and registration handlers are answered, and what is stored behind each answer: statuses
    under conditions on the request and its environment, and stored records field by field. */
module Outcomes {
  import opened Text
  import opened Models
  import opened IpPool
  import opened World
  import opened SmfInvariant
  import opened Runs
  import opened UpfRuns
  import Smf
  import Amf
  import Bsf
  import Chf
  import Nsacf

  // ---- create ------------------------------------------------------------------------------------------------

  /** Statuses of a create: 400 without a SUPI, 403 for a denial that arrives, 201 when all goes well, 500 for everything
      else. */
  lemma CreateAnswers(w: World, cfg: Config, req: Smf.CreateRequest, env: Smf.CreateEnv)
    ensures var reply := Smf.Create(w, cfg, req, env).1;
            && reply.status ==
               (if req.supi == "" then 400
                else if cfg.sbi && env.policy.None? then 500
                else if cfg.nsacf && cfg.sbi && env.admission == Smf.Denied then 403
                else if (exists a :: a in Addresses(cfg.prefix) && a !in w.leases) && env.allocatePut && env.addressParses
                        && (cfg.pfcp ==> env.established) && env.sessionPut then 201
                else 500)
            && (reply.status != 201 ==> reply.sessionId == "" && reply.ueAddress == "")
            && (reply.status == 201 ==>
                  reply.sessionId == "pdu-" + req.supi + "-" + Dec((w.seid + 1) % 0x1_0000_0000_0000_0000))
  {
    CreateAtUpf(w, cfg, req, env);
    hide Smf.Install, Smf.Allocate, Addresses, Dec;
    var (w1, ip) := Smf.Allocate(w, cfg.prefix, env.allocatePut);
    var policy := Smf.DefaultPolicy(cfg, env);
    if ip.Some? && policy.Some? { InstallAnswers(w1, cfg, req, policy.value, ip.value, env); }
  }

  lemma InstallAnswers(w: World, cfg: Config, req: Smf.CreateRequest, policy: Smf.Policy, ip: string, env: Smf.CreateEnv)
    ensures var reply := Smf.Install(w, cfg, req, policy, ip, env).1;
            if env.addressParses && (cfg.pfcp ==> env.established) && env.sessionPut
            then reply.status == 201 && reply.ueAddress == ip
            else reply == Smf.CreateReply(500, "", "")
  {
    hide Smf.Settle, Identifier;
  }

  /** The calls behind a created session are answered with an identifier. */
  predicate Bound(cfg: Config, env: Smf.CreateEnv) {
    cfg.bsf && cfg.sbi && env.bind == Served && env.bindPuts.primary && env.bindPuts.ip && env.bindPuts.supi
  }

  predicate Charged(cfg: Config, env: Smf.CreateEnv) {
    cfg.charging && cfg.sbi && env.charge == Served && env.chargePut
  }

  function QosOf(cfg: Config, env: Smf.CreateEnv): Smf.Policy
    requires cfg.sbi ==> env.policy.Some?
  {
    if cfg.sbi then env.policy.value else Smf.Policy(1, 1_000_000, 5_000_000)
  }

  /** The session stored behind a 201, field by field. The binding id is there once a Put behind the registration succeeds: its
      own, or the one behind the charging call. */
  ghost predicate StoredAs(w: World, cfg: Config, req: Smf.CreateRequest, env: Smf.CreateEnv, ip: string, s: PduSession) {
    && (cfg.sbi ==> env.policy.Some?)
    && s.supi == req.supi && s.snssai == req.snssai && s.state == "ACTIVE" && s.ueAddress == ip
    && s.dnn == (if req.dnn == "" then "internet" else req.dnn)
    && s.pduType == (if req.pduType == "" then "IPv4" else req.pduType)
    && s.qfi == QosOf(cfg, env).qfi
    && s.ambrUl == (if req.ambrUl > 0 then req.ambrUl else QosOf(cfg, env).ambrUl)
    && s.ambrDl == (if req.ambrDl > 0 then req.ambrDl else QosOf(cfg, env).ambrDl)
    && s.bsfBindingId == (if Bound(cfg, env) && (env.bindingPut || (Charged(cfg, env) && env.chargingPut))
                          then Bsf.NextId(w.bsf, req.supi) else "")
    && s.chargingId == (if Charged(cfg, env) && env.chargingPut then Chf.NextId(w.chf, req.supi) else "")
  }

  lemma BindStores(w: World, cfg: Config, s: PduSession, env: Smf.CreateEnv)
    requires s.id in w.sessions && w.sessions[s.id] == s && s.bsfBindingId == "" && s.supi != "" && s.id != "" && s.ueAddress != ""
    ensures var (w', s') := Smf.Bind(w, cfg, s, env);
            && s' == s.(bsfBindingId := if Bound(cfg, env) then Bsf.NextId(w.bsf, s.supi) else "")
            && s.id in w'.sessions && w'.sessions[s.id] == (if env.bindingPut then s' else s) && w'.chf == w.chf
  {
    var req := Bsf.RegisterRequest(s.supi, s.dnn, s.snssai, "", s.ueAddress, s.id);
    Bsf.RegisterAnswers(w.bsf, req, env.bindPuts);
    hide Bsf.Register, Bsf.NextId;
  }

  lemma ChargeStores(w: World, cfg: Config, s: PduSession, env: Smf.CreateEnv)
    requires s.id in w.sessions && s.chargingId == "" && s.supi != "" && s.id != ""
    ensures var w' := Smf.Charge(w, cfg, s, env).0;
            && s.id in w'.sessions
            && w'.sessions[s.id] == if Charged(cfg, env) && env.chargingPut
                                    then s.(chargingId := Chf.NextId(w.chf, s.supi)) else w.sessions[s.id]
  {
    Chf.CreateAnswers(w.chf, Chf.CreateRequest(s.supi, s.id, s.dnn, s.snssai, ""), env.chargePut);
    hide Chf.Create, Chf.NextId;
  }

  lemma SettleStores(w: World, cfg: Config, s: PduSession, env: Smf.CreateEnv)
    requires s.bsfBindingId == "" && s.chargingId == "" && s.supi != "" && s.id != "" && s.ueAddress != ""
    ensures var w' := Smf.Settle(w, cfg, s, env);
            && s.id in w'.sessions
            && w'.sessions[s.id] ==
               s.(bsfBindingId := if Bound(cfg, env) && (env.bindingPut || (Charged(cfg, env) && env.chargingPut))
                                  then Bsf.NextId(w.bsf, s.supi) else "",
                  chargingId := if Charged(cfg, env) && env.chargingPut then Chf.NextId(w.chf, s.supi) else "")
  {
    hide Smf.Bind, Smf.Charge, Nsacf.Update, Bsf.NextId, Chf.NextId;
    var w1 := Smf.PutSession(w, s);
    BindStores(w1, cfg, s, env);
    var (w2, s2) := Smf.Bind(w1, cfg, s, env);
    ChargeStores(w2, cfg, s2, env);
  }

  lemma InstallStores(w: World, cfg: Config, req: Smf.CreateRequest, policy: Smf.Policy, ip: string, env: Smf.CreateEnv)
    requires req.supi != "" && ip != "" && (cfg.sbi ==> env.policy.Some?) && policy == QosOf(cfg, env)
    ensures var (w', reply) := Smf.Install(w, cfg, req, policy, ip, env);
            reply.status == 201 ==>
              && reply.sessionId in w'.sessions && w'.sessions[reply.sessionId].id == reply.sessionId
              && StoredAs(w, cfg, req, env, ip, w'.sessions[reply.sessionId])
  {
    hide Smf.Settle, Identifier, Bsf.NextId, Chf.NextId;
    var n := Next64(w.seid);
    var w1 := w.(seid := n);
    var w2 := if cfg.pfcp then w1.(upf := w1.upf + {n}) else w1;
    var s := Smf.NewSession(req, policy, ip, n);
    assert s.id != "" by { SerialOfIdentifier("pdu", req.supi, n); }
    SettleStores(w2, cfg, s, env);
  }

  lemma StoredFrom(w: World, v: World, cfg: Config, req: Smf.CreateRequest, env: Smf.CreateEnv, ip: string, s: PduSession)
    requires StoredAs(w, cfg, req, env, ip, s) && v.bsf == w.bsf && v.chf == w.chf
    ensures StoredAs(v, cfg, req, env, ip, s)
  {
  }

  /** A create that answers 201 has stored a session under the answered id, with the answered address, which is the first free one
      at or after the cursor, and every other field as requested or by default. */
  lemma CreateStores(w: World, cfg: Config, req: Smf.CreateRequest, env: Smf.CreateEnv)
    requires Smf.Create(w, cfg, req, env).1.status == 201
    ensures var (w', reply) := Smf.Create(w, cfg, req, env);
            && reply.sessionId in w'.sessions && w'.sessions[reply.sessionId].id == reply.sessionId
            && StoredAs(w, cfg, req, env, reply.ueAddress, w'.sessions[reply.sessionId])
            && var r := FirstFree(Addresses(cfg.prefix), w.leases.Keys, Cursor(w), 0);
               r < POOL && reply.ueAddress == Probe(Addresses(cfg.prefix), Cursor(w), r)
  {
    AllocateEffect(w, cfg.prefix, env.allocatePut);
    AddressesDistinct(cfg.prefix);
    AllocatedFirst(w, cfg.prefix, env.allocatePut);
    hide Smf.Install, Smf.Allocate, Addresses, FirstFree, Probe, StoredAs;
    var (w1, ip) := Smf.Allocate(w, cfg.prefix, env.allocatePut);
    var policy := Smf.DefaultPolicy(cfg, env).value;
    InstallAnswers(w1, cfg, req, policy, ip.value, env);
    InstallStores(w1, cfg, req, policy, ip.value, env);
    var (w', reply) := Smf.Install(w1, cfg, req, policy, ip.value, env);
    StoredFrom(w1, w, cfg, req, env, ip.value, w'.sessions[reply.sessionId]);
  }

  lemma AllocatedFirst(w: World, prefix: string, putOk: bool)
    ensures var ip := Smf.Allocate(w, prefix, putOk).1;
            ip.Some? ==> var r := FirstFree(Addresses(prefix), w.leases.Keys, Cursor(w), 0);
                         r < POOL && ip.value == Probe(Addresses(prefix), Cursor(w), r)
  {
    hide Addresses, FirstFree, Probe;
  }

  /** What the BSF and the CHF record for a created session. */
  lemma CreateRecords(w: World, cfg: Config, req: Smf.CreateRequest, env: Smf.CreateEnv)
    requires Smf.Create(w, cfg, req, env).1.status == 201
    ensures var (w', reply) := Smf.Create(w, cfg, req, env);
            var dnn := if req.dnn == "" then "internet" else req.dnn;
            && (cfg.bsf && cfg.sbi && env.bind != Unreached && env.bindPuts.primary ==>
                  var id := Bsf.NextId(w.bsf, req.supi);
                  id in w'.bsf.bindings &&
                  w'.bsf.bindings[id] == PcfBinding(id, req.supi, dnn, req.snssai, "pcf-001", reply.ueAddress, reply.sessionId))
            && (cfg.charging && cfg.sbi && env.charge != Unreached && env.chargePut ==>
                  var id := Chf.NextId(w.chf, req.supi);
                  id in w'.chf.sessions &&
                  w'.chf.sessions[id] ==
                    ChargingSession(id, req.supi, reply.sessionId, dnn, req.snssai, "OFFLINE", "ACTIVE", 0, 0, 1_000_000))
  {
    CreateHands(w, cfg, req, env);
    CreateAnswers(w, cfg, req, env);
    var reply := Smf.Create(w, cfg, req, env).1;
    assert reply.sessionId[0] == 'p';
    hide Smf.Create, Bsf.Register, Chf.Create, Bsf.NextId, Chf.NextId;
    var dnn := OrDefault(req.dnn, "internet");
    Bsf.RegisterRecords(w.bsf, Binding(req.supi, dnn, req.snssai, reply.ueAddress, reply.sessionId), env.bindPuts);
    Chf.CreateAnswers(w.chf, Charging(req.supi, dnn, req.snssai, reply.sessionId), env.chargePut);
  }

  /** In every run, a create answered 201 whose registration is served in full, and stored behind it, is found at once by discovery
      on the answered address; with charging served and stored, its charging session is live under its charging id. */
  lemma CreatedIsBoundAndCharged(cfg: Config, ops: seq<Op>, req: Smf.CreateRequest, env: Smf.CreateEnv)
    requires |ops| + 1 < TWO64 && Smf.Create(Run(cfg, ops), cfg, req, env).1.status == 201
    ensures var reply := Smf.Create(Run(cfg, ops), cfg, req, env).1;
            var w := Run(cfg, ops + [CreateOp(req, env)]);
            && reply.sessionId in w.sessions
            && (Bound(cfg, env) && (env.bindingPut || (Charged(cfg, env) && env.chargingPut)) <==>
                  w.sessions[reply.sessionId].bsfBindingId != "")
            && (w.sessions[reply.sessionId].bsfBindingId != "" ==>
                  var r := Bsf.Discover(w.bsf, reply.ueAddress, "", "");
                  && r.Found? && r.binding.bindingId == w.sessions[reply.sessionId].bsfBindingId
                  && r.binding.pduSessionId == reply.sessionId && r.binding.supi == req.supi)
            && (Charged(cfg, env) && env.chargingPut <==> w.sessions[reply.sessionId].chargingId != "")
            && (w.sessions[reply.sessionId].chargingId != "" ==>
                  && w.sessions[reply.sessionId].chargingId in w.chf.sessions
                  && w.chf.sessions[w.sessions[reply.sessionId].chargingId].pduSessionId == reply.sessionId)
  {
    var op := CreateOp(req, env);
    var all := ops + [op];
    assert all[..|ops|] == ops && all[|ops|] == op;
    var v := Run(cfg, ops);
    assert Run(cfg, all) == Smf.Create(v, cfg, req, env).0;
    var w, reply := Run(cfg, all), Smf.Create(v, cfg, req, env).1;
    CreateStores(v, cfg, req, env);
    CreateRecords(v, cfg, req, env);
    NextIdsNotEmpty(v, req.supi);
    hide Run, Smf.Create, Bsf.NextId, Chf.NextId, Bsf.Discover, FirstFree, Probe, Addresses;
    if w.sessions[reply.sessionId].bsfBindingId != "" {
      DiscoveryFindsTheSession(cfg, all, reply.sessionId);
    }
  }

  lemma NextIdsNotEmpty(w: World, supi: string)
    ensures Bsf.NextId(w.bsf, supi) != "" && Chf.NextId(w.chf, supi) != ""
  {
    assert Bsf.NextId(w.bsf, supi)[0] == 'b' && Chf.NextId(w.chf, supi)[0] == 'c';
  }

  // ---- update and release --------------------------------------------------------------------------------------

  /** An update answers 200 exactly when there is a session, the UPF goes along and the Put succeeds; then each QoS value that the
      request gives is stored, and each that it leaves at zero stays. */
  lemma UpdateAnswers(w: World, cfg: Config, req: Smf.UpdateRequest, modified: bool, putOk: bool)
    ensures var (w', status) := Smf.Update(w, cfg, req, modified, putOk);
            && status == (if req.sessionId == "" then 400 else if req.sessionId !in w.sessions then 404
                          else if (cfg.pfcp ==> modified) && putOk then 200 else 500)
            && (status != 200 ==> w' == w)
            && (status == 200 ==>
                  && req.sessionId in w'.sessions
                  && var s, s' := w.sessions[req.sessionId], w'.sessions[req.sessionId];
                     && s'.ambrUl == (if req.ambrUl > 0 then req.ambrUl else s.ambrUl)
                     && s'.ambrDl == (if req.ambrDl > 0 then req.ambrDl else s.ambrDl)
                     && s'.qfi == (if req.qfi > 0 then req.qfi else s.qfi))
  {
  }

  /** A release answers 200 exactly when there is a session and the UPF lets it go. Then the session, and only this one, is
      gone, its address is free, and its SEID is no longer at the UPF; otherwise nothing changes. */
  lemma ReleaseAnswers(w: World, cfg: Config, id: string, env: Smf.ReleaseEnv)
    ensures var (w', status) := Smf.Release(w, cfg, id, env);
            && status == (if id == "" then 400 else if id !in w.sessions then 404 else if cfg.pfcp ==> env.deleted then 200 else 500)
            && (status != 200 ==> w' == w)
            && (status == 200 ==>
                  && w'.sessions.Keys == w.sessions.Keys - {id}
                  && (forall j :: j in w'.sessions ==> w'.sessions[j] == w.sessions[j])
                  && w'.leases.Keys == w.leases.Keys - (if w.sessions[id].ueAddress == "" then {} else {w.sessions[id].ueAddress})
                  && w'.upf == (if cfg.pfcp then w.upf - {Serial(id)} else w.upf)
                  && w'.contexts == w.contexts && w'.seid == w.seid && Cursor(w') == Cursor(w))
  {
    hide Serial, Bsf.Deregister, Chf.Release, Nsacf.Update;
  }

  /** In every run, releasing a session with a binding takes its binding down when the deregistration is carried out: the record is
      gone and its address is no longer found; when the call does not arrive, or is switched off, the BSF stays as it is. */
  lemma ReleaseUnbinds(cfg: Config, ops: seq<Op>, id: string, env: Smf.ReleaseEnv)
    requires |ops| < TWO64 && Smf.Release(Run(cfg, ops), cfg, id, env).1 == 200
    ensures var w := Run(cfg, ops);
            var b, s := Smf.Release(w, cfg, id, env).0.bsf, w.sessions[id];
            if cfg.bsf && cfg.sbi && s.bsfBindingId != "" && env.unbind != Unreached then
              && s.bsfBindingId in w.bsf.bindings && s.bsfBindingId !in b.bindings
              && Bsf.Discover(b, s.ueAddress, "", "") == Bsf.NoEntry
            else b == w.bsf
  {
    var w := Run(cfg, ops);
    ReleaseAnswers(w, cfg, id, env);
    RunConsistent(cfg, ops);
    hide Run, Serial, Identifier, Chf.Release, Nsacf.Update;
    NamedSessions(w, cfg, id);
    hide Smf.Consistent;
    var s := w.sessions[id];
    if s.bsfBindingId != "" {
      assert s.bsfBindingId in w.bsf.bindings && w.bsf.bindings[s.bsfBindingId].ueAddress == s.ueAddress != "";
    }
  }

  /** ... and the charging session ends in its record, or stays as it is. */
  lemma ReleaseCloses(w: World, cfg: Config, id: string, env: Smf.ReleaseEnv)
    requires Smf.Release(w, cfg, id, env).1 == 200
    ensures var c, s := Smf.Release(w, cfg, id, env).0.chf, w.sessions[id];
            if cfg.charging && cfg.sbi && s.chargingId != "" && s.chargingId in w.chf.sessions && env.charge != Unreached && env.recordPut
            then s.chargingId !in c.sessions && "cdr-" + s.chargingId in c.records
            else c == w.chf
  {
    hide Serial, Bsf.Deregister, Nsacf.Update;
    Chf.ReleaseAnswers(w.chf, w.sessions[id].chargingId, env.recordPut);
    hide Chf.Release;
  }

  // ---- which sessions a run holds --------------------------------------------------------------------------------

  /** The id that a request was answered with 201 for. */
  function Opened(w: World, cfg: Config, op: Op): Option<string> {
    if op.CreateOp? && Smf.Create(w, cfg, op.creation, op.createEnv).1.status == 201
    then Some(Smf.Create(w, cfg, op.creation, op.createEnv).1.sessionId) else None
  }

  /** The id whose release was answered with 200. */
  function Closed(w: World, cfg: Config, op: Op): Option<string> {
    if op.ReleaseOp? && Smf.Release(w, cfg, op.sessionId, op.releaseEnv).1 == 200 then Some(op.sessionId) else None
  }

  /** The sessions as callers know them from the answers they got. */
  function Open(cfg: Config, ops: seq<Op>): set<string> {
    if ops == [] then {}
    else
      var init, op := ops[..|ops| - 1], ops[|ops| - 1];
      var w := Run(cfg, init);
      var added, removed := Opened(w, cfg, op), Closed(w, cfg, op);
      Open(cfg, init) + (if added.Some? then {added.value} else {}) - (if removed.Some? then {removed.value} else {})
  }

  lemma StepOpens(w: World, cfg: Config, op: Op)
    requires Smf.Named(w.sessions, w.seid) && w.seid + 1 < TWO64
    ensures var added, removed := Opened(w, cfg, op), Closed(w, cfg, op);
            Step(w, cfg, op).sessions.Keys ==
            w.sessions.Keys + (if added.Some? then {added.value} else {}) - (if removed.Some? then {removed.value} else {})
  {
    hide Smf.Create, Smf.Release, Smf.Named, Chf.Update, Amf.CountAll;
    match op
    case CreateOp(req, env) =>
      CreateTouches(w, cfg, req, env);
      hide Nsacf.Update;
    case ReleaseOp(id, env) => ReleaseAnswers(w, cfg, id, env); hide Serial;
    case _ =>
  }

  /** In every run the stored sessions are exactly those whose create was answered with 201 and whose release was not yet answered
      with 200: a caller's books and the session table agree. */
  lemma {:induction false} StoredAreTheAnswered(cfg: Config, ops: seq<Op>)
    requires |ops| < TWO64
    ensures Run(cfg, ops).sessions.Keys == Open(cfg, ops)
  {
    if ops != [] {
      var init := ops[..|ops| - 1];
      StoredAreTheAnswered(cfg, init);
      RunConsistent(cfg, init);
      var w := Run(cfg, init);
      assert Smf.Named(w.sessions, w.seid);
      hide Smf.Consistent, Smf.Named, Step, Opened, Closed;
      StepOpens(w, cfg, ops[|ops| - 1]);
    }
  }

  // ---- registration ----------------------------------------------------------------------------------------------

  /** The UE is authenticated, or its authentication was done before, and has a subscription of which nothing is denied. */
  ghost predicate Admitted(cfg: Config, req: Amf.RegisterRequest, env: Amf.RegisterEnv) {
    && req.supi != "" && (req.skipAuth || (env.challenged && env.vectorRead && env.verdict == Amf.Success))
    && env.subscription.Some?
    && (cfg.nsacf ==> forall i :: 0 <= i < |env.subscription.value| ==> i !in env.denied)
  }

  /** The answer without a registration: 400, 403 or 500 by the first check that fails. */
  ghost function Refusal(cfg: Config, req: Amf.RegisterRequest, env: Amf.RegisterEnv): int {
    if req.supi == "" then 400
    else if !req.skipAuth && !(env.challenged && env.vectorRead) then 500
    else if !req.skipAuth && env.verdict != Amf.Success then (if env.verdict == Amf.Failure then 403 else 500)
    else if env.subscription.None? then 500
    else 403
  }

  /** A registration answers 200 if and only if the UE is admitted and its context is stored. A UE that is not admitted changes
      nothing; one that is admitted is counted, and stored with exactly its subscribed slices. */
  lemma RegisterAnswers(w: World, cfg: Config, req: Amf.RegisterRequest, env: Amf.RegisterEnv)
    ensures var (w', status) := Amf.Register(w, cfg, req, env);
            && (status == 200 <==> Admitted(cfg, req, env) && env.contextPut)
            && (Admitted(cfg, req, env) && !env.contextPut ==> status == 500 && w'.contexts == w.contexts)
            && (!Admitted(cfg, req, env) ==> w' == w && status == Refusal(cfg, req, env))
            && (status == 200 ==> w'.contexts == w.contexts[req.supi := UeContext(req.supi, env.subscription.value)])
            && w' == w.(slices := w'.slices, contexts := w'.contexts)
            && (!cfg.nsacf ==> w'.slices == w.slices)
  {
    hide Amf.CountAll;
  }

  /** A deregistration answers 200 exactly when there is a context, and removes it and no other. */
  lemma DeregisterAnswers(w: World, cfg: Config, supi: string, lost: set<nat>)
    ensures var (w', status) := Amf.Deregister(w, cfg, supi, lost);
            && status == (if supi == "" then 400 else if supi in w.contexts then 200 else 404)
            && (status != 200 ==> w' == w)
            && (status == 200 ==> w'.contexts == w.contexts - {supi})
            && w' == w.(slices := w'.slices, contexts := w'.contexts)
            && (!(cfg.nsacf && cfg.sbi) ==> w'.slices == w.slices)
  {
    hide Amf.CountAll;
  }

  /** The subscribed slices of a UE that stands registered, told from the requests and their environments alone: the last
      registration that was admitted and stored, unless a deregistration came after it. */
  ghost function Standing(cfg: Config, ops: seq<Op>, supi: string): Option<seq<Snssai>> {
    if ops == [] then None
    else
      var before := Standing(cfg, ops[..|ops| - 1], supi);
      match ops[|ops| - 1]
      case RegisterOp(req, env) =>
        if req.supi == supi && Admitted(cfg, req, env) && env.contextPut then env.subscription else before
      case DeregisterOp(id, _) => if id == supi then None else before
      case _ => before
  }

  lemma SessionStepsKeepContexts(w: World, cfg: Config, op: Op)
    requires !op.RegisterOp? && !op.DeregisterOp? && Smf.Named(w.sessions, w.seid) && w.seid + 1 < TWO64
    ensures Step(w, cfg, op).contexts == w.contexts
  {
    hide Smf.Create, Smf.Named, Nsacf.Update, Bsf.Deregister, Chf.Release, Serial;
    if op.CreateOp? { CreateTouches(w, cfg, op.creation, op.createEnv); }
  }

  /** In every run a UE has a stored context if and only if it stands registered, and the context carries the slices of that
      registration: no context without an authentication that succeeded, or was declared done. */
  lemma {:induction false} ContextsAreTheStanding(cfg: Config, ops: seq<Op>, supi: string)
    requires |ops| < TWO64
    ensures var w := Run(cfg, ops);
            && (supi in w.contexts <==> Standing(cfg, ops, supi).Some?)
            && (supi in w.contexts ==> supi != "" && w.contexts[supi] == UeContext(supi, Standing(cfg, ops, supi).value))
  {
    if ops != [] {
      var init, op := ops[..|ops| - 1], ops[|ops| - 1];
      ContextsAreTheStanding(cfg, init, supi);
      RunConsistent(cfg, init);
      var w := Run(cfg, init);
      assert Smf.Named(w.sessions, w.seid);
      hide Smf.Consistent, Smf.Named, Admitted, Refusal, Amf.Register, Amf.Deregister;
      match op
      case RegisterOp(req, env) => RegisterAnswers(w, cfg, req, env); AdmittedHasSupi(cfg, req, env);
      case DeregisterOp(id, lost) => DeregisterAnswers(w, cfg, id, lost);
      case _ => hide Step; SessionStepsKeepContexts(w, cfg, op);
    }
  }

  lemma AdmittedHasSupi(cfg: Config, req: Amf.RegisterRequest, env: Amf.RegisterEnv)
    ensures Admitted(cfg, req, env) ==> req.supi != "" && env.subscription.Some?
  {
  }

  /** Behind every stored context there is a registration of the run that was admitted and stored, with nothing of the UE since:
      neither another such registration nor a deregistration. */
  lemma {:induction false} StandingWasAdmitted(cfg: Config, ops: seq<Op>, supi: string) returns (k: nat)
    requires Standing(cfg, ops, supi).Some?
    ensures k < |ops| && ops[k].RegisterOp? && ops[k].registration.supi == supi
    ensures Admitted(cfg, ops[k].registration, ops[k].registerEnv) && ops[k].registerEnv.contextPut
    ensures ops[k].registerEnv.subscription == Standing(cfg, ops, supi)
    ensures forall j :: k < j < |ops| ==>
              && !(ops[j].DeregisterOp? && ops[j].supi == supi)
              && !(ops[j].RegisterOp? && ops[j].registration.supi == supi && ops[j].registerEnv.contextPut
                   && Admitted(cfg, ops[j].registration, ops[j].registerEnv))
  {
    var n := |ops| - 1;
    hide Admitted;
    match ops[n]
    case RegisterOp(req, env) =>
      if req.supi == supi && Admitted(cfg, req, env) && env.contextPut {
        k := n;
      } else {
        k := StandingWasAdmitted(cfg, ops[..n], supi);
      }
    case _ => k := StandingWasAdmitted(cfg, ops[..n], supi);
  }

  // ---- counters ----------------------------------------------------------------------------------------------------

  ghost predicate NotNegative(t: Nsacf.Table) {
    forall key :: key in t ==> t[key].currentUes >= 0 && t[key].currentSessions >= 0
  }

  lemma UpdateNotNegative(t: Nsacf.Table, s: Snssai, ctype: Nsacf.CounterType, op: Nsacf.Operation, putOk: bool)
    requires NotNegative(t)
    ensures NotNegative(Nsacf.Update(t, s, ctype, op, putOk).0)
  {
    hide Nsacf.SliceKey;
  }

  lemma {:induction false} CountAllNotNegative(t: Nsacf.Table, slices: seq<Snssai>, op: Nsacf.Operation, lost: set<nat>)
    requires NotNegative(t)
    ensures NotNegative(Amf.CountAll(t, slices, op, lost))
  {
    hide NotNegative, Nsacf.Update;
    if slices != [] {
      var n := |slices| - 1;
      CountAllNotNegative(t, slices[..n], op, lost);
      UpdateNotNegative(Amf.CountAll(t, slices[..n], op, lost), slices[n], Nsacf.Ue, op, true);
    }
  }

  lemma StepNotNegative(w: World, cfg: Config, op: Op)
    requires NotNegative(w.slices) && Smf.Named(w.sessions, w.seid) && w.seid + 1 < TWO64
    ensures NotNegative(Step(w, cfg, op).slices)
  {
    hide NotNegative, Smf.Create, Smf.Named, Nsacf.Update, Bsf.Deregister, Chf.Release, Serial, Amf.CountAll;
    match op
    case CreateOp(req, env) =>
      CreateTouches(w, cfg, req, env);
      UpdateNotNegative(w.slices, req.snssai, Nsacf.PduSessions, Nsacf.Increment, env.countPut);
    case ReleaseOp(id, env) =>
      if id in w.sessions { UpdateNotNegative(w.slices, w.sessions[id].snssai, Nsacf.PduSessions, Nsacf.Decrement, env.countPut); }
    case RegisterOp(req, env) =>
      if env.subscription.Some? { CountAllNotNegative(w.slices, env.subscription.value, Nsacf.Increment, env.lost); }
    case DeregisterOp(supi, lost) =>
      if supi in w.contexts { CountAllNotNegative(w.slices, w.contexts[supi].allowedNssai, Nsacf.Decrement, lost); }
    case _ =>
  }

  /** In every run, whichever calls are lost, no counter of any slice is ever negative. */
  lemma {:induction false} CountersNeverNegative(cfg: Config, ops: seq<Op>)
    requires |ops| < TWO64
    ensures NotNegative(Run(cfg, ops).slices)
  {
    if ops != [] {
      var init := ops[..|ops| - 1];
      CountersNeverNegative(cfg, init);
      RunConsistent(cfg, init);
      var w := Run(cfg, init);
      assert Smf.Named(w.sessions, w.seid);
      hide Smf.Consistent, Smf.Named, Step, NotNegative;
      StepNotNegative(w, cfg, ops[|ops| - 1]);
    }
  }

  // ---- functions that are switched off -----------------------------------------------------------------------------

  lemma StepSwitchedOff(w: World, cfg: Config, op: Op)
    requires Smf.Named(w.sessions, w.seid) && w.seid + 1 < TWO64
    ensures !cfg.nsacf ==> Step(w, cfg, op).slices == w.slices
    ensures !cfg.sbi && !op.RegisterOp? ==> Step(w, cfg, op).slices == w.slices
    ensures !(cfg.bsf && cfg.sbi) ==> Step(w, cfg, op).bsf == w.bsf
    ensures !(cfg.charging && cfg.sbi) && w.chf == Chf.EMPTY ==> Step(w, cfg, op).chf == Chf.EMPTY
  {
    hide Smf.Create, Smf.Named, Nsacf.Update, Bsf.Deregister, Chf.Release, Serial, Amf.CountAll, Amf.Rejected;
    if op.CreateOp? {
      CreateTouches(w, cfg, op.creation, op.createEnv);
      CreateHands(w, cfg, op.creation, op.createEnv);
    }
  }

  /** A function that is switched off is never written to: without NSACF no counter exists, and without BSF, CHF or the clients to
      call them no binding, charging session or record does, in any run. */
  lemma {:induction false} SwitchedOffStaysEmpty(cfg: Config, ops: seq<Op>)
    requires |ops| < TWO64
    ensures var w := Run(cfg, ops);
            && (!cfg.nsacf ==> w.slices == map[])
            && (!(cfg.bsf && cfg.sbi) ==> w.bsf == Bsf.EMPTY)
            && (!(cfg.charging && cfg.sbi) ==> w.chf == Chf.EMPTY)
  {
    if ops != [] {
      var init := ops[..|ops| - 1];
      SwitchedOffStaysEmpty(cfg, init);
      RunConsistent(cfg, init);
      var w := Run(cfg, init);
      assert Smf.Named(w.sessions, w.seid);
      hide Smf.Consistent, Smf.Named, Step;
      StepSwitchedOff(w, cfg, ops[|ops| - 1]);
    }
  }
}
