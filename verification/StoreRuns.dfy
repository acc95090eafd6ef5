/** Every handler, and every run, as a row of writes to the flat store. */
module StoreRuns {
  import opened Text
  import opened Octets
  import opened Models
  import opened World
  import opened Keys
  import opened Store
  import opened SmfInvariant
  import Smf
  import Amf
  import Runs
  import Bsf
  import Chf
  import Nsacf
  import Aka

  // ---- create ----------------------------------------------------------------------------------------------

  function BindWrites(w: World, cfg: Config, s: PduSession, env: Smf.CreateEnv): seq<Write> {
    if !(cfg.bsf && cfg.sbi) || env.bind == Unreached then []
    else
      var req := Binding(s.supi, s.dnn, s.snssai, s.ueAddress, s.id);
      var id := Bsf.Register(w.bsf, req, env.bindPuts).1.bindingId;
      BindingWrites(w.bsf, req, env.bindPuts) +
      if env.bind == Served && id != "" && env.bindingPut
      then [Put(PduSessionKey(s.id), SessionValue(s.(bsfBindingId := id)))] else []
  }

  lemma BindIsWrites(w: World, a: Aka.State, cfg: Config, s: PduSession, env: Smf.CreateEnv)
    ensures Leads(w, a, BindWrites(w, cfg, s, env), Smf.Bind(w, cfg, s, env).0, a)
  {
    hide Leads, Bsf.Register, BindingWrites;
    Stays(w, a, w);
    if cfg.bsf && cfg.sbi && env.bind != Unreached {
      var req := Binding(s.supi, s.dnn, s.snssai, s.ueAddress, s.id);
      var (b, reply) := Bsf.Register(w.bsf, req, env.bindPuts);
      var w1, xs := w.(bsf := b), BindingWrites(w.bsf, req, env.bindPuts);
      var s1 := s.(bsfBindingId := reply.bindingId);
      BindingRegisterWrites(w, a, req, env.bindPuts);
      SessionPut(w1, a, s.id, s1);
      Then(w, xs, w1, [Put(PduSessionKey(s.id), SessionValue(s1))], Smf.PutSession(w1, s1), a);
      assert xs + [] == xs;
    }
  }

  function ChargeWrites(w: World, cfg: Config, s: PduSession, env: Smf.CreateEnv): seq<Write> {
    if !(cfg.charging && cfg.sbi) || env.charge == Unreached then []
    else
      var req := Charging(s.supi, s.dnn, s.snssai, s.id);
      var id := Chf.Create(w.chf, req, env.chargePut).1.chargingId;
      ChargingWrites(w.chf, Chf.CreateOp(req, env.chargePut)) +
      if env.charge == Served && id != "" && env.chargingPut
      then [Put(PduSessionKey(s.id), SessionValue(s.(chargingId := id)))] else []
  }

  lemma ChargeIsWrites(w: World, a: Aka.State, cfg: Config, s: PduSession, env: Smf.CreateEnv)
    ensures Leads(w, a, ChargeWrites(w, cfg, s, env), Smf.Charge(w, cfg, s, env).0, a)
  {
    hide Leads, Chf.Create, ChargingWrites;
    Stays(w, a, w);
    if cfg.charging && cfg.sbi && env.charge != Unreached {
      var req := Charging(s.supi, s.dnn, s.snssai, s.id);
      var (c, reply) := Chf.Create(w.chf, req, env.chargePut);
      var w1, xs := w.(chf := c), ChargingWrites(w.chf, Chf.CreateOp(req, env.chargePut));
      var s1 := s.(chargingId := reply.chargingId);
      ChargingOpWrites(w, a, Chf.CreateOp(req, env.chargePut));
      SessionPut(w1, a, s.id, s1);
      Then(w, xs, w1, [Put(PduSessionKey(s.id), SessionValue(s1))], Smf.PutSession(w1, s1), a);
      assert xs + [] == xs;
    }
  }

  function CountWrites(w: World, cfg: Config, slice: Snssai, op: Nsacf.Operation, fate: Fate, ok: bool): seq<Write> {
    if cfg.nsacf && cfg.sbi && fate != Unreached then CounterWrites(w.slices, slice, Nsacf.PduSessions, op, ok) else []
  }

  lemma CountIsWrites(w: World, a: Aka.State, cfg: Config, slice: Snssai, op: Nsacf.Operation, fate: Fate, ok: bool)
    ensures Leads(w, a, CountWrites(w, cfg, slice, op, fate, ok), Smf.Count(w, cfg, slice, op, fate, ok), a)
  {
    hide Leads, Nsacf.Update, CounterWrites;
    Stays(w, a, w);
    UpdateCountersWrites(w, a, slice, Nsacf.PduSessions, op, ok);
  }

  function SettleWrites(w: World, cfg: Config, s: PduSession, env: Smf.CreateEnv): seq<Write> {
    var w1 := Smf.PutSession(w, s);
    var (w2, s2) := Smf.Bind(w1, cfg, s, env);
    var w3 := Smf.Charge(w2, cfg, s2, env).0;
    [Put(PduSessionKey(s.id), SessionValue(s))] + BindWrites(w1, cfg, s, env) + ChargeWrites(w2, cfg, s2, env) +
    CountWrites(w3, cfg, s.snssai, Nsacf.Increment, env.count, env.countPut)
  }

  lemma SettleIsWrites(w: World, a: Aka.State, cfg: Config, s: PduSession, env: Smf.CreateEnv)
    ensures Leads(w, a, SettleWrites(w, cfg, s, env), Smf.Settle(w, cfg, s, env), a)
  {
    hide Leads, Smf.Bind, Smf.Charge, Smf.Count, BindWrites, ChargeWrites, CountWrites;
    var w1 := Smf.PutSession(w, s);
    var (w2, s2) := Smf.Bind(w1, cfg, s, env);
    var w3 := Smf.Charge(w2, cfg, s2, env).0;
    var x1 := [Put(PduSessionKey(s.id), SessionValue(s))];
    var x2, x3 := BindWrites(w1, cfg, s, env), ChargeWrites(w2, cfg, s2, env);
    SessionPut(w, a, s.id, s);
    BindIsWrites(w1, a, cfg, s, env);
    Then(w, x1, w1, x2, w2, a);
    ChargeIsWrites(w2, a, cfg, s2, env);
    Then(w, x1 + x2, w2, x3, w3, a);
    CountIsWrites(w3, a, cfg, s.snssai, Nsacf.Increment, env.count, env.countPut);
    Then(w, x1 + x2 + x3, w3, CountWrites(w3, cfg, s.snssai, Nsacf.Increment, env.count, env.countPut),
         Smf.Count(w3, cfg, s.snssai, Nsacf.Increment, env.count, env.countPut), a);
  }

  /** Once the address is reserved: it is given back on every failure. */
  function InstallWrites(w: World, cfg: Config, req: Smf.CreateRequest, policy: Smf.Policy, ip: string, env: Smf.CreateEnv): seq<Write> {
    if !env.addressParses || (cfg.pfcp && !env.established) || !env.sessionPut then [Delete(AllocatedKey(ip))]
    else
      var n := Next64(w.seid);
      SettleWrites(w.(seid := n, upf := if cfg.pfcp then w.upf + {n} else w.upf), cfg, Smf.NewSession(req, policy, ip, n), env)
  }

  lemma InstallIsWrites(w: World, a: Aka.State, cfg: Config, req: Smf.CreateRequest, policy: Smf.Policy, ip: string, env: Smf.CreateEnv)
    ensures Leads(w, a, InstallWrites(w, cfg, req, policy, ip, env), Smf.Install(w, cfg, req, policy, ip, env).0, a)
  {
    hide Leads, Smf.Settle, SettleWrites, Identifier;
    var n := Next64(w.seid);
    var w1 := w.(seid := n);
    var w2 := if cfg.pfcp then w1.(upf := w1.upf + {n}) else w1;
    var undo := [Delete(AllocatedKey(ip))];
    LeaseDelete(w, a, ip);
    Stays(w, a, w1);
    LeaseDelete(w1, a, ip);
    Then(w, [], w1, undo, Smf.FreeAddress(w1, ip), a);
    Stays(w, a, w2);
    LeaseDelete(w2, a, ip);
    Then(w, [], w2, undo, Smf.FreeAddress(w2, ip), a);
    assert [] + undo == undo;
    var s := Smf.NewSession(req, policy, ip, n);
    SettleIsWrites(w2, a, cfg, s, env);
    Then(w, [], w2, SettleWrites(w2, cfg, s, env), Smf.Settle(w2, cfg, s, env), a);
    assert [] + SettleWrites(w2, cfg, s, env) == SettleWrites(w2, cfg, s, env);
  }

  function CreateWrites(w: World, cfg: Config, req: Smf.CreateRequest, env: Smf.CreateEnv): seq<Write> {
    var policy := Smf.DefaultPolicy(cfg, env);
    if req.supi == "" || policy.None? || (cfg.nsacf && cfg.sbi && env.admission == Smf.Denied) then []
    else
      var (w1, ip) := Smf.Allocate(w, cfg.prefix, env.allocatePut);
      if ip.None? then []
      else [Put(AllocatedKey(ip.value), TextValue(ip.value))] + InstallWrites(w1, cfg, req, policy.value, ip.value, env)
  }

  lemma AllocateIsWrites(w: World, a: Aka.State, prefix: string, ok: bool)
    ensures var (w1, ip) := Smf.Allocate(w, prefix, ok);
            Leads(w, a, if ip.Some? then [Put(AllocatedKey(ip.value), TextValue(ip.value))] else [], w1, a)
  {
    AllocateEffect(w, prefix, ok);
    hide Leads, Smf.Allocate;
    var (w1, ip) := Smf.Allocate(w, prefix, ok);
    var w0 := w.(subnet := w1.subnet, host := w1.host);
    Stays(w, a, w0);
    if ip.Some? {
      var x := [Put(AllocatedKey(ip.value), TextValue(ip.value))];
      LeasePut(w0, a, ip.value);
      Then(w, [], w0, x, w0.(leases := w0.leases[ip.value := ip.value]), a);
      assert [] + x == x;
    }
  }

  lemma CreateIsWrites(w: World, a: Aka.State, cfg: Config, req: Smf.CreateRequest, env: Smf.CreateEnv)
    ensures Leads(w, a, CreateWrites(w, cfg, req, env), Smf.Create(w, cfg, req, env).0, a)
  {
    hide Leads, Smf.Allocate, Smf.Install, InstallWrites;
    Stays(w, a, w);
    AllocateIsWrites(w, a, cfg.prefix, env.allocatePut);
    var (w1, ip) := Smf.Allocate(w, cfg.prefix, env.allocatePut);
    var policy := Smf.DefaultPolicy(cfg, env);
    if ip.Some? && policy.Some? {
      InstallIsWrites(w1, a, cfg, req, policy.value, ip.value, env);
      Then(w, [Put(AllocatedKey(ip.value), TextValue(ip.value))], w1, InstallWrites(w1, cfg, req, policy.value, ip.value, env),
           Smf.Install(w1, cfg, req, policy.value, ip.value, env).0, a);
    }
  }

  // ---- update and release ------------------------------------------------------------------------------------

  function UpdateWrites(w: World, cfg: Config, req: Smf.UpdateRequest, modified: bool, ok: bool): seq<Write> {
    var (w', status) := Smf.Update(w, cfg, req, modified, ok);
    if status == OK then [Put(PduSessionKey(req.sessionId), SessionValue(w'.sessions[req.sessionId]))] else []
  }

  lemma UpdateIsWrites(w: World, a: Aka.State, cfg: Config, req: Smf.UpdateRequest, modified: bool, ok: bool)
    ensures Leads(w, a, UpdateWrites(w, cfg, req, modified, ok), Smf.Update(w, cfg, req, modified, ok).0, a)
  {
    hide Leads;
    Stays(w, a, w);
    var (w', status) := Smf.Update(w, cfg, req, modified, ok);
    if status == OK { SessionPut(w, a, req.sessionId, w'.sessions[req.sessionId]); }
  }

  function ReleaseChargingWrites(c: Chf.State, cfg: Config, s: PduSession, env: Smf.ReleaseEnv): seq<Write> {
    if cfg.charging && cfg.sbi && s.chargingId != "" && env.charge != Unreached
    then ChargingWrites(c, Chf.ReleaseOp(s.chargingId, env.recordPut)) else []
  }

  function ReleaseBindingWrites(b: Bsf.State, cfg: Config, s: PduSession, env: Smf.ReleaseEnv): seq<Write> {
    if cfg.bsf && cfg.sbi && s.bsfBindingId != "" && env.unbind != Unreached then UnbindingWrites(b, s.bsfBindingId) else []
  }

  function TeardownWrites(w: World, cfg: Config, s: PduSession, id: string, env: Smf.ReleaseEnv): seq<Write> {
    (if s.ueAddress != "" then [Delete(AllocatedKey(s.ueAddress))] else []) +
    ReleaseChargingWrites(w.chf, cfg, s, env) + ReleaseBindingWrites(w.bsf, cfg, s, env) +
    CountWrites(w, cfg, s.snssai, Nsacf.Decrement, env.count, env.countPut) +
    [Delete(PduSessionKey(id))]
  }

  lemma ReleaseResourcesIsWrites(w: World, a: Aka.State, w': World, cfg: Config, s: PduSession, id: string)
    requires w' == w.(upf := if cfg.pfcp then w.upf - {Serial(id)} else w.upf,
                      leases := if s.ueAddress != "" then w.leases - {s.ueAddress} else w.leases)
    ensures Leads(w, a, if s.ueAddress != "" then [Delete(AllocatedKey(s.ueAddress))] else [], w', a)
  {
    hide Leads, Serial;
    var w0 := w.(upf := if cfg.pfcp then w.upf - {Serial(id)} else w.upf);
    Stays(w, a, w0);
    LeaseDelete(w0, a, s.ueAddress);
    Then(w, [], w0, [Delete(AllocatedKey(s.ueAddress))], Smf.FreeAddress(w0, s.ueAddress), a);
    assert [] + [Delete(AllocatedKey(s.ueAddress))] == [Delete(AllocatedKey(s.ueAddress))];
  }

  lemma ReleaseChargingIsWrites(w: World, a: Aka.State, c: Chf.State, cfg: Config, s: PduSession, env: Smf.ReleaseEnv)
    requires c == if cfg.charging && cfg.sbi && s.chargingId != "" && env.charge != Unreached
                  then Chf.Release(w.chf, s.chargingId, env.recordPut).0 else w.chf
    ensures Leads(w, a, ReleaseChargingWrites(w.chf, cfg, s, env), w.(chf := c), a)
  {
    hide Leads, Chf.Release, ChargingWrites;
    Stays(w, a, w);
    ChargingOpWrites(w, a, Chf.ReleaseOp(s.chargingId, env.recordPut));
  }

  lemma ReleaseBindingIsWrites(w: World, a: Aka.State, b: Bsf.State, cfg: Config, s: PduSession, env: Smf.ReleaseEnv)
    requires b == if cfg.bsf && cfg.sbi && s.bsfBindingId != "" && env.unbind != Unreached
                  then Bsf.Deregister(w.bsf, s.bsfBindingId).0 else w.bsf
    ensures Leads(w, a, ReleaseBindingWrites(w.bsf, cfg, s, env), w.(bsf := b), a)
  {
    hide Leads, Bsf.Deregister, UnbindingWrites;
    Stays(w, a, w);
    BindingDeregisterWrites(w, a, s.bsfBindingId);
  }

  lemma TeardownIsWrites(w: World, a: Aka.State, cfg: Config, s: PduSession, id: string, env: Smf.ReleaseEnv)
    ensures Leads(w, a, TeardownWrites(w, cfg, s, id, env), Smf.Teardown(w, cfg, s, id, env), a)
  {
    hide Leads, Serial, Bsf.Deregister, Chf.Release, Nsacf.Update, CounterWrites, ReleaseChargingWrites, ReleaseBindingWrites;
    var end := Smf.Teardown(w, cfg, s, id, env);
    var w1 := w.(upf := end.upf, leases := end.leases);
    var x1 := if s.ueAddress != "" then [Delete(AllocatedKey(s.ueAddress))] else [];
    ReleaseResourcesIsWrites(w, a, w1, cfg, s, id);
    var w2, x2 := w1.(chf := end.chf), ReleaseChargingWrites(w.chf, cfg, s, env);
    ReleaseChargingIsWrites(w1, a, end.chf, cfg, s, env);
    Then(w, x1, w1, x2, w2, a);
    var w3, x3 := w2.(bsf := end.bsf), ReleaseBindingWrites(w.bsf, cfg, s, env);
    ReleaseBindingIsWrites(w2, a, end.bsf, cfg, s, env);
    Then(w, x1 + x2, w2, x3, w3, a);
    var w4, x4 := w3.(slices := end.slices), CountWrites(w, cfg, s.snssai, Nsacf.Decrement, env.count, env.countPut);
    CountIsWrites(w3, a, cfg, s.snssai, Nsacf.Decrement, env.count, env.countPut);
    Then(w, x1 + x2 + x3, w3, x4, w4, a);
    SessionDelete(w4, a, id);
    Then(w, x1 + x2 + x3 + x4, w4, [Delete(PduSessionKey(id))], end, a);
  }

  // ---- registration --------------------------------------------------------------------------------------------

  function RegisterWrites(w: World, cfg: Config, req: Amf.RegisterRequest, env: Amf.RegisterEnv): seq<Write> {
    if Amf.Rejected(cfg, req, env).Some? then []
    else
      var slices := env.subscription.value;
      (if cfg.nsacf then CountAllWrites(w.slices, slices, Nsacf.Increment, env.lost) else []) +
      (if env.contextPut then [Put(UeKey(req.supi), ContextValue(UeContext(req.supi, slices)))] else [])
  }

  lemma RegisterIsWrites(w: World, a: Aka.State, cfg: Config, req: Amf.RegisterRequest, env: Amf.RegisterEnv)
    ensures Leads(w, a, RegisterWrites(w, cfg, req, env), Amf.Register(w, cfg, req, env).0, a)
  {
    hide Leads, Amf.CountAll, CountAllWrites, Amf.Rejected;
    Stays(w, a, w);
    if Amf.Rejected(cfg, req, env).None? {
      assert env.subscription.Some? by { AcceptedHasSlices(cfg, req, env); }
      var slices := env.subscription.value;
      var w1 := if cfg.nsacf then w.(slices := Amf.CountAll(w.slices, slices, Nsacf.Increment, env.lost)) else w;
      var xs := if cfg.nsacf then CountAllWrites(w.slices, slices, Nsacf.Increment, env.lost) else [];
      CountUesWrites(w, a, slices, Nsacf.Increment, env.lost);
      var c := UeContext(req.supi, slices);
      ContextPut(w1, a, req.supi, c);
      Then(w, xs, w1, [Put(UeKey(req.supi), ContextValue(c))], w1.(contexts := w1.contexts[req.supi := c]), a);
      assert xs + [] == xs;
    }
  }

  lemma AcceptedHasSlices(cfg: Config, req: Amf.RegisterRequest, env: Amf.RegisterEnv)
    requires Amf.Rejected(cfg, req, env).None?
    ensures env.subscription.Some?
  {
  }

  function DeregisterWrites(w: World, cfg: Config, supi: string, lost: set<nat>): seq<Write> {
    if supi == "" || supi !in w.contexts then []
    else
      (if cfg.nsacf && cfg.sbi then CountAllWrites(w.slices, w.contexts[supi].allowedNssai, Nsacf.Decrement, lost) else []) +
      [Delete(UeKey(supi))]
  }

  lemma DeregisterIsWrites(w: World, a: Aka.State, cfg: Config, supi: string, lost: set<nat>)
    ensures Leads(w, a, DeregisterWrites(w, cfg, supi, lost), Amf.Deregister(w, cfg, supi, lost).0, a)
  {
    hide Leads, Amf.CountAll, CountAllWrites;
    Stays(w, a, w);
    if supi != "" && supi in w.contexts {
      var slices, counted := w.contexts[supi].allowedNssai, cfg.nsacf && cfg.sbi;
      var w1 := if counted then w.(slices := Amf.CountAll(w.slices, slices, Nsacf.Decrement, lost)) else w;
      var xs := if counted then CountAllWrites(w.slices, slices, Nsacf.Decrement, lost) else [];
      CountUesWrites(w, a, slices, Nsacf.Decrement, lost);
      ContextDelete(w1, a, supi);
      Then(w, xs, w1, [Delete(UeKey(supi))], w1.(contexts := w1.contexts - {supi}), a);
    }
  }

  // ---- whole runs ------------------------------------------------------------------------------------------------

  /** The Puts and Deletes of one request, in the order in which its handlers make them. */
  function OpWrites(w: World, cfg: Config, op: Runs.Op): seq<Write> {
    match op
    case CreateOp(req, env) => CreateWrites(w, cfg, req, env)
    case UpdateOp(req, modified, ok) => UpdateWrites(w, cfg, req, modified, ok)
    case ReleaseOp(id, env) =>
      if Smf.Release(w, cfg, id, env).1 == OK then TeardownWrites(w, cfg, w.sessions[id], id, env) else []
    case ReportOp(id, report, ok) => ChargingWrites(w.chf, Chf.UpdateOp(id, report, ok))
    case RegisterOp(req, env) => RegisterWrites(w, cfg, req, env)
    case DeregisterOp(supi, lost) => DeregisterWrites(w, cfg, supi, lost)
  }

  lemma StepIsWrites(w: World, a: Aka.State, cfg: Config, op: Runs.Op)
    ensures Leads(w, a, OpWrites(w, cfg, op), Runs.Step(w, cfg, op), a)
  {
    hide Leads, Smf.Create, Smf.Update, Smf.Teardown, Chf.Update, Amf.Register, Amf.Deregister;
    hide CreateWrites, UpdateWrites, TeardownWrites, ChargingWrites, RegisterWrites, DeregisterWrites;
    match op
    case CreateOp(req, env) => CreateIsWrites(w, a, cfg, req, env);
    case UpdateOp(req, modified, ok) => UpdateIsWrites(w, a, cfg, req, modified, ok);
    case ReleaseOp(id, env) =>
      Stays(w, a, w);
      if id in w.sessions { TeardownIsWrites(w, a, cfg, w.sessions[id], id, env); }
    case ReportOp(id, report, ok) => ChargingOpWrites(w, a, Chf.UpdateOp(id, report, ok));
    case RegisterOp(req, env) => RegisterIsWrites(w, a, cfg, req, env);
    case DeregisterOp(supi, lost) => DeregisterIsWrites(w, a, cfg, supi, lost);
  }

  function RunWrites(cfg: Config, ops: seq<Runs.Op>): seq<Write> {
    if ops == [] then []
    else
      var n := |ops| - 1;
      RunWrites(cfg, ops[..n]) + OpWrites(Runs.Run(cfg, ops[..n]), cfg, ops[n])
  }

  /** In every run, whatever fails, the flat store is what the Puts and Deletes of all requests made of it, each under its
      printed key and in order: the tables of the model are the shared store of the program. */
  lemma {:induction false} RunIsWrites(cfg: Config, ops: seq<Runs.Op>, a: Aka.State)
    ensures Leads(INITIAL, a, RunWrites(cfg, ops), Runs.Run(cfg, ops), a)
  {
    hide Leads, Runs.Step, OpWrites;
    if ops == [] {
      Stays(INITIAL, a, INITIAL);
    } else {
      var n := |ops| - 1;
      var w := Runs.Run(cfg, ops[..n]);
      RunIsWrites(cfg, ops[..n], a);
      StepIsWrites(w, a, cfg, ops[n]);
      Then(INITIAL, RunWrites(cfg, ops[..n]), w, OpWrites(w, cfg, ops[n]), Runs.Step(w, cfg, ops[n]), a);
    }
  }

  /** The keys under "ip-pool/allocated/" in the flat store are those of exactly the addresses of the stored sessions. */
  lemma AllocatedKeysAreTheSessionsAddresses(cfg: Config, ops: seq<Runs.Op>, a: Aka.State, ip: string)
    requires |ops| < TWO64
    ensures var w := Runs.Run(cfg, ops);
            "ip-pool/allocated/" + ip in Flattened(w, a) <==> exists id :: id in w.sessions && w.sessions[id].ueAddress == ip
  {
    Runs.LeasesAreTheSessionsAddresses(cfg, ops, ip);
    hide Runs.Run, Flattened;
    assert Print(AllocatedKey(ip)) == "ip-pool/allocated/" + ip;
    GetReadsTheTable(Runs.Run(cfg, ops), a, AllocatedKey(ip));
  }

  // ---- authentication --------------------------------------------------------------------------------------------

  function GenerateWrites(a: Aka.State, supi: string, env: Aka.GenerateEnv): seq<Write> {
    if supi == "" || supi !in a.subscribers || a.subscribers[supi].None? || env.xres.None? || !env.sqnPut then []
    else
      var sqn := Aka.AdvanceSqn(a.subscribers[supi].value);
      [Put(SubscriberKey(supi), SubscriberValue(Some(sqn)))] +
      if env.vectorPut then [Put(VectorKey(supi), VectorValue(Aka.Vector(sqn, env.xres.value)))] else []
  }

  lemma SubscriberPut(w: World, a: Aka.State, supi: string, sqn: Option<Bytes>)
    ensures Leads(w, a, [Put(SubscriberKey(supi), SubscriberValue(sqn))], w, a.(subscribers := a.subscribers[supi := sqn]))
  {
    hide Flattened, Perform;
    OneWrite(w, a, Put(SubscriberKey(supi), SubscriberValue(sqn)), w, a.(subscribers := a.subscribers[supi := sqn]));
  }

  lemma VectorStep(w: World, a: Aka.State, supi: string, v: Aka.Vector)
    ensures Leads(w, a, [Put(VectorKey(supi), VectorValue(v))], w, a.(vectors := a.vectors[supi := v]))
    ensures Leads(w, a, [Delete(VectorKey(supi))], w, a.(vectors := a.vectors - {supi}))
  {
    hide Flattened, Perform;
    OneWrite(w, a, Put(VectorKey(supi), VectorValue(v)), w, a.(vectors := a.vectors[supi := v]));
    OneWrite(w, a, Delete(VectorKey(supi)), w, a.(vectors := a.vectors - {supi}));
  }

  /** Generating a vector writes the advanced number and then the vector; a success deletes the vector; nothing else of the
      authentication functions writes. */
  lemma AkaIsWrites(w: World, a: Aka.State, op: Aka.Op)
    ensures Leads(w, a,
                  match op
                  case GenerateOp(supi, env) => GenerateWrites(a, supi, env)
                  case AuthenticateOp(supi, res) =>
                    if Aka.Authenticate(a, supi, res).1 == Aka.Success then [Delete(VectorKey(supi))] else [],
                  w, Aka.Step(a, op))
  {
    hide Flattened, Perform, Aka.AdvanceSqn;
    NoWrite(w, a, w, a);
    PerformOne(Flattened(w, a), Delete(VectorKey("")));
    match op
    case GenerateOp(supi, env) =>
      if supi != "" && supi in a.subscribers && a.subscribers[supi].Some? && env.xres.Some? && env.sqnPut {
        var sqn := Aka.AdvanceSqn(a.subscribers[supi].value);
        var v := Aka.Vector(sqn, env.xres.value);
        var a1 := a.(subscribers := a.subscribers[supi := Some(sqn)]);
        var x, y := [Put(SubscriberKey(supi), SubscriberValue(Some(sqn)))], [Put(VectorKey(supi), VectorValue(v))];
        SubscriberPut(w, a, supi, Some(sqn));
        VectorStep(w, a1, supi, v);
        PerformTwo(Flattened(w, a), x, y);
        assert x + [] == x;
      }
    case AuthenticateOp(supi, res) => VectorStep(w, a, supi, Aka.Vector([], []));
  }
}
