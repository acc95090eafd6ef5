/** The handlers as they work: fields updated step by step, probing and counting loops, rollback after a failed
    step. Each method is proved to take the tables to the state that its specification function gives. */
module Core {
  import opened Text
  import opened Models
  import opened IpPool
  import opened World
  import Smf
  import Amf
  import Runs
  import Bsf
  import Chf
  import Nsacf

  lemma AddressAtCursor(prefix: string, w: World)
    ensures Address(prefix, w.subnet, w.host) == Addresses(prefix)[Cursor(w)]
  {
    var i := Cursor(w);
    assert i / HOSTS == w.subnet && i % HOSTS + 1 == w.host;
  }

  lemma CursorDetermines(w: World, w': World)
    requires w' == w.(subnet := w'.subnet, host := w'.host)
    ensures WithCursor(w, Cursor(w')) == w'
  {
  }

  lemma FirstFreeIs(pool: seq<string>, taken: set<string>, cur: nat, r: nat)
    requires |pool| == POOL && r <= POOL
    requires forall j :: 0 <= j < r ==> Probe(pool, cur, j) in taken
    requires r < POOL ==> Probe(pool, cur, r) !in taken
    ensures FirstFree(pool, taken, cur, 0) == r
  {
    var r' := FirstFree(pool, taken, cur, 0);
    hide FirstFree, Probe;
    assert !(r' < r) && !(r < r');
  }

  class NetworkCore {
    const cfg: Config

    // tables of the store, those of BSF and CHF together with the counters of these functions
    var sessions: map<string, PduSession>
    var leases: map<string, string>
    var bsf: Bsf.State
    var chf: Chf.State
    var slices: map<string, SliceCounters>
    var contexts: map<string, UeContext>

    // package variables of the SMF
    var ipPoolSubnet: nat
    var ipPoolHost: nat
    var seidCounter: nat

    // sessions established at the UPF
    var upf: set<nat>

    ghost predicate Valid()
      reads this
    {
      ipPoolSubnet < SUBNETS && 1 <= ipPoolHost <= HOSTS
    }

    /** The state of the core as a value. */
    ghost function Abs(): World
      requires Valid()
      reads this
    {
      World(sessions, leases, bsf, chf, slices, contexts, ipPoolSubnet, ipPoolHost, seidCounter, upf)
    }

    constructor (cfg: Config)
      ensures Valid() && Abs() == INITIAL && this.cfg == cfg
    {
      this.cfg := cfg;
      sessions, leases, slices, contexts := map[], map[], map[], map[];
      bsf, chf := Bsf.EMPTY, Chf.EMPTY;
      ipPoolSubnet, ipPoolHost, seidCounter := 0, 1, 0;
      upf := {};
    }

    // ---- the address pool --------------------------------------------------------------

    method AdvanceCursor()
      requires Valid()
      modifies this`ipPoolSubnet, this`ipPoolHost
      ensures Valid()
      ensures Cursor(Abs()) == (Cursor(old(Abs())) + 1) % POOL
    {
      ipPoolHost := ipPoolHost + 1;
      if ipPoolHost > 254 {
        ipPoolHost := 1;
        ipPoolSubnet := ipPoolSubnet + 1;
        if ipPoolSubnet > 255 {
          ipPoolSubnet := 0;
        }
      }
    }

    method AllocateIp(putOk: bool) returns (ip: Option<string>)
      requires Valid()
      modifies this`ipPoolSubnet, this`ipPoolHost, this`leases
      ensures Valid()
      ensures (Abs(), ip) == Smf.Allocate(old(Abs()), cfg.prefix, putOk)
    {
      hide Address, Addresses, FirstFree, Cursor, WithCursor;
      ghost var pool := Addresses(cfg.prefix);
      ghost var start := Cursor(Abs());
      var attempts := 0;
      while attempts < 65024
        invariant attempts <= POOL && Valid() && leases == old(leases)
        invariant Cursor(Abs()) == (start + attempts) % POOL
        invariant forall j :: 0 <= j < attempts ==> Probe(pool, start, j) in leases.Keys
      {
        var address := Address(cfg.prefix, ipPoolSubnet, ipPoolHost);
        AddressAtCursor(cfg.prefix, Abs());
        assert address == Probe(pool, start, attempts);
        AdvanceCursor();
        StepsAdd(start + attempts, 1);
        if address !in leases {
          FirstFreeIs(pool, leases.Keys, start, attempts);
          CursorDetermines(old(Abs()), Abs());
          if !putOk {
            return None;
          }
          leases := leases[address := address];
          return Some(address);
        }
        attempts := attempts + 1;
      }
      FirstFreeIs(pool, leases.Keys, start, POOL);
      CursorDetermines(old(Abs()), Abs());
      CursorDetermines(old(Abs()), old(Abs()));
      return None;
    }

    method ReleaseIp(ip: string)
      modifies this`leases
      ensures leases == old(leases) - {ip}
    {
      leases := leases - {ip};
    }

    method NextSeid() returns (seid: nat)
      modifies this`seidCounter
      ensures seid == seidCounter == Next64(old(seidCounter))
    {
      seidCounter := Next64(seidCounter);
      seid := seidCounter;
    }

    // ---- BSF -------------------------------------------------------------------------------

    method BindingRegister(req: Bsf.RegisterRequest, puts: Bsf.Puts) returns (reply: Bsf.RegisterReply)
      modifies this`bsf
      ensures (bsf, reply) == Bsf.Register(old(bsf), req, puts)
    {
      if req.supi == "" {
        return Bsf.RegisterReply(BAD_REQUEST, "");
      }
      if req.pduSessionId == "" {
        return Bsf.RegisterReply(BAD_REQUEST, "");
      }
      bsf := bsf.(counter := Next64(bsf.counter));
      var binding := Bsf.NewBinding(bsf.counter, req);
      var id := binding.bindingId;
      if !puts.primary {
        return Bsf.RegisterReply(SERVER_ERROR, "");
      }
      bsf := bsf.(bindings := bsf.bindings[id := binding]);
      if req.ueAddress != "" {
        if !puts.ip {
          return Bsf.RegisterReply(SERVER_ERROR, "");
        }
        bsf := bsf.(byIp := bsf.byIp[req.ueAddress := id]);
      }
      if !puts.supi {
        return Bsf.RegisterReply(SERVER_ERROR, "");
      }
      bsf := bsf.(bySupi := bsf.bySupi[Bsf.SupiKey(binding.supi, binding.dnn) := id]);
      return Bsf.RegisterReply(CREATED, id);
    }

    method BindingDeregister(id: string) returns (status: int)
      modifies this`bsf
      ensures (bsf, status) == Bsf.Deregister(old(bsf), id)
    {
      if id == "" {
        return BAD_REQUEST;
      }
      if id !in bsf.bindings {
        return NOT_FOUND;
      }
      var binding := bsf.bindings[id];
      if binding.ueAddress != "" {
        bsf := bsf.(byIp := bsf.byIp - {binding.ueAddress});
      }
      bsf := bsf.(bySupi := bsf.bySupi - {Bsf.SupiKey(binding.supi, binding.dnn)});
      bsf := bsf.(bindings := bsf.bindings - {id});
      return OK;
    }

    // ---- CHF ---------------------------------------------------------------------------------

    method ChargingCreate(req: Chf.CreateRequest, putOk: bool) returns (reply: Chf.CreateReply)
      modifies this`chf
      ensures (chf, reply) == Chf.Create(old(chf), req, putOk)
    {
      if req.supi == "" || req.pduSessionId == "" {
        return Chf.CreateReply(BAD_REQUEST, "");
      }
      chf := chf.(counter := Next64(chf.counter));
      var id := Chf.ChargingId(req.supi, chf.counter);
      if !putOk {
        return Chf.CreateReply(SERVER_ERROR, "");
      }
      chf := chf.(sessions := chf.sessions[id := Chf.NewSession(id, req)]);
      return Chf.CreateReply(CREATED, id);
    }

    method ChargingUpdate(id: string, report: Chf.Report, putOk: bool) returns (status: int)
      modifies this`chf
      ensures (chf, status) == Chf.Update(old(chf), id, report, putOk)
    {
      if id == "" {
        return BAD_REQUEST;
      }
      if id !in chf.sessions {
        return NOT_FOUND;
      }
      var session := chf.sessions[id];
      session := session.(volumeUplink := Chf.Add64(session.volumeUplink, report.uplink));
      session := session.(volumeDownlink := Chf.Add64(session.volumeDownlink, report.downlink));
      var totalUsage := Chf.Add64(session.volumeUplink, session.volumeDownlink);
      if totalUsage > session.grantedUnits {
        session := session.(grantedUnits := Chf.Add64(session.grantedUnits, Chf.GRANT));
      }
      if !putOk {
        return SERVER_ERROR;
      }
      chf := chf.(sessions := chf.sessions[id := session]);
      return OK;
    }

    method ChargingRelease(id: string, putOk: bool) returns (status: int)
      modifies this`chf
      ensures (chf, status) == Chf.Release(old(chf), id, putOk)
    {
      if id == "" {
        return BAD_REQUEST;
      }
      if id !in chf.sessions {
        return NOT_FOUND;
      }
      if !putOk {
        return SERVER_ERROR;
      }
      chf := chf.(records := chf.records[Chf.RecordId(id) := Chf.RecordOf(id, chf.sessions[id])]);
      chf := chf.(sessions := chf.sessions - {id});
      return OK;
    }

    // ---- NSACF -------------------------------------------------------------------------------

    method UpdateCounters(s: Snssai, ctype: Nsacf.CounterType, op: Nsacf.Operation, putOk: bool) returns (status: int)
      modifies this`slices
      ensures (slices, status) == Nsacf.Update(old(slices), s, ctype, op, putOk)
    {
      if s.sst <= 0 {
        return BAD_REQUEST;
      }
      var key := Nsacf.SliceKey(s);
      var counters := SliceCounters(s.sst, s.sd, 0, 0);
      if key in slices {
        counters := slices[key];
      }
      match ctype {
        case Ue =>
          if op == Nsacf.Increment {
            counters := counters.(currentUes := counters.currentUes + 1);
          } else {
            counters := counters.(currentUes := counters.currentUes - 1);
            if counters.currentUes < 0 {
              counters := counters.(currentUes := 0);
            }
          }
        case PduSessions =>
          if op == Nsacf.Increment {
            counters := counters.(currentSessions := counters.currentSessions + 1);
          } else {
            counters := counters.(currentSessions := counters.currentSessions - 1);
            if counters.currentSessions < 0 {
              counters := counters.(currentSessions := 0);
            }
          }
      }
      if !putOk {
        return SERVER_ERROR;
      }
      slices := slices[key := counters];
      return OK;
    }

    /** One counter call per slice of a list, as registration and deregistration make them. */
    method CountUes(list: seq<Snssai>, op: Nsacf.Operation, lost: set<nat>)
      modifies this`slices
      ensures slices == Amf.CountAll(old(slices), list, op, lost)
    {
      for i := 0 to |list|
        invariant slices == Amf.CountAll(old(slices), list[..i], op, lost)
      {
        assert list[..i + 1][..i] == list[..i];
        if i !in lost {
          var _ := UpdateCounters(list[i], Nsacf.Ue, op, true);
        }
      }
      assert list[..|list|] == list;
    }

    // ---- SMF -----------------------------------------------------------------------------------

    method BindSession(s: PduSession, env: Smf.CreateEnv) returns (session: PduSession)
      requires Valid()
      modifies this`sessions, this`bsf
      ensures Valid() && (Abs(), session) == Smf.Bind(old(Abs()), cfg, s, env)
    {
      hide Bsf.Register;
      session := s;
      if cfg.bsf && cfg.sbi {
        var bindingId := "";
        if env.bind != Unreached {
          var reply := BindingRegister(
            Bsf.RegisterRequest(s.supi, s.dnn, s.snssai, "", s.ueAddress, s.id), env.bindPuts);
          if env.bind == Served {
            bindingId := reply.bindingId;
          }
        }
        if bindingId != "" {
          session := session.(bsfBindingId := bindingId);
          if env.bindingPut {
            sessions := sessions[s.id := session];
          }
        }
      }
    }

    method ChargeSession(s: PduSession, env: Smf.CreateEnv) returns (session: PduSession)
      requires Valid()
      modifies this`sessions, this`chf
      ensures Valid() && (Abs(), session) == Smf.Charge(old(Abs()), cfg, s, env)
    {
      hide Chf.Create;
      session := s;
      if cfg.charging && cfg.sbi {
        var chargingId := "";
        if env.charge != Unreached {
          var reply := ChargingCreate(Chf.CreateRequest(s.supi, s.id, s.dnn, s.snssai, ""), env.chargePut);
          if env.charge == Served {
            chargingId := reply.chargingId;
          }
        }
        if chargingId != "" {
          session := session.(chargingId := chargingId);
          if env.chargingPut {
            sessions := sessions[s.id := session];
          }
        }
      }
    }

    /** The session is stored; none of the calls that follow can fail the request any more. */
    method Settle(s: PduSession, env: Smf.CreateEnv)
      requires Valid()
      modifies this
      ensures Valid() && Abs() == Smf.Settle(old(Abs()), cfg, s, env)
    {
      hide Smf.Bind, Smf.Charge, Nsacf.Update;
      sessions := sessions[s.id := s];
      var bound := BindSession(s, env);
      var _ := ChargeSession(bound, env);
      CountSession(s, Nsacf.Increment, env.count, env.countPut);
    }

    /** Everything after the address is reserved: each failure gives the address back. */
    method Install(req: Smf.CreateRequest, policy: Smf.Policy, ueIp: string, env: Smf.CreateEnv)
      returns (reply: Smf.CreateReply)
      requires Valid()
      modifies this
      ensures Valid() && (Abs(), reply) == Smf.Install(old(Abs()), cfg, req, policy, ueIp, env)
    {
      hide Smf.Settle, Identifier;
      if !env.addressParses {
        ReleaseIp(ueIp);
        return Smf.Failure(SERVER_ERROR);
      }
      var seid := NextSeid();
      if cfg.pfcp {
        if !env.established {
          ReleaseIp(ueIp);
          return Smf.Failure(SERVER_ERROR);
        }
        upf := upf + {seid};
      }
      var session := Smf.NewSession(req, policy, ueIp, seid);
      if !env.sessionPut {
        ReleaseIp(ueIp);
        return Smf.Failure(SERVER_ERROR);
      }
      Settle(session, env);
      return Smf.CreateReply(CREATED, session.id, ueIp);
    }

    method Create(req: Smf.CreateRequest, env: Smf.CreateEnv) returns (reply: Smf.CreateReply)
      requires Valid()
      modifies this
      ensures Valid() && (Abs(), reply) == Smf.Create(old(Abs()), cfg, req, env)
    {
      hide Smf.Allocate, Smf.Install;
      if req.supi == "" {
        return Smf.Failure(BAD_REQUEST);
      }
      var policy := Smf.Policy(1, 1000000, 5000000);
      if cfg.sbi {
        if env.policy.None? {
          return Smf.Failure(SERVER_ERROR);
        }
        policy := env.policy.value;
      }
      if cfg.nsacf && cfg.sbi && env.admission == Smf.Denied {
        return Smf.Failure(FORBIDDEN);
      }
      var ip := AllocateIp(env.allocatePut);
      if ip.None? {
        return Smf.Failure(SERVER_ERROR);
      }
      reply := Install(req, policy, ip.value, env);
    }

    method Update(req: Smf.UpdateRequest, modified: bool, putOk: bool) returns (status: int)
      requires Valid()
      modifies this`sessions
      ensures Valid() && (Abs(), status) == Smf.Update(old(Abs()), cfg, req, modified, putOk)
    {
      if req.sessionId == "" {
        return BAD_REQUEST;
      }
      if req.sessionId !in sessions {
        return NOT_FOUND;
      }
      var session := sessions[req.sessionId];
      if req.ambrUl > 0 {
        session := session.(ambrUl := req.ambrUl);
      }
      if req.ambrDl > 0 {
        session := session.(ambrDl := req.ambrDl);
      }
      if req.qfi > 0 {
        session := session.(qfi := req.qfi);
      }
      if cfg.pfcp && !modified {
        return SERVER_ERROR;
      }
      if !putOk {
        return SERVER_ERROR;
      }
      sessions := sessions[req.sessionId := session];
      return OK;
    }

    method ReleaseResources(s: PduSession, id: string)
      modifies this`upf, this`leases
      ensures upf == if cfg.pfcp then old(upf) - {Serial(id)} else old(upf)
      ensures leases == if s.ueAddress != "" then old(leases) - {s.ueAddress} else old(leases)
    {
      hide Serial;
      if cfg.pfcp {
        upf := upf - {Serial(id)};
      }
      if s.ueAddress != "" {
        ReleaseIp(s.ueAddress);
      }
    }

    method ReleaseCharging(s: PduSession, env: Smf.ReleaseEnv)
      modifies this`chf
      ensures chf == if cfg.charging && cfg.sbi && s.chargingId != "" && env.charge != Unreached
                     then Chf.Release(old(chf), s.chargingId, env.recordPut).0 else old(chf)
    {
      hide Chf.Release;
      if cfg.charging && cfg.sbi && s.chargingId != "" && env.charge != Unreached {
        var _ := ChargingRelease(s.chargingId, env.recordPut);
      }
    }

    method ReleaseBinding(s: PduSession, env: Smf.ReleaseEnv)
      modifies this`bsf
      ensures bsf == if cfg.bsf && cfg.sbi && s.bsfBindingId != "" && env.unbind != Unreached
                     then Bsf.Deregister(old(bsf), s.bsfBindingId).0 else old(bsf)
    {
      hide Bsf.Deregister;
      if cfg.bsf && cfg.sbi && s.bsfBindingId != "" && env.unbind != Unreached {
        var _ := BindingDeregister(s.bsfBindingId);
      }
    }

    method CountSession(s: PduSession, op: Nsacf.Operation, fate: Fate, putOk: bool)
      requires Valid()
      modifies this`slices
      ensures slices == Smf.Count(old(Abs()), cfg, s.snssai, op, fate, putOk).slices
    {
      hide Nsacf.Update;
      if cfg.nsacf && cfg.sbi && fate != Unreached {
        var _ := UpdateCounters(s.snssai, Nsacf.PduSessions, op, putOk);
      }
    }

    method Teardown(s: PduSession, id: string, env: Smf.ReleaseEnv)
      requires Valid()
      modifies this`sessions, this`leases, this`upf, this`chf, this`bsf, this`slices
      ensures Valid() && Abs() == Smf.Teardown(old(Abs()), cfg, s, id, env)
    {
      hide Bsf.Deregister, Chf.Release, Nsacf.Update, Serial;
      ReleaseResources(s, id);
      ReleaseCharging(s, env);
      ReleaseBinding(s, env);
      CountSession(s, Nsacf.Decrement, env.count, env.countPut);
      sessions := sessions - {id};
    }

    method Release(id: string, env: Smf.ReleaseEnv) returns (status: int)
      requires Valid()
      modifies this`sessions, this`leases, this`upf, this`chf, this`bsf, this`slices
      ensures Valid() && (Abs(), status) == Smf.Release(old(Abs()), cfg, id, env)
    {
      hide Smf.Teardown;
      if id == "" {
        return BAD_REQUEST;
      }
      if id !in sessions {
        return NOT_FOUND;
      }
      if cfg.pfcp && !env.deleted {
        return SERVER_ERROR;
      }
      Teardown(sessions[id], id, env);
      return OK;
    }

    // ---- AMF --------------------------------------------------------------------------------------

    method Register(req: Amf.RegisterRequest, env: Amf.RegisterEnv) returns (status: int)
      requires Valid()
      modifies this`slices, this`contexts
      ensures Valid() && (Abs(), status) == Amf.Register(old(Abs()), cfg, req, env)
    {
      if req.supi == "" {
        return BAD_REQUEST;
      }
      if !req.skipAuth {
        if !env.challenged || !env.vectorRead || env.verdict == Amf.CallFailed {
          return SERVER_ERROR;
        }
        if env.verdict != Amf.Success {
          return FORBIDDEN;
        }
      }
      if env.subscription.None? {
        return SERVER_ERROR;
      }
      var allowedNssai := env.subscription.value;
      if cfg.nsacf {
        for i := 0 to |allowedNssai|
          invariant forall j :: 0 <= j < i ==> j !in env.denied
        {
          if i in env.denied {
            return FORBIDDEN;
          }
        }
        CountUes(allowedNssai, Nsacf.Increment, env.lost);
      }
      if !env.contextPut {
        return SERVER_ERROR;
      }
      contexts := contexts[req.supi := UeContext(req.supi, allowedNssai)];
      return OK;
    }

    method Deregister(supi: string, lost: set<nat>) returns (status: int)
      requires Valid()
      modifies this`slices, this`contexts
      ensures Valid() && (Abs(), status) == Amf.Deregister(old(Abs()), cfg, supi, lost)
    {
      if supi == "" {
        return BAD_REQUEST;
      }
      if supi !in contexts {
        return NOT_FOUND;
      }
      if cfg.nsacf && cfg.sbi {
        CountUes(contexts[supi].allowedNssai, Nsacf.Decrement, lost);
      }
      contexts := contexts - {supi};
      return OK;
    }

    // ---- any request, any sequence of requests ------------------------------------------------------

    method Serve(op: Runs.Op)
      requires Valid()
      modifies this
      ensures Valid() && Abs() == Runs.Step(old(Abs()), cfg, op)
    {
      hide Smf.Create, Smf.Update, Smf.Release, Chf.Update, Amf.Register, Amf.Deregister;
      match op
      case CreateOp(req, env) => var _ := Create(req, env);
      case UpdateOp(req, modified, putOk) => var _ := Update(req, modified, putOk);
      case ReleaseOp(id, env) => var _ := Release(id, env);
      case ReportOp(id, report, putOk) => var _ := ChargingUpdate(id, report, putOk);
      case RegisterOp(req, env) => var _ := Register(req, env);
      case DeregisterOp(supi, lost) => var _ := Deregister(supi, lost);
    }

    /** From the initial state, what the handlers leave behind is the state of the run that the theorems speak of. */
    method ServeAll(ops: seq<Runs.Op>)
      requires Valid() && Abs() == INITIAL
      modifies this
      ensures Valid() && Abs() == Runs.Run(cfg, ops)
    {
      hide Runs.Step;
      assert ops[..0] == [];
      for i := 0 to |ops|
        invariant Valid() && Abs() == Runs.Run(cfg, ops[..i])
      {
        assert ops[..i + 1][..i] == ops[..i];
        Serve(ops[i]);
      }
      assert ops[..|ops|] == ops;
    }
  }
}
