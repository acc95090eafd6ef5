/** Every SMF handler keeps the sessions, the address pool, the UPF, the BSF and the CHF consistent. */
module SmfInvariant {
  import opened Text
  import opened Models
  import opened IpPool
  import opened World
  import opened Smf
  import Bsf
  import Chf
  import Nsacf

  ghost predicate CountersBelowMax(w: World) {
    w.seid + 1 < TWO64 && w.bsf.counter + 1 < TWO64 && w.chf.counter + 1 < TWO64
  }

  ghost predicate CountersGrowByOne(w: World, w': World) {
    && w'.seid <= w.seid + 1
    && w'.bsf.counter <= w.bsf.counter + 1
    && w'.chf.counter <= w.chf.counter + 1
  }

  // ---- one predicate at a time --------------------------------------------------------------

  function AddressesOf(sessions: map<string, PduSession>): set<string> {
    set id | id in sessions :: sessions[id].ueAddress
  }

  lemma NamedPutNew(sessions: map<string, PduSession>, seid: nat, s: PduSession)
    requires Named(sessions, seid)
    requires s.id != "" && s.id == SessionId(s.supi, Serial(s.id)) && 1 <= Serial(s.id) <= seid
    requires forall id :: id in sessions ==> Serial(id) != Serial(s.id)
    ensures Named(sessions[s.id := s], seid)
  {
  }

  lemma NamedPutAgain(sessions: map<string, PduSession>, seid: nat, s: PduSession)
    requires Named(sessions, seid) && s.id in sessions && sessions[s.id].supi == s.supi
    ensures Named(sessions[s.id := s], seid)
  {
  }

  lemma AddressesPutNew(sessions: map<string, PduSession>, leased: set<string>, s: PduSession)
    requires AddressesExact(sessions, leased, {s.ueAddress}) && s.ueAddress != "" && s.id !in sessions
    ensures AddressesExact(sessions[s.id := s], leased, {})
  {
    var t := sessions[s.id := s];
    assert AddressesOf(t) == AddressesOf(sessions) + {s.ueAddress} by {
      assert t[s.id] == s;
      assert forall id :: id in sessions ==> id in t && t[id] == sessions[id];
    }
  }

  lemma AddressesPutAgain(sessions: map<string, PduSession>, leased: set<string>, s: PduSession)
    requires AddressesExact(sessions, leased, {}) && s.id in sessions && sessions[s.id].ueAddress == s.ueAddress
    ensures AddressesExact(sessions[s.id := s], leased, {})
  {
    var t := sessions[s.id := s];
    assert forall id :: id in sessions <==> id in t;
    assert forall id :: id in t ==> t[id].ueAddress == sessions[id].ueAddress;
    assert AddressesOf(t) == AddressesOf(sessions);
  }

  lemma AddressesReserve(sessions: map<string, PduSession>, leased: set<string>, ip: string)
    requires AddressesExact(sessions, leased, {}) && ip !in leased
    ensures AddressesExact(sessions, leased + {ip}, {ip})
  {
    assert forall id :: id in sessions ==> sessions[id].ueAddress in AddressesOf(sessions);
  }

  lemma AddressesUnreserve(sessions: map<string, PduSession>, leased: set<string>, ip: string)
    requires AddressesExact(sessions, leased, {ip})
    ensures AddressesExact(sessions, leased - {ip}, {})
  {
    assert forall a :: a in AddressesOf(sessions) ==> a != ip;
  }

  lemma AddressesRemove(sessions: map<string, PduSession>, leased: set<string>, id: string)
    requires AddressesExact(sessions, leased, {}) && id in sessions
    ensures AddressesExact(sessions - {id}, leased - {sessions[id].ueAddress}, {})
    ensures sessions[id].ueAddress != ""
  {
    var t := sessions - {id};
    var rest := AddressesOf(sessions) - {sessions[id].ueAddress};
    forall a | a in rest ensures a in AddressesOf(t) {
      var id' :| id' in sessions && sessions[id'].ueAddress == a;
      assert id' in t && t[id'] == sessions[id'];
    }
    assert AddressesOf(t) == rest;
  }

  lemma BoundPut(sessions: map<string, PduSession>, b: Bsf.State, s: PduSession)
    requires Bound(sessions, b) && SessionBound(s, b)
    ensures Bound(sessions[s.id := s], b)
  {
  }

  lemma ChargedPut(sessions: map<string, PduSession>, c: Chf.State, s: PduSession)
    requires Charged(sessions, c) && SessionCharged(s, c)
    ensures Charged(sessions[s.id := s], c)
  {
  }

  // ---- the address pool -----------------------------------------------------------------

  /** What allocation does: it takes a free address of the pool, or none. */
  lemma AllocateEffect(w: World, prefix: string, putOk: bool)
    ensures var (w', ip) := Allocate(w, prefix, putOk);
            && w' == w.(subnet := w'.subnet, host := w'.host, leases := w'.leases)
            && match ip
               case None => w'.leases == w.leases
               case Some(a) => a in Addresses(prefix) && a !in w.leases && w'.leases == w.leases[a := a]
  {
  }

  lemma AllocateKeeps(w: World, cfg: Config, putOk: bool)
    requires Consistent(w, cfg, {})
    ensures var (w', ip) := Allocate(w, cfg.prefix, putOk);
            && (ip.Some? ==> ip.value != "" && Consistent(w', cfg, {ip.value}))
            && (ip.None? ==> Consistent(w', cfg, {}))
            && w'.seid == w.seid && w'.bsf == w.bsf && w'.chf == w.chf && w'.sessions == w.sessions
  {
    AllocateEffect(w, cfg.prefix, putOk);
    var (w', ip) := Allocate(w, cfg.prefix, putOk);
    if ip.Some? {
      AddressesDistinct(cfg.prefix);
      assert w'.leases.Keys == w.leases.Keys + {ip.value};
      AddressesReserve(w.sessions, w.leases.Keys, ip.value);
    }
  }

  lemma FreeKeeps(w: World, cfg: Config, ip: string)
    requires Consistent(w, cfg, {ip})
    ensures Consistent(FreeAddress(w, ip), cfg, {})
  {
    assert FreeAddress(w, ip).leases.Keys == w.leases.Keys - {ip};
    AddressesUnreserve(w.sessions, w.leases.Keys, ip);
  }

  // ---- storing sessions -------------------------------------------------------------------

  /** A new session under a fresh SEID takes over the address in flight. */
  lemma PutNewKeeps(w: World, cfg: Config, s: PduSession)
    requires Consistent(w, cfg, {s.ueAddress}) && s.ueAddress != ""
    requires s.id != "" && s.id == SessionId(s.supi, Serial(s.id)) && 1 <= Serial(s.id) <= w.seid
    requires forall id :: id in w.sessions ==> Serial(id) != Serial(s.id)
    requires s.chargingId == "" && s.bsfBindingId == ""
    requires cfg.pfcp ==> Serial(s.id) in w.upf
    ensures Consistent(PutSession(w, s), cfg, {})
  {
    NamedPutNew(w.sessions, w.seid, s);
    AddressesPutNew(w.sessions, w.leases.Keys, s);
    BoundPut(w.sessions, w.bsf, s);
    ChargedPut(w.sessions, w.chf, s);
  }

  /** Storing a session again with the same identity. */
  lemma PutAgainKeeps(w: World, cfg: Config, s: PduSession)
    requires Consistent(w, cfg, {}) && s.id in w.sessions
    requires w.sessions[s.id].supi == s.supi && w.sessions[s.id].ueAddress == s.ueAddress
    requires SessionBound(s, w.bsf) && SessionCharged(s, w.chf)
    ensures Consistent(PutSession(w, s), cfg, {})
  {
    NamedPutAgain(w.sessions, w.seid, s);
    AddressesPutAgain(w.sessions, w.leases.Keys, s);
    BoundPut(w.sessions, w.bsf, s);
    ChargedPut(w.sessions, w.chf, s);
  }

  // ---- the phases of a create ---------------------------------------------------------------

  /** A stored session and the handler's own copy of it: same identity, and the copy's ids are good to store. */
  ghost predicate InHand(w: World, s: PduSession) {
    && s.id in w.sessions
    && w.sessions[s.id].supi == s.supi && w.sessions[s.id].ueAddress == s.ueAddress && s.ueAddress != "" && s.supi != ""
    && SessionBound(s, w.bsf) && SessionCharged(s, w.chf)
  }

  lemma BoundAfterRegister(sessions: map<string, PduSession>, leased: set<string>, b: Bsf.State, req: Bsf.RegisterRequest, puts: Bsf.Puts)
    requires Bound(sessions, b) && Bsf.IssuedIds(b) && b.counter + 1 < TWO64
    requires AddressesExact(sessions, leased, {}) && req.pduSessionId in sessions
    requires sessions[req.pduSessionId].ueAddress == req.ueAddress && sessions[req.pduSessionId].bsfBindingId == ""
    ensures Bound(sessions, Bsf.Register(b, req, puts).0)
  {
    Bsf.RegisterEffect(b, req, puts);
  }

  lemma BindKeeps(w: World, cfg: Config, s: PduSession, env: CreateEnv)
    requires Consistent(w, cfg, {}) && w.bsf.counter + 1 < TWO64
    requires InHand(w, s) && w.sessions[s.id].bsfBindingId == "" && s.bsfBindingId == ""
    ensures var (w', s') := Bind(w, cfg, s, env);
            && Consistent(w', cfg, {}) && InHand(w', s') && s'.id == s.id && s'.snssai == s.snssai
            && w'.seid == w.seid && w'.chf == w.chf && w'.bsf.counter <= w.bsf.counter + 1
  {
    hide Named, AddressesExact, UpfCovers, Bound, Charged, ChargingIssued, Bsf.IssuedIds, Bsf.NoDangling, Bsf.Register, Serial, Identifier;
    if cfg.bsf && cfg.sbi && env.bind != Unreached {
      var req := Bsf.RegisterRequest(s.supi, s.dnn, s.snssai, "", s.ueAddress, s.id);
      var (b, reply) := Bsf.Register(w.bsf, req, env.bindPuts);
      Bsf.StepKeepsValid(w.bsf, Bsf.RegisterOp(req, env.bindPuts));
      BoundAfterRegister(w.sessions, w.leases.Keys, w.bsf, req, env.bindPuts);
      var w1 := w.(bsf := b);
      assert Consistent(w1, cfg, {});
      Bsf.RegisterEffect(w.bsf, req, env.bindPuts);
      PutAgainKeeps(w1, cfg, s.(bsfBindingId := reply.bindingId));
    }
  }

  lemma ChargedAfterCreate(sessions: map<string, PduSession>, c: Chf.State, req: Chf.CreateRequest, putOk: bool)
    requires Charged(sessions, c) && ChargingIssued(c) && c.counter + 1 < TWO64
    ensures var (c', reply) := Chf.Create(c, req, putOk);
            && Charged(sessions, c') && ChargingIssued(c') && c'.counter <= c.counter + 1
            && (reply.chargingId != "" ==>
                  reply.chargingId in c'.sessions && c'.sessions[reply.chargingId].pduSessionId == req.pduSessionId)
  {
    Chf.NextIdFresh(c, req.supi);
  }

  lemma ChargeKeeps(w: World, cfg: Config, s: PduSession, env: CreateEnv)
    requires Consistent(w, cfg, {}) && w.chf.counter + 1 < TWO64
    requires InHand(w, s)
    ensures var (w', s') := Charge(w, cfg, s, env);
            && Consistent(w', cfg, {})
            && w'.seid == w.seid && w'.bsf == w.bsf && w'.chf.counter <= w.chf.counter + 1
  {
    hide Named, AddressesExact, UpfCovers, Bound, Charged, ChargingIssued, Bsf.IssuedIds, Bsf.NoDangling, Bsf.Register, Serial, Identifier;
    if cfg.charging && cfg.sbi && env.charge != Unreached {
      var req := Chf.CreateRequest(s.supi, s.id, s.dnn, s.snssai, "");
      var (c, reply) := Chf.Create(w.chf, req, env.chargePut);
      ChargedAfterCreate(w.sessions, w.chf, req, env.chargePut);
      var w1 := w.(chf := c);
      assert Consistent(w1, cfg, {});
      if reply.chargingId != "" {
        PutAgainKeeps(w1, cfg, s.(chargingId := reply.chargingId));
      }
    }
  }

  lemma SettleKeeps(w: World, cfg: Config, s: PduSession, env: CreateEnv)
    requires Consistent(w, cfg, {s.ueAddress}) && s.ueAddress != "" && s.supi != ""
    requires w.bsf.counter + 1 < TWO64 && w.chf.counter + 1 < TWO64
    requires s.id != "" && s.id == SessionId(s.supi, Serial(s.id)) && 1 <= Serial(s.id) <= w.seid
    requires forall id :: id in w.sessions ==> Serial(id) != Serial(s.id)
    requires s.chargingId == "" && s.bsfBindingId == ""
    requires cfg.pfcp ==> Serial(s.id) in w.upf
    ensures var w' := Settle(w, cfg, s, env);
            Consistent(w', cfg, {}) && CountersGrowByOne(w, w') && w'.seid == w.seid
  {
    PutNewKeeps(w, cfg, s);
    var w1 := PutSession(w, s);
    assert InHand(w1, s);
    BindKeeps(w1, cfg, s, env);
    var (w2, s2) := Bind(w1, cfg, s, env);
    ChargeKeeps(w2, cfg, s2, env);
  }

  lemma NamedNextSeid(sessions: map<string, PduSession>, seid: nat, supi: string)
    requires Named(sessions, seid) && seid + 1 < TWO64
    ensures Named(sessions, seid + 1) && Next64(seid) == seid + 1
    ensures forall id :: id in sessions ==> Serial(id) != seid + 1
    ensures var id := SessionId(supi, seid + 1);
            id != "" && id == SessionId(supi, Serial(id)) && Serial(id) == seid + 1
  {
    SerialOfIdentifier("pdu", supi, seid + 1);
  }

  /** The next SEID is issued and, with PFCP, established at the UPF. */
  lemma IssueSeidKeeps(w: World, cfg: Config, inFlight: set<string>, supi: string)
    requires Consistent(w, cfg, inFlight) && w.seid + 1 < TWO64
    ensures var w1 := w.(seid := w.seid + 1);
            Consistent(w1, cfg, inFlight) && Consistent(w1.(upf := w1.upf + {w1.seid}), cfg, inFlight)
  {
    hide Named, AddressesExact, UpfCovers, Bound, Charged, ChargingIssued, Bsf.IssuedIds, Bsf.NoDangling;
    NamedNextSeid(w.sessions, w.seid, supi);
    if cfg.pfcp { UpfCoversMore(w.sessions, w.upf, w.seid + 1); }
  }

  lemma InstallKeeps(w: World, cfg: Config, req: CreateRequest, policy: Policy, ip: string, env: CreateEnv)
    requires Consistent(w, cfg, {ip}) && ip != "" && req.supi != "" && CountersBelowMax(w)
    ensures var w' := Install(w, cfg, req, policy, ip, env).0;
            Consistent(w', cfg, {}) && CountersGrowByOne(w, w')
  {
    assert Named(w.sessions, w.seid);
    hide Consistent, Named, Settle, Serial, Identifier;
    NamedNextSeid(w.sessions, w.seid, req.supi);
    IssueSeidKeeps(w, cfg, {ip}, req.supi);
    var n := w.seid + 1;
    var w1 := w.(seid := n);
    var w2 := if cfg.pfcp then w1.(upf := w1.upf + {n}) else w1;
    if !env.addressParses {
      FreeKeeps(w, cfg, ip);
    } else if cfg.pfcp && !env.established {
      FreeKeeps(w1, cfg, ip);
    } else if !env.sessionPut {
      FreeKeeps(w2, cfg, ip);
    } else {
      SettleKeeps(w2, cfg, NewSession(req, policy, ip, n), env);
    }
  }

  lemma CreateKeeps(w: World, cfg: Config, req: CreateRequest, env: CreateEnv)
    requires Consistent(w, cfg, {}) && CountersBelowMax(w)
    ensures var w' := Create(w, cfg, req, env).0;
            Consistent(w', cfg, {}) && CountersGrowByOne(w, w')
  {
    hide Consistent, Allocate, Install;
    AllocateKeeps(w, cfg, env.allocatePut);
    var (w1, ip) := Allocate(w, cfg.prefix, env.allocatePut);
    var policy := DefaultPolicy(cfg, env);
    if ip.Some? && policy.Some? && req.supi != "" {
      InstallKeeps(w1, cfg, req, policy.value, ip.value, env);
    }
  }

  // ---- update and release -------------------------------------------------------------------

  ghost predicate NamedSession(w: World, id: string)
    requires id in w.sessions
  {
    w.sessions[id].id == id && w.sessions[id].ueAddress != "" && SessionBound(w.sessions[id], w.bsf) && SessionCharged(w.sessions[id], w.chf)
  }

  lemma NamedSessions(w: World, cfg: Config, id: string)
    requires Consistent(w, cfg, {}) && id in w.sessions
    ensures NamedSession(w, id)
  {
  }

  lemma UpdateKeeps(w: World, cfg: Config, req: UpdateRequest, modified: bool, putOk: bool)
    requires Consistent(w, cfg, {})
    ensures var w' := Update(w, cfg, req, modified, putOk).0;
            Consistent(w', cfg, {}) && w' == w.(sessions := w'.sessions)
  {
    hide Named, AddressesExact, UpfCovers, Bound, Charged, ChargingIssued, Bsf.IssuedIds, Bsf.NoDangling, Serial, Identifier;

    if req.sessionId in w.sessions {
      NamedSessions(w, cfg, req.sessionId);
      var s := w.sessions[req.sessionId];
      PutAgainKeeps(w, cfg, s.(ambrUl := Chosen(req.ambrUl, s.ambrUl), ambrDl := Chosen(req.ambrDl, s.ambrDl), qfi := Chosen(req.qfi, s.qfi)));
    }
  }

  /** Releasing a binding or a charging session disturbs no other session's. */
  lemma BoundAfterDeregister(sessions: map<string, PduSession>, seid: nat, leased: set<string>, b: Bsf.State, id: string)
    requires Named(sessions, seid) && AddressesExact(sessions, leased, {})
    requires Bound(sessions, b) && id in sessions
    ensures Bound(sessions - {id}, b)
    ensures sessions[id].bsfBindingId != "" ==> Bound(sessions - {id}, Bsf.Deregister(b, sessions[id].bsfBindingId).0)
  {
    Bsf.DeregisterEffect(b, sessions[id].bsfBindingId);
    assert SessionBound(sessions[id], b);
  }

  lemma ChargedAfterRelease(sessions: map<string, PduSession>, seid: nat, c: Chf.State, id: string, putOk: bool)
    requires Named(sessions, seid) && Charged(sessions, c) && ChargingIssued(c) && id in sessions
    ensures Charged(sessions - {id}, c)
    ensures var c' := Chf.Release(c, sessions[id].chargingId, putOk).0;
            ChargingIssued(c') && c'.counter == c.counter && (sessions[id].chargingId != "" ==> Charged(sessions - {id}, c'))
  {
    hide Serial, Identifier;
    assert SessionCharged(sessions[id], c);
  }

  lemma UpfCoversMore(sessions: map<string, PduSession>, upf: set<nat>, n: nat)
    requires UpfCovers(sessions, upf)
    ensures UpfCovers(sessions, upf + {n})
  {
  }

  lemma NamedRemove(sessions: map<string, PduSession>, seid: nat, id: string, upf: set<nat>)
    requires Named(sessions, seid) && id in sessions
    ensures Named(sessions - {id}, seid)
    ensures UpfCovers(sessions, upf) ==> UpfCovers(sessions - {id}, upf - {Serial(id)})
  {
  }

  lemma ReleaseKeeps(w: World, cfg: Config, id: string, env: ReleaseEnv)
    requires Consistent(w, cfg, {})
    ensures var w' := Release(w, cfg, id, env).0;
            Consistent(w', cfg, {}) && w'.seid == w.seid && w'.bsf.counter == w.bsf.counter && w'.chf.counter == w.chf.counter
  {
    hide Named, AddressesExact, UpfCovers, Bound, Charged, ChargingIssued, Bsf.IssuedIds, Bsf.NoDangling, Bsf.Deregister, Chf.Release, Nsacf.Update, Serial, Identifier;
    if id in w.sessions {
      var s := w.sessions[id];
      NamedRemove(w.sessions, w.seid, id, w.upf);
      AddressesRemove(w.sessions, w.leases.Keys, id);
      assert (w.leases - {s.ueAddress}).Keys == w.leases.Keys - {s.ueAddress};
      BoundAfterDeregister(w.sessions, w.seid, w.leases.Keys, w.bsf, id);
      Bsf.DeregisterKeepsIssuedIds(w.bsf, s.bsfBindingId);
      Bsf.DeregisterKeepsNoDangling(w.bsf, s.bsfBindingId);
      ChargedAfterRelease(w.sessions, w.seid, w.chf, id, env.recordPut);
    }
  }

  // ---- what a create adds to the session table and to the slice counters ------------------------

  /** Everything but one session as it was, and that one on the given slice. */
  ghost predicate OnlyTouches(w: World, w': World, id: string, slice: Snssai) {
    && w'.contexts == w.contexts && w'.slices == w.slices
    && w'.sessions.Keys == w.sessions.Keys + {id}
    && (forall j :: j in w.sessions && j != id ==> w'.sessions[j] == w.sessions[j])
    && w'.sessions[id].snssai == slice
  }

  lemma BindTouches(w: World, cfg: Config, s: PduSession, env: CreateEnv)
    requires s.id in w.sessions && w.sessions[s.id].snssai == s.snssai
    ensures var (w', s') := Bind(w, cfg, s, env);
            OnlyTouches(w, w', s.id, s.snssai) && s'.id == s.id && s'.snssai == s.snssai
  {
    hide Bsf.Register;
  }

  lemma ChargeTouches(w: World, cfg: Config, s: PduSession, env: CreateEnv)
    requires s.id in w.sessions && w.sessions[s.id].snssai == s.snssai
    ensures OnlyTouches(w, Charge(w, cfg, s, env).0, s.id, s.snssai)
  {
    hide Chf.Create;
  }

  lemma SettleTouches(w: World, cfg: Config, s: PduSession, env: CreateEnv)
    requires s.id !in w.sessions
    ensures var w' := Settle(w, cfg, s, env);
            && OnlyTouches(w, w'.(slices := w.slices), s.id, s.snssai)
            && w'.slices == Count(w, cfg, s.snssai, Nsacf.Increment, env.count, env.countPut).slices
  {
    hide Bind, Charge, Nsacf.Update;
    var w1 := PutSession(w, s);
    BindTouches(w1, cfg, s, env);
    var (w2, s2) := Bind(w1, cfg, s, env);
    ChargeTouches(w2, cfg, s2, env);
  }

  /** What a create comes to: one more session on the requested slice, counted once; or nothing. */
  ghost predicate CreateOutcome(w: World, cfg: Config, slice: Snssai, env: CreateEnv, w': World, reply: CreateReply) {
    if reply.status == CREATED then
      && reply.sessionId !in w.sessions
      && OnlyTouches(w, w'.(slices := w.slices), reply.sessionId, slice)
      && w'.slices == Count(w, cfg, slice, Nsacf.Increment, env.count, env.countPut).slices
    else w'.sessions == w.sessions && w'.slices == w.slices && w'.contexts == w.contexts
  }

  /** The outcome depends on the tables only. */
  lemma OutcomeFrom(w: World, v: World, cfg: Config, slice: Snssai, env: CreateEnv, w': World, reply: CreateReply)
    requires CreateOutcome(w, cfg, slice, env, w', reply)
    requires v.sessions == w.sessions && v.slices == w.slices && v.contexts == w.contexts
    ensures CreateOutcome(v, cfg, slice, env, w', reply)
  {
    hide Nsacf.Update;
  }

  lemma InstallTouches(w: World, cfg: Config, req: CreateRequest, policy: Policy, ip: string, env: CreateEnv)
    requires Named(w.sessions, w.seid) && w.seid + 1 < TWO64
    ensures var (w', reply) := Install(w, cfg, req, policy, ip, env);
            CreateOutcome(w, cfg, req.snssai, env, w', reply)
  {
    NamedNextSeid(w.sessions, w.seid, req.supi);
    hide Named, Serial, Identifier, Settle, OnlyTouches, Nsacf.Update;
    var (w', reply) := Install(w, cfg, req, policy, ip, env);
    if reply.status == CREATED {
      var n := w.seid + 1;
      var w1 := w.(seid := n);
      var w2 := if cfg.pfcp then w1.(upf := w1.upf + {n}) else w1;
      SettleTouches(w2, cfg, NewSession(req, policy, ip, n), env);
      assert CreateOutcome(w2, cfg, req.snssai, env, w', reply);
      OutcomeFrom(w2, w, cfg, req.snssai, env, w', reply);
    }
  }

  lemma CreateTouches(w: World, cfg: Config, req: CreateRequest, env: CreateEnv)
    requires Named(w.sessions, w.seid) && w.seid + 1 < TWO64
    ensures var (w', reply) := Create(w, cfg, req, env);
            CreateOutcome(w, cfg, req.snssai, env, w', reply)
  {
    AllocateEffect(w, cfg.prefix, env.allocatePut);
    hide Allocate, Install, Named, OnlyTouches, Nsacf.Update;
    var (w1, ip) := Allocate(w, cfg.prefix, env.allocatePut);
    var policy := DefaultPolicy(cfg, env);
    if ip.Some? && policy.Some? {
      InstallTouches(w1, cfg, req, policy.value, ip.value, env);
      var (w', reply) := Install(w1, cfg, req, policy.value, ip.value, env);
      OutcomeFrom(w1, w, cfg, req.snssai, env, w', reply);
    }
  }

  // ---- what a create leaves at the UPF ------------------------------------------------------------

  lemma SettleKeepsUpf(w: World, cfg: Config, s: PduSession, env: CreateEnv)
    ensures Settle(w, cfg, s, env).upf == w.upf && Settle(w, cfg, s, env).seid == w.seid
  {
    hide Bind, Charge, Nsacf.Update;
    var w1 := PutSession(w, s);
    BindKeepsUpf(w1, cfg, s, env);
    var (w2, s2) := Bind(w1, cfg, s, env);
    ChargeKeepsUpf(w2, cfg, s2, env);
  }

  lemma BindKeepsUpf(w: World, cfg: Config, s: PduSession, env: CreateEnv)
    ensures Bind(w, cfg, s, env).0.upf == w.upf && Bind(w, cfg, s, env).0.seid == w.seid
  {
    hide Bsf.Register;
  }

  lemma ChargeKeepsUpf(w: World, cfg: Config, s: PduSession, env: CreateEnv)
    ensures Charge(w, cfg, s, env).0.upf == w.upf && Charge(w, cfg, s, env).0.seid == w.seid
  {
    hide Chf.Create;
  }

  lemma InstallReachesUpf(w: World, cfg: Config, req: CreateRequest, policy: Policy, ip: string, env: CreateEnv)
    ensures var (w', reply) := Install(w, cfg, req, policy, ip, env);
            && (reply.status == CREATED ==>
                  && reply.sessionId == SessionId(req.supi, Next64(w.seid))
                  && w'.upf == if cfg.pfcp then w.upf + {Next64(w.seid)} else w.upf)
            && (reply.status != CREATED ==>
                  && w' == w.(leases := w.leases - {ip}, seid := w'.seid, upf := w'.upf)
                  && w'.upf == (if cfg.pfcp && env.addressParses && env.established then w.upf + {Next64(w.seid)} else w.upf))
            && w'.seid == (if env.addressParses then Next64(w.seid) else w.seid)
            && (reply.status == CREATED <==> env.addressParses && (cfg.pfcp ==> env.established) && env.sessionPut)
  {
    hide Settle, Identifier;
    var n := Next64(w.seid);
    var w1 := w.(seid := n);
    var w2 := if cfg.pfcp then w1.(upf := w1.upf + {n}) else w1;
    SettleKeepsUpf(w2, cfg, NewSession(req, policy, ip, n), env);
  }

  // ---- what a create hands to BSF and CHF ----------------------------------------------------------

  /** The registration that a stored session asks for at the BSF. */
  function Binding(supi: string, dnn: string, snssai: Snssai, ueAddress: string, id: string): Bsf.RegisterRequest {
    Bsf.RegisterRequest(supi, dnn, snssai, "", ueAddress, id)
  }

  /** The charging session that a stored session asks for at the CHF. */
  function Charging(supi: string, dnn: string, snssai: Snssai, id: string): Chf.CreateRequest {
    Chf.CreateRequest(supi, id, dnn, snssai, "")
  }

  function BsfAfter(b: Bsf.State, cfg: Config, req: Bsf.RegisterRequest, env: CreateEnv): Bsf.State {
    if cfg.bsf && cfg.sbi && env.bind != Unreached then Bsf.Register(b, req, env.bindPuts).0 else b
  }

  function ChfAfter(c: Chf.State, cfg: Config, req: Chf.CreateRequest, env: CreateEnv): Chf.State {
    if cfg.charging && cfg.sbi && env.charge != Unreached then Chf.Create(c, req, env.chargePut).0 else c
  }

  lemma BindHands(w: World, cfg: Config, s: PduSession, env: CreateEnv)
    ensures var (w', s') := Bind(w, cfg, s, env);
            && w'.bsf == BsfAfter(w.bsf, cfg, Binding(s.supi, s.dnn, s.snssai, s.ueAddress, s.id), env)
            && w'.chf == w.chf && s' == s.(bsfBindingId := s'.bsfBindingId)
  {
    hide Bsf.Register;
  }

  lemma ChargeHands(w: World, cfg: Config, s: PduSession, env: CreateEnv)
    ensures var w' := Charge(w, cfg, s, env).0;
            && w'.chf == ChfAfter(w.chf, cfg, Charging(s.supi, s.dnn, s.snssai, s.id), env) && w'.bsf == w.bsf
  {
    hide Chf.Create;
  }

  lemma SettleHands(w: World, cfg: Config, s: PduSession, env: CreateEnv)
    ensures var w' := Settle(w, cfg, s, env);
            && w'.bsf == BsfAfter(w.bsf, cfg, Binding(s.supi, s.dnn, s.snssai, s.ueAddress, s.id), env)
            && w'.chf == ChfAfter(w.chf, cfg, Charging(s.supi, s.dnn, s.snssai, s.id), env)
  {
    hide Bind, Charge, BsfAfter, ChfAfter, Nsacf.Update;
    var w1 := PutSession(w, s);
    BindHands(w1, cfg, s, env);
    var (w2, s2) := Bind(w1, cfg, s, env);
    ChargeHands(w2, cfg, s2, env);
  }

  /** A create that answers 201 makes one call to the BSF and one to the CHF, as far as these are reached; any other makes
      none. */
  ghost predicate Hands(w: World, cfg: Config, req: CreateRequest, env: CreateEnv, w': World, reply: CreateReply) {
    if reply.status == CREATED then
      var dnn := OrDefault(req.dnn, "internet");
      && w'.bsf == BsfAfter(w.bsf, cfg, Binding(req.supi, dnn, req.snssai, reply.ueAddress, reply.sessionId), env)
      && w'.chf == ChfAfter(w.chf, cfg, Charging(req.supi, dnn, req.snssai, reply.sessionId), env)
    else w'.bsf == w.bsf && w'.chf == w.chf
  }

  lemma InstallHands(w: World, cfg: Config, req: CreateRequest, policy: Policy, ip: string, env: CreateEnv)
    ensures var (w', reply) := Install(w, cfg, req, policy, ip, env);
            Hands(w, cfg, req, env, w', reply) && (reply.status == CREATED ==> reply.ueAddress == ip)
  {
    hide Settle, Identifier, BsfAfter, ChfAfter;
    var n := Next64(w.seid);
    var w1 := w.(seid := n);
    var w2 := if cfg.pfcp then w1.(upf := w1.upf + {n}) else w1;
    SettleHands(w2, cfg, NewSession(req, policy, ip, n), env);
  }

  lemma CreateHands(w: World, cfg: Config, req: CreateRequest, env: CreateEnv)
    ensures var (w', reply) := Create(w, cfg, req, env);
            Hands(w, cfg, req, env, w', reply)
  {
    AllocateEffect(w, cfg.prefix, env.allocatePut);
    hide Allocate, Install, BsfAfter, ChfAfter;
    var (w1, ip) := Allocate(w, cfg.prefix, env.allocatePut);
    var policy := DefaultPolicy(cfg, env);
    if ip.Some? && policy.Some? {
      InstallHands(w1, cfg, req, policy.value, ip.value, env);
    }
  }
}
