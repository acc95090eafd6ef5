/** The PDU session handlers of the SMF, with the calls they make to BSF, CHF and NSACF. */
module Smf {
  import opened Text
  import opened Models
  import opened IpPool
  import opened World
  import Bsf
  import Chf
  import Nsacf

  // ---- address allocation ---------------------------------------------------------------

  /** allocateIP: the first free address at or after the cursor, cyclically; the cursor stops behind it. */
  function Allocate(w: World, prefix: string, putOk: bool): (World, Option<string>)
  {
    var pool := Addresses(prefix);
    var r := FirstFree(pool, w.leases.Keys, Cursor(w), 0);
    if r == POOL then (w, None)
    else
      var ip := Probe(pool, Cursor(w), r);
      var w1 := WithCursor(w, (Cursor(w) + r + 1) % POOL);
      if putOk then (w1.(leases := w1.leases[ip := ip]), Some(ip)) else (w1, None)
  }

  function FreeAddress(w: World, ip: string): World {
    w.(leases := w.leases - {ip})
  }

  // ---- create -----------------------------------------------------------------------------

  datatype CreateRequest = CreateRequest(
    supi: string, snssai: Snssai, dnn: string, pduType: string, ambrUl: nat, ambrDl: nat)

  datatype Policy = Policy(qfi: nat, ambrUl: nat, ambrDl: nat)

  datatype Admission = CheckFailed | Allowed | Denied

  /** Everything outside the handler's control: answers of PCF, NSACF and UPF, the fate of each call,
      and which Puts fail. */
  datatype CreateEnv = CreateEnv(
    policy: Option<Policy>, admission: Admission,
    allocatePut: bool, addressParses: bool, established: bool, sessionPut: bool,
    bind: Fate, bindPuts: Bsf.Puts, bindingPut: bool,
    charge: Fate, chargePut: bool, chargingPut: bool,
    count: Fate, countPut: bool)

  datatype CreateReply = CreateReply(status: int, sessionId: string, ueAddress: string)

  function SessionId(supi: string, n: nat): string {
    Identifier("pdu", supi, n)
  }

  function Chosen(asked: nat, policy: nat): nat { if asked > 0 then asked else policy }

  function NewSession(req: CreateRequest, policy: Policy, ip: string, n: nat): PduSession {
    PduSession(SessionId(req.supi, n), req.supi, req.snssai, OrDefault(req.dnn, "internet"),
               OrDefault(req.pduType, "IPv4"), ip, "ACTIVE", policy.qfi,
               Chosen(req.ambrUl, policy.ambrUl), Chosen(req.ambrDl, policy.ambrDl), "", "")
  }

  function PutSession(w: World, s: PduSession): World {
    w.(sessions := w.sessions[s.id := s])
  }

  /** BSF registration of a stored session. The handler keeps the binding id in its own copy of the
      session even when the second Put of the session fails. */
  function Bind(w: World, cfg: Config, s: PduSession, env: CreateEnv): (World, PduSession) {
    if !(cfg.bsf && cfg.sbi) || env.bind == Unreached then (w, s)
    else
      var (b, reply) := Bsf.Register(
        w.bsf, Bsf.RegisterRequest(s.supi, s.dnn, s.snssai, "", s.ueAddress, s.id), env.bindPuts);
      var w1 := w.(bsf := b);
      if env.bind == ReplyLost || reply.bindingId == "" then (w1, s)
      else
        var s1 := s.(bsfBindingId := reply.bindingId);
        (if env.bindingPut then PutSession(w1, s1) else w1, s1)
  }

  /** CHF session for a stored PDU session, in the same manner. */
  function Charge(w: World, cfg: Config, s: PduSession, env: CreateEnv): (World, PduSession) {
    if !(cfg.charging && cfg.sbi) || env.charge == Unreached then (w, s)
    else
      var (c, reply) := Chf.Create(w.chf, Chf.CreateRequest(s.supi, s.id, s.dnn, s.snssai, ""), env.chargePut);
      var w1 := w.(chf := c);
      if env.charge == ReplyLost || reply.chargingId == "" then (w1, s)
      else
        var s1 := s.(chargingId := reply.chargingId);
        (if env.chargingPut then PutSession(w1, s1) else w1, s1)
  }

  function Count(w: World, cfg: Config, slice: Snssai, op: Nsacf.Operation, fate: Fate, putOk: bool): World {
    if cfg.nsacf && cfg.sbi && fate != Unreached
    then w.(slices := Nsacf.Update(w.slices, slice, Nsacf.PduSessions, op, putOk).0) else w
  }

  /** The stored session and everything that follows it; none of this can fail the request any more. */
  function Settle(w: World, cfg: Config, s: PduSession, env: CreateEnv): World {
    var w1 := PutSession(w, s);
    var (w2, s2) := Bind(w1, cfg, s, env);
    var (w3, s3) := Charge(w2, cfg, s2, env);
    Count(w3, cfg, s.snssai, Nsacf.Increment, env.count, env.countPut)
  }

  function DefaultPolicy(cfg: Config, env: CreateEnv): Option<Policy> {
    if cfg.sbi then env.policy else Some(Policy(1, 1000000, 5000000))
  }

  function Failure(status: int): CreateReply { CreateReply(status, "", "") }

  /** Nsmf_PDUSession_CreateSMContext, once the address is reserved. */
  function Install(w: World, cfg: Config, req: CreateRequest, policy: Policy, ip: string, env: CreateEnv)
    : (World, CreateReply)
  {
    if !env.addressParses then (FreeAddress(w, ip), Failure(SERVER_ERROR))
    else
      var n := Next64(w.seid);
      var w1 := w.(seid := n);
      if cfg.pfcp && !env.established then (FreeAddress(w1, ip), Failure(SERVER_ERROR))
      else
        var w2 := if cfg.pfcp then w1.(upf := w1.upf + {n}) else w1;
        var s := NewSession(req, policy, ip, n);
        if !env.sessionPut then (FreeAddress(w2, ip), Failure(SERVER_ERROR))
        else (Settle(w2, cfg, s, env), CreateReply(CREATED, s.id, ip))
  }

  function Create(w: World, cfg: Config, req: CreateRequest, env: CreateEnv): (World, CreateReply)
  {
    if req.supi == "" then (w, Failure(BAD_REQUEST))
    else
      match DefaultPolicy(cfg, env)
      case None => (w, Failure(SERVER_ERROR))
      case Some(policy) =>
        if cfg.nsacf && cfg.sbi && env.admission == Denied then (w, Failure(FORBIDDEN))
        else
          var (w1, ip) := Allocate(w, cfg.prefix, env.allocatePut);
          if ip.None? then (w1, Failure(SERVER_ERROR)) else Install(w1, cfg, req, policy, ip.value, env)
  }

  // ---- update and release -------------------------------------------------------------------

  datatype UpdateRequest = UpdateRequest(sessionId: string, ambrUl: nat, ambrDl: nat, qfi: nat)

  /** Nsmf_PDUSession_UpdateSMContext: only QoS values change, and only once the UPF has accepted them. */
  function Update(w: World, cfg: Config, req: UpdateRequest, modified: bool, putOk: bool): (World, int) {
    if req.sessionId == "" then (w, BAD_REQUEST)
    else if req.sessionId !in w.sessions then (w, NOT_FOUND)
    else
      var s := w.sessions[req.sessionId];
      var s1 := s.(ambrUl := Chosen(req.ambrUl, s.ambrUl), ambrDl := Chosen(req.ambrDl, s.ambrDl), qfi := Chosen(req.qfi, s.qfi));
      if cfg.pfcp && !modified then (w, SERVER_ERROR)
      else if !putOk then (w, SERVER_ERROR)
      else (w.(sessions := w.sessions[req.sessionId := s1]), OK)
  }

  datatype ReleaseEnv = ReleaseEnv(
    deleted: bool, charge: Fate, recordPut: bool, unbind: Fate, count: Fate, countPut: bool)

  /** A release once the UPF has let the session go. Every step works on a table of its own. */
  function Teardown(w: World, cfg: Config, s: PduSession, id: string, env: ReleaseEnv): World {
    w.(upf := if cfg.pfcp then w.upf - {Serial(id)} else w.upf,
       leases := if s.ueAddress != "" then w.leases - {s.ueAddress} else w.leases,
       chf := if cfg.charging && cfg.sbi && s.chargingId != "" && env.charge != Unreached
              then Chf.Release(w.chf, s.chargingId, env.recordPut).0 else w.chf,
       bsf := if cfg.bsf && cfg.sbi && s.bsfBindingId != "" && env.unbind != Unreached
              then Bsf.Deregister(w.bsf, s.bsfBindingId).0 else w.bsf,
       slices := Count(w, cfg, s.snssai, Nsacf.Decrement, env.count, env.countPut).slices,
       sessions := w.sessions - {id})
  }

  /** Nsmf_PDUSession_ReleaseSMContext */
  function Release(w: World, cfg: Config, id: string, env: ReleaseEnv): (World, int) {
    if id == "" then (w, BAD_REQUEST)
    else if id !in w.sessions then (w, NOT_FOUND)
    else if cfg.pfcp && !env.deleted then (w, SERVER_ERROR)
    else (Teardown(w, cfg, w.sessions[id], id, env), OK)
  }

  // ---- the invariant that ties the tables together ------------------------------------------

  /** Sessions sit under the identifier printed from their SUPI and an issued SEID; no SEID is used twice. */
  ghost predicate Named(sessions: map<string, PduSession>, seid: nat) {
    && seid < TWO64
    && (forall id :: id in sessions ==>
          && sessions[id].id == id && id != ""
          && id == SessionId(sessions[id].supi, Serial(id))
          && 1 <= Serial(id) <= seid)
    && (forall id, id' :: id in sessions && id' in sessions && Serial(id) == Serial(id') ==> id == id')
  }

  /** Addresses of stored sessions are pairwise distinct, and with those in flight they are exactly the
      allocated ones: nothing leaks and nothing is used twice. */
  ghost predicate AddressesExact(sessions: map<string, PduSession>, leased: set<string>, inFlight: set<string>) {
    && (forall id, id' :: id in sessions && id' in sessions && sessions[id].ueAddress == sessions[id'].ueAddress
          ==> id == id')
    && (forall id :: id in sessions ==> sessions[id].ueAddress != "" && sessions[id].ueAddress !in inFlight)
    && leased == (set id | id in sessions :: sessions[id].ueAddress) + inFlight
  }

  /** The SEID of every stored session is live at the UPF. */
  ghost predicate UpfCovers(sessions: map<string, PduSession>, upf: set<nat>) {
    forall id :: id in sessions ==> Serial(id) in upf
  }

  /** A session that carries a binding id is the one its binding names, and is found by its address. */
  ghost predicate SessionBound(s: PduSession, b: Bsf.State) {
    s.bsfBindingId != "" ==>
      && s.bsfBindingId in b.bindings
      && b.bindings[s.bsfBindingId].pduSessionId == s.id
      && b.bindings[s.bsfBindingId].ueAddress == s.ueAddress
      && s.ueAddress in b.byIp && b.byIp[s.ueAddress] == s.bsfBindingId
  }

  ghost predicate Bound(sessions: map<string, PduSession>, b: Bsf.State) {
    forall id :: id in sessions ==> SessionBound(sessions[id], b)
  }

  /** A session that carries a charging id is the one its live charging session names. */
  ghost predicate SessionCharged(s: PduSession, c: Chf.State) {
    s.chargingId != "" ==> s.chargingId in c.sessions && c.sessions[s.chargingId].pduSessionId == s.id
  }

  ghost predicate Charged(sessions: map<string, PduSession>, c: Chf.State) {
    forall id :: id in sessions ==> SessionCharged(sessions[id], c)
  }

  /** Live charging sessions sit under identifiers already issued. */
  ghost predicate ChargingIssued(c: Chf.State) {
    && c.counter < TWO64
    && forall id :: id in c.sessions ==> 1 <= Serial(id) <= c.counter
  }

  ghost predicate Consistent(w: World, cfg: Config, inFlight: set<string>) {
    && Named(w.sessions, w.seid)
    && AddressesExact(w.sessions, w.leases.Keys, inFlight)
    && (cfg.pfcp ==> UpfCovers(w.sessions, w.upf))
    && Bsf.Valid(w.bsf) && Bound(w.sessions, w.bsf)
    && ChargingIssued(w.chf) && Charged(w.sessions, w.chf)
  }
}
