/** Whole runs of the core: any sequence of session, charging and registration requests, with any of the
    outside calls and Puts failing, from the empty store. */
module Runs {
  import opened Text
  import opened Models
  import opened IpPool
  import opened World
  import opened SmfInvariant
  import Smf
  import Amf
  import Bsf
  import Chf
  import Nsacf

  datatype Op =
    | CreateOp(creation: Smf.CreateRequest, createEnv: Smf.CreateEnv)
    | UpdateOp(change: Smf.UpdateRequest, modified: bool, updatePut: bool)
    | ReleaseOp(sessionId: string, releaseEnv: Smf.ReleaseEnv)
    | ReportOp(chargingId: string, report: Chf.Report, reportPut: bool)
    | RegisterOp(registration: Amf.RegisterRequest, registerEnv: Amf.RegisterEnv)
    | DeregisterOp(supi: string, lost: set<nat>)

  function Step(w: World, cfg: Config, op: Op): World {
    match op
    case CreateOp(req, env) => Smf.Create(w, cfg, req, env).0
    case UpdateOp(req, modified, ok) => Smf.Update(w, cfg, req, modified, ok).0
    case ReleaseOp(id, env) => Smf.Release(w, cfg, id, env).0
    case ReportOp(id, report, ok) => w.(chf := Chf.Update(w.chf, id, report, ok).0)
    case RegisterOp(req, env) => Amf.Register(w, cfg, req, env).0
    case DeregisterOp(supi, lost) => Amf.Deregister(w, cfg, supi, lost).0
  }

  function Run(cfg: Config, ops: seq<Op>): World {
    if ops == [] then INITIAL else Step(Run(cfg, ops[..|ops| - 1]), cfg, ops[|ops| - 1])
  }

  // ---- the tables stay consistent ----------------------------------------------------------

  lemma ReportKeeps(w: World, cfg: Config, id: string, report: Chf.Report, putOk: bool)
    requires Smf.Consistent(w, cfg, {})
    ensures Smf.Consistent(w.(chf := Chf.Update(w.chf, id, report, putOk).0), cfg, {})
  {
    var c := Chf.Update(w.chf, id, report, putOk).0;
    assert Smf.ChargingIssued(c);
    assert forall s :: Smf.SessionCharged(s, w.chf) ==> Smf.SessionCharged(s, c);
  }

  lemma StepKeeps(w: World, cfg: Config, op: Op)
    requires Smf.Consistent(w, cfg, {}) && CountersBelowMax(w)
    ensures Smf.Consistent(Step(w, cfg, op), cfg, {}) && CountersGrowByOne(w, Step(w, cfg, op))
  {
    hide Smf.Named, Smf.AddressesExact, Smf.UpfCovers, Smf.Bound, Smf.Charged, Smf.ChargingIssued, Bsf.IssuedIds, Bsf.NoDangling;
    hide Smf.Create, Smf.Release, Smf.Update;
    match op
    case CreateOp(req, env) => CreateKeeps(w, cfg, req, env);
    case UpdateOp(req, modified, ok) => UpdateKeeps(w, cfg, req, modified, ok);
    case ReleaseOp(id, env) => ReleaseKeeps(w, cfg, id, env);
    case ReportOp(id, report, ok) => ReportKeeps(w, cfg, id, report, ok);
    case RegisterOp(req, env) =>
    case DeregisterOp(supi, lost) =>
  }

  /** Whatever fails along the way, the tables of a run are consistent after every request. */
  lemma {:induction false} RunConsistent(cfg: Config, ops: seq<Op>)
    requires |ops| < TWO64
    ensures var w := Run(cfg, ops);
            && Smf.Consistent(w, cfg, {})
            && w.seid <= |ops| && w.bsf.counter <= |ops| && w.chf.counter <= |ops|
  {
    if ops == [] {
      assert Smf.Consistent(INITIAL, cfg, {}) by { assert INITIAL.leases.Keys == {}; }
    } else {
      hide Smf.Consistent, Step;
      var init := ops[..|ops| - 1];
      RunConsistent(cfg, init);
      StepKeeps(Run(cfg, init), cfg, ops[|ops| - 1]);
    }
  }

  /** Property of every reachable state: the addresses of stored sessions are pairwise distinct and are
      exactly the leased ones, so a free address is one that no session uses. */
  lemma LeasesAreTheSessionsAddresses(cfg: Config, ops: seq<Op>, a: string)
    requires |ops| < TWO64
    ensures var w := Run(cfg, ops);
            && (a in w.leases <==> exists id :: id in w.sessions && w.sessions[id].ueAddress == a)
            && (forall id, id' :: id in w.sessions && id' in w.sessions && w.sessions[id].ueAddress == w.sessions[id'].ueAddress
                  ==> id == id')
  {
    RunConsistent(cfg, ops);
    hide Run;
    var w := Run(cfg, ops);
    assert w.leases.Keys == (set id | id in w.sessions :: w.sessions[id].ueAddress);
  }

  /** In every reachable state, discovery by the address of a session that carries a binding id answers with
      that binding, and the binding names the session. */
  lemma DiscoveryFindsTheSession(cfg: Config, ops: seq<Op>, id: string)
    requires |ops| < TWO64
    requires id in Run(cfg, ops).sessions && Run(cfg, ops).sessions[id].bsfBindingId != ""
    ensures var w := Run(cfg, ops);
            var r := Bsf.Discover(w.bsf, w.sessions[id].ueAddress, "", "");
            && r.Found? && r.binding.bindingId == w.sessions[id].bsfBindingId && r.binding.pduSessionId == id
            && r.binding.bindingId in w.bsf.bindings && r.binding == w.bsf.bindings[r.binding.bindingId]
  {
    RunConsistent(cfg, ops);
    var w := Run(cfg, ops);
    NamedSessions(w, cfg, id);
    assert Bsf.IssuedIds(w.bsf);
    hide Run, Smf.Consistent, Serial, Identifier, Bsf.Discover;
    Bsf.FoundByAddress(w.bsf, w.sessions[id].ueAddress, w.sessions[id].bsfBindingId);
  }

  /** A release takes down the SEID of its own session and of no other stored one. */
  lemma ReleaseDeletesOnlyItsOwnSeid(cfg: Config, ops: seq<Op>, id: string, env: Smf.ReleaseEnv, other: string)
    requires |ops| < TWO64 && cfg.pfcp && env.deleted
    requires id in Run(cfg, ops).sessions && other in Run(cfg, ops).sessions && other != id
    ensures var w := Run(cfg, ops);
            var w' := Smf.Release(w, cfg, id, env).0;
            && w'.upf == w.upf - {Serial(id)} && Serial(id) in w.upf
            && other in w'.sessions && Serial(other) in w'.upf
  {
    RunConsistent(cfg, ops);
    var w := Run(cfg, ops);
    ReleaseKeeps(w, cfg, id, env);
    NamedSessions(w, cfg, id);
    hide Run, Serial, Identifier, Smf.Named, Bsf.Valid, Smf.Bound, Smf.Charged, Smf.ChargingIssued, Smf.AddressesExact;
    hide Bsf.Deregister, Chf.Release, Nsacf.Update;
  }

  /** An update changes nothing but the QoS values of one session. */
  lemma UpdateChangesOnlyQos(w: World, cfg: Config, req: Smf.UpdateRequest, modified: bool, putOk: bool)
    ensures var (w', status) := Smf.Update(w, cfg, req, modified, putOk);
            && w' == w.(sessions := w'.sessions) && w'.sessions.Keys == w.sessions.Keys
            && forall id :: id in w.sessions ==>
                 var s, s' := w.sessions[id], w'.sessions[id];
                 && s' == s.(qfi := s'.qfi, ambrUl := s'.ambrUl, ambrDl := s'.ambrDl)
                 && (id != req.sessionId || status != OK ==> s' == s)
  {
  }

  // ---- releasing a session closes its charging session ----------------------------------------

  /** When the charging release is served, the released session's charging session ends in a record that
      names the session. */
  lemma ReleaseWritesTheRecord(cfg: Config, ops: seq<Op>, id: string, env: Smf.ReleaseEnv)
    requires |ops| < TWO64 && cfg.charging && cfg.sbi && env.charge != Unreached && env.recordPut && (cfg.pfcp ==> env.deleted)
    requires id in Run(cfg, ops).sessions && Run(cfg, ops).sessions[id].chargingId != ""
    ensures var w := Run(cfg, ops);
            var chargingId := w.sessions[id].chargingId;
            var c := Smf.Release(w, cfg, id, env).0.chf;
            && chargingId in w.chf.sessions && chargingId !in c.sessions
            && Chf.RecordId(chargingId) in c.records
            && c.records[Chf.RecordId(chargingId)] == Chf.RecordOf(chargingId, w.chf.sessions[chargingId])
            && c.records[Chf.RecordId(chargingId)].pduSessionId == id
  {
    RunConsistent(cfg, ops);
    var w := Run(cfg, ops);
    NamedSessions(w, cfg, id);
    assert id != "";
    hide Run, Smf.Consistent, Serial, Identifier;
  }
}
