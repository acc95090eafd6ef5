/** Registration and deregistration of UEs at the AMF, with the slice counters they keep at the NSACF. */
module Amf {
  import opened Text
  import opened Models
  import opened World
  import Nsacf

  datatype RegisterRequest = RegisterRequest(supi: string, skipAuth: bool)

  datatype Verdict = CallFailed | Success | Failure

  /** The answers of the authentication chain and of the UDM, the slices whose admission check is answered
      with a denial, the counter calls that take no effect, and whether the context is stored. */
  datatype RegisterEnv = RegisterEnv(
    challenged: bool, vectorRead: bool, verdict: Verdict, subscription: Option<seq<Snssai>>,
    denied: set<nat>, lost: set<nat>, contextPut: bool)

  /** One counter call per slice, in order; calls whose position is in lost take no effect. */
  function CountAll(t: Nsacf.Table, slices: seq<Snssai>, op: Nsacf.Operation, lost: set<nat>): Nsacf.Table {
    if slices == [] then t
    else
      var n := |slices| - 1;
      var before := CountAll(t, slices[..n], op, lost);
      if n in lost then before else Nsacf.Update(before, slices[n], Nsacf.Ue, op, true).0
  }

  /** What ends a registration before any state changes: the status, or none when it goes on. */
  function Rejected(cfg: Config, req: RegisterRequest, env: RegisterEnv): Option<int> {
    if req.supi == "" then Some(BAD_REQUEST)
    else if !req.skipAuth && (!env.challenged || !env.vectorRead || env.verdict == CallFailed) then Some(SERVER_ERROR)
    else if !req.skipAuth && env.verdict == Failure then Some(FORBIDDEN)
    else if env.subscription.None? then Some(SERVER_ERROR)
    else if cfg.nsacf && exists i :: 0 <= i < |env.subscription.value| && i in env.denied then Some(FORBIDDEN)
    else None
  }

  /** Initial registration: the counters are incremented before the context is stored. */
  function Register(w: World, cfg: Config, req: RegisterRequest, env: RegisterEnv): (World, int) {
    var rejected := Rejected(cfg, req, env);
    if rejected.Some? then (w, rejected.value)
    else
      var slices := env.subscription.value;
      var w1 := if cfg.nsacf then w.(slices := CountAll(w.slices, slices, Nsacf.Increment, env.lost)) else w;
      if !env.contextPut then (w1, SERVER_ERROR)
      else (w1.(contexts := w1.contexts[req.supi := UeContext(req.supi, slices)]), OK)
  }

  /** UE-initiated deregistration */
  function Deregister(w: World, cfg: Config, supi: string, lost: set<nat>): (World, int) {
    if supi == "" then (w, BAD_REQUEST)
    else if supi !in w.contexts then (w, NOT_FOUND)
    else
      var w1 := if cfg.nsacf && cfg.sbi
                then w.(slices := CountAll(w.slices, w.contexts[supi].allowedNssai, Nsacf.Decrement, lost)) else w;
      (w1.(contexts := w1.contexts - {supi}), OK)
  }

  // ---- counting the slices of stored contexts ------------------------------------------------

  /** The positions at which a slice occurs in the allowed lists of all stored contexts. */
  ghost function Positions(contexts: map<string, UeContext>, s: Snssai): set<(string, int)> {
    set supi, i | supi in contexts && 0 <= i < |contexts[supi].allowedNssai| && contexts[supi].allowedNssai[i] == s
      :: (supi, i)
  }

  ghost function PositionsOf(supi: string, slices: seq<Snssai>, s: Snssai): set<(string, int)> {
    set i | 0 <= i < |slices| && slices[i] == s :: (supi, i)
  }

  lemma {:induction false} PositionsOfOne(supi: string, slices: seq<Snssai>, s: Snssai)
    ensures |PositionsOf(supi, slices, s)| == multiset(slices)[s]
  {
    if slices != [] {
      var n := |slices| - 1;
      var init := slices[..n];
      PositionsOfOne(supi, init, s);
      assert slices == init + [slices[n]];
      if slices[n] == s {
        assert PositionsOf(supi, slices, s) == PositionsOf(supi, init, s) + {(supi, n)};
      } else {
        assert PositionsOf(supi, slices, s) == PositionsOf(supi, init, s);
      }
    }
  }

  lemma PositionsRemove(contexts: map<string, UeContext>, supi: string, s: Snssai)
    requires supi in contexts
    ensures |Positions(contexts, s)| == |Positions(contexts - {supi}, s)| + multiset(contexts[supi].allowedNssai)[s]
  {
    var rest, here := Positions(contexts - {supi}, s), PositionsOf(supi, contexts[supi].allowedNssai, s);
    assert Positions(contexts, s) == rest + here;
    assert rest !! here;
    PositionsOfOne(supi, contexts[supi].allowedNssai, s);
  }

  lemma PositionsPut(contexts: map<string, UeContext>, supi: string, c: UeContext, s: Snssai)
    ensures |Positions(contexts[supi := c], s)| ==
            |Positions(contexts, s)| + multiset(c.allowedNssai)[s]
            - (if supi in contexts then multiset(contexts[supi].allowedNssai)[s] else 0)
  {
    var after := contexts[supi := c];
    PositionsRemove(after, supi, s);
    assert after - {supi} == contexts - {supi};
    if supi in contexts {
      PositionsRemove(contexts, supi, s);
    } else {
      assert contexts - {supi} == contexts;
    }
  }

  // ---- what a row of counter calls does to the readings ------------------------------------------

  function UeReading(t: Nsacf.Table, s: Snssai): int { Nsacf.Reading(t, s, Nsacf.Ue) }

  /** How many of the counter calls for a list concern a slice and take no effect. */
  function LostOn(slices: seq<Snssai>, lost: set<nat>, s: Snssai): (n: nat)
    ensures n <= multiset(slices)[s]
  {
    if slices == [] then 0
    else
      var i := |slices| - 1;
      assert slices == slices[..i] + [slices[i]];
      LostOn(slices[..i], lost, s) + if i in lost && slices[i] == s then 1 else 0
  }

  lemma {:induction false} CountAllIncrements(t: Nsacf.Table, slices: seq<Snssai>, lost: set<nat>, s: Snssai)
    requires s.sst > 0
    ensures UeReading(CountAll(t, slices, Nsacf.Increment, lost), s)
            == UeReading(t, s) + multiset(slices)[s] - LostOn(slices, lost, s)
  {
    if slices != [] {
      var n := |slices| - 1;
      CountAllIncrements(t, slices[..n], lost, s);
      assert slices == slices[..n] + [slices[n]];
      Nsacf.UpdateMovesOneCounter(CountAll(t, slices[..n], Nsacf.Increment, lost), slices[n], Nsacf.Ue, Nsacf.Increment, s, Nsacf.Ue);
    }
  }

  /** Decrements of a slice that reads at least as often as it occurs never meet the clamp. */
  lemma {:induction false} CountAllDecrements(t: Nsacf.Table, slices: seq<Snssai>, lost: set<nat>, s: Snssai)
    requires s.sst > 0 && UeReading(t, s) >= multiset(slices)[s]
    ensures UeReading(CountAll(t, slices, Nsacf.Decrement, lost), s)
            == UeReading(t, s) - multiset(slices)[s] + LostOn(slices, lost, s)
  {
    if slices != [] {
      var n := |slices| - 1;
      assert slices == slices[..n] + [slices[n]];
      CountAllDecrements(t, slices[..n], lost, s);
      Nsacf.UpdateMovesOneCounter(CountAll(t, slices[..n], Nsacf.Decrement, lost), slices[n], Nsacf.Ue, Nsacf.Decrement, s, Nsacf.Ue);
    }
  }

  /** UE counter calls never move a session counter. */
  lemma {:induction false} CountAllKeepsSessions(t: Nsacf.Table, slices: seq<Snssai>, op: Nsacf.Operation, lost: set<nat>, s: Snssai)
    requires s.sst > 0
    ensures Nsacf.Reading(CountAll(t, slices, op, lost), s, Nsacf.PduSessions) == Nsacf.Reading(t, s, Nsacf.PduSessions)
  {
    if slices != [] {
      var n := |slices| - 1;
      CountAllKeepsSessions(t, slices[..n], op, lost, s);
      Nsacf.UpdateMovesOneCounter(CountAll(t, slices[..n], op, lost), slices[n], Nsacf.Ue, op, s, Nsacf.PduSessions);
    }
  }

  // ---- the drift of a UE counter ------------------------------------------------------------------

  /** By how much a slice's UE counter exceeds the occurrences of the slice in stored contexts. */
  ghost function Drift(w: World, s: Snssai): int {
    UeReading(w.slices, s) - |Positions(w.contexts, s)|
  }

  /** The allowed list that a registration counts but leaves without a stored context:
      its own when the context cannot be stored, else that of the context it overwrites. */
  function Orphaned(w: World, cfg: Config, req: RegisterRequest, env: RegisterEnv): seq<Snssai> {
    if Rejected(cfg, req, env).Some? then []
    else if !env.contextPut then env.subscription.value
    else if req.supi in w.contexts then w.contexts[req.supi].allowedNssai
    else []
  }

  /** The increments of a slice that a registration asks for in vain. */
  function Uncounted(cfg: Config, req: RegisterRequest, env: RegisterEnv, s: Snssai): nat {
    if Rejected(cfg, req, env).Some? then 0 else LostOn(env.subscription.value, env.lost, s)
  }

  /** The decrements of a slice that a deregistration asks for in vain. */
  function Unreturned(w: World, supi: string, lost: set<nat>, s: Snssai): nat {
    if supi == "" || supi !in w.contexts then 0 else LostOn(w.contexts[supi].allowedNssai, lost, s)
  }

  /** A registration moves the drift up by the orphaned occurrences and down by the increments lost. */
  lemma RegisterDrift(w: World, cfg: Config, req: RegisterRequest, env: RegisterEnv, s: Snssai)
    requires cfg.nsacf && s.sst > 0
    ensures Drift(Register(w, cfg, req, env).0, s)
            == Drift(w, s) + multiset(Orphaned(w, cfg, req, env))[s] - Uncounted(cfg, req, env, s)
  {
    if Rejected(cfg, req, env).None? {
      var slices := env.subscription.value;
      CountAllIncrements(w.slices, slices, env.lost, s);
      PositionsPut(w.contexts, req.supi, UeContext(req.supi, slices), s);
    }
  }

  /** A deregistration moves the drift up by the decrements lost, unless the counter was already short. */
  lemma DeregisterDrift(w: World, cfg: Config, supi: string, lost: set<nat>, s: Snssai)
    requires cfg.nsacf && cfg.sbi && s.sst > 0 && Drift(w, s) >= 0
    ensures Drift(Deregister(w, cfg, supi, lost).0, s) == Drift(w, s) + Unreturned(w, supi, lost, s)
  {
    if supi != "" && supi in w.contexts {
      PositionsRemove(w.contexts, supi, s);
      CountAllDecrements(w.slices, w.contexts[supi].allowedNssai, lost, s);
    }
  }
}
