/** The RM and CM states of a UE with the log of their transitions. A state is any integer; 0 and 1 are the declared
    ones, and the transition functions take every other target as well. */
module UeStateMachine {
  import opened Text

  const DEREGISTERED := 0
  const REGISTERED := 1
  const IDLE := 0
  const CONNECTED := 1

  function RmText(s: int): string {
    if s == DEREGISTERED then "RM-DEREGISTERED" else if s == REGISTERED then "RM-REGISTERED"
    else "RM-UNKNOWN(" + DecInt(s) + ")"
  }

  function CmText(s: int): string {
    if s == IDLE then "CM-IDLE" else if s == CONNECTED then "CM-CONNECTED" else "CM-UNKNOWN(" + DecInt(s) + ")"
  }

  datatype Transition = Transition(from: string, to: string)

  datatype State = State(rm: int, cm: int, log: seq<Transition>)

  const INITIAL := State(DEREGISTERED, IDLE, [])

  /** TransitionRM: deregistration takes CM to idle as well. */
  function TransitionRm(m: State, target: int): (State, bool) {
    if m.rm == target then (m, false)
    else
      var m1 := m.(rm := target, log := m.log + [Transition(RmText(m.rm), RmText(target))]);
      if target == DEREGISTERED && m1.cm != IDLE
      then (m1.(cm := IDLE, log := m1.log + [Transition(CmText(CONNECTED), CmText(IDLE))]), true)
      else (m1, true)
  }

  /** TransitionCM: only while registered. */
  function TransitionCm(m: State, target: int): (State, bool) {
    if m.rm != REGISTERED || m.cm == target then (m, false)
    else (m.(cm := target, log := m.log + [Transition(CmText(m.cm), CmText(target))]), true)
  }

  class Machine {
    var rmState: int
    var cmState: int
    var transitions: seq<Transition>

    ghost function Abs(): State
      reads this
    {
      State(rmState, cmState, transitions)
    }

    constructor ()
      ensures Abs() == INITIAL
    {
      rmState, cmState, transitions := DEREGISTERED, IDLE, [];
    }

    method TransitionRM(target: int) returns (ok: bool)
      modifies this
      ensures (Abs(), ok) == TransitionRm(old(Abs()), target)
    {
      if rmState == target {
        return false;
      }
      transitions := transitions + [Transition(RmText(rmState), RmText(target))];
      rmState := target;
      if target == DEREGISTERED && cmState != IDLE {
        cmState := IDLE;
        transitions := transitions + [Transition(CmText(CONNECTED), CmText(IDLE))];
      }
      return true;
    }

    method TransitionCM(target: int) returns (ok: bool)
      modifies this
      ensures (Abs(), ok) == TransitionCm(old(Abs()), target)
    {
      if rmState != REGISTERED {
        return false;
      }
      if cmState == target {
        return false;
      }
      transitions := transitions + [Transition(CmText(cmState), CmText(target))];
      cmState := target;
      return true;
    }
  }

  // ---- replaying the log -----------------------------------------------------------------------

  /** The pair of state names that the log leads to, read from its To fields alone. */
  function Replay(log: seq<Transition>): (string, string) {
    if log == [] then (RmText(DEREGISTERED), CmText(IDLE))
    else
      var (rm, cm) := Replay(log[..|log| - 1]);
      var to := log[|log| - 1].to;
      if IsRmRecord(log[|log| - 1]) then (to, cm) else (rm, to)
  }

  lemma ReplayAppend(log: seq<Transition>, t: Transition)
    ensures Replay(log + [t]) ==
            var (rm, cm) := Replay(log);
            if IsRmRecord(t) then (t.to, cm) else (rm, t.to)
  {
    assert (log + [t])[..|log|] == log;
  }

  lemma FirstLetters(s: int)
    ensures RmText(s) != "" && RmText(s)[0] == 'R' && CmText(s) != "" && CmText(s)[0] == 'C'
  {
  }

  predicate IsRmRecord(t: Transition) { t.to != [] && t.to[0] == 'R' }

  /** The record starts where the log before it leads: an RM record at its RM state, a CM record at its CM state. */
  predicate Fits(log: seq<Transition>, t: Transition) {
    t.from == if IsRmRecord(t) then Replay(log).0 else Replay(log).1
  }

  /** Every record of the log starts where the log before it leads. */
  ghost predicate Contiguous(log: seq<Transition>) {
    forall i :: 0 <= i < |log| ==> Fits(log[..i], log[i])
  }

  datatype Op = RmOp(target: int) | CmOp(target: int)

  predicate Declared(op: Op) { op.target == 0 || op.target == 1 }

  function Step(m: State, op: Op): State {
    match op
    case RmOp(target) => TransitionRm(m, target).0
    case CmOp(target) => TransitionCm(m, target).0
  }

  function Run(ops: seq<Op>): State {
    if ops == [] then INITIAL else Step(Run(ops[..|ops| - 1]), ops[|ops| - 1])
  }

  ghost predicate Replays(m: State) { Replay(m.log) == (RmText(m.rm), CmText(m.cm)) }

  lemma StepReplays(m: State, op: Op)
    requires Replays(m)
    ensures Replays(Step(m, op))
  {
    FirstLetters(op.target);
    FirstLetters(IDLE);
    hide Replay, RmText, CmText;
    match op
    case RmOp(target) =>
      var t := Transition(RmText(m.rm), RmText(target));
      ReplayAppend(m.log, t);
      ReplayAppend(m.log + [t], Transition(CmText(CONNECTED), CmText(IDLE)));
    case CmOp(target) =>
      ReplayAppend(m.log, Transition(CmText(m.cm), CmText(target)));
  }

  /** After any requests, to declared states or not, replaying the log gives the names of the current states. */
  lemma {:induction false} LogReplaysToCurrentState(ops: seq<Op>)
    ensures Replays(Run(ops))
  {
    if ops != [] {
      LogReplaysToCurrentState(ops[..|ops| - 1]);
      StepReplays(Run(ops[..|ops| - 1]), ops[|ops| - 1]);
    }
  }

  /** ... and the names determine the states. */
  lemma NamesDetermineStates(s: int, t: int)
    ensures RmText(s) == RmText(t) ==> s == t
    ensures CmText(s) == CmText(t) ==> s == t
  {
    UnknownDetermines("RM-UNKNOWN(", s, t);
    UnknownDetermines("CM-UNKNOWN(", s, t);
    hide DecInt;
    assert "RM-DEREGISTERED"[3] == 'D' && "RM-REGISTERED"[3] == 'R' && "RM-UNKNOWN("[3] == 'U';
    assert "CM-IDLE"[3] == 'I' && "CM-CONNECTED"[3] == 'C' && "CM-UNKNOWN("[3] == 'U';
    assert RmText(s) == RmText(t) ==> RmText(s)[3] == RmText(t)[3];
    assert CmText(s) == CmText(t) ==> CmText(s)[3] == CmText(t)[3];
  }

  lemma UnknownDetermines(prefix: string, s: int, t: int)
    requires |prefix| == 11
    ensures prefix + DecInt(s) + ")" == prefix + DecInt(t) + ")" ==> s == t
    ensures (prefix + DecInt(s) + ")")[3] == prefix[3] && (prefix + DecInt(t) + ")")[3] == prefix[3]
  {
    var a, b := prefix + DecInt(s) + ")", prefix + DecInt(t) + ")";
    assert a[11..|a| - 1] == DecInt(s) && b[11..|b| - 1] == DecInt(t);
    if a == b {
      DecIntInjective(s, t);
    }
  }

  // ---- the log is contiguous, and when it is not ----------------------------------------------------

  lemma ContiguousAppend(log: seq<Transition>, t: Transition)
    ensures Contiguous(log + [t]) <==> Contiguous(log) && Fits(log, t)
  {
    hide Fits;
    var l := log + [t];
    assert l[..|log|] == log && l[|log|] == t;
    assert forall i :: 0 <= i < |log| ==> l[..i] == log[..i] && l[i] == log[i];
    if Contiguous(l) {
      assert Fits(l[..|log|], l[|log|]);
      assert forall i :: 0 <= i < |log| ==> Fits(l[..i], l[i]);
    }
  }

  /** A deregistration out of a CM state that is neither idle nor connected: its record claims that the UE was
      connected. */
  predicate Misrecords(m: State, op: Op) {
    op == RmOp(DEREGISTERED) && m.rm != DEREGISTERED && m.cm != IDLE && m.cm != CONNECTED
  }

  lemma StepContiguousIff(m: State, op: Op)
    requires Replays(m)
    ensures Contiguous(Step(m, op).log) <==> Contiguous(m.log) && !Misrecords(m, op)
  {
    FirstLetters(op.target);
    FirstLetters(IDLE);
    NamesDetermineStates(m.cm, CONNECTED);
    hide Replay, RmText, CmText, Contiguous;
    match op
    case RmOp(target) =>
      var t := Transition(RmText(m.rm), RmText(target));
      ContiguousAppend(m.log, t);
      ReplayAppend(m.log, t);
      ContiguousAppend(m.log + [t], Transition(CmText(CONNECTED), CmText(IDLE)));
    case CmOp(target) =>
      ContiguousAppend(m.log, Transition(CmText(m.cm), CmText(target)));
  }

  /** No request of the run misrecords. */
  predicate NeverMisrecords(ops: seq<Op>) {
    ops == [] || (NeverMisrecords(ops[..|ops| - 1]) && !Misrecords(Run(ops[..|ops| - 1]), ops[|ops| - 1]))
  }

  /** Over requests for any states, every record starts where the log before it leads if and only if no request
      deregisters a UE out of an undeclared CM state. */
  lemma {:induction false} LogContiguousIff(ops: seq<Op>)
    ensures Contiguous(Run(ops).log) <==> NeverMisrecords(ops)
  {
    if ops != [] {
      var n := |ops| - 1;
      LogContiguousIff(ops[..n]);
      LogReplaysToCurrentState(ops[..n]);
      hide Contiguous, Replays, Misrecords, Step;
      StepContiguousIff(Run(ops[..n]), ops[n]);
    }
  }

  // ---- connected implies registered, and when it does not ---------------------------------------------

  predicate Sound(m: State) { m.cm == CONNECTED ==> m.rm == REGISTERED }

  /** A connected UE is asked to an RM state that is not declared. */
  predicate Strays(m: State, op: Op) {
    op.RmOp? && m.cm == CONNECTED && op.target != DEREGISTERED && op.target != REGISTERED
  }

  lemma StepSoundIff(m: State, op: Op)
    requires Sound(m)
    ensures Sound(Step(m, op)) <==> !Strays(m, op)
  {
  }

  /** A connected UE is registered now and after every earlier request of the run. */
  predicate AlwaysSound(ops: seq<Op>) {
    Sound(Run(ops)) && (ops == [] || AlwaysSound(ops[..|ops| - 1]))
  }

  /** No request of the run strays. */
  predicate NeverStrays(ops: seq<Op>) {
    ops == [] || (NeverStrays(ops[..|ops| - 1]) && !Strays(Run(ops[..|ops| - 1]), ops[|ops| - 1]))
  }

  /** Over requests for any states, a connected UE is registered throughout if and only if no request asks a connected
      UE to an undeclared RM state. */
  lemma {:induction false} AlwaysSoundIff(ops: seq<Op>)
    ensures AlwaysSound(ops) <==> NeverStrays(ops)
  {
    if ops != [] {
      var n := |ops| - 1;
      AlwaysSoundIff(ops[..n]);
      hide Sound, Strays, Step;
      if Sound(Run(ops[..n])) { StepSoundIff(Run(ops[..n]), ops[n]); }
    }
  }

  /** Requests for declared states meet both conditions. */
  lemma {:induction false} DeclaredRunsAreSound(ops: seq<Op>)
    requires forall i :: 0 <= i < |ops| ==> Declared(ops[i])
    ensures Sound(Run(ops)) && Contiguous(Run(ops).log)
    ensures Run(ops).cm == IDLE || Run(ops).cm == CONNECTED
  {
    if ops != [] {
      var n := |ops| - 1;
      DeclaredRunsAreSound(ops[..n]);
      LogReplaysToCurrentState(ops[..n]);
      hide Contiguous, Replays;
      StepContiguousIff(Run(ops[..n]), ops[n]);
    }
  }

  lemma RunOfThree(a: Op, b: Op, c: Op)
    ensures Run([a, b]) == Step(Step(INITIAL, a), b)
    ensures Run([a, b, c]) == Step(Step(Step(INITIAL, a), b), c)
  {
    assert [a, b, c][..2] == [a, b] && [a, b][..1] == [a] && [a][..0] == [];
    hide Step;
    assert Run([a]) == Step(Run([]), a);
    assert Run([a, b]) == Step(Run([a]), b);
  }

  /** Both conditions can fail: a UE left connected without being registered, and a record that starts at
      CM-CONNECTED where the log leads to another state. */
  lemma UndeclaredTargetsMatter()
    ensures !Sound(Run([RmOp(1), CmOp(1), RmOp(2)]))
    ensures !Contiguous(Run([RmOp(1), CmOp(5), RmOp(0)]).log)
  {
    RunOfThree(RmOp(1), CmOp(1), RmOp(2));
    RunOfThree(RmOp(1), CmOp(5), RmOp(0));
    var ops := [RmOp(1), CmOp(5)];
    LogReplaysToCurrentState(ops);
    hide Contiguous, Replays, Run;
    StepContiguousIff(Run(ops), RmOp(0));
  }

  // ---- what a request comes to ------------------------------------------------------------------------

  /** Names in print. */
  lemma NamesInPrint()
    ensures RmText(0) == "RM-DEREGISTERED" && RmText(1) == "RM-REGISTERED" && RmText(7) == "RM-UNKNOWN(7)"
    ensures CmText(0) == "CM-IDLE" && CmText(1) == "CM-CONNECTED" && CmText(-2) == "CM-UNKNOWN(-2)"
  {
    assert Dec(7) == "7" && Dec(2) == "2";
  }

  /** An RM request is refused exactly when the UE is in that state already; a CM request exactly when the UE is not registered
      or is in that state already. A refusal changes nothing, and everything else writes one record, or two. */
  lemma RequestsAccepted(m: State, target: int)
    ensures var (m', ok) := TransitionRm(m, target);
            && (ok <==> m.rm != target) && m'.rm == target && (!ok ==> m' == m)
            && (ok ==> m'.cm == (if target == 0 then 0 else m.cm)
                       && |m'.log| == |m.log| + (if target == 0 && m.cm != 0 then 2 else 1) && m.log <= m'.log)
    ensures var (m', ok) := TransitionCm(m, target);
            && (ok <==> m.rm == 1 && m.cm != target) && m'.rm == m.rm && (!ok ==> m' == m)
            && (ok ==> m'.cm == target && |m'.log| == |m.log| + 1 && m.log <= m'.log)
  {
    hide RmText, CmText;
  }

  /** The target of the last RM request of a run, 0 without one. */
  function LastRm(ops: seq<Op>): int {
    if ops == [] then 0
    else if ops[|ops| - 1].RmOp? then ops[|ops| - 1].target else LastRm(ops[..|ops| - 1])
  }

  /** The CM state that the requests alone lead to: CM requests count while the last RM request asked for registration, and a
      deregistration of a UE that stood otherwise takes it to idle. */
  function LastCm(ops: seq<Op>): int {
    if ops == [] then 0
    else
      var init, op := ops[..|ops| - 1], ops[|ops| - 1];
      match op
      case RmOp(target) => if target == 0 && LastRm(init) != 0 then 0 else LastCm(init)
      case CmOp(target) => if LastRm(init) == 1 then target else LastCm(init)
  }

  /** In every run, over any targets, the states are those that the requests lead to: refused requests ask for what already is,
      or come while the UE is not registered. */
  lemma {:induction false} StatesFollowTheRequests(ops: seq<Op>)
    ensures Run(ops).rm == LastRm(ops) && Run(ops).cm == LastCm(ops)
  {
    hide RmText, CmText;
    if ops != [] {
      StatesFollowTheRequests(ops[..|ops| - 1]);
    }
  }
}
