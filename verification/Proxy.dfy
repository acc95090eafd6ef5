/** The SCTP proxy's state machine per UE: authentication, security mode, registration and PDU sessions, with the
    downlink NAS COUNT and sequence number of each context. Specification functions and whole traces. */
module Proxy {
  import opened Text
  import opened Arith
  import opened Octets
  import opened NasBase
  import NasIdentity
  import NasAuthentication
  import NasTransport

  const SECURITY_MODE_COMPLETE: bv8 := 0x5E
  const EPD_5GSM: bv8 := 0x2E
  const PDU_SESSION_ESTABLISHMENT_REQUEST: bv8 := 0xC1
  const INTEGRITY_PROTECTED_CIPHERED: bv8 := 0x02
  const INTEGRITY_PROTECTED_NEW_CONTEXT: bv8 := 0x03

  const TWO32: nat := 0x1_0000_0000

  type Sqn = n: nat | n < 256
  type Count = n: nat | n < 0x1_0000_0000

  datatype UeState = Idle | AuthSent | SmcSent | Registered | PduSessionActive

  /** One UE context; its AMF-UE-NGAP-ID names it for good, its RAN-UE-NGAP-ID may be taken over by a later one. */
  datatype Ue = Ue(supi: string, state: UeState, amfId: nat, knasInt: Bytes, dlSeq: Sqn, dlCount: Count)

  datatype Kind = AuthenticationRequest | SecurityModeCommand | InitialContextSetup | PduSessionAccept

  /** A downlink NAS message: its context, its kind, the COUNT its MAC was computed with, and its bytes. */
  datatype Sent = Sent(amfId: nat, kind: Kind, count: Count, wire: Bytes)

  type Mac = m: Bytes | |m| == 4 witness [0, 0, 0, 0]

  /** The integrity algorithm of the NAS library, for downlink messages over the 3GPP bearer: key, COUNT, input. */
  type MacFunction = (Bytes, Count, Bytes) -> Option<Mac>

  function NextCount(c: Count): Count { (c + 1) % TWO32 }
  function NextSqn(n: Sqn): Sqn { (n + 1) % 256 }

  /** buildSecurityProtectedNAS: without a key the MAC is zero. */
  function Secure(mac: MacFunction, key: Bytes, plain: Bytes, secHdr: bv8, sqn: Sqn, count: Count): Option<Bytes> {
    if key == [] then Some(WrapSecurityHeader(plain, secHdr, sqn as bv8))
    else
      match mac(key, count, [sqn as bv8] + plain)
      case None => None
      case Some(m) => Some(Protected(secHdr, m, sqn as bv8, plain))
  }

  /** What the outside answers while one uplink message is handled: the encoded messages to send (none when the
      encoder fails), whether registration and session creation succeed, and whether the NGAP builder does. */
  datatype Env = Env(smcPlain: Option<Bytes>, acceptPlain: Option<Bytes>, pduPlain: Option<Bytes>, ngap: bool)

  /** handleAuthResponse: the Security Mode Command always goes out with sequence number 0. */
  function AuthResponse(ue: Ue, mac: MacFunction, nas: Bytes, env: Env): (Ue, Option<Sent>) {
    if ue.state != AuthSent || NasAuthentication.ReadAuthenticationResponse(nas).None? || env.smcPlain.None? then (ue, None)
    else
      match Secure(mac, ue.knasInt, env.smcPlain.value, INTEGRITY_PROTECTED_NEW_CONTEXT, 0, ue.dlCount)
      case None => (ue, None)
      case Some(smc) =>
        var ue1 := ue.(dlCount := NextCount(ue.dlCount));
        if !env.ngap then (ue1, None)
        else (ue1.(dlSeq := 1, state := SmcSent), Some(Sent(ue.amfId, SecurityModeCommand, ue.dlCount, smc)))
  }

  /** A message protected with the running sequence number and COUNT, both advanced once it is built. */
  function SendNumbered(ue: Ue, mac: MacFunction, plain: Bytes, kind: Kind, next: UeState, ngap: bool): (Ue, Option<Sent>) {
    match Secure(mac, ue.knasInt, plain, INTEGRITY_PROTECTED_CIPHERED, ue.dlSeq, ue.dlCount)
    case None => (ue, None)
    case Some(wire) =>
      var ue1 := ue.(dlSeq := NextSqn(ue.dlSeq), dlCount := NextCount(ue.dlCount));
      if !ngap then (ue1, None) else (ue1.(state := next), Some(Sent(ue.amfId, kind, ue.dlCount, wire)))
  }

  /** handleSecurityModeComplete */
  function SecurityModeComplete(ue: Ue, mac: MacFunction, env: Env): (Ue, Option<Sent>) {
    if ue.state != SmcSent || env.acceptPlain.None? then (ue, None)
    else SendNumbered(ue, mac, env.acceptPlain.value, InitialContextSetup, Registered, env.ngap)
  }

  predicate IsPduSessionRequest(payload: Bytes) {
    |payload| >= 4 && payload[0] == EPD_5GSM && payload[3] == PDU_SESSION_ESTABLISHMENT_REQUEST
  }

  /** handleULNASTransport with handlePDUSessionEstablishment: no condition on the state of the context. */
  function UlNasTransport(ue: Ue, mac: MacFunction, nas: Bytes, env: Env): (Ue, Option<Sent>) {
    var msg := NasTransport.ReadUlNasTransport(nas);
    if msg.None? || !IsPduSessionRequest(msg.value.payload) || env.pduPlain.None? then (ue, None)
    else SendNumbered(ue, mac, env.pduPlain.value, PduSessionAccept, PduSessionActive, env.ngap)
  }

  /** handleUplinkNASTransport: strip the security header, then dispatch on the message type. */
  function Uplink(ue: Ue, mac: MacFunction, pdu: Bytes, env: Env): (Ue, Option<Sent>) {
    if |pdu| < 3 then (ue, None)
    else
      var nas := StripSecurityHeader(pdu);
      if |nas| < 3 || nas[0] != EPD_5GMM then (ue, None)
      else if nas[2] == AUTHENTICATION_RESPONSE then AuthResponse(ue, mac, nas, env)
      else if nas[2] == SECURITY_MODE_COMPLETE then SecurityModeComplete(ue, mac, env)
      else if nas[2] == UL_NAS_TRANSPORT then UlNasTransport(ue, mac, nas, env)
      else (ue, None)
  }

  /** The answers while an InitialUEMessage is handled: the challenge (none when it cannot be had), the derived
      integrity key (empty when there is none), and whether the NGAP builder succeeds. */
  datatype InitialEnv = InitialEnv(challenge: Option<Bytes>, knasInt: Bytes, ngap: bool)

  /** handleInitialUEMessage for a decoded request: a new context in any case, the challenge if it can be sent. */
  function Admit(supi: string, amfId: nat, env: InitialEnv): (Ue, Option<Sent>) {
    var ue := Ue(supi, Idle, amfId, [], 0, 0);
    if env.challenge.None? then (ue, None)
    else
      var ue1 := ue.(knasInt := env.knasInt);
      if !env.ngap then (ue1, None)
      else (ue1.(state := AuthSent), Some(Sent(amfId, AuthenticationRequest, 0, env.challenge.value)))
  }

  datatype State = State(ues: map<int, Ue>, counter: nat)

  datatype Event =
    | InitialUeMessage(ranId: int, pdu: Bytes, initialEnv: InitialEnv)
    | UplinkNasTransport(ranId: int, pdu: Bytes, env: Env)

  function Step(s: State, mac: MacFunction, e: Event): (State, Option<Sent>) {
    match e
    case InitialUeMessage(ranId, pdu, env) =>
      var req := NasIdentity.ReadRegistrationRequest(pdu);
      if req.None? then (s, None)
      else
        var n := s.counter + 1;
        var (ue, sent) := Admit(req.value.identity, n, env);
        (State(s.ues[ranId := ue], n), sent)
    case UplinkNasTransport(ranId, pdu, env) =>
      if ranId !in s.ues then (s, None)
      else
        var (ue, sent) := Uplink(s.ues[ranId], mac, pdu, env);
        (s.(ues := s.ues[ranId := ue]), sent)
  }

  function Append(log: seq<Sent>, sent: Option<Sent>): seq<Sent> {
    if sent.Some? then log + [sent.value] else log
  }

  /** The proxy and everything it sent, after a trace of events of any number of UEs. */
  function Run(mac: MacFunction, events: seq<Event>): (State, seq<Sent>) {
    if events == [] then (State(map[], 0), [])
    else
      var (s, log) := Run(mac, events[..|events| - 1]);
      var (s', sent) := Step(s, mac, events[|events| - 1]);
      (s', Append(log, sent))
  }

  /** What was sent to one context. */
  function Of(log: seq<Sent>, amfId: nat): seq<Sent> {
    if log == [] then []
    else
      var init := Of(log[..|log| - 1], amfId);
      if log[|log| - 1].amfId == amfId then init + [log[|log| - 1]] else init
  }

  /** The protected messages of a context: all but a leading Authentication Request. */
  function Secured(h: seq<Sent>): seq<Sent> {
    if h != [] && h[0].kind == AuthenticationRequest then h[1..] else h
  }

  // ---- order of messages -------------------------------------------------------------------------

  const PHASES: seq<Kind> := [AuthenticationRequest, SecurityModeCommand, InitialContextSetup]

  /** The first p messages are the first p of challenge, security mode command and context setup, in that order;
      everything after them is a PDU session accept. */
  ghost predicate Shape(h: seq<Sent>, p: nat) {
    && p <= 3 && p <= |h|
    && (forall i :: 0 <= i < p ==> h[i].kind == PHASES[i])
    && (forall i :: p <= i < |h| ==> h[i].kind == PduSessionAccept)
  }

  ghost predicate WellOrdered(h: seq<Sent>) { Shape(h, 0) || Shape(h, 1) || Shape(h, 2) || Shape(h, 3) }

  /** Where a context stands and what it has been sent. */
  ghost predicate InPhase(ue: Ue, h: seq<Sent>) {
    match ue.state
    case Idle => h == []
    case AuthSent => |h| == 1 && Shape(h, 1)
    case SmcSent => |h| == 2 && Shape(h, 2)
    case Registered => |h| == 3 && Shape(h, 3)
    case PduSessionActive => WellOrdered(h) && h != [] && h[|h| - 1].kind == PduSessionAccept
  }

  lemma UplinkKeepsPhase(ue: Ue, mac: MacFunction, pdu: Bytes, env: Env, h: seq<Sent>)
    requires InPhase(ue, h)
    ensures var (ue', sent) := Uplink(ue, mac, pdu, env);
            && ue'.amfId == ue.amfId && (sent.Some? ==> sent.value.amfId == ue.amfId)
            && InPhase(ue', Append(h, sent))
  {
    hide StripSecurityHeader, NasAuthentication.ReadAuthenticationResponse, NasTransport.ReadUlNasTransport, Secure;
  }

  /** Every context is known by a number already issued, no two by the same, and a number not yet issued has
      been sent nothing. */
  ghost predicate Issued(s: State, log: seq<Sent>) {
    && (forall r :: r in s.ues ==> 1 <= s.ues[r].amfId <= s.counter)
    && (forall r, r' :: r in s.ues && r' in s.ues && s.ues[r].amfId == s.ues[r'].amfId ==> r == r')
    && (forall i :: 0 <= i < |log| ==> 1 <= log[i].amfId <= s.counter)
  }

  lemma OfAppend(log: seq<Sent>, sent: Option<Sent>, a: nat)
    ensures Of(Append(log, sent), a) ==
            if sent.Some? && sent.value.amfId == a then Append(Of(log, a), sent) else Of(log, a)
  {
    if sent.Some? {
      assert (log + [sent.value])[..|log|] == log;
    }
  }

  lemma {:induction false} OfUnissued(log: seq<Sent>, a: nat)
    requires forall i :: 0 <= i < |log| ==> log[i].amfId != a
    ensures Of(log, a) == []
  {
    if log != [] {
      OfUnissued(log[..|log| - 1], a);
    }
  }

  // ---- COUNT and sequence number ----------------------------------------------------------------------

  /** The i-th protected message carries COUNT i modulo 2^32 and, as its seventh byte, sequence number i modulo 256. */
  ghost predicate Numbered(h: seq<Sent>) {
    var p := Secured(h);
    forall i :: 0 <= i < |p| ==> p[i].count == i % TWO32 && |p[i].wire| > 6 && p[i].wire[6] == (i % 256) as bv8
  }

  /** The context's own numbers are those of the message to come. */
  ghost predicate InStep(ue: Ue, h: seq<Sent>) {
    Numbered(h) && ue.dlCount == |Secured(h)| % TWO32 && ue.dlSeq == |Secured(h)| % 256
  }

  lemma SecureCarriesSqn(mac: MacFunction, key: Bytes, plain: Bytes, secHdr: bv8, sqn: Sqn, count: Count)
    requires Secure(mac, key, plain, secHdr, sqn, count).Some?
    ensures var wire := Secure(mac, key, plain, secHdr, sqn, count).value;
            |wire| > 6 && wire[6] == sqn as bv8
  {
  }

  lemma NextNumbers(n: nat)
    ensures NextCount(n % TWO32) == (n + 1) % TWO32 && NextSqn(n % 256) == (n + 1) % 256
  {
    NextModulo(n, TWO32);
    NextModulo(n, 256);
  }

  /** One more message with the numbers that come next. */
  lemma NumberedAppend(h: seq<Sent>, m: Sent)
    requires Numbered(h) && m.kind != AuthenticationRequest
    requires m.count == |Secured(h)| % TWO32 && |m.wire| > 6 && m.wire[6] == (|Secured(h)| % 256) as bv8
    ensures Numbered(h + [m]) && |Secured(h + [m])| == |Secured(h)| + 1
  {
    SecuredAppend(h, m);
    hide Secured;
    var p, q := Secured(h), Secured(h + [m]);
    assert forall i :: 0 <= i < |p| ==> q[i] == p[i];
  }

  lemma SendNumberedKeepsStep(ue: Ue, mac: MacFunction, plain: Bytes, kind: Kind, next: UeState, h: seq<Sent>)
    requires InStep(ue, h) && kind != AuthenticationRequest
    ensures var (ue', sent) := SendNumbered(ue, mac, plain, kind, next, true);
            InStep(ue', Append(h, sent))
  {
    hide Secured, Numbered;
    var n := |Secured(h)|;
    NextNumbers(n);
    match Secure(mac, ue.knasInt, plain, INTEGRITY_PROTECTED_CIPHERED, ue.dlSeq, ue.dlCount)
    case None =>
    case Some(wire) =>
      SecureCarriesSqn(mac, ue.knasInt, plain, INTEGRITY_PROTECTED_CIPHERED, ue.dlSeq, ue.dlCount);
      hide Secure;
      NumberedAppend(h, Sent(ue.amfId, kind, ue.dlCount, wire));
  }

  lemma AuthResponseKeepsStep(ue: Ue, mac: MacFunction, nas: Bytes, env: Env, h: seq<Sent>)
    requires InPhase(ue, h) && InStep(ue, h) && env.ngap
    ensures var (ue', sent) := AuthResponse(ue, mac, nas, env);
            InStep(ue', Append(h, sent))
  {
    hide NasAuthentication.ReadAuthenticationResponse;
    if ue.state == AuthSent && env.smcPlain.Some? {
      assert Secured(h) == [];
      match Secure(mac, ue.knasInt, env.smcPlain.value, INTEGRITY_PROTECTED_NEW_CONTEXT, 0, ue.dlCount)
      case None =>
      case Some(smc) =>
        SecureCarriesSqn(mac, ue.knasInt, env.smcPlain.value, INTEGRITY_PROTECTED_NEW_CONTEXT, 0, ue.dlCount);
        hide Secure, Numbered;
        NumberedAppend(h, Sent(ue.amfId, SecurityModeCommand, ue.dlCount, smc));
    }
  }

  lemma UplinkKeepsStep(ue: Ue, mac: MacFunction, pdu: Bytes, env: Env, h: seq<Sent>)
    requires InPhase(ue, h) && InStep(ue, h) && env.ngap
    ensures var (ue', sent) := Uplink(ue, mac, pdu, env);
            InStep(ue', Append(h, sent))
  {
    hide StripSecurityHeader, NasTransport.ReadUlNasTransport, InPhase, InStep, AuthResponse, SendNumbered;
    AuthResponseKeepsStep(ue, mac, StripSecurityHeader(pdu), env, h);
    if env.acceptPlain.Some? {
      SendNumberedKeepsStep(ue, mac, env.acceptPlain.value, InitialContextSetup, Registered, h);
    }
    if env.pduPlain.Some? {
      SendNumberedKeepsStep(ue, mac, env.pduPlain.value, PduSessionAccept, PduSessionActive, h);
    }
  }

  // ---- COUNTs rise whatever fails -------------------------------------------------------------------------

  ghost predicate Increasing(h: seq<Sent>) {
    var p := Secured(h);
    forall i, j :: 0 <= i < j < |p| ==> p[i].count < p[j].count
  }

  /** All COUNTs used so far are below the one to come, which is at most the number of events handled. */
  ghost predicate Rising(ue: Ue, h: seq<Sent>, n: nat) {
    && Increasing(h) && ue.dlCount <= n
    && forall i :: 0 <= i < |Secured(h)| ==> Secured(h)[i].count < ue.dlCount
  }

  lemma SecuredAppend(h: seq<Sent>, m: Sent)
    requires m.kind != AuthenticationRequest
    ensures Secured(h + [m]) == Secured(h) + [m]
  {
    if h != [] {
      assert (h + [m])[0] == h[0] && (h + [m])[1..] == h[1..] + [m];
    }
  }

  /** An uplink message leaves the COUNT, or advances it by one and may send one message under the old one. */
  lemma UplinkCounts(ue: Ue, mac: MacFunction, pdu: Bytes, env: Env)
    ensures var (ue', sent) := Uplink(ue, mac, pdu, env);
            && (sent.None? ==> ue'.dlCount == ue.dlCount || ue'.dlCount == NextCount(ue.dlCount))
            && (sent.Some? ==> && sent.value.kind != AuthenticationRequest && sent.value.count == ue.dlCount
                               && ue'.dlCount == NextCount(ue.dlCount))
  {
    hide StripSecurityHeader, NasAuthentication.ReadAuthenticationResponse, NasTransport.ReadUlNasTransport, Secure;
  }

  lemma UplinkKeepsRising(ue: Ue, mac: MacFunction, pdu: Bytes, env: Env, h: seq<Sent>, n: nat)
    requires Rising(ue, h, n) && n + 1 < TWO32
    ensures var (ue', sent) := Uplink(ue, mac, pdu, env);
            Rising(ue', Append(h, sent), n + 1)
  {
    UplinkCounts(ue, mac, pdu, env);
    var (ue', sent) := Uplink(ue, mac, pdu, env);
    hide Uplink;
    if sent.Some? {
      SecuredAppend(h, sent.value);
      hide Secured;
      assert NextCount(ue.dlCount) == ue.dlCount + 1;
    }
  }

  // ---- every trace ------------------------------------------------------------------------------------------

  /** The NGAP builder succeeds while the event is handled. */
  predicate Built(e: Event) {
    e.UplinkNasTransport? ==> e.env.ngap
  }

  /** A context and its history after n events, clean when no NGAP build has failed. */
  ghost predicate GoodContext(ue: Ue, h: seq<Sent>, clean: bool, n: nat) {
    InPhase(ue, h) && (clean ==> InStep(ue, h)) && (n < TWO32 ==> Rising(ue, h, n))
  }

  ghost predicate GoodHistory(h: seq<Sent>, clean: bool, n: nat) {
    WellOrdered(h) && (clean ==> Numbered(h)) && (n < TWO32 ==> Increasing(h))
  }

  ghost predicate Good(s: State, log: seq<Sent>, clean: bool, n: nat) {
    && Issued(s, log)
    && (forall r :: r in s.ues ==> GoodContext(s.ues[r], Of(log, s.ues[r].amfId), clean, n))
    && (forall a :: GoodHistory(Of(log, a), clean, n))
  }

  lemma AdmitIsGood(supi: string, amfId: nat, env: InitialEnv, clean: bool, n: nat)
    ensures var (ue, sent) := Admit(supi, amfId, env);
            ue.amfId == amfId && (sent.Some? ==> sent.value.amfId == amfId) && GoodContext(ue, Append([], sent), clean, n)
  {
    var (ue, sent) := Admit(supi, amfId, env);
    assert Secured(Append([], sent)) == [];
  }

  lemma GoodContextHasGoodHistory(ue: Ue, h: seq<Sent>, clean: bool, n: nat)
    requires GoodContext(ue, h, clean, n)
    ensures GoodHistory(h, clean, n)
  {
  }

  lemma Weaken(s: State, log: seq<Sent>, clean: bool, n: nat, clean': bool, n': nat)
    requires Good(s, log, clean, n) && (clean' ==> clean) && n <= n'
    ensures Good(s, log, clean', n')
  {
    hide InPhase, InStep, WellOrdered, Numbered, Of, Increasing;
    forall r | r in s.ues ensures GoodContext(s.ues[r], Of(log, s.ues[r].amfId), clean', n') {
      assert GoodContext(s.ues[r], Of(log, s.ues[r].amfId), clean, n);
    }
    forall a ensures GoodHistory(Of(log, a), clean', n') {
      assert GoodHistory(Of(log, a), clean, n);
    }
  }

  /** One context put in place with one more message at most; all others are as they were. */
  lemma PutContext(s: State, log: seq<Sent>, clean: bool, n: nat, ranId: int, ue: Ue, sent: Option<Sent>, counter: nat)
    requires Good(s, log, clean, n) && s.counter <= counter
    requires 1 <= ue.amfId <= counter && (sent.Some? ==> sent.value.amfId == ue.amfId)
    requires forall r :: r in s.ues && s.ues[r].amfId == ue.amfId ==> r == ranId
    requires GoodContext(ue, Append(Of(log, ue.amfId), sent), clean, n)
    ensures Good(State(s.ues[ranId := ue], counter), Append(log, sent), clean, n)
  {
    GoodContextHasGoodHistory(ue, Append(Of(log, ue.amfId), sent), clean, n);
    hide GoodContext, GoodHistory, Of;
    var s', log' := State(s.ues[ranId := ue], counter), Append(log, sent);
    forall a ensures Of(log', a) == if a == ue.amfId then Append(Of(log, a), sent) else Of(log, a) {
      OfAppend(log, sent, a);
    }
    assert Issued(s', log');
    forall r | r in s'.ues ensures GoodContext(s'.ues[r], Of(log', s'.ues[r].amfId), clean, n) {}
    forall a ensures GoodHistory(Of(log', a), clean, n) {
      assert GoodHistory(Of(log, a), clean, n);
    }
  }

  lemma AdmitKeepsGood(s: State, log: seq<Sent>, clean: bool, n: nat, ranId: int, supi: string, env: InitialEnv)
    requires Good(s, log, clean, n)
    ensures var (ue, sent) := Admit(supi, s.counter + 1, env);
            Good(State(s.ues[ranId := ue], s.counter + 1), Append(log, sent), clean, n)
  {
    var (ue, sent) := Admit(supi, s.counter + 1, env);
    AdmitIsGood(supi, s.counter + 1, env, clean, n);
    OfUnissued(log, s.counter + 1);
    hide Admit, GoodContext, GoodHistory, Of;
    PutContext(s, log, clean, n, ranId, ue, sent, s.counter + 1);
  }

  lemma UplinkKeepsContext(ue: Ue, mac: MacFunction, pdu: Bytes, env: Env, h: seq<Sent>, clean: bool, n: nat)
    requires GoodContext(ue, h, clean, n)
    ensures var (ue', sent) := Uplink(ue, mac, pdu, env);
            && ue'.amfId == ue.amfId && (sent.Some? ==> sent.value.amfId == ue.amfId)
            && GoodContext(ue', Append(h, sent), clean && env.ngap, n + 1)
  {
    UplinkKeepsPhase(ue, mac, pdu, env, h);
    if clean && env.ngap { UplinkKeepsStep(ue, mac, pdu, env, h); }
    if n + 1 < TWO32 { UplinkKeepsRising(ue, mac, pdu, env, h, n); }
    hide Uplink, InPhase, InStep, Rising;
  }

  lemma UplinkKeepsGood(s: State, log: seq<Sent>, clean: bool, n: nat, mac: MacFunction, ranId: int, pdu: Bytes, env: Env)
    requires Good(s, log, clean, n) && ranId in s.ues
    ensures var (ue, sent) := Uplink(s.ues[ranId], mac, pdu, env);
            Good(s.(ues := s.ues[ranId := ue]), Append(log, sent), clean && env.ngap, n + 1)
  {
    var (ue, sent) := Uplink(s.ues[ranId], mac, pdu, env);
    UplinkKeepsContext(s.ues[ranId], mac, pdu, env, Of(log, s.ues[ranId].amfId), clean, n);
    Weaken(s, log, clean, n, clean && env.ngap, n + 1);
    hide Uplink, GoodContext, GoodHistory, Of;
    PutContext(s, log, clean && env.ngap, n + 1, ranId, ue, sent, s.counter);
  }

  lemma StepKeepsGood(s: State, log: seq<Sent>, clean: bool, n: nat, mac: MacFunction, e: Event)
    requires Good(s, log, clean, n)
    ensures var (s', sent) := Step(s, mac, e);
            Good(s', Append(log, sent), clean && Built(e), n + 1)
  {
    hide Good, Issued, GoodContext, GoodHistory, Of, Admit, Uplink, NasIdentity.ReadRegistrationRequest;
    Weaken(s, log, clean, n, clean && Built(e), n + 1);
    match e
    case InitialUeMessage(ranId, pdu, env) =>
      var req := NasIdentity.ReadRegistrationRequest(pdu);
      if req.Some? { AdmitKeepsGood(s, log, clean, n + 1, ranId, req.value.identity, env); }
    case UplinkNasTransport(ranId, pdu, env) =>
      if ranId in s.ues { UplinkKeepsGood(s, log, clean, n, mac, ranId, pdu, env); }
  }

  predicate AllBuilt(events: seq<Event>) { forall i :: 0 <= i < |events| ==> Built(events[i]) }

  lemma NothingIsGood(clean: bool)
    ensures Good(State(map[], 0), [], clean, 0)
  {
    assert forall a :: Of([], a) == [];
  }

  lemma {:induction false} RunIsGood(mac: MacFunction, events: seq<Event>)
    ensures var (s, log) := Run(mac, events);
            Good(s, log, AllBuilt(events), |events|)
  {
    hide Good, Step, Built;
    if events == [] {
      NothingIsGood(AllBuilt(events));
    } else {
      var init, e := events[..|events| - 1], events[|events| - 1];
      RunIsGood(mac, init);
      var (s, log) := Run(mac, init);
      StepKeepsGood(s, log, AllBuilt(init), |init|, mac, e);
      assert AllBuilt(events) == (AllBuilt(init) && Built(e)) by { assert events == init + [e]; }
    }
  }

  /** In every trace of every number of UEs, whatever fails, the messages of each context are the challenge, the
      Security Mode Command and the Initial Context Setup Request, in this order, each at most once, cut off at any
      point, and then PDU session accepts. */
  lemma MessagesInOrder(mac: MacFunction, events: seq<Event>, a: nat)
    ensures WellOrdered(Of(Run(mac, events).1, a))
  {
    RunIsGood(mac, events);
    hide Run, Of, WellOrdered;
    assert GoodHistory(Of(Run(mac, events).1, a), AllBuilt(events), |events|);
  }

  /** When the NGAP builder does not fail, the i-th protected message of every context carries COUNT i modulo 2^32
      and sequence number i modulo 256, whatever MACs, backends and decoders do. */
  lemma ProtectedMessagesNumbered(mac: MacFunction, events: seq<Event>, a: nat, i: nat)
    requires AllBuilt(events)
    requires i < |Secured(Of(Run(mac, events).1, a))|
    ensures var m := Secured(Of(Run(mac, events).1, a))[i];
            m.count == i % TWO32 && |m.wire| > 6 && m.wire[6] == (i % 256) as bv8
  {
    RunIsGood(mac, events);
    hide Run, Of;
    assert GoodHistory(Of(Run(mac, events).1, a), true, |events|);
  }

  /** ... so no COUNT is used twice within 2^32 messages of a context. */
  lemma CountsDoNotRepeat(mac: MacFunction, events: seq<Event>, a: nat, i: nat, j: nat)
    requires AllBuilt(events)
    requires i < j < |Secured(Of(Run(mac, events).1, a))| && j - i < TWO32
    ensures Secured(Of(Run(mac, events).1, a))[i].count != Secured(Of(Run(mac, events).1, a))[j].count
  {
    ProtectedMessagesNumbered(mac, events, a, i);
    ProtectedMessagesNumbered(mac, events, a, j);
    hide Run, Of, Secured;
    ResiduesDiffer(i, j);
  }

  lemma ResiduesDiffer(i: nat, j: nat)
    requires i < j && j - i < TWO32
    ensures i % TWO32 != j % TWO32
  {
  }

  /** Whatever fails, NGAP builds included, the COUNTs of a context strictly rise over a trace of fewer than 2^32
      events: no COUNT is ever used for two messages. */
  lemma CountsRiseWhateverFails(mac: MacFunction, events: seq<Event>, a: nat, i: nat, j: nat)
    requires |events| < TWO32
    requires i < j < |Secured(Of(Run(mac, events).1, a))|
    ensures Secured(Of(Run(mac, events).1, a))[i].count < Secured(Of(Run(mac, events).1, a))[j].count
  {
    RunIsGood(mac, events);
    hide Run, Of, Secured;
    assert GoodHistory(Of(Run(mac, events).1, a), AllBuilt(events), |events|);
  }

  // ---- which events the messages answer -----------------------------------------------------------------------

  /** The message that the k-th event of a trace is answered with. */
  function SentAt(mac: MacFunction, events: seq<Event>, k: nat): Option<Sent>
    requires k < |events|
  {
    Step(Run(mac, events[..k]).0, mac, events[k]).1
  }

  /** The k-th event is answered with a message of this kind to this context. */
  predicate Answers(mac: MacFunction, events: seq<Event>, k: nat, a: nat, kind: Kind)
    requires k < |events|
  {
    var sent := SentAt(mac, events, k);
    sent.Some? && sent.value.amfId == a && sent.value.kind == kind
  }

  /** The k-th event is a registration request that sets up context a under ranId, where there was no context a
      before, and is answered with its challenge. */
  predicate Challenged(mac: MacFunction, events: seq<Event>, k: nat, ranId: int, a: nat)
    requires k < |events|
  {
    && events[k].InitialUeMessage? && events[k].ranId == ranId
    && NasIdentity.ReadRegistrationRequest(events[k].pdu).Some?
    && Run(mac, events[..k]).0.counter + 1 == a
    && Answers(mac, events, k, a, AuthenticationRequest)
  }

  /** The k-th event is a well-formed Authentication Response under ranId, answered with a Security Mode Command. */
  predicate Commanded(mac: MacFunction, events: seq<Event>, k: nat, ranId: int, a: nat)
    requires k < |events|
  {
    && events[k].UplinkNasTransport? && events[k].ranId == ranId
    && NasAuthentication.ReadAuthenticationResponse(StripSecurityHeader(events[k].pdu)).Some?
    && Answers(mac, events, k, a, SecurityModeCommand)
  }

  /** The k-th event is a Security Mode Complete under ranId, answered with an Initial Context Setup Request. */
  predicate Completed(mac: MacFunction, events: seq<Event>, k: nat, ranId: int, a: nat)
    requires k < |events|
  {
    && events[k].UplinkNasTransport? && events[k].ranId == ranId
    && |StripSecurityHeader(events[k].pdu)| >= 3 && StripSecurityHeader(events[k].pdu)[2] == SECURITY_MODE_COMPLETE
    && Answers(mac, events, k, a, InitialContextSetup)
  }

  /** A state entered by an uplink message, and the message that it answers. */
  lemma UplinkEnters(ue: Ue, mac: MacFunction, pdu: Bytes, env: Env)
    ensures var (ue', sent) := Uplink(ue, mac, pdu, env);
            var nas := StripSecurityHeader(pdu);
            && ue'.amfId == ue.amfId && (sent.Some? ==> sent.value.amfId == ue.amfId)
            && (ue'.state == AuthSent ==> ue.state == AuthSent)
            && (ue'.state == SmcSent && ue.state != SmcSent ==>
                  && ue.state == AuthSent && NasAuthentication.ReadAuthenticationResponse(nas).Some?
                  && sent.Some? && sent.value.kind == SecurityModeCommand)
            && (sent.Some? && sent.value.kind == InitialContextSetup ==>
                  ue.state == SmcSent && |nas| >= 3 && nas[2] == SECURITY_MODE_COMPLETE)
  {
    hide StripSecurityHeader, NasAuthentication.ReadAuthenticationResponse, NasTransport.ReadUlNasTransport, Secure;
  }

  lemma ChallengedEarlier(mac: MacFunction, events: seq<Event>, n: nat, i: nat, ranId: int, a: nat)
    requires i < n <= |events| && Challenged(mac, events[..n], i, ranId, a)
    ensures Challenged(mac, events, i, ranId, a)
  {
    assert events[..n][..i] == events[..i];
    hide Step, Run, NasIdentity.ReadRegistrationRequest;
  }

  lemma CommandedEarlier(mac: MacFunction, events: seq<Event>, n: nat, j: nat, ranId: int, a: nat)
    requires j < n <= |events| && Commanded(mac, events[..n], j, ranId, a)
    ensures Commanded(mac, events, j, ranId, a)
  {
    assert events[..n][..j] == events[..j];
    hide Step, Run, NasAuthentication.ReadAuthenticationResponse, StripSecurityHeader;
  }

  /** Behind every challenged context there is the event that set it up. */
  lemma {:induction false} ChallengeBehind(mac: MacFunction, events: seq<Event>, ranId: int) returns (i: nat)
    requires ranId in Run(mac, events).0.ues && Run(mac, events).0.ues[ranId].state == AuthSent
    ensures i < |events| && Challenged(mac, events, i, ranId, Run(mac, events).0.ues[ranId].amfId)
  {
    var n := |events| - 1;
    var s, e := Run(mac, events[..n]).0, events[n];
    hide Uplink, NasIdentity.ReadRegistrationRequest;
    if e.InitialUeMessage? && e.ranId == ranId && NasIdentity.ReadRegistrationRequest(e.pdu).Some? {
      i := n;
    } else {
      hide Challenged;
      if e.UplinkNasTransport? && ranId in s.ues { UplinkEnters(s.ues[ranId], mac, e.pdu, e.env); }
      i := ChallengeBehind(mac, events[..n], ranId);
      ChallengedEarlier(mac, events, n, i, ranId, s.ues[ranId].amfId);
    }
  }

  /** The event that takes a context to its Security Mode Command. */
  lemma EntersSmcSent(s: State, mac: MacFunction, e: Event, ranId: int)
    requires var s' := Step(s, mac, e).0; ranId in s'.ues && s'.ues[ranId].state == SmcSent
    ensures ranId in s.ues && s.ues[ranId].amfId == Step(s, mac, e).0.ues[ranId].amfId
    ensures s.ues[ranId].state != SmcSent ==>
              && s.ues[ranId].state == AuthSent && e.UplinkNasTransport? && e.ranId == ranId
              && NasAuthentication.ReadAuthenticationResponse(StripSecurityHeader(e.pdu)).Some?
              && var sent := Step(s, mac, e).1;
                 sent.Some? && sent.value.kind == SecurityModeCommand && sent.value.amfId == s.ues[ranId].amfId
  {
    hide Uplink, NasIdentity.ReadRegistrationRequest, NasAuthentication.ReadAuthenticationResponse, StripSecurityHeader;
    assert ranId in s.ues;
    if e.UplinkNasTransport? { UplinkEnters(s.ues[ranId], mac, e.pdu, e.env); }
  }

  /** Behind every context that was sent its Security Mode Command there are the challenge and the response. */
  lemma {:induction false} CommandBehind(mac: MacFunction, events: seq<Event>, ranId: int) returns (i: nat, j: nat)
    requires ranId in Run(mac, events).0.ues && Run(mac, events).0.ues[ranId].state == SmcSent
    ensures var a := Run(mac, events).0.ues[ranId].amfId;
            i < j < |events| && Challenged(mac, events, i, ranId, a) && Commanded(mac, events, j, ranId, a)
  {
    var n := |events| - 1;
    var s, e := Run(mac, events[..n]).0, events[n];
    hide Step, Challenged, NasAuthentication.ReadAuthenticationResponse, StripSecurityHeader;
    EntersSmcSent(s, mac, e, ranId);
    var a := s.ues[ranId].amfId;
    if s.ues[ranId].state == SmcSent {
      hide Commanded;
      i, j := CommandBehind(mac, events[..n], ranId);
      CommandedEarlier(mac, events, n, j, ranId, a);
    } else {
      i := ChallengeBehind(mac, events[..n], ranId);
      j := n;
    }
    ChallengedEarlier(mac, events, n, i, ranId, a);
  }

  /** In every trace, whatever fails, an Initial Context Setup Request answers a Security Mode Complete of a context
      whose registration request was answered with the challenge, and whose well-formed Authentication Response was
      answered with the Security Mode Command: three events in this order under one RAN-UE-NGAP-ID. */
  lemma ContextSetupEndsTheExchange(mac: MacFunction, events: seq<Event>, k: nat, a: nat) returns (i: nat, j: nat)
    requires k < |events| && Answers(mac, events, k, a, InitialContextSetup)
    ensures i < j < k
    ensures var ranId := events[k].ranId;
            && Challenged(mac, events, i, ranId, a)
            && Commanded(mac, events, j, ranId, a)
            && Completed(mac, events, k, ranId, a)
  {
    var s, e := Run(mac, events[..k]).0, events[k];
    hide Uplink, Run, Challenged, Commanded, NasIdentity.ReadRegistrationRequest, StripSecurityHeader;
    assert e.UplinkNasTransport? && e.ranId in s.ues;
    UplinkEnters(s.ues[e.ranId], mac, e.pdu, e.env);
    i, j := CommandBehind(mac, events[..k], e.ranId);
    ChallengedEarlier(mac, events, k, i, e.ranId, a);
    CommandedEarlier(mac, events, k, j, e.ranId, a);
  }

  lemma OfPrefix(mac: MacFunction, events: seq<Event>, k: nat, a: nat)
    requires k <= |events|
    ensures Of(Run(mac, events[..k]).1, a) <= Of(Run(mac, events).1, a)
    decreases |events|
  {
    var n := |events| - 1;
    if k == |events| {
      assert events[..k] == events;
    } else {
      OfPrefix(mac, events[..n], k, a);
      assert events[..n][..k] == events[..k];
      hide Step, Of;
      var (s, log) := Run(mac, events[..n]);
      OfAppend(log, Step(s, mac, events[n]).1, a);
    }
  }

  /** The place of a message among those of its context. */
  lemma PlaceOfAnswer(mac: MacFunction, events: seq<Event>, k: nat, a: nat, kind: Kind) returns (p: nat)
    requires k < |events| && Answers(mac, events, k, a, kind)
    ensures p == |Of(Run(mac, events[..k]).1, a)|
    ensures p < |Of(Run(mac, events[..k + 1]).1, a)| <= |Of(Run(mac, events).1, a)|
    ensures Of(Run(mac, events).1, a)[p].kind == kind
  {
    assert events[..k + 1][..k] == events[..k];
    hide Step, Of;
    var (s, log) := Run(mac, events[..k]);
    OfAppend(log, Step(s, mac, events[k]).1, a);
    OfPrefix(mac, events, k + 1, a);
    p := |Of(log, a)|;
  }

  lemma OnePlace(h: seq<Sent>, p: nat, p': nat)
    requires WellOrdered(h) && p < |h| && p' < |h| && h[p].kind == h[p'].kind != PduSessionAccept
    ensures p == p'
  {
  }

  /** Challenge, Security Mode Command and context setup are each sent by one event of the trace at most, per context. */
  lemma EachSentOnce(mac: MacFunction, events: seq<Event>, k: nat, k': nat, a: nat, kind: Kind)
    requires k <= k' < |events| && kind != PduSessionAccept
    requires Answers(mac, events, k, a, kind) && Answers(mac, events, k', a, kind)
    ensures k == k'
  {
    hide Run, Of, Step;
    var p := PlaceOfAnswer(mac, events, k, a, kind);
    var p' := PlaceOfAnswer(mac, events, k', a, kind);
    if k < k' {
      OfPrefix(mac, events[..k'], k + 1, a);
      assert events[..k'][..k + 1] == events[..k + 1];
    }
    hide Answers;
    assert k < k' ==> p < p';
    MessagesInOrder(mac, events, a);
    OnePlace(Of(Run(mac, events).1, a), p, p');
  }

  // ---- when the NGAP builder fails --------------------------------------------------------------------------

  /** The sequence number to come is the low byte of the COUNT to come. */
  predicate Aligned(ue: Ue) { ue.dlSeq == ue.dlCount % 256 }

  lemma LowByteAdvances(c: Count)
    ensures NextCount(c) % 256 == NextSqn(c % 256)
  {
  }

  /** The Authentication Response gets as far as a protected Security Mode Command, which advances the COUNT whether
      or not the NGAP build then succeeds. */
  predicate CommandBuilt(ue: Ue, mac: MacFunction, nas: Bytes, env: Env) {
    && ue.state == AuthSent && NasAuthentication.ReadAuthenticationResponse(nas).Some? && env.smcPlain.Some?
    && Secure(mac, ue.knasInt, env.smcPlain.value, INTEGRITY_PROTECTED_NEW_CONTEXT, 0, ue.dlCount).Some?
  }

  /** The uplink message takes the numbers of an aligned context out of step: a Security Mode Command is built for it
      and then not sent, or sent under a COUNT that is not a multiple of 256. */
  predicate Misaligns(ue: Ue, mac: MacFunction, pdu: Bytes, env: Env) {
    var nas := StripSecurityHeader(pdu);
    && |pdu| >= 3 && |nas| >= 3 && nas[0] == EPD_5GMM && nas[2] == AUTHENTICATION_RESPONSE
    && CommandBuilt(ue, mac, nas, env)
    && !(env.ngap && ue.dlCount % 256 == 0)
  }

  /** Whatever the uplink message, an aligned context stays aligned if and only if the message does not misalign it. */
  lemma AlignmentKeptIff(ue: Ue, mac: MacFunction, pdu: Bytes, env: Env)
    requires Aligned(ue)
    ensures Aligned(Uplink(ue, mac, pdu, env).0) <==> !Misaligns(ue, mac, pdu, env)
  {
    hide StripSecurityHeader, NasAuthentication.ReadAuthenticationResponse, NasTransport.ReadUlNasTransport, Secure;
    LowByteAdvances(ue.dlCount);
  }

  predicate AllAligned(s: State) { forall r :: r in s.ues ==> Aligned(s.ues[r]) }

  /** The event is an uplink message that misaligns its context. */
  predicate MisalignsIn(s: State, mac: MacFunction, e: Event) {
    e.UplinkNasTransport? && e.ranId in s.ues && Misaligns(s.ues[e.ranId], mac, e.pdu, e.env)
  }

  lemma StepAlignedIff(s: State, mac: MacFunction, e: Event)
    requires AllAligned(s)
    ensures AllAligned(Step(s, mac, e).0) <==> !MisalignsIn(s, mac, e)
  {
    hide Uplink, Misaligns, Aligned, NasIdentity.ReadRegistrationRequest;
    var s' := Step(s, mac, e).0;
    match e
    case InitialUeMessage(ranId, pdu, env) =>
      AdmittedIsAligned(if NasIdentity.ReadRegistrationRequest(pdu).Some? then NasIdentity.ReadRegistrationRequest(pdu).value.identity else "",
                        s.counter + 1, env);
      hide Admit;
    case UplinkNasTransport(ranId, pdu, env) =>
      if ranId in s.ues {
        AlignmentKeptIff(s.ues[ranId], mac, pdu, env);
        assert s'.ues[ranId] == Uplink(s.ues[ranId], mac, pdu, env).0;
      }
  }

  lemma AdmittedIsAligned(supi: string, amfId: nat, env: InitialEnv)
    ensures Aligned(Admit(supi, amfId, env).0)
  {
  }

  /** All contexts are aligned now and after every earlier event of the trace. */
  predicate AlwaysAligned(mac: MacFunction, events: seq<Event>) {
    AllAligned(Run(mac, events).0) && (events == [] || AlwaysAligned(mac, events[..|events| - 1]))
  }

  predicate NeverMisaligns(mac: MacFunction, events: seq<Event>) {
    events == [] ||
    (NeverMisaligns(mac, events[..|events| - 1]) && !MisalignsIn(Run(mac, events[..|events| - 1]).0, mac, events[|events| - 1]))
  }

  /** Over every trace, the sequence number to come is the low byte of the COUNT to come, throughout and for all
      contexts, if and only if no event misaligns a context. */
  lemma {:induction false} AlwaysAlignedIff(mac: MacFunction, events: seq<Event>)
    ensures AlwaysAligned(mac, events) <==> NeverMisaligns(mac, events)
  {
    hide AllAligned, MisalignsIn, Step;
    if events == [] {
      assert AllAligned(State(map[], 0)) by { NothingMisaligned(); }
    } else {
      var n := |events| - 1;
      AlwaysAlignedIff(mac, events[..n]);
      var s := Run(mac, events[..n]).0;
      if AllAligned(s) { StepAlignedIff(s, mac, events[n]); }
    }
  }

  lemma NothingMisaligned()
    ensures AllAligned(State(map[], 0))
  {
  }

  ghost predicate CarriesLowByte(m: Sent) { |m.wire| > 6 && m.wire[6] == (m.count % 256) as bv8 }

  lemma NumberedCarriesLowByte(ue: Ue, mac: MacFunction, plain: Bytes, kind: Kind, next: UeState, ngap: bool)
    requires Aligned(ue) && SendNumbered(ue, mac, plain, kind, next, ngap).1.Some?
    ensures CarriesLowByte(SendNumbered(ue, mac, plain, kind, next, ngap).1.value)
  {
    SecureCarriesSqn(mac, ue.knasInt, plain, INTEGRITY_PROTECTED_CIPHERED, ue.dlSeq, ue.dlCount);
    hide Secure;
  }

  lemma CommandCarriesLowByte(ue: Ue, mac: MacFunction, nas: Bytes, env: Env)
    requires AuthResponse(ue, mac, nas, env).1.Some? && ue.dlCount % 256 == 0
    ensures CarriesLowByte(AuthResponse(ue, mac, nas, env).1.value)
  {
    hide NasAuthentication.ReadAuthenticationResponse;
    SecureCarriesSqn(mac, ue.knasInt, env.smcPlain.value, INTEGRITY_PROTECTED_NEW_CONTEXT, 0, ue.dlCount);
    hide Secure;
  }

  lemma AlignedUplinkCarriesLowByte(ue: Ue, mac: MacFunction, pdu: Bytes, env: Env)
    requires Aligned(ue) && !Misaligns(ue, mac, pdu, env) && Uplink(ue, mac, pdu, env).1.Some?
    ensures CarriesLowByte(Uplink(ue, mac, pdu, env).1.value)
  {
    hide StripSecurityHeader, NasAuthentication.ReadAuthenticationResponse, NasTransport.ReadUlNasTransport, Secure;
    hide SendNumbered, CarriesLowByte;
    var nas := StripSecurityHeader(pdu);
    if nas[2] == AUTHENTICATION_RESPONSE {
      CommandCarriesLowByte(ue, mac, nas, env);
    } else if nas[2] == SECURITY_MODE_COMPLETE {
      NumberedCarriesLowByte(ue, mac, env.acceptPlain.value, InitialContextSetup, Registered, env.ngap);
    } else {
      NumberedCarriesLowByte(ue, mac, env.pduPlain.value, PduSessionAccept, PduSessionActive, env.ngap);
    }
  }

  lemma AlignedStepCarriesLowByte(s: State, mac: MacFunction, e: Event)
    requires AllAligned(s) && !MisalignsIn(s, mac, e)
    requires Step(s, mac, e).1.Some? && Step(s, mac, e).1.value.kind != AuthenticationRequest
    ensures CarriesLowByte(Step(s, mac, e).1.value)
  {
    hide Uplink, Misaligns, Aligned, CarriesLowByte, NasIdentity.ReadRegistrationRequest;
    AlignedUplinkCarriesLowByte(s.ues[e.ranId], mac, e.pdu, e.env);
  }

  /** ... and then every protected message carries the low byte of the COUNT it was protected with. */
  lemma {:induction false} AlignedMessagesCarryLowByte(mac: MacFunction, events: seq<Event>, k: nat)
    requires k < |events| && NeverMisaligns(mac, events)
    requires SentAt(mac, events, k).Some? && SentAt(mac, events, k).value.kind != AuthenticationRequest
    ensures CarriesLowByte(SentAt(mac, events, k).value)
  {
    var n := |events| - 1;
    hide Step, Run, AllAligned, MisalignsIn, CarriesLowByte;
    if k < n {
      assert events[..n][..k] == events[..k];
      AlignedMessagesCarryLowByte(mac, events[..n], k);
    } else {
      AlwaysAlignedIff(mac, events[..n]);
      AlignedStepCarriesLowByte(Run(mac, events[..n]).0, mac, events[n]);
    }
  }

  /** One failed NGAP build is enough: the second Security Mode Command goes out under sequence number 0 with a MAC
      that was computed with COUNT 1. */
  lemma RepeatedSmcOutOfStep(mac: MacFunction, supi: string, amfId: nat, challenge: Bytes, key: Bytes, smc: Bytes, nas: Bytes)
    requires NasAuthentication.ReadAuthenticationResponse(nas).Some? && key != []
    requires mac(key, 0, [0] + smc).Some? && mac(key, 1, [0] + smc).Some?
    ensures var ue := Admit(supi, amfId, InitialEnv(Some(challenge), key, true)).0;
            var (ue1, lost) := AuthResponse(ue, mac, nas, Env(Some(smc), None, None, false));
            var (ue2, sent) := AuthResponse(ue1, mac, nas, Env(Some(smc), None, None, true));
            && lost.None? && sent.Some? && |sent.value.wire| > 6
            && sent.value.wire[6] == 0 && sent.value.wire[2..6] == mac(key, 1, [0] + smc).value
            && !Aligned(ue1) && !Aligned(ue2)
  {
    hide NasAuthentication.ReadAuthenticationResponse;
  }
}
