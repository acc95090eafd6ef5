/** What the proxy puts on the wire and when: every protected message is authentic under the key of its context and the
    COUNT it is recorded with, and each kind of message is sent exactly when the trace calls for it. */
module ProxyMessages {
  import opened Text
  import opened Octets
  import opened NasBase
  import opened Proxy
  import NasIdentity
  import NasAuthentication
  import NasTransport

  // ---- protected messages --------------------------------------------------------------------------------

  /** The message that the outside encoded for one kind of answer. */
  function PlainOf(env: Env, kind: Kind): Option<Bytes> {
    match kind
    case AuthenticationRequest => None
    case SecurityModeCommand => env.smcPlain
    case InitialContextSetup => env.acceptPlain
    case PduSessionAccept => env.pduPlain
  }

  /** The bytes are header, MAC, sequence number and plain message, and the MAC verifies: it is the one of the key, the
      recorded COUNT and everything behind it, or zero when there is no key. */
  ghost predicate Authentic(mac: MacFunction, key: Bytes, m: Sent, plain: Bytes) {
    && |m.wire| == 7 + |plain| && m.wire[7..] == plain
    && m.wire[0] == 0x7E && m.wire[1] == (if m.kind == SecurityModeCommand then 0x03 else 0x02)
    && if key == [] then m.wire[2..6] == [0, 0, 0, 0] else mac(key, m.count, m.wire[6..]) == Some(m.wire[2..6])
  }

  lemma SecureIsAuthentic(mac: MacFunction, key: Bytes, plain: Bytes, sqn: Sqn, m: Sent)
    requires Secure(mac, key, plain, if m.kind == SecurityModeCommand then 0x03 else 0x02, sqn, m.count) == Some(m.wire)
    ensures Authentic(mac, key, m, plain)
  {
    var w := m.wire;
    assert w[7..] == plain && w[6..] == [sqn as bv8] + plain;
    if key != [] {
      assert w[2..6] == mac(key, m.count, [sqn as bv8] + plain).value;
    }
  }

  lemma UplinkIsAuthentic(ue: Ue, mac: MacFunction, pdu: Bytes, env: Env)
    requires Uplink(ue, mac, pdu, env).1.Some?
    ensures var m := Uplink(ue, mac, pdu, env).1.value;
            && PlainOf(env, m.kind).Some? && Authentic(mac, ue.knasInt, m, PlainOf(env, m.kind).value)
            && m.amfId == ue.amfId && m.count == ue.dlCount
  {
    hide StripSecurityHeader, NasAuthentication.ReadAuthenticationResponse, NasTransport.ReadUlNasTransport, Secure, Authentic;
    var m := Uplink(ue, mac, pdu, env).1.value;
    SecureIsAuthentic(mac, ue.knasInt, PlainOf(env, m.kind).value, if m.kind == SecurityModeCommand then 0 else ue.dlSeq, m);
  }

  /** The k-th event is the registration request that set up context a under ranId, with this key and identity. */
  predicate SetUp(mac: MacFunction, events: seq<Event>, k: nat, ranId: int, a: nat, key: Bytes, supi: string)
    requires k < |events|
  {
    && events[k].InitialUeMessage? && events[k].ranId == ranId
    && Run(mac, events[..k]).0.counter + 1 == a
    && NasIdentity.ReadRegistrationRequest(events[k].pdu).Some?
    && supi == NasIdentity.ReadRegistrationRequest(events[k].pdu).value.identity
    && key == if events[k].initialEnv.challenge.Some? then events[k].initialEnv.knasInt else []
  }

  lemma SetUpEarlier(mac: MacFunction, events: seq<Event>, n: nat, i: nat, ranId: int, a: nat, key: Bytes, supi: string)
    requires i < n <= |events| && SetUp(mac, events[..n], i, ranId, a, key, supi)
    ensures SetUp(mac, events, i, ranId, a, key, supi)
  {
    assert events[..n][..i] == events[..i];
    hide Run, NasIdentity.ReadRegistrationRequest;
  }

  lemma UplinkKeepsIdentity(ue: Ue, mac: MacFunction, pdu: Bytes, env: Env)
    ensures var ue' := Uplink(ue, mac, pdu, env).0;
            ue'.amfId == ue.amfId && ue'.knasInt == ue.knasInt && ue'.supi == ue.supi
  {
    hide StripSecurityHeader, NasAuthentication.ReadAuthenticationResponse, NasTransport.ReadUlNasTransport, Secure;
  }

  /** Behind every context there is the event that set it up, and its key and identity are still those. */
  lemma {:induction false} SetUpBehind(mac: MacFunction, events: seq<Event>, ranId: int) returns (i: nat)
    requires ranId in Run(mac, events).0.ues
    ensures i < |events|
    ensures var ue := Run(mac, events).0.ues[ranId];
            SetUp(mac, events, i, ranId, ue.amfId, ue.knasInt, ue.supi)
  {
    var n := |events| - 1;
    var s, e := Run(mac, events[..n]).0, events[n];
    hide Uplink, NasIdentity.ReadRegistrationRequest;
    if e.InitialUeMessage? && e.ranId == ranId && NasIdentity.ReadRegistrationRequest(e.pdu).Some? {
      i := n;
    } else {
      hide SetUp;
      if e.UplinkNasTransport? && ranId in s.ues { UplinkKeepsIdentity(s.ues[ranId], mac, e.pdu, e.env); }
      i := SetUpBehind(mac, events[..n], ranId);
      var ue := s.ues[ranId];
      SetUpEarlier(mac, events, n, i, ranId, ue.amfId, ue.knasInt, ue.supi);
    }
  }

  /** In every trace, whatever fails, every protected message is authentic: its MAC is computed with the key that was derived
      when its context was set up, over its sequence number and the plain message of its event, under the very COUNT that it
      is recorded with. */
  lemma ProtectedMessagesAuthentic(mac: MacFunction, events: seq<Event>, k: nat) returns (i: nat, key: Bytes, supi: string)
    requires k < |events| && SentAt(mac, events, k).Some? && SentAt(mac, events, k).value.kind != AuthenticationRequest
    ensures var m := SentAt(mac, events, k).value;
            && i < k && SetUp(mac, events, i, events[k].ranId, m.amfId, key, supi)
            && events[k].UplinkNasTransport? && PlainOf(events[k].env, m.kind).Some?
            && Authentic(mac, key, m, PlainOf(events[k].env, m.kind).value)
  {
    var s, e := Run(mac, events[..k]).0, events[k];
    hide Uplink, Run, SetUp, Authentic, NasIdentity.ReadRegistrationRequest;
    assert e.UplinkNasTransport? && e.ranId in s.ues;
    var ue := s.ues[e.ranId];
    UplinkIsAuthentic(ue, mac, e.pdu, e.env);
    i := SetUpBehind(mac, events[..k], e.ranId);
    key, supi := ue.knasInt, ue.supi;
    SetUpEarlier(mac, events, k, i, e.ranId, ue.amfId, key, supi);
  }

  // ---- when a message is sent ----------------------------------------------------------------------------

  /** The kinds of messages that a context has been sent. */
  function Kinds(h: seq<Sent>): seq<Kind> { seq(|h|, i requires 0 <= i < |h| => h[i].kind) }

  /** The state of a context is determined by what it has been sent. */
  lemma StateFromHistory(ue: Ue, h: seq<Sent>)
    requires InPhase(ue, h)
    ensures ue.state == AuthSent <==> Kinds(h) == [AuthenticationRequest]
    ensures ue.state == SmcSent <==> Kinds(h) == [AuthenticationRequest, SecurityModeCommand]
  {
    var ks := Kinds(h);
    assert |ks| > 0 ==> ks[|ks| - 1] == h[|h| - 1].kind;
  }

  /** The 5GMM message inside an uplink PDU, when there is one of this type. */
  predicate Carries(pdu: Bytes, messageType: bv8) {
    var nas := StripSecurityHeader(pdu);
    |pdu| >= 3 && |nas| >= 3 && nas[0] == 0x7E && nas[2] == messageType
  }

  predicate AsksForSession(nas: Bytes) {
    var msg := NasTransport.ReadUlNasTransport(nas);
    msg.Some? && |msg.value.payload| >= 4 && msg.value.payload[0] == 0x2E && msg.value.payload[3] == 0xC1
  }

  /** The answer of this kind can be encoded, protected and built. */
  predicate CanSend(ue: Ue, mac: MacFunction, env: Env, kind: Kind) {
    && PlainOf(env, kind).Some? && env.ngap
    && (ue.knasInt == [] ||
        mac(ue.knasInt, ue.dlCount, [if kind == SecurityModeCommand then 0 else ue.dlSeq as bv8] + PlainOf(env, kind).value).Some?)
  }

  /** The uplink message calls for an answer of this kind, from a context that has been sent these messages. */
  predicate CallsFor(pdu: Bytes, history: seq<Kind>, kind: Kind) {
    var nas := StripSecurityHeader(pdu);
    match kind
    case AuthenticationRequest => false
    case SecurityModeCommand =>
      && Carries(pdu, 0x57) && NasAuthentication.ReadAuthenticationResponse(nas).Some? && history == [AuthenticationRequest]
    case InitialContextSetup => Carries(pdu, 0x5E) && history == [AuthenticationRequest, SecurityModeCommand]
    case PduSessionAccept => Carries(pdu, 0x67) && AsksForSession(nas)
  }

  lemma SecureSucceedsIff(mac: MacFunction, key: Bytes, plain: Bytes, secHdr: bv8, sqn: Sqn, count: Count)
    ensures Secure(mac, key, plain, secHdr, sqn, count).Some? <==> key == [] || mac(key, count, [sqn as bv8] + plain).Some?
  {
  }

  /** What the handler of one kind of message does with a context: nothing unless a message can be built, and then the message
      goes out if the NGAP build succeeds. */
  ghost predicate Handles(ue: Ue, mac: MacFunction, env: Env, called: bool, kind: Kind, ue': Ue, sent: Option<Sent>) {
    && (sent.Some? <==> called && CanSend(ue, mac, env, kind))
    && (sent.Some? ==> sent.value.kind == kind && sent.value.amfId == ue.amfId)
    && if called && CanSend(ue, mac, env.(ngap := true), kind) then
         && ue'.dlCount == (ue.dlCount + 1) % 0x1_0000_0000
         && ue'.dlSeq == if kind != SecurityModeCommand then (ue.dlSeq + 1) % 256 else if env.ngap then 1 else ue.dlSeq
       else ue' == ue
  }

  lemma AuthResponseHandles(ue: Ue, mac: MacFunction, nas: Bytes, env: Env)
    ensures var (ue', sent) := AuthResponse(ue, mac, nas, env);
            Handles(ue, mac, env, ue.state == AuthSent && NasAuthentication.ReadAuthenticationResponse(nas).Some?,
                    SecurityModeCommand, ue', sent)
  {
    hide NasAuthentication.ReadAuthenticationResponse, Secure;
    if env.smcPlain.Some? { SecureSucceedsIff(mac, ue.knasInt, env.smcPlain.value, 0x03, 0, ue.dlCount); }
  }

  lemma SecurityModeCompleteHandles(ue: Ue, mac: MacFunction, env: Env)
    ensures var (ue', sent) := SecurityModeComplete(ue, mac, env);
            Handles(ue, mac, env, ue.state == SmcSent, InitialContextSetup, ue', sent)
  {
    hide Secure;
    if env.acceptPlain.Some? { SecureSucceedsIff(mac, ue.knasInt, env.acceptPlain.value, 0x02, ue.dlSeq, ue.dlCount); }
  }

  lemma UlNasTransportHandles(ue: Ue, mac: MacFunction, nas: Bytes, env: Env)
    ensures var (ue', sent) := UlNasTransport(ue, mac, nas, env);
            Handles(ue, mac, env, AsksForSession(nas), PduSessionAccept, ue', sent)
  {
    hide NasTransport.ReadUlNasTransport, Secure;
    if env.pduPlain.Some? { SecureSucceedsIff(mac, ue.knasInt, env.pduPlain.value, 0x02, ue.dlSeq, ue.dlCount); }
  }

  /** Which kind of answer the type of an uplink message leads to. */
  lemma UplinkHandles(ue: Ue, mac: MacFunction, pdu: Bytes, env: Env, h: seq<Sent>)
    requires InPhase(ue, h)
    ensures var (ue', sent) := Uplink(ue, mac, pdu, env);
            var ks := Kinds(h);
            && (Carries(pdu, 0x57) ==> Handles(ue, mac, env, CallsFor(pdu, ks, SecurityModeCommand), SecurityModeCommand, ue', sent))
            && (Carries(pdu, 0x5E) ==> Handles(ue, mac, env, CallsFor(pdu, ks, InitialContextSetup), InitialContextSetup, ue', sent))
            && (Carries(pdu, 0x67) ==> Handles(ue, mac, env, CallsFor(pdu, ks, PduSessionAccept), PduSessionAccept, ue', sent))
            && (!Carries(pdu, 0x57) && !Carries(pdu, 0x5E) && !Carries(pdu, 0x67) ==> ue' == ue && sent.None?)
  {
    StateFromHistory(ue, h);
    hide InPhase, Kinds, Handles, AsksForSession, AuthResponse, SecurityModeComplete, UlNasTransport;
    hide StripSecurityHeader, NasAuthentication.ReadAuthenticationResponse;
    AuthResponseHandles(ue, mac, StripSecurityHeader(pdu), env);
    SecurityModeCompleteHandles(ue, mac, env);
    UlNasTransportHandles(ue, mac, StripSecurityHeader(pdu), env);
  }

  lemma UplinkSendsIff(ue: Ue, mac: MacFunction, pdu: Bytes, env: Env, h: seq<Sent>, kind: Kind)
    requires InPhase(ue, h)
    ensures var sent := Uplink(ue, mac, pdu, env).1;
            sent.Some? && sent.value.kind == kind <==> CallsFor(pdu, Kinds(h), kind) && CanSend(ue, mac, env, kind)
  {
    hide InPhase, Kinds, Uplink, CanSend, AsksForSession, StripSecurityHeader, NasAuthentication.ReadAuthenticationResponse;
    UplinkHandles(ue, mac, pdu, env, h);
  }

  /** In every trace an uplink event of a known UE is answered with a message of one kind if and only if the event calls for
      it after what the context has been sent so far, and the message can be encoded, protected and built. */
  lemma SentIffCalledFor(mac: MacFunction, events: seq<Event>, k: nat, kind: Kind)
    requires k < |events| && events[k].UplinkNasTransport? && events[k].ranId in Run(mac, events[..k]).0.ues
    ensures var (s, log) := Run(mac, events[..k]);
            var ue := s.ues[events[k].ranId];
            Answers(mac, events, k, ue.amfId, kind) <==>
            CallsFor(events[k].pdu, Kinds(Of(log, ue.amfId)), kind) && CanSend(ue, mac, events[k].env, kind)
  {
    RunIsGood(mac, events[..k]);
    var (s, log) := Run(mac, events[..k]);
    var e := events[k];
    var ue := s.ues[e.ranId];
    assert GoodContext(ue, Of(log, ue.amfId), AllBuilt(events[..k]), k);
    hide Run, Uplink, Of, Kinds, InPhase, CallsFor, CanSend, AllBuilt;
    UplinkSendsIff(ue, mac, e.pdu, e.env, Of(log, ue.amfId), kind);
    UplinkEnters(ue, mac, e.pdu, e.env);
  }

  /** An uplink event of an unknown UE is not answered. */
  lemma UnknownUeNotAnswered(mac: MacFunction, events: seq<Event>, k: nat)
    requires k < |events| && events[k].UplinkNasTransport? && events[k].ranId !in Run(mac, events[..k]).0.ues
    ensures SentAt(mac, events, k).None? && Run(mac, events[..k + 1]).0 == Run(mac, events[..k]).0
  {
    assert events[..k + 1][..k] == events[..k];
    assert Run(mac, events[..k + 1]).0 == Step(Run(mac, events[..k]).0, mac, events[k]).0;
  }

  /** An initial message sets up a context if and only if it decodes, under the next number, and is answered with the challenge
      if and only if there is one and the NGAP build succeeds. */
  lemma ChallengedIff(mac: MacFunction, events: seq<Event>, k: nat)
    requires k < |events| && events[k].InitialUeMessage?
    ensures var s, s' := Run(mac, events[..k]).0, Run(mac, events[..k + 1]).0;
            var e, sent := events[k], SentAt(mac, events, k);
            if NasIdentity.ReadRegistrationRequest(e.pdu).None? then s' == s && sent.None?
            else
              && s'.counter == s.counter + 1 && s'.ues.Keys == s.ues.Keys + {e.ranId}
              && s'.ues[e.ranId].amfId == s'.counter && s'.ues[e.ranId].dlCount == 0 && s'.ues[e.ranId].dlSeq == 0
              && (forall r :: r in s.ues && r != e.ranId ==> s'.ues[r] == s.ues[r])
              && (sent.Some? <==> e.initialEnv.challenge.Some? && e.initialEnv.ngap)
              && (sent.Some? ==> && sent.value.amfId == s'.counter && sent.value.kind == AuthenticationRequest
                                 && sent.value.wire == e.initialEnv.challenge.value)
  {
    hide NasIdentity.ReadRegistrationRequest;
    assert events[..k + 1][..k] == events[..k];
    assert Run(mac, events[..k + 1]).0 == Step(Run(mac, events[..k]).0, mac, events[k]).0;
    hide Run;
  }

  // ---- the numbers of a context --------------------------------------------------------------------------

  /** A message of this kind is built for the uplink message, whether or not the NGAP build then succeeds. */
  predicate Builds(ue: Ue, mac: MacFunction, pdu: Bytes, env: Env, history: seq<Kind>, kind: Kind) {
    CallsFor(pdu, history, kind) && CanSend(ue, mac, env.(ngap := true), kind)
  }

  /** Building a message advances the numbers of its context: COUNT by one modulo 2^32, and the sequence number by one modulo
      256; a Security Mode Command sets the sequence number to one, and only once it is sent. */
  lemma NumbersAdvanceWhenBuilt(ue: Ue, mac: MacFunction, pdu: Bytes, env: Env, h: seq<Sent>, kind: Kind)
    requires InPhase(ue, h) && Builds(ue, mac, pdu, env, Kinds(h), kind)
    ensures var ue' := Uplink(ue, mac, pdu, env).0;
            && ue'.dlCount == (ue.dlCount + 1) % 0x1_0000_0000
            && ue'.dlSeq == if kind != SecurityModeCommand then (ue.dlSeq + 1) % 256 else if env.ngap then 1 else ue.dlSeq
  {
    hide InPhase, Kinds, Uplink, CanSend, AsksForSession, StripSecurityHeader, NasAuthentication.ReadAuthenticationResponse;
    UplinkHandles(ue, mac, pdu, env, h);
  }

  /** ... and nothing else does: without a message built, the context stays as it is. */
  lemma NothingBuiltNothingChanges(ue: Ue, mac: MacFunction, pdu: Bytes, env: Env, h: seq<Sent>)
    requires InPhase(ue, h) && forall kind :: !Builds(ue, mac, pdu, env, Kinds(h), kind)
    ensures Uplink(ue, mac, pdu, env) == (ue, None)
  {
    hide InPhase, Kinds, Uplink, CanSend, AsksForSession, StripSecurityHeader, NasAuthentication.ReadAuthenticationResponse;
    assert !Builds(ue, mac, pdu, env, Kinds(h), SecurityModeCommand);
    assert !Builds(ue, mac, pdu, env, Kinds(h), InitialContextSetup);
    assert !Builds(ue, mac, pdu, env, Kinds(h), PduSessionAccept);
    UplinkHandles(ue, mac, pdu, env, h);
    UplinkSendsIff(ue, mac, pdu, env, h, SecurityModeCommand);
    SendingBuilds(ue, mac, env);
  }

  lemma SendingBuilds(ue: Ue, mac: MacFunction, env: Env)
    ensures forall kind :: CanSend(ue, mac, env, kind) ==> CanSend(ue, mac, env.(ngap := true), kind)
  {
  }
}
