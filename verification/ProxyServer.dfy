/** The proxy as it works: context objects that the handlers update, and a table of them that a new
    InitialUEMessage may overwrite. Each handler is proved to do what its specification function says. */
module ProxyServer {
  import opened Text
  import opened Octets
  import opened NasBase
  import opened Proxy
  import NasIdentity
  import NasAuthentication
  import NasTransport

  method BuildSecurityProtectedNas(mac: MacFunction, key: Bytes, plain: Bytes, secHdr: bv8, sqn: Sqn, count: Count)
    returns (wire: Option<Bytes>)
    ensures wire == Secure(mac, key, plain, secHdr, sqn, count)
  {
    if key == [] {
      return Some(WrapSecurityHeader(plain, secHdr, sqn as bv8));
    }
    var m := mac(key, count, [sqn as bv8] + plain);
    if m.None? {
      return None;
    }
    var outer := [EPD_5GMM, secHdr];
    outer := outer + m.value;
    outer := outer + [sqn as bv8];
    outer := outer + plain;
    return Some(outer);
  }

  class UeContext {
    const supi: string
    const amfId: nat
    var state: UeState
    var knasInt: Bytes
    var dlSeq: Sqn
    var dlCount: Count

    ghost function Abs(): Ue
      reads this
    {
      Ue(supi, state, amfId, knasInt, dlSeq, dlCount)
    }

    constructor (supi: string, amfId: nat)
      ensures Abs() == Ue(supi, Idle, amfId, [], 0, 0)
    {
      this.supi, this.amfId := supi, amfId;
      state, knasInt, dlSeq, dlCount := Idle, [], 0, 0;
    }

    /** The rest of handleInitialUEMessage, once the context is registered. */
    method Challenge(env: InitialEnv) returns (sent: Option<Sent>)
      requires Abs() == Ue(supi, Idle, amfId, [], 0, 0)
      modifies this
      ensures (Abs(), sent) == Admit(supi, amfId, env)
    {
      if env.challenge.None? {
        return None;
      }
      knasInt := env.knasInt;
      if !env.ngap {
        return None;
      }
      state := AuthSent;
      return Some(Sent(amfId, AuthenticationRequest, 0, env.challenge.value));
    }

    method HandleAuthResponse(mac: MacFunction, nas: Bytes, env: Env) returns (sent: Option<Sent>)
      modifies this
      ensures (Abs(), sent) == AuthResponse(old(Abs()), mac, nas, env)
    {
      hide Secure, NasAuthentication.ReadAuthenticationResponse;
      if state != AuthSent {
        return None;
      }
      var resStar := NasAuthentication.DecodeAuthenticationResponse(nas);
      if resStar.None? {
        return None;
      }
      if env.smcPlain.None? {
        return None;
      }
      var smc := BuildSecurityProtectedNas(mac, knasInt, env.smcPlain.value, INTEGRITY_PROTECTED_NEW_CONTEXT, 0, dlCount);
      if smc.None? {
        return None;
      }
      var used := dlCount;
      dlCount := NextCount(dlCount);
      if !env.ngap {
        return None;
      }
      dlSeq := 1;
      state := SmcSent;
      return Some(Sent(amfId, SecurityModeCommand, used, smc.value));
    }

    method HandleSecurityModeComplete(mac: MacFunction, env: Env) returns (sent: Option<Sent>)
      modifies this
      ensures (Abs(), sent) == SecurityModeComplete(old(Abs()), mac, env)
    {
      hide Secure;
      if state != SmcSent || env.acceptPlain.None? {
        return None;
      }
      var accept := BuildSecurityProtectedNas(mac, knasInt, env.acceptPlain.value, INTEGRITY_PROTECTED_CIPHERED, dlSeq, dlCount);
      if accept.None? {
        return None;
      }
      var used := dlCount;
      dlSeq := NextSqn(dlSeq);
      dlCount := NextCount(dlCount);
      if !env.ngap {
        return None;
      }
      state := Registered;
      return Some(Sent(amfId, InitialContextSetup, used, accept.value));
    }

    method HandleUlNasTransport(mac: MacFunction, nas: Bytes, env: Env) returns (sent: Option<Sent>)
      modifies this
      ensures (Abs(), sent) == UlNasTransport(old(Abs()), mac, nas, env)
    {
      hide Secure, NasTransport.ReadUlNasTransport;
      var msg := NasTransport.DecodeUlNasTransport(nas);
      if msg.None? || !IsPduSessionRequest(msg.value.payload) || env.pduPlain.None? {
        return None;
      }
      var accept := BuildSecurityProtectedNas(mac, knasInt, env.pduPlain.value, INTEGRITY_PROTECTED_CIPHERED, dlSeq, dlCount);
      if accept.None? {
        return None;
      }
      var used := dlCount;
      dlSeq := NextSqn(dlSeq);
      dlCount := NextCount(dlCount);
      if !env.ngap {
        return None;
      }
      state := PduSessionActive;
      return Some(Sent(amfId, PduSessionAccept, used, accept.value));
    }

    method HandleUplink(mac: MacFunction, pdu: Bytes, env: Env) returns (sent: Option<Sent>)
      modifies this
      ensures (Abs(), sent) == Uplink(old(Abs()), mac, pdu, env)
    {
      hide AuthResponse, SecurityModeComplete, UlNasTransport, StripSecurityHeader;
      if |pdu| < 3 {
        return None;
      }
      var nas := StripSecurityHeader(pdu);
      if |nas| < 3 {
        return None;
      }
      if nas[0] == EPD_5GMM && nas[2] == AUTHENTICATION_RESPONSE {
        sent := HandleAuthResponse(mac, nas, env);
      } else if nas[0] == EPD_5GMM && nas[2] == SECURITY_MODE_COMPLETE {
        sent := HandleSecurityModeComplete(mac, env);
      } else if nas[0] == EPD_5GMM && nas[2] == UL_NAS_TRANSPORT {
        sent := HandleUlNasTransport(mac, nas, env);
      } else {
        sent := None;
      }
    }
  }

  class SctpProxy {
    var ueMap: map<int, UeContext>
    var amfUeNgapIdCounter: nat

    /** No context object is registered under two identities. */
    ghost predicate Valid()
      reads this
    {
      forall r, r' :: r in ueMap && r' in ueMap && ueMap[r] == ueMap[r'] ==> r == r'
    }

    ghost function Abs(): State
      reads this, ueMap.Values
    {
      State(map r | r in ueMap :: ueMap[r].Abs(), amfUeNgapIdCounter)
    }

    constructor ()
      ensures Valid() && Abs() == State(map[], 0)
    {
      ueMap, amfUeNgapIdCounter := map[], 0;
    }

    method HandleInitialUeMessage(ranId: int, pdu: Bytes, env: InitialEnv, ghost mac: MacFunction)
      returns (sent: Option<Sent>)
      requires Valid()
      modifies this
      ensures Valid() && (Abs(), sent) == Step(old(Abs()), mac, InitialUeMessage(ranId, pdu, env))
    {
      hide NasIdentity.ReadRegistrationRequest;
      var regReq := NasIdentity.DecodeRegistrationRequest(pdu);
      if regReq.None? {
        return None;
      }
      var supi := regReq.value.identity;
      amfUeNgapIdCounter := amfUeNgapIdCounter + 1;
      var ue := new UeContext(supi, amfUeNgapIdCounter);
      ueMap := ueMap[ranId := ue];
      sent := ue.Challenge(env);
      assert forall r :: r in old(ueMap) ==> old(ueMap)[r] != ue;
      assert Abs().ues == old(Abs()).ues[ranId := ue.Abs()];
    }

    method HandleUplinkNasTransport(ranId: int, pdu: Bytes, env: Env, mac: MacFunction) returns (sent: Option<Sent>)
      requires Valid()
      modifies ueMap.Values
      ensures Valid() && (Abs(), sent) == Step(old(Abs()), mac, UplinkNasTransport(ranId, pdu, env))
    {
      hide Uplink;
      if ranId !in ueMap {
        return None;
      }
      sent := ueMap[ranId].HandleUplink(mac, pdu, env);
      forall r | r in ueMap && r != ranId ensures ueMap[r].Abs() == old(ueMap[r].Abs()) {
        assert ueMap[r] != ueMap[ranId];
      }
      assert Abs().ues == old(Abs()).ues[ranId := Uplink(old(Abs()).ues[ranId], mac, pdu, env).0];
    }
  }
}
