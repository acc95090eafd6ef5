/** The binding support function: a primary table of PCF bindings and two indexes into it. */
module Bsf {
  import opened Text
  import opened Models

  datatype State = State(
    bindings: map<string, PcfBinding>,
    byIp: map<string, string>,
    bySupi: map<string, string>,
    counter: nat)

  const EMPTY := State(map[], map[], map[], 0)

  datatype RegisterRequest = RegisterRequest(
    supi: string, dnn: string, snssai: Snssai, pcfAddress: string, ueAddress: string, pduSessionId: string)

  /** Which of the three Puts of a registration succeed. */
  datatype Puts = Puts(primary: bool, ip: bool, supi: bool)

  function BindingId(supi: string, n: nat): string {
    Identifier("bsf", supi, n)
  }

  function SupiKey(supi: string, dnn: string): string {
    supi + "/" + dnn
  }

  function NewBinding(n: nat, req: RegisterRequest): PcfBinding {
    PcfBinding(BindingId(req.supi, n), req.supi, OrDefault(req.dnn, "internet"), req.snssai,
               OrDefault(req.pcfAddress, "pcf-001"), req.ueAddress, req.pduSessionId)
  }

  datatype RegisterReply = RegisterReply(status: int, bindingId: string)

  /** Nbsf_Management_Register: the three Puts stop at the first that fails; what was written stays. */
  function Register(b: State, req: RegisterRequest, puts: Puts): (State, RegisterReply) {
    if req.supi == "" || req.pduSessionId == "" then (b, RegisterReply(BAD_REQUEST, ""))
    else
      var n := Next64(b.counter);
      var binding := NewBinding(n, req);
      var id := binding.bindingId;
      var b1 := b.(counter := n);
      if !puts.primary then (b1, RegisterReply(SERVER_ERROR, ""))
      else
        var b2 := b1.(bindings := b1.bindings[id := binding]);
        if req.ueAddress != "" && !puts.ip then (b2, RegisterReply(SERVER_ERROR, ""))
        else
          var b3 := if req.ueAddress != "" then b2.(byIp := b2.byIp[req.ueAddress := id]) else b2;
          if !puts.supi then (b3, RegisterReply(SERVER_ERROR, ""))
          else (b3.(bySupi := b3.bySupi[SupiKey(binding.supi, binding.dnn) := id]), RegisterReply(CREATED, id))
  }

  /** Nbsf_Management_Deregister: drops the index entries of the binding, whatever they point to. */
  function Deregister(b: State, id: string): (State, int) {
    if id == "" then (b, BAD_REQUEST)
    else if id !in b.bindings then (b, NOT_FOUND)
    else
      var binding := b.bindings[id];
      (b.(byIp := if binding.ueAddress != "" then b.byIp - {binding.ueAddress} else b.byIp,
          bySupi := b.bySupi - {SupiKey(binding.supi, binding.dnn)},
          bindings := b.bindings - {id}), OK)
  }

  datatype DiscoverReply = Found(binding: PcfBinding) | NoEntry | Dangling | Malformed

  /** Nbsf_Management_Discovery by UE address, or by SUPI and DNN when no address is given. */
  function Discover(b: State, ueAddress: string, supi: string, dnn: string): DiscoverReply {
    if ueAddress == "" && supi == "" then Malformed
    else
      var entry :=
        if ueAddress != "" then (if ueAddress in b.byIp then Some(b.byIp[ueAddress]) else None)
        else
          var key := SupiKey(supi, OrDefault(dnn, "internet"));
          if key in b.bySupi then Some(b.bySupi[key]) else None;
      match entry
      case None => NoEntry
      case Some(id) => if id in b.bindings then Found(b.bindings[id]) else Dangling
  }

  lemma FoundByAddress(b: State, ip: string, id: string)
    requires ip != "" && ip in b.byIp && b.byIp[ip] == id && id in b.bindings
    ensures Discover(b, ip, "", "") == Found(b.bindings[id])
  {
    hide SupiKey;
  }

  // ---- the invariant ---------------------------------------------------------------------

  /** Every primary record sits under the identifier printed from its SUPI and a number already issued. */
  ghost predicate Issued(bindings: map<string, PcfBinding>, counter: nat) {
    counter < TWO64 &&
    forall id :: id in bindings ==>
      && bindings[id].bindingId == id
      && id == BindingId(bindings[id].supi, Serial(id))
      && 1 <= Serial(id) <= counter
  }

  ghost predicate IssuedIds(b: State) { Issued(b.bindings, b.counter) }

  /** Every index entry points to a live record that prints to the key of the entry. */
  ghost predicate NoDangling(b: State) {
    && (forall ip :: ip in b.byIp ==>
          ip != "" && b.byIp[ip] in b.bindings && b.bindings[b.byIp[ip]].ueAddress == ip)
    && (forall key :: key in b.bySupi ==>
          && b.bySupi[key] in b.bindings
          && SupiKey(b.bindings[b.bySupi[key]].supi, b.bindings[b.bySupi[key]].dnn) == key)
  }

  ghost predicate Valid(b: State) { IssuedIds(b) && NoDangling(b) }

  /** The identifier of the next binding is not in use. */
  lemma NextIdFresh(b: State, supi: string)
    requires IssuedIds(b) && b.counter + 1 < TWO64
    ensures Next64(b.counter) == b.counter + 1
    ensures BindingId(supi, b.counter + 1) !in b.bindings
    ensures Serial(BindingId(supi, b.counter + 1)) == b.counter + 1
    ensures BindingId(supi, b.counter + 1) != ""
  {
    SerialOfIdentifier("bsf", supi, b.counter + 1);
  }

  lemma IssuedPut(bindings: map<string, PcfBinding>, counter: nat, binding: PcfBinding)
    requires Issued(bindings, counter) && counter + 1 < TWO64
    requires Serial(binding.bindingId) == counter + 1 && binding.bindingId == BindingId(binding.supi, counter + 1)
    ensures Issued(bindings, counter + 1) && Issued(bindings[binding.bindingId := binding], counter + 1)
  {
    hide Serial, Identifier;
  }

  lemma RegisterKeepsIssuedIds(b: State, req: RegisterRequest, puts: Puts)
    requires IssuedIds(b) && b.counter + 1 < TWO64
    ensures IssuedIds(Register(b, req, puts).0)
    ensures b.counter <= Register(b, req, puts).0.counter <= b.counter + 1
  {
    NextIdFresh(b, req.supi);
    hide Issued, Serial, Identifier, SupiKey;
    IssuedPut(b.bindings, b.counter, NewBinding(b.counter + 1, req));
  }

  lemma RegisterKeepsNoDangling(b: State, req: RegisterRequest, puts: Puts)
    requires NoDangling(b)
    requires BindingId(req.supi, Next64(b.counter)) !in b.bindings
    ensures NoDangling(Register(b, req, puts).0)
  {
  }

  /** A registration leaves other records and the entries of other addresses alone, and when it answers with
      an identifier, the record and the address entry behind it are in place. */
  lemma RegisterEffect(b: State, req: RegisterRequest, puts: Puts)
    requires IssuedIds(b) && b.counter + 1 < TWO64
    ensures var (b', reply) := Register(b, req, puts);
            && (forall id :: id in b.bindings ==> id in b'.bindings && b'.bindings[id] == b.bindings[id])
            && (forall ip :: ip in b.byIp && ip != req.ueAddress ==> ip in b'.byIp && b'.byIp[ip] == b.byIp[ip])
            && (reply.bindingId != "" ==>
                  && reply.bindingId in b'.bindings
                  && b'.bindings[reply.bindingId] == NewBinding(b.counter + 1, req)
                  && (req.ueAddress != "" ==> req.ueAddress in b'.byIp && b'.byIp[req.ueAddress] == reply.bindingId))
  {
    NextIdFresh(b, req.supi);
    hide Serial, Identifier, SupiKey;
  }

  /** A deregistration leaves other records and the entries of other addresses alone. */
  lemma DeregisterEffect(b: State, id: string)
    ensures var b' := Deregister(b, id).0;
            && (forall j :: j in b.bindings && j != id ==> j in b'.bindings && b'.bindings[j] == b.bindings[j])
            && (forall ip :: ip in b.byIp && !(id in b.bindings && b.bindings[id].ueAddress == ip) ==>
                  ip in b'.byIp && b'.byIp[ip] == b.byIp[ip])
  {
  }

  lemma DeregisterKeepsIssuedIds(b: State, id: string)
    requires IssuedIds(b)
    ensures IssuedIds(Deregister(b, id).0) && Deregister(b, id).0.counter == b.counter
  {
  }

  lemma DeregisterKeepsNoDangling(b: State, id: string)
    requires NoDangling(b)
    ensures NoDangling(Deregister(b, id).0)
  {
  }

  lemma StepKeepsValid(b: State, op: Op)
    requires Valid(b) && b.counter + 1 < TWO64
    ensures Valid(Step(b, op)) && Step(b, op).counter <= b.counter + 1
  {
    match op
    case RegisterOp(req, puts) =>
      RegisterKeepsIssuedIds(b, req, puts);
      NextIdFresh(b, req.supi);
      RegisterKeepsNoDangling(b, req, puts);
    case DeregisterOp(id) =>
      DeregisterKeepsIssuedIds(b, id);
      DeregisterKeepsNoDangling(b, id);
  }

  // ---- every run ---------------------------------------------------------------------------

  datatype Op = RegisterOp(req: RegisterRequest, puts: Puts) | DeregisterOp(id: string)

  function Step(b: State, op: Op): State {
    match op
    case RegisterOp(req, puts) => Register(b, req, puts).0
    case DeregisterOp(id) => Deregister(b, id).0
  }

  function Run(ops: seq<Op>): State {
    if ops == [] then EMPTY else Step(Run(ops[..|ops| - 1]), ops[|ops| - 1])
  }

  /** In every run, whichever Puts fail, no index entry ever dangles. */
  lemma {:induction false} RunNeverDangles(ops: seq<Op>)
    requires |ops| < TWO64
    ensures Valid(Run(ops)) && Run(ops).counter <= |ops|
  {
    if ops != [] {
      var init := ops[..|ops| - 1];
      RunNeverDangles(init);
      StepKeepsValid(Run(init), ops[|ops| - 1]);
    }
  }

  /** ... so a discovery that meets an index entry answers with a live binding of that very address. */
  lemma DiscoverAnswersWithTheAddress(ops: seq<Op>, ip: string)
    requires |ops| < TWO64 && ip != ""
    ensures var r := Discover(Run(ops), ip, "", "");
            r == NoEntry || (r.Found? && r.binding.ueAddress == ip && r.binding.bindingId in Run(ops).bindings)
  {
    RunNeverDangles(ops);
  }

  /** One entry of one of the two indexes. */
  datatype Slot = IpSlot(ip: string) | SupiSlot(key: string)

  function Entry(b: State, slot: Slot): Option<string> {
    match slot
    case IpSlot(ip) => if ip in b.byIp then Some(b.byIp[ip]) else None
    case SupiSlot(key) => if key in b.bySupi then Some(b.bySupi[key]) else None
  }

  /** What an operation does to an index entry: nothing, write an identifier, or remove it. */
  datatype Touch = Untouched | Writes(id: string) | Removes

  function TouchOf(b: State, op: Op, slot: Slot): Touch {
    match op
    case RegisterOp(req, puts) =>
      if req.supi != "" && req.pduSessionId != "" && puts.primary &&
         (match slot
          case IpSlot(ip) => puts.ip && ip != "" && req.ueAddress == ip
          case SupiSlot(key) => (req.ueAddress == "" || puts.ip) && puts.supi &&
                                SupiKey(req.supi, OrDefault(req.dnn, "internet")) == key)
      then Writes(BindingId(req.supi, Next64(b.counter))) else Untouched
    case DeregisterOp(id) =>
      if id != "" && id in b.bindings &&
         (match slot
          case IpSlot(ip) => ip != "" && b.bindings[id].ueAddress == ip
          case SupiSlot(key) => SupiKey(b.bindings[id].supi, b.bindings[id].dnn) == key)
      then Removes else Untouched
  }

  function Effect(t: Touch, before: Option<string>): Option<string> {
    match t
    case Writes(id) => Some(id)
    case Removes => None
    case Untouched => before
  }

  lemma StepTouches(b: State, op: Op, slot: Slot)
    ensures Entry(Step(b, op), slot) == Effect(TouchOf(b, op, slot), Entry(b, slot))
  {
  }

  /** What the j-th operation of a run did to a slot. */
  function TouchAt(ops: seq<Op>, j: nat, slot: Slot): Touch
    requires j < |ops|
  {
    TouchOf(Run(ops[..j]), ops[j], slot)
  }

  lemma TouchAtOfPrefix(ops: seq<Op>, j: nat, slot: Slot)
    requires j + 1 < |ops|
    ensures TouchAt(ops[..|ops| - 1], j, slot) == TouchAt(ops, j, slot)
  {
    assert ops[..|ops| - 1][..j] == ops[..j];
  }

  lemma LastStepTouches(ops: seq<Op>, slot: Slot)
    requires ops != []
    ensures Entry(Run(ops), slot) == Effect(TouchAt(ops, |ops| - 1, slot), Entry(Run(ops[..|ops| - 1]), slot))
  {
    StepTouches(Run(ops[..|ops| - 1]), ops[|ops| - 1], slot);
  }

  /** An index entry is decided by the last operation that touched it, and by nothing else. */
  lemma {:induction false} LastTouchDecidesEntry(ops: seq<Op>, slot: Slot, k: nat)
    requires k < |ops| && TouchAt(ops, k, slot) != Untouched
    requires forall j :: k < j < |ops| ==> TouchAt(ops, j, slot) == Untouched
    ensures Entry(Run(ops), slot) == Effect(TouchAt(ops, k, slot), None)
    decreases |ops|
  {
    LastStepTouches(ops, slot);
    var n := |ops| - 1;
    if k < n {
      forall j | k <= j < n ensures TouchAt(ops[..n], j, slot) == TouchAt(ops, j, slot) {
        TouchAtOfPrefix(ops, j, slot);
      }
      LastTouchDecidesEntry(ops[..n], slot, k);
    }
  }

  /** A slot that no operation touched is empty. */
  lemma {:induction false} UntouchedSlotIsEmpty(ops: seq<Op>, slot: Slot)
    requires forall j :: 0 <= j < |ops| ==> TouchAt(ops, j, slot) == Untouched
    ensures Entry(Run(ops), slot) == None
  {
    if ops != [] {
      LastStepTouches(ops, slot);
      var n := |ops| - 1;
      forall j | 0 <= j < n ensures TouchAt(ops[..n], j, slot) == TouchAt(ops, j, slot) {
        TouchAtOfPrefix(ops, j, slot);
      }
      UntouchedSlotIsEmpty(ops[..n], slot);
    }
  }

  /** An indexed binding stays indexed under its slot exactly when the next operation does not touch that slot:
      no registration or deregistration, of any binding, that prints to the same key. */
  lemma StaysIndexedIffUntouched(b: State, op: Op, slot: Slot, id: string)
    requires Valid(b) && b.counter + 1 < TWO64
    requires Entry(b, slot) == Some(id)
    ensures Entry(Step(b, op), slot) == Some(id) <==> TouchOf(b, op, slot) == Untouched
  {
    StepTouches(b, op, slot);
    if op.RegisterOp? {
      NextIdFresh(b, op.req.supi);
    }
  }

  /** The SUPI+DNN index promises less: with two bindings of one SUPI and DNN, deregistering the older
      one removes the entry of the newer one, which stays registered but is no longer discoverable. */
  lemma OlderDeregistrationHidesNewerBinding(first: RegisterRequest, second: RegisterRequest)
    requires first.supi == second.supi != "" && first.pduSessionId != "" && second.pduSessionId != ""
    requires OrDefault(first.dnn, "internet") == OrDefault(second.dnn, "internet")
    ensures var ok := Puts(true, true, true);
            var b := Run([RegisterOp(first, ok), RegisterOp(second, ok), DeregisterOp(BindingId(first.supi, 1))]);
            && BindingId(second.supi, 2) in b.bindings
            && Discover(b, "", second.supi, second.dnn) == NoEntry
  {
    var ok := Puts(true, true, true);
    RunOfThree(RegisterOp(first, ok), RegisterOp(second, ok), DeregisterOp(BindingId(first.supi, 1)));
    SerialOfIdentifier("bsf", first.supi, 1);
    SerialOfIdentifier("bsf", second.supi, 2);
    hide Run, Serial, Identifier;
  }

  lemma RunOfThree(o1: Op, o2: Op, o3: Op)
    ensures Run([o1, o2, o3]) == Step(Step(Step(EMPTY, o1), o2), o3)
  {
    assert [o1, o2, o3][..2] == [o1, o2];
    assert [o1, o2][..1] == [o1];
    assert [o1][..0] == [];
    hide Step;
    assert Run([o1]) == Step(Run([]), o1);
    assert Run([o1, o2]) == Step(Run([o1]), o2);
  }

  // ---- what callers are answered ------------------------------------------------------------------------

  /** The Puts that a registration needs all succeed. */
  predicate AllPut(req: RegisterRequest, puts: Puts) {
    puts.primary && (req.ueAddress == "" || puts.ip) && puts.supi
  }

  /** The identifier that the next registration of a SUPI prints. */
  function NextId(b: State, supi: string): string {
    "bsf-" + supi + "-" + Dec((b.counter + 1) % 0x1_0000_0000_0000_0000)
  }

  /** A registration hands out an identifier exactly when it is complete and all its Puts succeed; the identifier is the
      printed one, and with a status of 400 nothing changes. */
  lemma RegisterAnswers(b: State, req: RegisterRequest, puts: Puts)
    ensures var (b', reply) := Register(b, req, puts);
            var valid := req.supi != "" && req.pduSessionId != "";
            && reply.status == (if !valid then 400 else if AllPut(req, puts) then 201 else 500)
            && reply.bindingId == (if reply.status == 201 then NextId(b, req.supi) else "")
            && NextId(b, req.supi) != ""
            && (!valid ==> b' == b)
            && (valid ==> b'.counter == (b.counter + 1) % 0x1_0000_0000_0000_0000)
  {
    SerialOfIdentifier("bsf", req.supi, Next64(b.counter));
    assert BindingId(req.supi, Next64(b.counter)) == NextId(b, req.supi);
    hide Identifier, SupiKey;
  }

  /** The record behind an identifier: every field as requested, with the defaults of the DNN and the PCF address. */
  ghost predicate Records(b: State, id: string, req: RegisterRequest) {
    && id in b.bindings
    && var r := b.bindings[id];
       && r.bindingId == id && r.supi == req.supi && r.snssai == req.snssai
       && r.ueAddress == req.ueAddress && r.pduSessionId == req.pduSessionId
       && r.dnn == (if req.dnn == "" then "internet" else req.dnn)
       && r.pcfAddress == (if req.pcfAddress == "" then "pcf-001" else req.pcfAddress)
  }

  /** Once its first Put succeeds, a registration leaves the record behind; once all do, both index entries lead to it. */
  lemma RegisterRecords(b: State, req: RegisterRequest, puts: Puts)
    requires req.supi != "" && req.pduSessionId != ""
    ensures var (b', reply) := Register(b, req, puts);
            var id := NextId(b, req.supi);
            && (puts.primary ==> Records(b', id, req) && b'.bindings.Keys == b.bindings.Keys + {id})
            && (!puts.primary ==> b' == b.(counter := b'.counter))
            && (forall j :: j in b.bindings && j != id ==> j in b'.bindings && b'.bindings[j] == b.bindings[j])
            && (AllPut(req, puts) && req.ueAddress != "" ==> req.ueAddress in b'.byIp && b'.byIp[req.ueAddress] == id)
            && (AllPut(req, puts) ==>
                  var key := req.supi + "/" + (if req.dnn == "" then "internet" else req.dnn);
                  key in b'.bySupi && b'.bySupi[key] == id)
  {
    assert BindingId(req.supi, Next64(b.counter)) == NextId(b, req.supi);
    hide Identifier;
  }

  /** A deregistration removes the record and answers 200 exactly when there is one. */
  lemma DeregisterAnswers(b: State, id: string)
    ensures var (b', status) := Deregister(b, id);
            && status == (if id == "" then 400 else if id in b.bindings then 200 else 404)
            && (status != 200 ==> b' == b)
            && (status == 200 ==>
                  && b'.bindings.Keys == b.bindings.Keys - {id} && b'.counter == b.counter
                  && forall j :: j in b'.bindings ==> b'.bindings[j] == b.bindings[j])
  {
    hide SupiKey;
  }

  /** Discovery without an address finds by SUPI and DNN exactly when there is an index entry for them, and answers with the
      live binding behind the entry; unless a SUPI contains a slash, that binding is of this SUPI and DNN. */
  ghost predicate FindsBySupi(b: State, supi: string, dnn: string) {
    var name := if dnn == "" then "internet" else dnn;
    var key, r := supi + "/" + name, Discover(b, "", supi, dnn);
    && (r == NoEntry <==> key !in b.bySupi)
    && (key in b.bySupi ==>
          && r.Found? && r.binding.bindingId == b.bySupi[key] && r.binding.bindingId in b.bindings
          && r.binding == b.bindings[r.binding.bindingId]
          && ('/' !in supi && '/' !in r.binding.supi ==> r.binding.supi == supi && r.binding.dnn == name))
  }

  lemma BySupi(b: State, supi: string, dnn: string)
    requires supi != ""
    ensures var key := SupiKey(supi, if dnn == "" then "internet" else dnn);
            Discover(b, "", supi, dnn) ==
            if key !in b.bySupi then NoEntry
            else if b.bySupi[key] in b.bindings then Found(b.bindings[b.bySupi[key]]) else Dangling
  {
    hide SupiKey;
  }

  lemma KeyAsPrinted(supi: string, dnn: string)
    ensures SupiKey(supi, dnn) == supi + "/" + dnn
  {
  }

  lemma ValidFindsBySupi(b: State, supi: string, dnn: string)
    requires Valid(b) && supi != ""
    ensures FindsBySupi(b, supi, dnn)
  {
    hide Serial, Identifier, Discover, SupiKey;
    var name := if dnn == "" then "internet" else dnn;
    var key := SupiKey(supi, name);
    assert key == supi + "/" + name by { KeyAsPrinted(supi, name); }
    BySupi(b, supi, dnn);
    if key in b.bySupi {
      var found := b.bindings[b.bySupi[key]];
      SameKeySameBinding(found.supi, found.dnn, supi, name);
    }
  }

  lemma SameKeySameBinding(supi: string, dnn: string, supi': string, dnn': string)
    ensures SupiKey(supi, dnn) == SupiKey(supi', dnn') && '/' !in supi && '/' !in supi' ==> supi == supi' && dnn == dnn'
  {
    if SupiKey(supi, dnn) == SupiKey(supi', dnn') && '/' !in supi && '/' !in supi' {
      assert supi + ['/'] + dnn == supi' + ['/'] + dnn';
      FirstSeparatorSplits(supi, dnn, supi', dnn', '/');
    }
  }

  lemma DiscoverBySupiAnswers(ops: seq<Op>, supi: string, dnn: string)
    requires |ops| < TWO64 && supi != ""
    ensures FindsBySupi(Run(ops), supi, dnn)
  {
    hide Run, Valid, FindsBySupi;
    RunNeverDangles(ops);
    ValidFindsBySupi(Run(ops), supi, dnn);
  }

  /** Discovery by address goes by the address index alone, and needs an address or a SUPI. */
  lemma DiscoverByAddressAnswers(ops: seq<Op>, ip: string, supi: string, dnn: string)
    requires |ops| < TWO64
    ensures var b := Run(ops);
            var r := Discover(b, ip, supi, dnn);
            && (r == Malformed <==> ip == "" && supi == "")
            && (ip != "" ==> (r == NoEntry <==> ip !in b.byIp))
            && (ip != "" && ip in b.byIp ==> b.byIp[ip] in b.bindings && r == Found(b.bindings[b.byIp[ip]]))
  {
    RunNeverDangles(ops);
    hide Run, SupiKey;
  }
}
