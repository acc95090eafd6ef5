/** The flat store behind the tables. All functions share one map from text to values; the model keeps a table per key
    family. Every handler is shown to change the flat map by exactly the Puts and Deletes it makes, in their order and under
    the keys it prints, so that a run of the tables is a run of the store. */
module Store {
  import opened Text
  import opened Octets
  import opened Models
  import opened World
  import opened Keys
  import opened SmfInvariant
  import Smf
  import Amf
  import Runs
  import Bsf
  import Chf
  import Nsacf
  import Aka

  datatype Value =
    | SessionValue(session: PduSession)
    | TextValue(text: string)
    | BindingValue(binding: PcfBinding)
    | ChargingValue(charging: ChargingSession)
    | RecordValue(record: ChargingRecord)
    | CountersValue(counters: SliceCounters)
    | ContextValue(context: UeContext)
    | SubscriberValue(sqn: Option<Bytes>)
    | VectorValue(vector: Aka.Vector)

  /** What the tables of the core and of authentication hold under a key. */
  function Lookup(w: World, a: Aka.State, k: Key): Option<Value> {
    match k
    case PduSessionKey(id) => if id in w.sessions then Some(SessionValue(w.sessions[id])) else None
    case AllocatedKey(ip) => if ip in w.leases then Some(TextValue(w.leases[ip])) else None
    case BindingKey(id) => if id in w.bsf.bindings then Some(BindingValue(w.bsf.bindings[id])) else None
    case ByIpKey(ip) => if ip in w.bsf.byIp then Some(TextValue(w.bsf.byIp[ip])) else None
    case BySupiKey(key) => if key in w.bsf.bySupi then Some(TextValue(w.bsf.bySupi[key])) else None
    case ChargingKey(id) => if id in w.chf.sessions then Some(ChargingValue(w.chf.sessions[id])) else None
    case RecordKey(id) => if id in w.chf.records then Some(RecordValue(w.chf.records[id])) else None
    case CountersKey(slice) => if slice in w.slices then Some(CountersValue(w.slices[slice])) else None
    case UeKey(supi) => if supi in w.contexts then Some(ContextValue(w.contexts[supi])) else None
    case SubscriberKey(supi) => if supi in a.subscribers then Some(SubscriberValue(a.subscribers[supi])) else None
    case VectorKey(supi) => if supi in a.vectors then Some(VectorValue(a.vectors[supi])) else None
  }

  ghost function SmfKeys(w: World): set<Key> {
    (set id | id in w.sessions :: PduSessionKey(id)) + (set ip | ip in w.leases :: AllocatedKey(ip))
  }

  ghost function BsfKeys(b: Bsf.State): set<Key> {
    (set id | id in b.bindings :: BindingKey(id)) + (set ip | ip in b.byIp :: ByIpKey(ip)) +
    (set key | key in b.bySupi :: BySupiKey(key))
  }

  ghost function ChfKeys(c: Chf.State): set<Key> {
    (set id | id in c.sessions :: ChargingKey(id)) + (set id | id in c.records :: RecordKey(id))
  }

  ghost function AmfKeys(w: World): set<Key> {
    (set slice | slice in w.slices :: CountersKey(slice)) + (set supi | supi in w.contexts :: UeKey(supi))
  }

  ghost function AkaKeys(a: Aka.State): set<Key> {
    (set supi | supi in a.subscribers :: SubscriberKey(supi)) + (set supi | supi in a.vectors :: VectorKey(supi))
  }

  ghost function KeysOf(w: World, a: Aka.State): set<Key> {
    SmfKeys(w) + BsfKeys(w.bsf) + ChfKeys(w.chf) + AmfKeys(w) + AkaKeys(a)
  }

  lemma SmfAndBsfKeys(w: World, k: Key)
    ensures k in SmfKeys(w) <==> (k.PduSessionKey? && k.name in w.sessions) || (k.AllocatedKey? && k.name in w.leases)
    ensures k in BsfKeys(w.bsf) <==>
              || (k.BindingKey? && k.name in w.bsf.bindings)
              || (k.ByIpKey? && k.name in w.bsf.byIp)
              || (k.BySupiKey? && k.name in w.bsf.bySupi)
  {
  }

  lemma OtherKeys(w: World, a: Aka.State, k: Key)
    ensures k in ChfKeys(w.chf) <==> (k.ChargingKey? && k.name in w.chf.sessions) || (k.RecordKey? && k.name in w.chf.records)
    ensures k in AmfKeys(w) <==> (k.CountersKey? && k.name in w.slices) || (k.UeKey? && k.name in w.contexts)
    ensures k in AkaKeys(a) <==> (k.SubscriberKey? && k.name in a.subscribers) || (k.VectorKey? && k.name in a.vectors)
  {
  }

  lemma KeysOfTables(w: World, a: Aka.State, k: Key)
    ensures k in KeysOf(w, a) <==> Lookup(w, a, k).Some?
  {
    SmfAndBsfKeys(w, k);
    OtherKeys(w, a, k);
    hide SmfKeys, BsfKeys, ChfKeys, AmfKeys, AkaKeys;
  }

  ghost function Tables(w: World, a: Aka.State): map<Key, Value> {
    map k | k in KeysOf(w, a) && Lookup(w, a, k).Some? :: Lookup(w, a, k).value
  }

  /** The store: every entry of every table under its printed key. */
  ghost function Flattened(w: World, a: Aka.State): map<string, Value> { Flat(Tables(w, a)) }

  /** A Get under a printed key finds what the table holds, and nothing when the table has no entry. */
  lemma GetReadsTheTable(w: World, a: Aka.State, k: Key)
    ensures Lookup(w, a, k) == if Print(k) in Flattened(w, a) then Some(Flattened(w, a)[Print(k)]) else None
  {
    KeysOfTables(w, a, k);
    hide KeysOf, Lookup, Print, Flat;
    FlatGet(Tables(w, a), k);
  }

  // ---- writes ------------------------------------------------------------------------------------------

  datatype Write = Put(key: Key, value: Value) | Delete(key: Key)

  ghost function Apply(store: map<string, Value>, x: Write): map<string, Value> {
    match x
    case Put(k, v) => store[Print(k) := v]
    case Delete(k) => store - {Print(k)}
  }

  /** The store after a row of writes. */
  ghost function Perform(store: map<string, Value>, xs: seq<Write>): map<string, Value> {
    if xs == [] then store else Apply(Perform(store, xs[..|xs| - 1]), xs[|xs| - 1])
  }

  lemma {:induction false} PerformTwo(store: map<string, Value>, xs: seq<Write>, ys: seq<Write>)
    ensures Perform(store, xs + ys) == Perform(Perform(store, xs), ys)
  {
    hide Apply;
    if ys == [] {
      assert xs + ys == xs;
    } else {
      var n := |ys| - 1;
      assert (xs + ys)[..|xs| + n] == xs + ys[..n];
      PerformTwo(store, xs, ys[..n]);
    }
  }

  lemma PerformOne(store: map<string, Value>, x: Write)
    ensures Perform(store, [x]) == Apply(store, x)
    ensures Perform(store, []) == store
  {
    assert [x][..0] == [];
  }

  /** What a write does to the lookups of the tables. */
  ghost predicate Writes(w: World, a: Aka.State, x: Write, w': World, a': Aka.State) {
    forall k :: Lookup(w', a', k) == if k == x.key then (if x.Put? then Some(x.value) else None) else Lookup(w, a, k)
  }

  lemma TablesHold(w: World, a: Aka.State)
    ensures forall k :: k in Tables(w, a) <==> Lookup(w, a, k).Some?
    ensures forall k :: k in Tables(w, a) ==> Tables(w, a)[k] == Lookup(w, a, k).value
  {
    forall k ensures k in Tables(w, a) <==> Lookup(w, a, k).Some? {
      KeysOfTables(w, a, k);
    }
    hide KeysOf, Lookup;
  }

  /** Tables that change by one entry change the flat store by one write. */
  lemma OneWrite(w: World, a: Aka.State, x: Write, w': World, a': Aka.State)
    requires Writes(w, a, x, w', a')
    ensures Flattened(w', a') == Perform(Flattened(w, a), [x])
  {
    hide Tables, Lookup, Print, Flat, Perform;
    PerformOne(Flattened(w, a), x);
    TablesHold(w, a);
    TablesHold(w', a');
    var t, t' := Tables(w, a), Tables(w', a');
    match x
    case Put(k, v) =>
      assert t' == t[k := v];
      FlatPut(t, k, v);
    case Delete(k) =>
      assert t' == t - {k};
      FlatDelete(t, k);
  }

  lemma NoWrite(w: World, a: Aka.State, w': World, a': Aka.State)
    requires forall k :: Lookup(w', a', k) == Lookup(w, a, k)
    ensures Flattened(w', a') == Flattened(w, a)
  {
    hide Tables, Lookup, Flat;
    TablesHold(w, a);
    TablesHold(w', a');
    assert Tables(w', a') == Tables(w, a);
  }

  /** The tables get from one state to the other by these writes to the flat store. */
  ghost predicate Leads(w: World, a: Aka.State, xs: seq<Write>, w': World, a': Aka.State) {
    Flattened(w', a') == Perform(Flattened(w, a), xs)
  }

  lemma Then(w: World, xs: seq<Write>, w1: World, ys: seq<Write>, w2: World, a: Aka.State)
    requires Leads(w, a, xs, w1, a) && Leads(w1, a, ys, w2, a)
    ensures Leads(w, a, xs + ys, w2, a)
  {
    hide Flattened, Perform;
    PerformTwo(Flattened(w, a), xs, ys);
  }

  lemma SameLookups(w: World, a: Aka.State, w': World)
    requires w'.sessions == w.sessions && w'.leases == w.leases && w'.slices == w.slices && w'.contexts == w.contexts
    requires w'.bsf == w.bsf.(counter := w'.bsf.counter) && w'.chf == w.chf.(counter := w'.chf.counter)
    ensures forall k :: Lookup(w', a, k) == Lookup(w, a, k)
  {
  }

  lemma Stays(w: World, a: Aka.State, w': World)
    requires w' == w.(bsf := w.bsf.(counter := w'.bsf.counter), chf := w.chf.(counter := w'.chf.counter),
                      subnet := w'.subnet, host := w'.host, seid := w'.seid, upf := w'.upf)
    ensures Leads(w, a, [], w', a)
  {
    hide Flattened;
    SameLookups(w, a, w');
    hide Lookup;
    NoWrite(w, a, w', a);
  }

  // ---- one entry of one table ------------------------------------------------------------------------------

  lemma SessionPut(w: World, a: Aka.State, id: string, s: PduSession)
    ensures Leads(w, a, [Put(PduSessionKey(id), SessionValue(s))], w.(sessions := w.sessions[id := s]), a)
  {
    hide Flattened, Perform;
    OneWrite(w, a, Put(PduSessionKey(id), SessionValue(s)), w.(sessions := w.sessions[id := s]), a);
  }

  lemma SessionDelete(w: World, a: Aka.State, id: string)
    ensures Leads(w, a, [Delete(PduSessionKey(id))], w.(sessions := w.sessions - {id}), a)
  {
    hide Flattened, Perform;
    OneWrite(w, a, Delete(PduSessionKey(id)), w.(sessions := w.sessions - {id}), a);
  }

  lemma LeasePut(w: World, a: Aka.State, ip: string)
    ensures Leads(w, a, [Put(AllocatedKey(ip), TextValue(ip))], w.(leases := w.leases[ip := ip]), a)
  {
    hide Flattened, Perform;
    OneWrite(w, a, Put(AllocatedKey(ip), TextValue(ip)), w.(leases := w.leases[ip := ip]), a);
  }

  lemma LeaseDelete(w: World, a: Aka.State, ip: string)
    ensures Leads(w, a, [Delete(AllocatedKey(ip))], Smf.FreeAddress(w, ip), a)
  {
    hide Flattened, Perform;
    OneWrite(w, a, Delete(AllocatedKey(ip)), Smf.FreeAddress(w, ip), a);
  }

  lemma ContextPut(w: World, a: Aka.State, supi: string, c: UeContext)
    ensures Leads(w, a, [Put(UeKey(supi), ContextValue(c))], w.(contexts := w.contexts[supi := c]), a)
  {
    hide Flattened, Perform;
    OneWrite(w, a, Put(UeKey(supi), ContextValue(c)), w.(contexts := w.contexts[supi := c]), a);
  }

  lemma ContextDelete(w: World, a: Aka.State, supi: string)
    ensures Leads(w, a, [Delete(UeKey(supi))], w.(contexts := w.contexts - {supi}), a)
  {
    hide Flattened, Perform;
    OneWrite(w, a, Delete(UeKey(supi)), w.(contexts := w.contexts - {supi}), a);
  }

  // ---- BSF -----------------------------------------------------------------------------------------------------

  function BindingWrites(b: Bsf.State, req: Bsf.RegisterRequest, puts: Bsf.Puts): seq<Write> {
    if req.supi == "" || req.pduSessionId == "" || !puts.primary then []
    else
      var binding := Bsf.NewBinding(Next64(b.counter), req);
      var id := binding.bindingId;
      [Put(BindingKey(id), BindingValue(binding))] +
      if req.ueAddress != "" && !puts.ip then []
      else (if req.ueAddress != "" then [Put(ByIpKey(req.ueAddress), TextValue(id))] else []) +
           (if puts.supi then [Put(BySupiKey(Bsf.SupiKey(binding.supi, binding.dnn)), TextValue(id))] else [])
  }

  lemma ByIpStep(w: World, a: Aka.State, ip: string, id: string)
    ensures Leads(w, a, [Put(ByIpKey(ip), TextValue(id))], w.(bsf := w.bsf.(byIp := w.bsf.byIp[ip := id])), a)
    ensures Leads(w, a, [Delete(ByIpKey(ip))], w.(bsf := w.bsf.(byIp := w.bsf.byIp - {ip})), a)
  {
    hide Flattened, Perform;
    OneWrite(w, a, Put(ByIpKey(ip), TextValue(id)), w.(bsf := w.bsf.(byIp := w.bsf.byIp[ip := id])), a);
    OneWrite(w, a, Delete(ByIpKey(ip)), w.(bsf := w.bsf.(byIp := w.bsf.byIp - {ip})), a);
  }

  lemma BySupiStep(w: World, a: Aka.State, key: string, id: string)
    ensures Leads(w, a, [Put(BySupiKey(key), TextValue(id))], w.(bsf := w.bsf.(bySupi := w.bsf.bySupi[key := id])), a)
    ensures Leads(w, a, [Delete(BySupiKey(key))], w.(bsf := w.bsf.(bySupi := w.bsf.bySupi - {key})), a)
  {
    hide Flattened, Perform;
    OneWrite(w, a, Put(BySupiKey(key), TextValue(id)), w.(bsf := w.bsf.(bySupi := w.bsf.bySupi[key := id])), a);
    OneWrite(w, a, Delete(BySupiKey(key)), w.(bsf := w.bsf.(bySupi := w.bsf.bySupi - {key})), a);
  }

  lemma BindingStep(w: World, a: Aka.State, id: string, binding: PcfBinding)
    ensures Leads(w, a, [Put(BindingKey(id), BindingValue(binding))], w.(bsf := w.bsf.(bindings := w.bsf.bindings[id := binding])), a)
    ensures Leads(w, a, [Delete(BindingKey(id))], w.(bsf := w.bsf.(bindings := w.bsf.bindings - {id})), a)
  {
    hide Flattened, Perform;
    OneWrite(w, a, Put(BindingKey(id), BindingValue(binding)), w.(bsf := w.bsf.(bindings := w.bsf.bindings[id := binding])), a);
    OneWrite(w, a, Delete(BindingKey(id)), w.(bsf := w.bsf.(bindings := w.bsf.bindings - {id})), a);
  }

  lemma BindingRegisterWrites(w: World, a: Aka.State, req: Bsf.RegisterRequest, puts: Bsf.Puts)
    ensures Leads(w, a, BindingWrites(w.bsf, req, puts), w.(bsf := Bsf.Register(w.bsf, req, puts).0), a)
  {
    hide Leads, Bsf.SupiKey, Identifier;
    var n := Next64(w.bsf.counter);
    var w0 := w.(bsf := w.bsf.(counter := n));
    Stays(w, a, w);
    Stays(w, a, w0);
    if req.supi != "" && req.pduSessionId != "" && puts.primary {
      var binding := Bsf.NewBinding(n, req);
      var id := binding.bindingId;
      var key := Bsf.SupiKey(binding.supi, binding.dnn);
      var w1 := w0.(bsf := w0.bsf.(bindings := w0.bsf.bindings[id := binding]));
      var x1 := [Put(BindingKey(id), BindingValue(binding))];
      BindingStep(w0, a, id, binding);
      Then(w, [], w0, x1, w1, a);
      Stays(w1, a, w1);
      if req.ueAddress == "" || puts.ip {
        var w2 := if req.ueAddress != "" then w1.(bsf := w1.bsf.(byIp := w1.bsf.byIp[req.ueAddress := id])) else w1;
        var x2 := if req.ueAddress != "" then [Put(ByIpKey(req.ueAddress), TextValue(id))] else [];
        ByIpStep(w1, a, req.ueAddress, id);
        Then(w, [] + x1, w1, x2, w2, a);
        Stays(w2, a, w2);
        var w3 := if puts.supi then w2.(bsf := w2.bsf.(bySupi := w2.bsf.bySupi[key := id])) else w2;
        var x3 := if puts.supi then [Put(BySupiKey(key), TextValue(id))] else [];
        BySupiStep(w2, a, key, id);
        Then(w, [] + x1 + x2, w2, x3, w3, a);
        assert [] + x1 + x2 + x3 == x1 + (x2 + x3);
      } else {
        assert [] + x1 == x1 + [];
      }
    }
  }

  function UnbindingWrites(b: Bsf.State, id: string): seq<Write> {
    if id == "" || id !in b.bindings then []
    else
      var binding := b.bindings[id];
      (if binding.ueAddress != "" then [Delete(ByIpKey(binding.ueAddress))] else []) +
      [Delete(BySupiKey(Bsf.SupiKey(binding.supi, binding.dnn)))] + [Delete(BindingKey(id))]
  }

  lemma BindingDeregisterWrites(w: World, a: Aka.State, id: string)
    ensures Leads(w, a, UnbindingWrites(w.bsf, id), w.(bsf := Bsf.Deregister(w.bsf, id).0), a)
  {
    hide Leads, Bsf.SupiKey;
    Stays(w, a, w);
    if id != "" && id in w.bsf.bindings {
      var binding := w.bsf.bindings[id];
      var key := Bsf.SupiKey(binding.supi, binding.dnn);
      var w1 := if binding.ueAddress != "" then w.(bsf := w.bsf.(byIp := w.bsf.byIp - {binding.ueAddress})) else w;
      var x1 := if binding.ueAddress != "" then [Delete(ByIpKey(binding.ueAddress))] else [];
      ByIpStep(w, a, binding.ueAddress, "");
      var w2 := w1.(bsf := w1.bsf.(bySupi := w1.bsf.bySupi - {key}));
      BySupiStep(w1, a, key, "");
      Then(w, x1, w1, [Delete(BySupiKey(key))], w2, a);
      BindingStep(w2, a, id, binding);
      Then(w, x1 + [Delete(BySupiKey(key))], w2, [Delete(BindingKey(id))], w2.(bsf := w2.bsf.(bindings := w2.bsf.bindings - {id})), a);
    }
  }

  // ---- CHF -----------------------------------------------------------------------------------------------------

  lemma ChargingStep(w: World, a: Aka.State, id: string, s: ChargingSession)
    ensures Leads(w, a, [Put(ChargingKey(id), ChargingValue(s))], w.(chf := w.chf.(sessions := w.chf.sessions[id := s])), a)
    ensures Leads(w, a, [Delete(ChargingKey(id))], w.(chf := w.chf.(sessions := w.chf.sessions - {id})), a)
  {
    hide Flattened, Perform;
    OneWrite(w, a, Put(ChargingKey(id), ChargingValue(s)), w.(chf := w.chf.(sessions := w.chf.sessions[id := s])), a);
    OneWrite(w, a, Delete(ChargingKey(id)), w.(chf := w.chf.(sessions := w.chf.sessions - {id})), a);
  }

  lemma RecordPut(w: World, a: Aka.State, id: string, r: ChargingRecord)
    ensures Leads(w, a, [Put(RecordKey(id), RecordValue(r))], w.(chf := w.chf.(records := w.chf.records[id := r])), a)
  {
    hide Flattened, Perform;
    OneWrite(w, a, Put(RecordKey(id), RecordValue(r)), w.(chf := w.chf.(records := w.chf.records[id := r])), a);
  }

  function ChargingWrites(c: Chf.State, op: Chf.Op): seq<Write> {
    match op
    case CreateOp(req, ok) =>
      if req.supi == "" || req.pduSessionId == "" || !ok then []
      else
        var id := Chf.ChargingId(req.supi, Next64(c.counter));
        [Put(ChargingKey(id), ChargingValue(Chf.NewSession(id, req)))]
    case UpdateOp(id, r, ok) =>
      if id == "" || id !in c.sessions || !ok then [] else [Put(ChargingKey(id), ChargingValue(Chf.Apply(c.sessions[id], r)))]
    case ReleaseOp(id, ok) =>
      if id == "" || id !in c.sessions || !ok then []
      else [Put(RecordKey(Chf.RecordId(id)), RecordValue(Chf.RecordOf(id, c.sessions[id])))] + [Delete(ChargingKey(id))]
  }

  lemma ChargingOpWrites(w: World, a: Aka.State, op: Chf.Op)
    ensures Leads(w, a, ChargingWrites(w.chf, op), w.(chf := Chf.Step(w.chf, op)), a)
  {
    hide Leads, Identifier, Chf.Apply;
    Stays(w, a, w);
    match op
    case CreateOp(req, ok) =>
      var n := Next64(w.chf.counter);
      var w0 := w.(chf := w.chf.(counter := n));
      Stays(w, a, w0);
      if req.supi != "" && req.pduSessionId != "" && ok {
        var id := Chf.ChargingId(req.supi, n);
        var s := Chf.NewSession(id, req);
        ChargingStep(w0, a, id, s);
        Then(w, [], w0, [Put(ChargingKey(id), ChargingValue(s))], w0.(chf := w0.chf.(sessions := w0.chf.sessions[id := s])), a);
        assert [] + [Put(ChargingKey(id), ChargingValue(s))] == [Put(ChargingKey(id), ChargingValue(s))];
      }
    case UpdateOp(id, r, ok) =>
      if id in w.chf.sessions { ChargingStep(w, a, id, Chf.Apply(w.chf.sessions[id], r)); }
    case ReleaseOp(id, ok) =>
      if id != "" && id in w.chf.sessions && ok {
        var r := Chf.RecordOf(id, w.chf.sessions[id]);
        var x := [Put(RecordKey(Chf.RecordId(id)), RecordValue(r))];
        var w1 := w.(chf := w.chf.(records := w.chf.records[Chf.RecordId(id) := r]));
        RecordPut(w, a, Chf.RecordId(id), r);
        ChargingStep(w1, a, id, w.chf.sessions[id]);
        Then(w, x, w1, [Delete(ChargingKey(id))], w1.(chf := w1.chf.(sessions := w1.chf.sessions - {id})), a);
      }
  }

  // ---- NSACF ---------------------------------------------------------------------------------------------------

  function CounterWrites(t: Nsacf.Table, s: Snssai, ctype: Nsacf.CounterType, op: Nsacf.Operation, ok: bool): seq<Write> {
    if s.sst <= 0 || !ok then []
    else [Put(CountersKey(Nsacf.SliceKey(s)), CountersValue(Nsacf.Update(t, s, ctype, op, ok).0[Nsacf.SliceKey(s)]))]
  }

  lemma CountersPut(w: World, a: Aka.State, key: string, c: SliceCounters)
    ensures Leads(w, a, [Put(CountersKey(key), CountersValue(c))], w.(slices := w.slices[key := c]), a)
  {
    hide Flattened, Perform;
    OneWrite(w, a, Put(CountersKey(key), CountersValue(c)), w.(slices := w.slices[key := c]), a);
  }

  lemma UpdateCountersWrites(w: World, a: Aka.State, s: Snssai, ctype: Nsacf.CounterType, op: Nsacf.Operation, ok: bool)
    ensures Leads(w, a, CounterWrites(w.slices, s, ctype, op, ok), w.(slices := Nsacf.Update(w.slices, s, ctype, op, ok).0), a)
  {
    hide Leads, Nsacf.SliceKey;
    Stays(w, a, w);
    if s.sst > 0 && ok {
      var key, t := Nsacf.SliceKey(s), Nsacf.Update(w.slices, s, ctype, op, ok).0;
      assert t == w.slices[key := t[key]];
      CountersPut(w, a, key, t[key]);
    }
  }

  function CountAllWrites(t: Nsacf.Table, slices: seq<Snssai>, op: Nsacf.Operation, lost: set<nat>): seq<Write> {
    if slices == [] then []
    else
      var n := |slices| - 1;
      CountAllWrites(t, slices[..n], op, lost) +
      if n in lost then [] else CounterWrites(Amf.CountAll(t, slices[..n], op, lost), slices[n], Nsacf.Ue, op, true)
  }

  lemma {:induction false} CountUesWrites(w: World, a: Aka.State, slices: seq<Snssai>, op: Nsacf.Operation, lost: set<nat>)
    ensures Leads(w, a, CountAllWrites(w.slices, slices, op, lost), w.(slices := Amf.CountAll(w.slices, slices, op, lost)), a)
  {
    hide Leads, Nsacf.Update, CounterWrites;
    Stays(w, a, w);
    if slices != [] {
      var n := |slices| - 1;
      CountUesWrites(w, a, slices[..n], op, lost);
      var w1 := w.(slices := Amf.CountAll(w.slices, slices[..n], op, lost));
      var xs := CountAllWrites(w.slices, slices[..n], op, lost);
      if n in lost {
        assert xs + [] == xs;
      } else {
        UpdateCountersWrites(w1, a, slices[n], Nsacf.Ue, op, true);
        Then(w, xs, w1, CounterWrites(w1.slices, slices[n], Nsacf.Ue, op, true),
             w1.(slices := Nsacf.Update(w1.slices, slices[n], Nsacf.Ue, op, true).0), a);
      }
    }
  }
}
