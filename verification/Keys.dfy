/** The keys of the shared store: every network function builds its keys by concatenation, one prefix per family of
    entries. A printed key determines its family and its name, so a map over keys and the flat map over their printed
    texts have the same Gets, Puts and Deletes. */
module Keys {
  import opened Text

  datatype Key =
    | PduSessionKey(name: string)
    | AllocatedKey(name: string)
    | BindingKey(name: string)
    | ByIpKey(name: string)
    | BySupiKey(name: string)
    | ChargingKey(name: string)
    | RecordKey(name: string)
    | CountersKey(name: string)
    | UeKey(name: string)
    | SubscriberKey(name: string)
    | VectorKey(name: string)

  function Prefix(k: Key): string {
    match k
    case PduSessionKey(_) => "pdu-sessions/"
    case AllocatedKey(_) => "ip-pool/allocated/"
    case BindingKey(_) => "bsf-bindings/"
    case ByIpKey(_) => "bsf-by-ip/"
    case BySupiKey(_) => "bsf-by-supi/"
    case ChargingKey(_) => "charging-sessions/"
    case RecordKey(_) => "charging-records/"
    case CountersKey(_) => "nsacf-counters/"
    case UeKey(_) => "ue:"
    case SubscriberKey(_) => "subscribers/"
    case VectorKey(_) => "auth-vectors/"
  }

  function Print(k: Key): string {
    Prefix(k) + k.name
  }

  /** The keys of all families in print. */
  lemma KeysInPrint(name: string)
    ensures Print(PduSessionKey(name)) == "pdu-sessions/" + name
    ensures Print(AllocatedKey(name)) == "ip-pool/allocated/" + name
    ensures Print(BindingKey(name)) == "bsf-bindings/" + name
    ensures Print(ByIpKey(name)) == "bsf-by-ip/" + name && Print(BySupiKey(name)) == "bsf-by-supi/" + name
    ensures Print(ChargingKey(name)) == "charging-sessions/" + name && Print(RecordKey(name)) == "charging-records/" + name
    ensures Print(CountersKey(name)) == "nsacf-counters/" + name && Print(UeKey(name)) == "ue:" + name
    ensures Print(SubscriberKey(name)) == "subscribers/" + name && Print(VectorKey(name)) == "auth-vectors/" + name
  {
  }

  function Drop(s: string, n: nat): string {
    if n <= |s| then s[n..] else ""
  }

  function CharAt(s: string, i: nat): char {
    if i < |s| then s[i] else ' '
  }

  /** Reads a printed key back. */
  function ParseKey(s: string): Key {
    match CharAt(s, 0)
    case 'p' => PduSessionKey(Drop(s, 13))
    case 'i' => AllocatedKey(Drop(s, 18))
    case 'b' =>
      if CharAt(s, 5) == 'i' then BindingKey(Drop(s, 13))
      else if CharAt(s, 7) == 'i' then ByIpKey(Drop(s, 10))
      else BySupiKey(Drop(s, 12))
    case 'c' => if CharAt(s, 9) == 's' then ChargingKey(Drop(s, 18)) else RecordKey(Drop(s, 17))
    case 'n' => CountersKey(Drop(s, 15))
    case 'u' => UeKey(Drop(s, 3))
    case 's' => SubscriberKey(Drop(s, 12))
    case _ => VectorKey(Drop(s, 13))
  }

  lemma PrintRoundTrip(k: Key)
    ensures ParseKey(Print(k)) == k
  {
    var s := Print(k);
    assert s[..|Prefix(k)|] == Prefix(k);
    assert Drop(s, |Prefix(k)|) == k.name;
    assert forall i :: 0 <= i < |Prefix(k)| ==> CharAt(s, i) == Prefix(k)[i];
  }

  lemma PrintInjective(k: Key, k': Key)
    requires Print(k) == Print(k')
    ensures k == k'
  {
    PrintRoundTrip(k);
    PrintRoundTrip(k');
  }

  lemma PrintsDistinct()
    ensures forall k, k' :: Print(k) == Print(k') ==> k == k'
  {
    forall k, k' | Print(k) == Print(k') ensures k == k' {
      PrintInjective(k, k');
    }
  }

  /** The flat map behind a keyed one. */
  ghost function Flat<V>(m: map<Key, V>): map<string, V> {
    PrintsDistinct();
    map k | k in m :: Print(k) := m[k]
  }

  lemma FlatGet<V>(m: map<Key, V>, k: Key)
    ensures Print(k) in Flat(m) <==> k in m
    ensures k in m ==> Flat(m)[Print(k)] == m[k]
  {
    PrintsDistinct();
  }

  lemma FlatPut<V>(m: map<Key, V>, k: Key, v: V)
    ensures Flat(m[k := v]) == Flat(m)[Print(k) := v]
  {
    PrintsDistinct();
    assert k in m[k := v];
    forall s | s in Flat(m) ensures s in Flat(m[k := v]) {
      var k' :| k' in m && Print(k') == s;
      assert k' in m[k := v];
    }
  }

  lemma FlatDelete<V>(m: map<Key, V>, k: Key)
    ensures Flat(m - {k}) == Flat(m) - {Print(k)}
  {
    PrintsDistinct();
    hide Print;
    var d, e := Flat(m - {k}), Flat(m) - {Print(k)};
    forall s | s in e ensures s in d && d[s] == e[s] {
      var k' :| k' in m && Print(k') == s;
      assert k' in m - {k};
    }
    forall s | s in d ensures s in e {
      var k' :| k' in m - {k} && Print(k') == s;
    }
  }
}
