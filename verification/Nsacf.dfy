/** Slice admission counters: one record per S-NSSAI, counting UEs and PDU sessions. */
module Nsacf {
  import opened Text
  import opened Models

  type Table = map<string, SliceCounters>

  datatype CounterType = Ue | PduSessions
  datatype Operation = Increment | Decrement

  function SliceKey(s: Snssai): string {
    if s.sd == "" then DecInt(s.sst) else DecInt(s.sst) + "-" + s.sd
  }

  /** Slices with a positive SST, the only ones that are counted, never share a key. */
  lemma SliceKeyInjective(s: Snssai, t: Snssai)
    requires s.sst > 0 && t.sst > 0 && SliceKey(s) == SliceKey(t)
    ensures s == t
  {
    ParseDec(s.sst);
    ParseDec(t.sst);
    var a, b := Dec(s.sst), Dec(t.sst);
    assert '-' in SliceKey(s) <==> s.sd != "" by { if s.sd != "" { assert SliceKey(s)[|a|] == '-'; } }
    assert '-' in SliceKey(t) <==> t.sd != "" by { if t.sd != "" { assert SliceKey(t)[|b|] == '-'; } }
    if s.sd != "" {
      assert SliceKey(s) == a + ['-'] + s.sd && SliceKey(t) == b + ['-'] + t.sd;
      FirstSeparatorSplits(a, s.sd, b, t.sd, '-');
    }
  }

  function Clamp(n: int): int { if n < 0 then 0 else n }

  function Bump(n: int, op: Operation): int {
    match op
    case Increment => n + 1
    case Decrement => Clamp(n - 1)
  }

  /** Nnsacf_UpdateCounters: a missing record counts as zero; a decrement stops at zero. */
  function Update(t: Table, s: Snssai, ctype: CounterType, op: Operation, putOk: bool): (Table, int) {
    if s.sst <= 0 then (t, BAD_REQUEST)
    else
      var key := SliceKey(s);
      var counters := if key in t then t[key] else SliceCounters(s.sst, s.sd, 0, 0);
      var counters' := match ctype
        case Ue => counters.(currentUes := Bump(counters.currentUes, op))
        case PduSessions => counters.(currentSessions := Bump(counters.currentSessions, op));
      if putOk then (t[key := counters'], OK) else (t, SERVER_ERROR)
  }

  /** What a slice's counter reads. */
  function Reading(t: Table, s: Snssai, ctype: CounterType): int {
    var key := SliceKey(s);
    if key !in t then 0 else if ctype == Ue then t[key].currentUes else t[key].currentSessions
  }

  /** A served update moves exactly one counter of exactly one slice. */
  lemma UpdateMovesOneCounter(t: Table, s: Snssai, ctype: CounterType, op: Operation, u: Snssai, ctype': CounterType)
    requires u.sst > 0
    ensures Reading(Update(t, s, ctype, op, true).0, u, ctype') ==
            if u == s && ctype' == ctype then Bump(Reading(t, u, ctype), op) else Reading(t, u, ctype')
  {
    if s.sst > 0 && SliceKey(s) == SliceKey(u) {
      SliceKeyInjective(s, u);
    }
  }

  lemma {:induction false} NoLeadingZero(n: nat)
    requires n > 0
    ensures IsDigit(Dec(n)[0]) && Dec(n)[0] != '0'
  {
    if n >= 10 {
      NoLeadingZero(n / 10);
    }
  }

  /** No update, of any slice, moves a counter of a slice whose SST is not positive. */
  lemma UpdateKeepsUncountable(t: Table, s: Snssai, ctype: CounterType, op: Operation, putOk: bool, u: Snssai, ctype': CounterType)
    requires u.sst <= 0
    ensures Reading(Update(t, s, ctype, op, putOk).0, u, ctype') == Reading(t, u, ctype')
  {
    if s.sst > 0 {
      NoLeadingZero(s.sst);
      assert SliceKey(s)[0] == Dec(s.sst)[0];
      assert SliceKey(u)[0] == if u.sst < 0 then '-' else '0';
    }
  }

  /** Keys as operators of the store read them. */
  lemma SliceKeysAsPrinted()
    ensures SliceKey(Snssai(1, "010203")) == "1-010203" && SliceKey(Snssai(2, "")) == "2" && SliceKey(Snssai(13, "a-b")) == "13-a-b"
  {
    assert Dec(13) == "13";
  }

  /** An update is refused exactly for an SST that is not positive, and fails exactly when its Put does. A served one moves one
      counter up by one, or down by one and never below zero, and leaves the other; a new record names its slice. */
  lemma UpdateAnswers(t: Table, s: Snssai, ctype: CounterType, op: Operation, putOk: bool)
    ensures var (t', status) := Update(t, s, ctype, op, putOk);
            && status == (if s.sst <= 0 then 400 else if putOk then 200 else 500)
            && (status != 200 ==> t' == t)
            && (status == 200 ==>
                  && t'.Keys == t.Keys + {SliceKey(s)}
                  && (forall k :: k in t && k != SliceKey(s) ==> t'[k] == t[k])
                  && var n, other := Reading(t, s, ctype), if ctype == Ue then PduSessions else Ue;
                     && Reading(t', s, ctype) == (if op == Increment then n + 1 else if n > 0 then n - 1 else 0)
                     && Reading(t', s, other) == Reading(t, s, other)
                     && (SliceKey(s) in t ==> t'[SliceKey(s)].sst == t[SliceKey(s)].sst && t'[SliceKey(s)].sd == t[SliceKey(s)].sd)
                     && (SliceKey(s) !in t ==> t'[SliceKey(s)].sst == s.sst && t'[SliceKey(s)].sd == s.sd))
  {
    hide SliceKey;
  }
}
