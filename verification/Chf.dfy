/** The charging function: charging sessions that accumulate volumes and quota, and the records they end in. */
module Chf {
  import opened Text
  import opened Models

  datatype State = State(
    sessions: map<string, ChargingSession>,
    records: map<string, ChargingRecord>,
    counter: nat)

  const EMPTY := State(map[], map[], 0)

  const GRANT := 1000000  // defaultGrantedUnits and quotaIncrement

  datatype CreateRequest = CreateRequest(supi: string, pduSessionId: string, dnn: string, snssai: Snssai, chargingType: string)

  /** The volumes of one report; uint64 on the wire. */
  datatype Report = Report(uplink: nat, downlink: nat)

  function Add64(a: nat, b: nat): nat {
    (a + b) % TWO64
  }

  function ChargingId(supi: string, n: nat): string {
    Identifier("chg", supi, n)
  }

  function RecordId(chargingId: string): string {
    "cdr-" + chargingId
  }

  function NewSession(id: string, req: CreateRequest): ChargingSession {
    ChargingSession(id, req.supi, req.pduSessionId, req.dnn, req.snssai,
                    OrDefault(req.chargingType, "OFFLINE"), "ACTIVE", 0, 0, GRANT)
  }

  datatype CreateReply = CreateReply(status: int, chargingId: string)

  /** Nchf_ConvergedCharging_Create */
  function Create(c: State, req: CreateRequest, putOk: bool): (State, CreateReply) {
    if req.supi == "" || req.pduSessionId == "" then (c, CreateReply(BAD_REQUEST, ""))
    else
      var n := Next64(c.counter);
      var id := ChargingId(req.supi, n);
      var c1 := c.(counter := n);
      if !putOk then (c1, CreateReply(SERVER_ERROR, ""))
      else (c1.(sessions := c1.sessions[id := NewSession(id, req)]), CreateReply(CREATED, id))
  }

  /** The session after one report: uint64 sums, and one quota increment when usage exceeds the grant. */
  function Apply(s: ChargingSession, r: Report): ChargingSession {
    var up := Add64(s.volumeUplink, r.uplink);
    var down := Add64(s.volumeDownlink, r.downlink);
    var granted := if Add64(up, down) > s.grantedUnits then Add64(s.grantedUnits, GRANT) else s.grantedUnits;
    s.(volumeUplink := up, volumeDownlink := down, grantedUnits := granted)
  }

  /** Nchf_ConvergedCharging_Update */
  function Update(c: State, id: string, r: Report, putOk: bool): (State, int) {
    if id == "" then (c, BAD_REQUEST)
    else if id !in c.sessions then (c, NOT_FOUND)
    else if !putOk then (c, SERVER_ERROR)
    else (c.(sessions := c.sessions[id := Apply(c.sessions[id], r)]), OK)
  }

  function RecordOf(id: string, s: ChargingSession): ChargingRecord {
    ChargingRecord(RecordId(id), s.chargingId, s.supi, s.pduSessionId, s.dnn, s.snssai, s.volumeUplink, s.volumeDownlink)
  }

  /** Nchf_ConvergedCharging_Release: the record is written before the session is removed. */
  function Release(c: State, id: string, putOk: bool): (State, int) {
    if id == "" then (c, BAD_REQUEST)
    else if id !in c.sessions then (c, NOT_FOUND)
    else if !putOk then (c, SERVER_ERROR)
    else
      (c.(records := c.records[RecordId(id) := RecordOf(id, c.sessions[id])], sessions := c.sessions - {id}), OK)
  }

  // ---- every run -------------------------------------------------------------------------

  datatype Op =
    | CreateOp(creation: CreateRequest, createPut: bool)
    | UpdateOp(updated: string, report: Report, updatePut: bool)
    | ReleaseOp(released: string, recordPut: bool)

  function Step(c: State, op: Op): State {
    match op
    case CreateOp(req, ok) => Create(c, req, ok).0
    case UpdateOp(id, r, ok) => Update(c, id, r, ok).0
    case ReleaseOp(id, ok) => Release(c, id, ok).0
  }

  function Run(ops: seq<Op>): State {
    if ops == [] then EMPTY else Step(Run(ops[..|ops| - 1]), ops[|ops| - 1])
  }

  /** The creation request behind an identifier, and the reports answered with 200 since. */
  datatype History = History(creation: CreateRequest, reports: seq<Report>)

  /** What the callers saw happen to one identifier: read off the requests and their answers alone. */
  function Observed(ops: seq<Op>, id: string): Option<History> {
    if ops == [] then None
    else
      var init, op := ops[..|ops| - 1], ops[|ops| - 1];
      var before := Observed(init, id);
      match op
      case CreateOp(req, ok) =>
        if Create(Run(init), req, ok).1 == CreateReply(CREATED, id) then Some(History(req, [])) else before
      case UpdateOp(id', r, ok) =>
        if id' == id && Update(Run(init), id', r, ok).1 == OK && before.Some?
        then Some(before.value.(reports := before.value.reports + [r])) else before
      case ReleaseOp(_, _) => before
  }

  /** A session to which reports are applied in order. */
  function ApplyAll(s: ChargingSession, rs: seq<Report>): ChargingSession {
    if rs == [] then s else Apply(ApplyAll(s, rs[..|rs| - 1]), rs[|rs| - 1])
  }

  function Account(id: string, h: History): ChargingSession {
    ApplyAll(NewSession(id, h.creation), h.reports)
  }

  /** One identifier at one moment: unknown, live with exactly its reports applied, or closed into one record. */
  ghost predicate Accounted(c: State, id: string, h: Option<History>) {
    match h
    case None => id !in c.sessions && RecordId(id) !in c.records
    case Some(h) =>
      && (id in c.sessions ==> c.sessions[id] == Account(id, h) && RecordId(id) !in c.records)
      && (id !in c.sessions ==> RecordId(id) in c.records && c.records[RecordId(id)] == RecordOf(id, Account(id, h)))
  }

  /** Identifiers seen so far carry numbers already issued. */
  ghost predicate Issued(c: State, id: string, h: Option<History>) {
    h.Some? ==> id != "" && Serial(id) <= c.counter
  }

  lemma NextIdFresh(c: State, supi: string)
    requires c.counter + 1 < TWO64
    ensures Next64(c.counter) == c.counter + 1
    ensures Serial(ChargingId(supi, c.counter + 1)) == c.counter + 1
    ensures ChargingId(supi, c.counter + 1) != ""
  {
    SerialOfIdentifier("chg", supi, c.counter + 1);
  }

  lemma RecordIdInjective(id: string, id': string)
    requires RecordId(id) == RecordId(id')
    ensures id == id'
  {
    assert RecordId(id)[4..] == id && RecordId(id')[4..] == id';
  }

  lemma AccountOneMore(id: string, h: History, r: Report)
    ensures Account(id, h.(reports := h.reports + [r])) == Apply(Account(id, h), r)
  {
    assert (h.reports + [r])[..|h.reports|] == h.reports;
  }

  /** Conservation over every run: at every moment the state of an identifier is the one its observed
      history accounts for, and no identifier is ever both live and closed, or issued twice. */
  lemma {:induction false} RunAccountsForEveryId(ops: seq<Op>, id: string)
    requires |ops| < TWO64
    ensures Run(ops).counter <= |ops|
    ensures Accounted(Run(ops), id, Observed(ops, id)) && Issued(Run(ops), id, Observed(ops, id))
  {
    if ops != [] {
      var init, op := ops[..|ops| - 1], ops[|ops| - 1];
      RunAccountsForEveryId(init, id);
      var c, before := Run(init), Observed(init, id);
      match op
      case CreateOp(req, ok) =>
        NextIdFresh(c, req.supi);
      case UpdateOp(id', r, ok) =>
        if before.Some? { AccountOneMore(id, before.value, r); }
      case ReleaseOp(id', ok) =>
        if RecordId(id) == RecordId(id') { RecordIdInjective(id, id'); }
    }
  }

  // ---- what an account says ---------------------------------------------------------------

  function SumUplink(rs: seq<Report>): nat {
    if rs == [] then 0 else SumUplink(rs[..|rs| - 1]) + rs[|rs| - 1].uplink
  }

  function SumDownlink(rs: seq<Report>): nat {
    if rs == [] then 0 else SumDownlink(rs[..|rs| - 1]) + rs[|rs| - 1].downlink
  }

  lemma AddMod(a: nat, b: nat)
    ensures Add64(a % TWO64, b) == (a + b) % TWO64
  {
  }

  /** Volumes are the sums of all reports modulo 2^64; nothing else of the session changes but the grant. */
  lemma {:induction false} AccountVolumes(s: ChargingSession, rs: seq<Report>)
    requires s.volumeUplink == 0 && s.volumeDownlink == 0
    ensures var t := ApplyAll(s, rs);
            && t.volumeUplink == SumUplink(rs) % TWO64
            && t.volumeDownlink == SumDownlink(rs) % TWO64
            && t == s.(volumeUplink := t.volumeUplink, volumeDownlink := t.volumeDownlink, grantedUnits := t.grantedUnits)
  {
    if rs != [] {
      var init, r := rs[..|rs| - 1], rs[|rs| - 1];
      AccountVolumes(s, init);
      AddMod(SumUplink(init), r.uplink);
      AddMod(SumDownlink(init), r.downlink);
    }
  }

  /** The record of a released session carries the sums of every report answered with 200 since its creation. */
  lemma RecordCarriesTheSums(ops: seq<Op>, id: string)
    requires |ops| < TWO64 && RecordId(id) in Run(ops).records
    ensures Observed(ops, id).Some? && id !in Run(ops).sessions
    ensures var h, cdr := Observed(ops, id).value, Run(ops).records[RecordId(id)];
            && cdr.volumeUplink == SumUplink(h.reports) % TWO64
            && cdr.volumeDownlink == SumDownlink(h.reports) % TWO64
            && cdr.chargingId == id && cdr.supi == h.creation.supi && cdr.pduSessionId == h.creation.pduSessionId
  {
    RunAccountsForEveryId(ops, id);
    var h := Observed(ops, id).value;
    AccountVolumes(NewSession(id, h.creation), h.reports);
  }

  /** After release the record never changes, and every further update or release is answered with 404. */
  lemma {:induction false} ClosedStaysClosed(ops: seq<Op>, more: seq<Op>, id: string)
    requires |ops + more| < TWO64 && RecordId(id) in Run(ops).records
    ensures RecordId(id) in Run(ops + more).records && id !in Run(ops + more).sessions
    ensures Run(ops + more).records[RecordId(id)] == Run(ops).records[RecordId(id)]
    ensures forall r, ok :: Update(Run(ops + more), id, r, ok).1 == NOT_FOUND
    ensures forall ok :: Release(Run(ops + more), id, ok).1 == NOT_FOUND
    decreases |more|
  {
    if more == [] {
      assert ops + more == ops;
      RunAccountsForEveryId(ops, id);
    } else {
      var init, op := more[..|more| - 1], more[|more| - 1];
      ClosedStaysClosed(ops, init, id);
      assert (ops + more)[..|ops + more| - 1] == ops + init;
      RunAccountsForEveryId(ops + init, id);
      RunAccountsForEveryId(ops + more, id);
      if op.ReleaseOp? && RecordId(op.released) == RecordId(id) { RecordIdInjective(op.released, id); }
    }
  }

  // ---- quota ---------------------------------------------------------------------------------

  function Used(rs: seq<Report>): nat { SumUplink(rs) + SumDownlink(rs) }

  /** How far single reports go beyond one quota increment, summed up. */
  function Excess(rs: seq<Report>): nat {
    if rs == [] then 0
    else
      var d := rs[|rs| - 1].uplink + rs[|rs| - 1].downlink;
      Excess(rs[..|rs| - 1]) + if d > GRANT then d - GRANT else 0
  }

  /** One report that overflows nothing: usage grows by it, and the grant by one increment iff usage passed it. */
  lemma ApplyWithoutOverflow(s: ChargingSession, r: Report)
    requires s.volumeUplink + s.volumeDownlink + r.uplink + r.downlink + GRANT < TWO64
    requires s.grantedUnits <= s.volumeUplink + s.volumeDownlink + GRANT
    ensures var t := Apply(s, r);
            var used := s.volumeUplink + s.volumeDownlink + r.uplink + r.downlink;
            && t.volumeUplink + t.volumeDownlink == used
            && t.grantedUnits == if used > s.grantedUnits then s.grantedUnits + GRANT else s.grantedUnits
  {
    var up, down := s.volumeUplink + r.uplink, s.volumeDownlink + r.downlink;
    assert up % TWO64 == up && down % TWO64 == down && (up + down) % TWO64 == up + down;
  }

  /** As long as usage and grant fit a uint64, the grant never runs more than one increment ahead of usage,
      and usage runs ahead of the grant by no more than the excess of single oversized reports. */
  lemma {:induction false} QuotaBounds(s: ChargingSession, rs: seq<Report>)
    requires s.volumeUplink == 0 && s.volumeDownlink == 0 && s.grantedUnits == GRANT
    requires Used(rs) + GRANT < TWO64
    ensures var t := ApplyAll(s, rs);
            && t.volumeUplink + t.volumeDownlink == Used(rs)
            && GRANT <= t.grantedUnits <= Used(rs) + GRANT
            && Used(rs) - t.grantedUnits <= Excess(rs)
  {
    if rs != [] {
      var init, r := rs[..|rs| - 1], rs[|rs| - 1];
      QuotaBounds(s, init);
      ApplyWithoutOverflow(ApplyAll(s, init), r);
    }
  }

  /** Reports of at most one increment each never leave usage above the grant. */
  lemma {:induction false} SmallReportsStayWithinGrant(s: ChargingSession, rs: seq<Report>)
    requires s.volumeUplink == 0 && s.volumeDownlink == 0 && s.grantedUnits == GRANT
    requires Used(rs) + GRANT < TWO64
    requires forall i :: 0 <= i < |rs| ==> rs[i].uplink + rs[i].downlink <= GRANT
    ensures Used(rs) <= ApplyAll(s, rs).grantedUnits
  {
    QuotaBounds(s, rs);
    NoExcess(rs);
  }

  lemma {:induction false} NoExcess(rs: seq<Report>)
    requires forall i :: 0 <= i < |rs| ==> rs[i].uplink + rs[i].downlink <= GRANT
    ensures Excess(rs) == 0
  {
    if rs != [] {
      NoExcess(rs[..|rs| - 1]);
    }
  }

  // ---- what callers are answered ------------------------------------------------------------------------

  /** The identifier that the next charging session of a SUPI prints. */
  function NextId(c: State, supi: string): string {
    "chg-" + supi + "-" + Dec((c.counter + 1) % 0x1_0000_0000_0000_0000)
  }

  /** A creation hands out an identifier exactly when it is complete and its Put succeeds. Behind it is a session with every
      field as requested, no volume and a grant of 10^6. */
  lemma CreateAnswers(c: State, req: CreateRequest, putOk: bool)
    ensures var (c', reply) := Create(c, req, putOk);
            var valid, id := req.supi != "" && req.pduSessionId != "", NextId(c, req.supi);
            && reply.status == (if !valid then 400 else if putOk then 201 else 500)
            && reply.chargingId == (if reply.status == 201 then id else "") && id != ""
            && c'.records == c.records
            && (reply.status != 201 ==> c'.sessions == c.sessions)
            && c'.counter == (if valid then (c.counter + 1) % 0x1_0000_0000_0000_0000 else c.counter)
            && (reply.status == 201 ==>
                  && c'.sessions.Keys == c.sessions.Keys + {id}
                  && (forall j :: j in c.sessions && j != id ==> c'.sessions[j] == c.sessions[j])
                  && c'.sessions[id] == ChargingSession(id, req.supi, req.pduSessionId, req.dnn, req.snssai,
                       if req.chargingType == "" then "OFFLINE" else req.chargingType, "ACTIVE", 0, 0, 1_000_000))
  {
    SerialOfIdentifier("chg", req.supi, Next64(c.counter));
    assert ChargingId(req.supi, Next64(c.counter)) == NextId(c, req.supi);
    hide Identifier;
  }

  /** A report is accepted exactly when there is a session and the Put succeeds. Both volumes grow by it modulo 2^64, and the
      grant by 10^6 exactly when their sum modulo 2^64 is then above it; nothing else changes. */
  lemma UpdateAnswers(c: State, id: string, r: Report, putOk: bool)
    ensures var (c', status) := Update(c, id, r, putOk);
            && status == (if id == "" then 400 else if id !in c.sessions then 404 else if putOk then 200 else 500)
            && (status != 200 ==> c' == c)
            && (status == 200 ==>
                  && c'.records == c.records && c'.counter == c.counter && c'.sessions.Keys == c.sessions.Keys
                  && (forall j :: j in c.sessions && j != id ==> c'.sessions[j] == c.sessions[j])
                  && var s, s' := c.sessions[id], c'.sessions[id];
                     && s'.volumeUplink == (s.volumeUplink + r.uplink) % 0x1_0000_0000_0000_0000
                     && s'.volumeDownlink == (s.volumeDownlink + r.downlink) % 0x1_0000_0000_0000_0000
                     && s'.grantedUnits ==
                          (if (s'.volumeUplink + s'.volumeDownlink) % 0x1_0000_0000_0000_0000 > s.grantedUnits
                           then (s.grantedUnits + 1_000_000) % 0x1_0000_0000_0000_0000 else s.grantedUnits)
                     && s' == s.(volumeUplink := s'.volumeUplink, volumeDownlink := s'.volumeDownlink, grantedUnits := s'.grantedUnits))
  {
  }

  /** A release is carried out exactly when there is a session and the record can be put: the session is gone, and its record, with
      every field of the session, is under the identifier that the charging identifier prints. */
  lemma ReleaseAnswers(c: State, id: string, putOk: bool)
    ensures var (c', status) := Release(c, id, putOk);
            && status == (if id == "" then 400 else if id !in c.sessions then 404 else if putOk then 200 else 500)
            && (status != 200 ==> c' == c)
            && (status == 200 ==>
                  && c'.counter == c.counter && c'.sessions.Keys == c.sessions.Keys - {id}
                  && (forall j :: j in c'.sessions ==> c'.sessions[j] == c.sessions[j])
                  && c'.records.Keys == c.records.Keys + {"cdr-" + id}
                  && (forall j :: j in c.records && j != "cdr-" + id ==> c'.records[j] == c.records[j])
                  && var s := c.sessions[id];
                     c'.records["cdr-" + id] == ChargingRecord("cdr-" + id, s.chargingId, s.supi, s.pduSessionId, s.dnn,
                                                               s.snssai, s.volumeUplink, s.volumeDownlink))
  {
  }
}
