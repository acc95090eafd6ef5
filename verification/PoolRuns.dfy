/** The address cursor within whole runs of the core: it has moved by exactly the probes made, so an address comes back only
    after a full round of them. */
module PoolRuns {
  import opened Text
  import opened Models
  import opened IpPool
  import opened World
  import opened SmfInvariant
  import opened Runs
  import Smf
  import Amf
  import Bsf
  import Chf
  import Nsacf

  /** The request gets as far as address allocation. */
  predicate Allocates(cfg: Config, op: Op) {
    && op.CreateOp? && op.creation.supi != "" && (cfg.sbi ==> op.createEnv.policy.Some?)
    && !(cfg.nsacf && cfg.sbi && op.createEnv.admission == Smf.Denied)
  }

  /** The taken addresses that each allocation of a run meets. */
  function Met(cfg: Config, ops: seq<Op>): seq<set<string>> {
    if ops == [] then []
    else
      var init, op := ops[..|ops| - 1], ops[|ops| - 1];
      if Allocates(cfg, op) then Met(cfg, init) + [Run(cfg, init).leases.Keys] else Met(cfg, init)
  }

  /** All probes of the allocations of a run. */
  function ProbesOf(cfg: Config, ops: seq<Op>): nat {
    TotalProbes(Addresses(cfg.prefix), 0, Met(cfg, ops))
  }

  lemma SettleKeepsCursor(w: World, cfg: Config, s: PduSession, env: Smf.CreateEnv)
    ensures Cursor(Smf.Settle(w, cfg, s, env)) == Cursor(w)
  {
    hide Smf.Charge, Bsf.Register, Nsacf.Update;
    var (w2, s2) := Smf.Bind(Smf.PutSession(w, s), cfg, s, env);
    ChargeKeepsCursor(w2, cfg, s2, env);
  }

  lemma ChargeKeepsCursor(w: World, cfg: Config, s: PduSession, env: Smf.CreateEnv)
    ensures Cursor(Smf.Charge(w, cfg, s, env).0) == Cursor(w)
  {
    hide Chf.Create;
  }

  lemma InstallKeepsCursor(w: World, cfg: Config, req: Smf.CreateRequest, policy: Smf.Policy, ip: string, env: Smf.CreateEnv)
    ensures Cursor(Smf.Install(w, cfg, req, policy, ip, env).0) == Cursor(w)
  {
    hide Smf.Settle, Identifier;
    var n := Next64(w.seid);
    var w1 := w.(seid := n);
    var w2 := if cfg.pfcp then w1.(upf := w1.upf + {n}) else w1;
    SettleKeepsCursor(w2, cfg, Smf.NewSession(req, policy, ip, n), env);
  }

  /** One allocation moves the cursor by its probes, and hands out the first free address. */
  lemma AllocateMoves(w: World, prefix: string, putOk: bool)
    ensures var pool := Addresses(prefix);
            var (w', ip) := Smf.Allocate(w, prefix, putOk);
            && Cursor(w') == (Cursor(w) + Probes(pool, w.leases.Keys, Cursor(w))) % POOL
            && (ip.Some? ==> var r := FirstFree(pool, w.leases.Keys, Cursor(w), 0);
                             r < POOL && ip.value == Probe(pool, Cursor(w), r))
  {
    hide FirstFree, Probe, Addresses;
    assert (Cursor(w) + POOL) % POOL == Cursor(w);
  }

  lemma StepMoves(w: World, cfg: Config, op: Op)
    ensures var pool := Addresses(cfg.prefix);
            && (!Allocates(cfg, op) ==> Cursor(Step(w, cfg, op)) == Cursor(w))
            && (Allocates(cfg, op) ==>
                  && Cursor(Step(w, cfg, op)) == (Cursor(w) + Probes(pool, w.leases.Keys, Cursor(w))) % POOL
                  && var reply := Smf.Create(w, cfg, op.creation, op.createEnv).1;
                     reply.status == CREATED ==>
                       var r := FirstFree(pool, w.leases.Keys, Cursor(w), 0);
                       r < POOL && reply.ueAddress == Probe(pool, Cursor(w), r))
  {
    hide Addresses, FirstFree, Probe, Probes, Smf.Allocate, Smf.Install, Cursor;
    hide Bsf.Deregister, Chf.Release, Chf.Update, Nsacf.Update, Serial, Amf.CountAll;
    if Allocates(cfg, op) {
      AllocateMoves(w, cfg.prefix, op.createEnv.allocatePut);
      var (w1, ip) := Smf.Allocate(w, cfg.prefix, op.createEnv.allocatePut);
      if ip.Some? {
        var policy := Smf.DefaultPolicy(cfg, op.createEnv).value;
        InstallKeepsCursor(w1, cfg, op.creation, policy, ip.value, op.createEnv);
        InstallHands(w1, cfg, op.creation, policy, ip.value, op.createEnv);
      }
    } else {
      SameCursor(w, Step(w, cfg, op));
    }
  }

  lemma SameCursor(w: World, w': World)
    ensures w'.subnet == w.subnet && w'.host == w.host ==> Cursor(w') == Cursor(w)
  {
  }

  lemma TotalProbesAppend(pool: seq<string>, calls: seq<set<string>>, taken: set<string>)
    requires |pool| == POOL
    ensures TotalProbes(pool, 0, calls + [taken])
            == TotalProbes(pool, 0, calls) + Probes(pool, taken, TotalProbes(pool, 0, calls) % POOL)
  {
    assert (calls + [taken])[..|calls|] == calls;
  }

  lemma CursorAfterStep(w: World, cfg: Config, op: Op, met: seq<set<string>>)
    requires Cursor(w) == TotalProbes(Addresses(cfg.prefix), 0, met) % POOL
    ensures Cursor(Step(w, cfg, op)) ==
            TotalProbes(Addresses(cfg.prefix), 0, if Allocates(cfg, op) then met + [w.leases.Keys] else met) % POOL
  {
    hide Step, TotalProbes, Probes, Addresses, Cursor, Allocates;
    StepMoves(w, cfg, op);
    var pool := Addresses(cfg.prefix);
    var before := TotalProbes(pool, 0, met);
    TotalProbesAppend(pool, met, w.leases.Keys);
    StepsAdd(before, Probes(pool, w.leases.Keys, Cursor(w)));
  }

  /** In every run, whatever fails, the cursor stands where all probes of all allocations took it. */
  lemma {:induction false} CursorOfRun(cfg: Config, ops: seq<Op>)
    ensures Cursor(Run(cfg, ops)) == ProbesOf(cfg, ops) % POOL
  {
    hide Step, Addresses, Allocates;
    if ops != [] {
      hide TotalProbes, Cursor;
      CursorOfRun(cfg, ops[..|ops| - 1]);
      CursorAfterStep(Run(cfg, ops[..|ops| - 1]), cfg, ops[|ops| - 1], Met(cfg, ops[..|ops| - 1]));
    }
  }

  /** The answer of the k-th request of a run, when it is a create. */
  function ReplyAt(cfg: Config, ops: seq<Op>, k: nat): Smf.CreateReply
    requires k < |ops| && ops[k].CreateOp?
  {
    Smf.Create(Run(cfg, ops[..k]), cfg, ops[k].creation, ops[k].createEnv).1
  }

  /** The address of an answered create is what the last allocation up to it found. */
  lemma ReplyIsLastAnswer(cfg: Config, ops: seq<Op>, k: nat)
    requires k < |ops| && ops[k].CreateOp? && ReplyAt(cfg, ops, k).status == CREATED
    ensures Met(cfg, ops[..k + 1]) != []
    ensures LastAnswer(Addresses(cfg.prefix), 0, Met(cfg, ops[..k + 1])) == Some(ReplyAt(cfg, ops, k).ueAddress)
  {
    var w, pool := Run(cfg, ops[..k]), Addresses(cfg.prefix);
    assert ops[..k + 1][..k] == ops[..k];
    assert Allocates(cfg, ops[k]) by { CreatedWasAllocated(w, cfg, ops[k]); }
    var calls := Met(cfg, ops[..k + 1]);
    assert calls == Met(cfg, ops[..k]) + [w.leases.Keys];
    assert calls[..|calls| - 1] == Met(cfg, ops[..k]);
    hide Run, Smf.Create, Addresses, FirstFree, Probe, Cursor, TotalProbes, Met, Allocates;
    CursorOfRun(cfg, ops[..k]);
    StepMoves(w, cfg, ops[k]);
  }

  lemma CreatedWasAllocated(w: World, cfg: Config, op: Op)
    requires op.CreateOp? && Smf.Create(w, cfg, op.creation, op.createEnv).1.status == CREATED
    ensures Allocates(cfg, op)
  {
    hide Smf.Allocate, Smf.Install;
  }

  lemma {:induction false} MetOfPrefix(cfg: Config, ops: seq<Op>, k: nat)
    requires k <= |ops|
    ensures Met(cfg, ops[..k]) <= Met(cfg, ops)
    decreases |ops|
  {
    hide Run, Allocates;
    if k == |ops| {
      assert ops[..k] == ops;
    } else {
      MetOfPrefix(cfg, ops[..|ops| - 1], k);
      assert ops[..|ops| - 1][..k] == ops[..k];
    }
  }

  /** In every run, whatever fails and is released in between, two creates are answered with the same address only when the
      allocations since the first of them have made 65,024 probes. */
  lemma AddressReturnsOnlyAfterARound(cfg: Config, ops: seq<Op>, k: nat, k': nat)
    requires k < k' < |ops| && ops[k].CreateOp? && ops[k'].CreateOp?
    requires ReplyAt(cfg, ops, k).status == CREATED == ReplyAt(cfg, ops, k').status
    requires ReplyAt(cfg, ops, k).ueAddress == ReplyAt(cfg, ops, k').ueAddress
    ensures ProbesOf(cfg, ops[..k' + 1]) - ProbesOf(cfg, ops[..k + 1]) >= POOL
  {
    hide Run, Smf.Create, Addresses, LastAnswer, TotalProbes, Allocates;
    var pool, calls := Addresses(cfg.prefix), Met(cfg, ops[..k' + 1]);
    AddressesDistinct(cfg.prefix);
    ReplyIsLastAnswer(cfg, ops, k);
    ReplyIsLastAnswer(cfg, ops, k');
    MetOfPrefix(cfg, ops[..k'], k + 1);
    assert ops[..k'][..k + 1] == ops[..k + 1] && ops[..k' + 1][..k'] == ops[..k'];
    CreatedWasAllocated(Run(cfg, ops[..k']), cfg, ops[k']);
    MetGrows(cfg, ops[..k' + 1]);
    hide Met, ReplyAt;
    var i, j := |Met(cfg, ops[..k + 1])|, |calls|;
    assert calls[..i] == Met(cfg, ops[..k + 1]) && calls[..j] == calls;
    AddressRecursOnlyAfterARound(pool, 0, calls, i, j);
  }

  lemma MetGrows(cfg: Config, ops: seq<Op>)
    requires ops != []
    ensures Met(cfg, ops[..|ops| - 1]) <= Met(cfg, ops)
    ensures Allocates(cfg, ops[|ops| - 1]) ==> |Met(cfg, ops)| == |Met(cfg, ops[..|ops| - 1])| + 1
  {
  }
}
