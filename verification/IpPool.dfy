/** UE address allocation: a cursor that walks the 256 x 254 addresses of a /16 pool. */
module IpPool {
  import opened Text

  const SUBNETS: nat := 256
  const HOSTS: nat := 254
  const POOL: nat := 65024

  /** fmt.Sprintf("%s.%d.%d", prefix, subnet, host) */
  function Address(prefix: string, subnet: nat, host: nat): string {
    prefix + "." + Dec(subnet) + "." + Dec(host)
  }

  /** The pool in the order in which the cursor visits it: hosts 1 to 254 of subnet 0, then of subnet 1, ... */
  function Addresses(prefix: string): (pool: seq<string>)
    ensures |pool| == POOL
  {
    seq(POOL, i requires 0 <= i < POOL => Address(prefix, i / HOSTS, i % HOSTS + 1))
  }

  /** The pool in print: subnet 0 first, within each subnet the hosts 1 to 254, and the subnet in front of the host. */
  lemma PoolInPrint(prefix: string, subnet: nat, host: nat)
    requires subnet < 256 && 1 <= host <= 254
    ensures subnet * 254 + host - 1 < POOL
    ensures Addresses(prefix)[subnet * 254 + host - 1] == prefix + "." + Dec(subnet) + "." + Dec(host)
  {
    var i := subnet * 254 + host - 1;
    assert i / HOSTS == subnet && i % HOSTS + 1 == host;
  }

  lemma AddressInjective(prefix: string, subnet: nat, host: nat, subnet': nat, host': nat)
    requires Address(prefix, subnet, host) == Address(prefix, subnet', host')
    ensures subnet == subnet' && host == host'
  {
    ParseDec(subnet);
    ParseDec(subnet');
    ParseDec(host);
    ParseDec(host');
    var a, a' := prefix + "." + Dec(subnet), prefix + "." + Dec(subnet');
    assert Address(prefix, subnet, host) == a + ['.'] + Dec(host);
    assert Address(prefix, subnet', host') == a' + ['.'] + Dec(host');
    LastSeparatorSplits(a, Dec(host), a', Dec(host'), '.');
    assert a == prefix + ['.'] + Dec(subnet) && a' == prefix + ['.'] + Dec(subnet');
    LastSeparatorSplits(prefix, Dec(subnet), prefix, Dec(subnet'), '.');
  }

  ghost predicate Distinct(pool: seq<string>) {
    forall i, j :: 0 <= i < |pool| && 0 <= j < |pool| && pool[i] == pool[j] ==> i == j
  }

  /** The 65,024 printed addresses are pairwise different and none is the empty text. */
  lemma AddressesDistinct(prefix: string)
    ensures Distinct(Addresses(prefix))
    ensures "" !in Addresses(prefix)
  {
    var pool := Addresses(prefix);
    forall i, j | 0 <= i < POOL && 0 <= j < POOL && pool[i] == pool[j] ensures i == j {
      AddressInjective(prefix, i / HOSTS, i % HOSTS + 1, j / HOSTS, j % HOSTS + 1);
    }
  }

  /** The address the cursor reaches after k steps from position cur. */
  function Probe(pool: seq<string>, cur: nat, k: nat): string
    requires |pool| == POOL
  {
    pool[(cur + k) % POOL]
  }

  /** How many steps the cursor has to take, k or more, to stand on a free address;
      POOL when the rest of the round finds none. The contract pins the least such distance. */
  function FirstFree(pool: seq<string>, taken: set<string>, cur: nat, k: nat): (r: nat)
    requires |pool| == POOL && k <= POOL
    ensures k <= r <= POOL
    ensures forall j :: k <= j < r ==> Probe(pool, cur, j) in taken
    ensures r < POOL ==> Probe(pool, cur, r) !in taken
    decreases POOL - k
  {
    if k == POOL || Probe(pool, cur, k) !in taken then k else FirstFree(pool, taken, cur, k + 1)
  }

  /** The number of addresses one call probes. */
  function Probes(pool: seq<string>, taken: set<string>, cur: nat): (n: nat)
    requires |pool| == POOL
    ensures 1 <= n <= POOL
  {
    var r := FirstFree(pool, taken, cur, 0);
    if r == POOL then POOL else r + 1
  }

  lemma StepsAdd(a: int, b: int)
    ensures (a % POOL + b) % POOL == (a + b) % POOL
  {
  }

  lemma SamePositionIsARoundLater(a: nat, b: nat)
    requires a < b && a % POOL == b % POOL
    ensures b - a >= POOL
  {
  }

  /** One call never probes an address twice. */
  lemma ProbesDistinct(pool: seq<string>, cur: nat, j: nat, k: nat)
    requires |pool| == POOL && Distinct(pool)
    requires j < k < POOL
    ensures Probe(pool, cur, j) != Probe(pool, cur, k)
  {
    if (cur + j) % POOL == (cur + k) % POOL {
      SamePositionIsARoundLater(cur + j, cur + k);
    }
  }

  lemma EveryAddressIsProbed(pool: seq<string>, cur: nat, i: nat) returns (j: nat)
    requires |pool| == POOL && i < POOL
    ensures j < POOL && Probe(pool, cur, j) == pool[i]
  {
    j := (i - cur) % POOL;
    StepsAdd(i - cur, cur);
  }

  /** The pool is reported exhausted exactly when every one of its addresses is taken. */
  lemma ExhaustedIffFull(pool: seq<string>, taken: set<string>, cur: nat)
    requires |pool| == POOL
    ensures FirstFree(pool, taken, cur, 0) == POOL <==> forall a :: a in pool ==> a in taken
  {
    var r := FirstFree(pool, taken, cur, 0);
    if r == POOL {
      forall i | 0 <= i < POOL ensures pool[i] in taken {
        var j := EveryAddressIsProbed(pool, cur, i);
        assert Probe(pool, cur, j) in taken;
      }
    }
  }

  // ---- several calls in a row, the pool changing arbitrarily in between ---------------

  /** Total probes made by successive calls that find the given addresses taken. */
  function TotalProbes(pool: seq<string>, cur: nat, calls: seq<set<string>>): nat
    requires |pool| == POOL
  {
    if calls == [] then 0
    else
      var before := TotalProbes(pool, cur, calls[..|calls| - 1]);
      before + Probes(pool, calls[|calls| - 1], (cur + before) % POOL)
  }

  /** What the last of the calls returns: the cursor started at cur and moved on by every probe since. */
  function LastAnswer(pool: seq<string>, cur: nat, calls: seq<set<string>>): Option<string>
    requires |pool| == POOL && calls != []
  {
    var here := (cur + TotalProbes(pool, cur, calls[..|calls| - 1])) % POOL;
    var r := FirstFree(pool, calls[|calls| - 1], here, 0);
    if r == POOL then None else Some(Probe(pool, here, r))
  }

  lemma {:induction false} TotalProbesGrow(pool: seq<string>, cur: nat, calls: seq<set<string>>, i: nat)
    requires |pool| == POOL && i < |calls|
    ensures TotalProbes(pool, cur, calls[..i]) < TotalProbes(pool, cur, calls)
    decreases |calls|
  {
    var init := calls[..|calls| - 1];
    if i < |calls| - 1 {
      TotalProbesGrow(pool, cur, init, i);
      assert init[..i] == calls[..i];
    }
  }

  lemma ProbeFrom(pool: seq<string>, cur: nat, before: nat, r: nat)
    requires |pool| == POOL
    ensures Probe(pool, (cur + before) % POOL, r) == Probe(pool, cur, before + r)
  {
    StepsAdd(cur + before, r);
  }

  /** The answer of a call is the address at the cumulative probe count. */
  lemma {:induction false} AnswerPosition(pool: seq<string>, cur: nat, calls: seq<set<string>>)
    requires |pool| == POOL && calls != [] && LastAnswer(pool, cur, calls).Some?
    ensures LastAnswer(pool, cur, calls) == Some(Probe(pool, cur, TotalProbes(pool, cur, calls) - 1))
  {
    var before := TotalProbes(pool, cur, calls[..|calls| - 1]);
    var r := FirstFree(pool, calls[|calls| - 1], (cur + before) % POOL, 0);
    ProbeFrom(pool, cur, before, r);
  }

  lemma SameProbeIsARoundLater(pool: seq<string>, cur: nat, p: nat, q: nat)
    requires |pool| == POOL && Distinct(pool)
    requires p < q && Probe(pool, cur, p) == Probe(pool, cur, q)
    ensures q - p >= POOL
  {
    SamePositionIsARoundLater(cur + p, cur + q);
  }

  /** Two calls return the same address only when at least POOL probes lie between them. */
  lemma {:induction false} AddressRecursOnlyAfterARound(pool: seq<string>, cur: nat, calls: seq<set<string>>, i: nat, j: nat)
    requires |pool| == POOL && Distinct(pool)
    requires 1 <= i < j <= |calls|
    requires LastAnswer(pool, cur, calls[..i]).Some?
    requires LastAnswer(pool, cur, calls[..i]) == LastAnswer(pool, cur, calls[..j])
    ensures TotalProbes(pool, cur, calls[..j]) - TotalProbes(pool, cur, calls[..i]) >= POOL
  {
    hide LastAnswer, TotalProbes;
    AnswerPosition(pool, cur, calls[..i]);
    AnswerPosition(pool, cur, calls[..j]);
    var p, q := TotalProbes(pool, cur, calls[..i]), TotalProbes(pool, cur, calls[..j]);
    assert calls[..j][..i] == calls[..i];
    assert calls[..i][..0] == [];
    TotalProbesGrow(pool, cur, calls[..i], 0);
    TotalProbesGrow(pool, cur, calls[..j], i);
    SameProbeIsARoundLater(pool, cur, p - 1, q - 1);
  }
}
