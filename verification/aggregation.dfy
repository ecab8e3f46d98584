/** The main loop of the utilisation report (`analyze_cluster`): every node
    of the inventory is classified once and then either counted as offline,
    entered in the exclusion ledger, or added to the compute or GPU pool. */
module Aggregation {
  import opened Results
  import opened Text
  import opened Inventory
  import opened ClusterStats

  /** The running totals of one pool. The compute pool has no device
      counters in the script; here they exist for both pools and stay zero
      for compute (see `NodesAccounted`). */
  datatype Pool = Pool(
    included: nat,
    offline: nat,
    coresAvailable: int,
    coresAssigned: int,
    memAvailableMB: real,
    memAssignedMB: real,
    devicesAvailable: int,
    devicesAssigned: int,
    jobs: set<string>)

  const Empty: Pool := Pool(0, 0, 0, 0, 0.0, 0.0, 0, 0, {})

  /** Field-wise sum of two pools; job sets are united. */
  function Plus(p: Pool, q: Pool): Pool {
    Pool(
      p.included + q.included,
      p.offline + q.offline,
      p.coresAvailable + q.coresAvailable,
      p.coresAssigned + q.coresAssigned,
      p.memAvailableMB + q.memAvailableMB,
      p.memAssignedMB + q.memAssignedMB,
      p.devicesAvailable + q.devicesAvailable,
      p.devicesAssigned + q.devicesAssigned,
      p.jobs + q.jobs)
  }

  /** `excluded_nodes`: the names excluded for each reason, in the order met.
      `excluded_counts[reason]` is the length of the same list. */
  type Ledger = map<Reason, seq<string>>

  function Listed(l: Ledger, r: Reason): seq<string> {
    if r in l then l[r] else []
  }

  function Record(l: Ledger, r: Reason, name: string): (l': Ledger)
    ensures Listed(l', r) == Listed(l, r) + [name]
    ensures forall r' :: r' != r ==> Listed(l', r') == Listed(l, r')
  {
    l[r := Listed(l, r) + [name]]
  }

  datatype Stats = Stats(compute: Pool, gpu: Pool, totalNodes: nat, excluded: Ledger)

  const Initial: Stats := Stats(Empty, Empty, 0, map[])

  /** The classifier applied to a node's state, queue list and node kind,
      with the script's defaults for missing attributes. */
  function VerdictOf(b: Block): Verdict {
    Classify(
      Get(b, "state", "unknown"),
      Get(b, "resources_available.Qlist", ""),
      Get(b, "resources_available.vntype", ""))
  }

  /** The pool a down or offline node would belong to: GPU when its queue
      list names `gpuq`, compute otherwise (also when it has no list). */
  function OfflinePool(b: Block): (k: PoolKind)
    ensures k != Unknown
    ensures k == Gpu <==> GpuQueue in QueueSet(Get(b, "resources_available.Qlist", ""))
  {
    var qlist := Get(b, "resources_available.Qlist", "");
    if qlist != "" && GpuQueue in QueueSet(qlist) then Gpu
    else
      assert qlist == "" ==> QueueSet(qlist) == {} by {
        if qlist == "" { assert Split(qlist, ',') == [""]; }
      }
      Compute
  }

  /** `safe_int_parse(node.get(key, 0))`: a missing key reads as 0. */
  function Count(b: Block, key: string): int {
    SafeIntParse(Get(b, key, ""), 0)
  }

  function MemAvailable(b: Block): Result<real> {
    ParseMemoryValue(Get(b, "resources_available.mem", "0"))
  }

  function MemAssigned(b: Block): Result<real> {
    ParseMemoryValue(Get(b, "resources_assigned.mem", "0"))
  }

  function Jobs(b: Block): set<string> {
    CountUniqueJobs(Get(b, "jobs", ""))
  }

  /** Everything the loop body reads from one node. Reading has no side
      effect, so the loop is modelled as reading every node and then folding
      over the readings. */
  datatype Reading = Reading(
    verdict: Verdict,
    offlinePool: PoolKind,
    name: string,
    coresAvailable: int,
    coresAssigned: int,
    memAvailable: Result<real>,
    memAssigned: Result<real>,
    devicesAvailable: int,
    devicesAssigned: int,
    jobs: set<string>)

  /** What the classifier guarantees about a verdict, and the offline pool
      being a real pool. */
  predicate WellFormed(n: Reading) {
    && (n.verdict.counted <==> n.verdict.reason == Included)
    && (n.verdict.counted ==> n.verdict.pool != Unknown)
    && n.offlinePool != Unknown
  }

  predicate AllWellFormed(ns: seq<Reading>) {
    forall i :: 0 <= i < |ns| ==> WellFormed(ns[i])
  }

  function Read(b: Block): (n: Reading)
    ensures WellFormed(n)
  {
    Reading(
      VerdictOf(b), OfflinePool(b), Name(b),
      Count(b, "resources_available.ncpus"), Count(b, "resources_assigned.ncpus"),
      MemAvailable(b), MemAssigned(b),
      Count(b, "resources_available.ngpus"), Count(b, "resources_assigned.ngpus"),
      Jobs(b))
  }

  function Readings(nodes: seq<Block>): (ns: seq<Reading>)
    ensures |ns| == |nodes|
    ensures forall i :: 0 <= i < |nodes| ==> ns[i] == Read(nodes[i])
    ensures AllWellFormed(ns)
  {
    seq(|nodes|, i requires 0 <= i < |nodes| => Read(nodes[i]))
  }

  /** Adds a counted node, whose memory figures are already read, to a pool. */
  function Add(p: Pool, n: Reading, memAvailable: real, memAssigned: real, devices: bool): Pool {
    p.(
      included := p.included + 1,
      coresAvailable := p.coresAvailable + n.coresAvailable,
      coresAssigned := p.coresAssigned + n.coresAssigned,
      memAvailableMB := p.memAvailableMB + memAvailable,
      memAssignedMB := p.memAssignedMB + memAssigned,
      devicesAvailable := p.devicesAvailable + (if devices then n.devicesAvailable else 0),
      devicesAssigned := p.devicesAssigned + (if devices then n.devicesAssigned else 0),
      jobs := p.jobs + n.jobs)
  }

  /** Whether reading this node raises: only counted nodes have their
      memory read, and an unreadable suffixed figure is not caught. */
  predicate Failing(n: Reading) {
    n.verdict.counted && (n.memAvailable.Err? || n.memAssigned.Err?)
  }

  predicate Clean(ns: seq<Reading>) {
    forall i :: 0 <= i < |ns| ==> !Failing(ns[i])
  }

  /** One pass of the loop body. */
  function Step(s: Stats, n: Reading): (r: Result<Stats>)
    ensures WellFormed(n) ==> (r.Ok? <==> !Failing(n))
    ensures r.Ok? ==> r.value.totalNodes == s.totalNodes + 1
  {
    var s := s.(totalNodes := s.totalNodes + 1);
    var v := n.verdict;
    if v.reason == DownOffline then
      if n.offlinePool == Gpu then Ok(s.(gpu := s.gpu.(offline := s.gpu.offline + 1)))
      else Ok(s.(compute := s.compute.(offline := s.compute.offline + 1)))
    else if !v.counted then
      Ok(s.(excluded := Record(s.excluded, v.reason, n.name)))
    else
      var memAvailable :- n.memAvailable;
      var memAssigned :- n.memAssigned;
      if v.pool == Gpu then Ok(s.(gpu := Add(s.gpu, n, memAvailable, memAssigned, true)))
      else Ok(s.(compute := Add(s.compute, n, memAvailable, memAssigned, false)))
  }

  /** The loop over the nodes: it stops at the first pass that raises, and
      otherwise every node adds one to the total. */
  function Run(s: Stats, ns: seq<Reading>): (r: Result<Stats>)
    ensures AllWellFormed(ns) ==> (r.Ok? <==> Clean(ns))
    ensures r.Ok? ==> r.value.totalNodes == s.totalNodes + |ns|
    decreases |ns|
  {
    if |ns| == 0 then Ok(s)
    else
      HeadAndTail(ns);
      var s' :- Step(s, ns[0]);
      Run(s', ns[1..])
  }

  /** `analyze_cluster` over an already parsed inventory: it completes
      exactly when no counted node has an unreadable memory figure, and then
      every node counts once towards the total. */
  function AnalyzeCluster(nodes: seq<Block>): (r: Result<Stats>)
    ensures r.Ok? <==> forall i :: 0 <= i < |nodes| ==> !Faults(nodes[i])
    ensures r.Ok? ==> r.value.totalNodes == |nodes|
  {
    var ns := Readings(nodes);
    assert Clean(ns) <==> forall i :: 0 <= i < |nodes| ==> !Faults(nodes[i]);
    Run(Initial, ns)
  }

  /** `analyze_cluster` over the raw `pbsnodes -a` text. */
  function AnalyzeSnapshot(content: string): Result<Stats> {
    AnalyzeCluster(ParseBlocks(content))
  }

  // ----- Reference definition: what each node contributes on its own -----

  /** What one node adds to the pool of the given kind. */
  function Share(n: Reading, kind: PoolKind): Pool {
    var v := n.verdict;
    if v.reason == DownOffline then
      if n.offlinePool == kind then Empty.(offline := 1) else Empty
    else if v.counted && v.pool == kind then
      Pool(1, 0, n.coresAvailable, n.coresAssigned,
           n.memAvailable.GetOr(0.0), n.memAssigned.GetOr(0.0),
           if kind == Gpu then n.devicesAvailable else 0,
           if kind == Gpu then n.devicesAssigned else 0,
           n.jobs)
    else
      Empty
  }

  /** The sum of every node's share of one pool. */
  function Tally(ns: seq<Reading>, kind: PoolKind): Pool
    decreases |ns|
  {
    if |ns| == 0 then Empty else Plus(Share(ns[0], kind), Tally(ns[1..], kind))
  }

  /** Whether the node goes into the exclusion ledger under `r`. */
  predicate Ledgered(n: Reading, r: Reason) {
    !n.verdict.counted && n.verdict.reason != DownOffline && n.verdict.reason == r
  }

  /** The ledger entry a node makes under `r`: its name, or nothing. */
  function Entry(n: Reading, r: Reason): seq<string> {
    if Ledgered(n, r) then [n.name] else []
  }

  /** The names of the nodes excluded for `r`, in inventory order. */
  function ExcludedNames(ns: seq<Reading>, r: Reason): seq<string>
    decreases |ns|
  {
    if |ns| == 0 then [] else Entry(ns[0], r) + ExcludedNames(ns[1..], r)
  }

  // ----- Lemmas -----

  lemma PlusEmpty(p: Pool)
    ensures Plus(Empty, p) == p && Plus(p, Empty) == p
  {
  }

  lemma PlusAssoc(p: Pool, q: Pool, r: Pool)
    ensures Plus(Plus(p, q), r) == Plus(p, Plus(q, r))
  {
  }

  lemma PlusComm(p: Pool, q: Pool)
    ensures Plus(p, q) == Plus(q, p)
  {
  }

  /** One loop pass adds exactly the node's shares, and ledgers it when it
      is excluded for a reason other than being down. */
  lemma StepShares(s: Stats, n: Reading)
    requires WellFormed(n) && !Failing(n)
    ensures Step(s, n).Ok?
    ensures Step(s, n).value.compute == Plus(s.compute, Share(n, Compute))
    ensures Step(s, n).value.gpu == Plus(s.gpu, Share(n, Gpu))
    ensures forall r :: Listed(Step(s, n).value.excluded, r) == Listed(s.excluded, r) + Entry(n, r)
  {
    var v := n.verdict;
    var t := Step(s, n).value;
    if v.reason == DownOffline {
      assert t.excluded == s.excluded;
    } else if !v.counted {
      assert t.compute == s.compute && t.gpu == s.gpu;
    } else {
      assert t.excluded == s.excluded;
      var ma := n.memAvailable.value;
      var ms := n.memAssigned.value;
      if v.pool == Gpu {
        assert t.gpu == Add(s.gpu, n, ma, ms, true);
      } else {
        assert t.compute == Add(s.compute, n, ma, ms, false);
      }
    }
  }

  /** The loop equals the reference sum: it fails exactly when some counted
      node has an unreadable memory figure, and otherwise each pool grows by
      the sum of the nodes' shares, every node is counted once in the total,
      and the ledger gains the excluded names in order. */
  lemma {:induction false} RunTally(s: Stats, ns: seq<Reading>)
    requires AllWellFormed(ns)
    ensures Run(s, ns).Ok? <==> Clean(ns)
    ensures Run(s, ns).Ok? ==>
              && Run(s, ns).value.compute == Plus(s.compute, Tally(ns, Compute))
              && Run(s, ns).value.gpu == Plus(s.gpu, Tally(ns, Gpu))
              && Run(s, ns).value.totalNodes == s.totalNodes + |ns|
              && forall r :: Listed(Run(s, ns).value.excluded, r)
                             == Listed(s.excluded, r) + ExcludedNames(ns, r)
    decreases |ns|
  {
    if |ns| == 0 {
      PlusEmpty(s.compute);
      PlusEmpty(s.gpu);
    } else {
      HeadAndTail(ns);
      if !Failing(ns[0]) {
        StepShares(s, ns[0]);
        var s1 := Step(s, ns[0]).value;
        RunTally(s1, ns[1..]);
        if Clean(ns) {
          var t := Run(s1, ns[1..]).value;
          assert Run(s, ns).value == t;
          PoolJoin(s.compute, s1.compute, t.compute, ns, Compute);
          PoolJoin(s.gpu, s1.gpu, t.gpu, ns, Gpu);
          LedgerJoin(s.excluded, s1.excluded, t.excluded, ns);
        }
      }
    }
  }

  /** A listing splits into its first reading and the rest, for both the
      well-formedness and the cleanliness conditions. */
  lemma HeadAndTail(ns: seq<Reading>)
    requires |ns| > 0
    ensures AllWellFormed(ns) ==> WellFormed(ns[0]) && AllWellFormed(ns[1..])
    ensures Clean(ns) <==> !Failing(ns[0]) && Clean(ns[1..])
  {
    assert forall i :: 0 <= i < |ns| - 1 ==> ns[1..][i] == ns[i + 1];
  }

  /** The induction step of `RunTally` for one pool: the sum after the
      first reading and the sum over the rest compose into the sum over the
      whole listing. */
  lemma PoolJoin(p: Pool, p1: Pool, q: Pool, ns: seq<Reading>, kind: PoolKind)
    requires |ns| > 0
    requires p1 == Plus(p, Share(ns[0], kind))
    requires q == Plus(p1, Tally(ns[1..], kind))
    ensures q == Plus(p, Tally(ns, kind))
  {
    PlusAssoc(p, Share(ns[0], kind), Tally(ns[1..], kind));
  }

  /** The induction step of `RunTally` for the exclusion ledger. */
  lemma LedgerJoin(l: Ledger, l1: Ledger, lt: Ledger, ns: seq<Reading>)
    requires |ns| > 0
    requires forall r :: Listed(l1, r) == Listed(l, r) + Entry(ns[0], r)
    requires forall r :: Listed(lt, r) == Listed(l1, r) + ExcludedNames(ns[1..], r)
    ensures forall r :: Listed(lt, r) == Listed(l, r) + ExcludedNames(ns, r)
  {
    forall r
      ensures Listed(lt, r) == Listed(l, r) + ExcludedNames(ns, r)
    {
      AppendAssoc(Listed(l, r), Entry(ns[0], r), ExcludedNames(ns[1..], r));
    }
  }

  lemma AppendAssoc(a: seq<string>, b: seq<string>, c: seq<string>)
    ensures a + b + c == a + (b + c)
  {
  }

  /** The node-level condition under which the report completes. */
  predicate Faults(b: Block) {
    Failing(Read(b))
  }

  /** The report completes exactly when no counted node has an unreadable
      memory figure; its figures are then the sums of the nodes' shares,
      every node counts once towards the total, and the ledger lists the
      excluded names per reason in inventory order. */
  lemma AnalyzeTotals(nodes: seq<Block>)
    ensures AnalyzeCluster(nodes).Ok? <==> forall i :: 0 <= i < |nodes| ==> !Faults(nodes[i])
    ensures AnalyzeCluster(nodes).Ok? ==>
              && AnalyzeCluster(nodes).value.compute == Tally(Readings(nodes), Compute)
              && AnalyzeCluster(nodes).value.gpu == Tally(Readings(nodes), Gpu)
              && AnalyzeCluster(nodes).value.totalNodes == |nodes|
              && forall r :: Listed(AnalyzeCluster(nodes).value.excluded, r)
                             == ExcludedNames(Readings(nodes), r)
  {
    var ns := Readings(nodes);
    RunTally(Initial, ns);
    PlusEmpty(Tally(ns, Compute));
    PlusEmpty(Tally(ns, Gpu));
    assert Clean(ns) <==> forall i :: 0 <= i < |nodes| ==> !Faults(nodes[i]);
  }

  /** What a single node adds across both pools and the ledger. */
  lemma ShareAccounted(n: Reading)
    requires WellFormed(n)
    ensures Share(n, Compute).included + Share(n, Compute).offline
          + Share(n, Gpu).included + Share(n, Gpu).offline
          + |Entry(n, NotComputeVnode)| + |Entry(n, NoMonitoredQueues)| == 1
    ensures Share(n, Compute).devicesAvailable == 0 && Share(n, Compute).devicesAssigned == 0
    ensures Entry(n, Included) == [] && Entry(n, DownOffline) == []
  {
  }

  /** Every node lands in exactly one place: included or offline in one of
      the two pools, or in the ledger under one exclusion reason. The
      compute pool never gains devices. */
  lemma {:induction false} NodesAccounted(ns: seq<Reading>)
    requires AllWellFormed(ns)
    ensures |ns| == Tally(ns, Compute).included + Tally(ns, Compute).offline
                  + Tally(ns, Gpu).included + Tally(ns, Gpu).offline
                  + |ExcludedNames(ns, NotComputeVnode)|
                  + |ExcludedNames(ns, NoMonitoredQueues)|
    ensures Tally(ns, Compute).devicesAvailable == 0 && Tally(ns, Compute).devicesAssigned == 0
    ensures ExcludedNames(ns, Included) == [] && ExcludedNames(ns, DownOffline) == []
    decreases |ns|
  {
    if |ns| > 0 {
      assert WellFormed(ns[0]);
      assert AllWellFormed(ns[1..]) by {
        assert forall i :: 0 <= i < |ns| - 1 ==> ns[1..][i] == ns[i + 1];
      }
      ShareAccounted(ns[0]);
      NodesAccounted(ns[1..]);
    }
  }

  lemma {:induction false} TallyAppend(a: seq<Reading>, b: seq<Reading>, kind: PoolKind)
    ensures Tally(a + b, kind) == Plus(Tally(a, kind), Tally(b, kind))
    decreases |a|
  {
    if |a| == 0 {
      assert a + b == b;
      PlusEmpty(Tally(b, kind));
    } else {
      assert (a + b)[0] == a[0];
      assert (a + b)[1..] == a[1..] + b;
      TallyAppend(a[1..], b, kind);
      PlusAssoc(Share(a[0], kind), Tally(a[1..], kind), Tally(b, kind));
    }
  }

  lemma ReadingsAppend(a: seq<Block>, b: seq<Block>)
    ensures Readings(a + b) == Readings(a) + Readings(b)
  {
    var l, r := Readings(a + b), Readings(a) + Readings(b);
    forall i | 0 <= i < |l| ensures l[i] == r[i] {
      if i < |a| {
        assert (a + b)[i] == a[i];
      } else {
        assert (a + b)[i] == b[i - |a|];
      }
    }
    assert l == r;
  }

  /** Where the first element of `s` sits in a rearrangement `t` of it, and
      what is left of `t` once that element is taken out. */
  lemma HeadIn<T>(s: seq<T>, t: seq<T>) returns (i: nat)
    requires |s| > 0 && multiset(s) == multiset(t)
    ensures i < |t| && t[i] == s[0]
    ensures t == t[..i] + ([t[i]] + t[i + 1..])
    ensures multiset(s[1..]) == multiset(t[..i] + t[i + 1..])
  {
    assert s[0] in multiset(t);
    i :| 0 <= i < |t| && t[i] == s[0];
    var a, c := t[..i], t[i + 1..];
    assert t == a + ([t[i]] + c);
    assert multiset(t) == multiset(a) + multiset{t[i]} + multiset(c);
    assert multiset(a + c) == multiset(a) + multiset(c);
    assert s == [s[0]] + s[1..];
    assert multiset(s) == multiset{s[0]} + multiset(s[1..]);
    assert multiset(s[1..]) == multiset(s) - multiset{s[0]};
    assert multiset(a + c) == multiset(t) - multiset{t[i]};
  }

  /** The pool sums do not depend on the order of the readings. */
  lemma {:induction false} TallyPerm(s: seq<Reading>, t: seq<Reading>, kind: PoolKind)
    requires multiset(s) == multiset(t)
    ensures Tally(s, kind) == Tally(t, kind)
    decreases |s|
  {
    if |s| == 0 {
      assert |t| == |multiset(t)| == 0;
    } else {
      var i := HeadIn(s, t);
      var x, a, c := s[0], t[..i], t[i + 1..];
      TallyPerm(s[1..], a + c, kind);
      TallyAppend(a, c, kind);
      TallyAppend(a, [x] + c, kind);
      assert ([x] + c)[0] == x && ([x] + c)[1..] == c;
      var sh, ta, tc := Share(x, kind), Tally(a, kind), Tally(c, kind);
      PlusAssoc(sh, ta, tc);
      PlusComm(sh, ta);
      PlusAssoc(ta, sh, tc);
    }
  }

  /** Whether some counted node has an unreadable memory figure does not
      depend on the order of the readings. */
  lemma CleanPerm(s: seq<Reading>, t: seq<Reading>)
    requires multiset(s) == multiset(t)
    ensures Clean(s) <==> Clean(t)
  {
    if Clean(t) {
      forall i | 0 <= i < |s| ensures !Failing(s[i]) {
        assert s[i] in multiset(t);
        var j :| 0 <= j < |t| && t[j] == s[i];
      }
    }
    if Clean(s) {
      forall j | 0 <= j < |t| ensures !Failing(t[j]) {
        assert t[j] in multiset(s);
        var i :| 0 <= i < |s| && s[i] == t[j];
      }
    }
  }

  /** Reading a rearranged inventory gives the same readings, rearranged. */
  lemma {:induction false} ReadingsPerm(a: seq<Block>, b: seq<Block>)
    requires multiset(a) == multiset(b)
    ensures multiset(Readings(a)) == multiset(Readings(b))
    decreases |a|
  {
    if |a| == 0 {
      assert |b| == |multiset(b)| == 0;
    } else {
      var i := HeadIn(a, b);
      var a', b' := a[1..], b[..i] + b[i + 1..];
      ReadingsPerm(a', b');
      assert a[..0] + a[1..] == a';
      ReadingsWithout(a, 0, a');
      ReadingsWithout(b, i, b');
    }
  }

  /** The readings of an inventory are the reading of one block plus the
      readings of the others. */
  lemma ReadingsWithout(b: seq<Block>, i: nat, rest: seq<Block>)
    requires i < |b| && rest == b[..i] + b[i + 1..]
    ensures multiset(Readings(b)) == multiset(Readings(rest)) + multiset{Read(b[i])}
  {
    var p, q := b[..i], b[i + 1..];
    assert b == p + ([b[i]] + q);
    ReadingsAppend(p, [b[i]] + q);
    ReadingsAppend([b[i]], q);
    ReadingsAppend(p, q);
    var x := Readings([b[i]]);
    assert x == [Read(b[i])];
    MultisetWithout(Readings(p), x, Readings(q));
  }

  lemma MultisetWithout<T>(p: seq<T>, x: seq<T>, q: seq<T>)
    ensures multiset(p + (x + q)) == multiset(p + q) + multiset(x)
  {
  }

  /** The pool figures, the node total and whether the report completes do
      not depend on the order of the inventory. */
  lemma AnalyzeOrderIndependent(a: seq<Block>, b: seq<Block>)
    requires multiset(a) == multiset(b)
    ensures AnalyzeCluster(a).Ok? <==> AnalyzeCluster(b).Ok?
    ensures AnalyzeCluster(a).Ok? ==>
              && AnalyzeCluster(a).value.compute == AnalyzeCluster(b).value.compute
              && AnalyzeCluster(a).value.gpu == AnalyzeCluster(b).value.gpu
              && AnalyzeCluster(a).value.totalNodes == AnalyzeCluster(b).value.totalNodes
  {
    var ra, rb := Readings(a), Readings(b);
    assert |a| == |multiset(a)| == |b|;
    ReadingsPerm(a, b);
    RunTally(Initial, ra);
    RunTally(Initial, rb);
    CleanPerm(ra, rb);
    TallyPerm(ra, rb, Compute);
    TallyPerm(ra, rb, Gpu);
  }
}
