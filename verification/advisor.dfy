/** The body of the availability checker (rescheck.py): it derives the
    request from the command line, rejects it when no queue takes it, and
    otherwise answers from a `pbsnodes -a` dump either with the nodes that
    can run it now or with the best partial alternatives. Also relates the
    checker's reading of a node to the utilisation report's. */
module Advisor {
  import opened Results
  import opened Text
  import opened Numbers
  import opened Inventory
  import opened Queues
  import opened ResCheck
  import ClusterStats
  import Aggregation

  /** The large queue's limits, which the automatic core count targets. */
  const LargeQueueCores: int := 128
  const LargeQueueMemoryGB: real := 120.0

  /** The automatic core count: as many cores as the large queue's memory
      holds at `memPerCore` GB each after the overhead, and no more than its
      core limit. */
  function AutoCores(memPerCore: real, overhead: real): (r: Result<int>)
    ensures r.Err? <==> memPerCore == 0.0
    ensures r.Err? ==> r.fault == ZeroDivisionError
    ensures r.Ok? ==> r.value <= LargeQueueCores
  {
    if memPerCore == 0.0 then Err(ZeroDivisionError)
    else Ok(MinInt(Trunc((LargeQueueMemoryGB - overhead) / memPerCore), LargeQueueCores))
  }

  /** The request as the script settles it: cores, memory in GB, the same
      memory as whole MB, and whether the cores were calculated. */
  datatype Request = Request(cores: int, memoryGB: real, memoryMB: int, auto: bool)

  /** The request from the optional `cores` and `memory` arguments: missing
      cores are calculated, missing memory follows the per-core formula. */
  function MakeRequest(cores: Option<int>, memoryGB: Option<real>, memPerCore: real, overhead: real): (r: Result<Request>)
    ensures r.Err? <==> cores.None? && memPerCore == 0.0
    ensures r.Ok? ==> (r.value.auto <==> cores.None?)
    ensures r.Ok? && cores.Some? ==> r.value.cores == cores.value
    ensures r.Ok? && memoryGB.Some? ==> r.value.memoryGB == memoryGB.value
    ensures r.Ok? && memoryGB.None? ==> r.value.memoryGB == r.value.cores as real * memPerCore + overhead
    ensures r.Ok? && r.value.memoryGB >= 0.0 ==>
      r.value.memoryMB as real <= r.value.memoryGB * 1024.0 < r.value.memoryMB as real + 1.0
  {
    var c :- if cores.Some? then Ok(cores.value) else AutoCores(memPerCore, overhead);
    var gb := if memoryGB.Some? then memoryGB.value else c as real * memPerCore + overhead;
    Ok(Request(c, gb, Trunc(gb * 1024.0), cores.None?))
  }

  /** What the script reports for one alternative node: its free whole GB,
      the cores the user's memory formula allows there, and the memory those
      cores need (absent when no core fits). */
  datatype Suggestion = Suggestion(node: FreeNode, availableGB: int, practicalCores: int, practicalMemoryGB: Option<int>)

  /** The whole cores' worth of memory left once the overhead is set aside. */
  function CoresByMemory(gb: int, memPerCore: real, overhead: real): (r: int)
    requires memPerCore != 0.0
    ensures r >= 0
    ensures memPerCore > 0.0 && r > 0 ==> r as real * memPerCore + overhead <= gb as real
    ensures memPerCore > 0.0 ==> (r + 1) as real * memPerCore + overhead > gb as real
  {
    var budget := gb as real - overhead;
    var t := Trunc(budget / memPerCore);
    if memPerCore > 0.0 then
      ByMemoryFits(budget, memPerCore);
      MaxInt(0, t)
    else
      MaxInt(0, t)
  }

  /** The quotient of a budget, floored at zero, fits it when positive and
      one more core would not. */
  lemma ByMemoryFits(budget: real, perCore: real)
    requires perCore > 0.0
    ensures var c := MaxInt(0, Trunc(budget / perCore));
      && (c > 0 ==> c as real * perCore <= budget)
      && (c + 1) as real * perCore > budget
  {
    var t := Trunc(budget / perCore);
    if budget >= 0.0 {
      CoresWithin(budget, perCore);
      MulMonotone(MaxInt(0, t) as real, t as real, perCore);
    } else {
      NegativeQuotient(budget, perCore);
    }
  }

  function Suggest(node: FreeNode, memPerCore: real, overhead: real): (s: Suggestion)
    requires memPerCore != 0.0
    ensures s.node == node && s.availableGB == MbToGb(node.memAvailableMB)
    ensures s.practicalCores <= node.cpuAvailable
    ensures node.cpuAvailable >= 0 ==> s.practicalCores >= 0
    ensures s.practicalMemoryGB.Some? <==> s.practicalCores > 0
  {
    var availableGB := MbToGb(node.memAvailableMB);
    var byMemory := CoresByMemory(availableGB, memPerCore, overhead);
    var cores := MinInt(node.cpuAvailable, byMemory);
    Suggestion(node, availableGB, cores, if cores > 0 then Some(Trunc(cores as real * memPerCore + overhead)) else None)
  }

  /** The alternatives loop: the formula divides by the memory per core, so
      it raises on the first alternative when that is zero. */
  function Suggestions(alternatives: seq<FreeNode>, memPerCore: real, overhead: real): (r: Result<seq<Suggestion>>)
    ensures r.Err? <==> alternatives != [] && memPerCore == 0.0
    ensures r.Ok? ==> |r.value| == |alternatives|
    ensures r.Ok? ==> forall i :: 0 <= i < |alternatives| ==> r.value[i].node == alternatives[i]
    ensures r.Ok? ==> forall i :: 0 <= i < |alternatives| ==>
      memPerCore != 0.0 && r.value[i] == Suggest(alternatives[i], memPerCore, overhead)
  {
    if alternatives == [] then Ok([])
    else if memPerCore == 0.0 then Err(ZeroDivisionError)
    else Ok(seq(|alternatives|, i requires 0 <= i < |alternatives| => Suggest(alternatives[i], memPerCore, overhead)))
  }

  /** How a run ends. */
  datatype Outcome =
    | Rejected                                              // no queue takes the request
    | NoNodes                                               // no usable node serves an eligible queue
    | Available(nodes: seq<FreeNode>)                       // "Yes": the nodes that fit, most free cores first
    | Unavailable(limit: Limiting, suggestions: seq<Suggestion>)  // "No": the best alternatives

  /** The queues that admit the request. */
  function Eligible(req: Request): seq<Queue> {
    DetermineEligibleQueues(req.cores, req.memoryGB)
  }

  /** The usable nodes of the dump that serve one of those queues. */
  function Candidates(req: Request, output: string): seq<FreeNode> {
    ParseNodes(output, Eligible(req))
  }

  /** The script after the request is settled, on a given `pbsnodes -a` dump. */
  function Advise(req: Request, memPerCore: real, overhead: real, output: string): (r: Result<Outcome>)
    ensures r.Err? ==> r.fault == ZeroDivisionError
    ensures r == Ok(Rejected) <==> Eligible(req) == []
    ensures r == Ok(NoNodes) <==> Eligible(req) != [] && Candidates(req, output) == []
    ensures r.Ok? && r.value.Available? ==>
      && r.value.nodes != []
      && multiset(r.value.nodes) == multiset(Select(Candidates(req, output), Fits(req.cores, req.memoryMB)))
      && forall i, j :: 0 <= i < j < |r.value.nodes| ==> r.value.nodes[i].cpuAvailable >= r.value.nodes[j].cpuAvailable
    ensures (r.Err? || r.value.Unavailable?) ==>
      Candidates(req, output) != [] && forall n :: n in Candidates(req, output) ==> !Meets(n, Fits(req.cores, req.memoryMB))
  {
    var eligible := Eligible(req);
    if eligible == [] then Ok(Rejected)
    else
      var nodes := ParseNodes(output, eligible);
      if nodes == [] then Ok(NoNodes)
      else
        var fitting := Select(nodes, Fits(req.cores, req.memoryMB));
        if fitting != [] then
          assert fitting[0] in fitting;
          Ok(Available(SortByCores(fitting)))
        else
          var alternatives :- BestAlternatives(nodes, req.cores, req.memoryMB, 5);
          var suggestions :- Suggestions(alternatives, memPerCore, overhead);
          Ok(Unavailable(Diagnose(nodes, req.cores, req.memoryMB), suggestions))
  }

  /** The whole script on a given dump: settle the request, then advise. */
  function Check(cores: Option<int>, memoryGB: Option<real>, memPerCore: real, overhead: real, output: string): (r: Result<Outcome>)
    ensures cores.None? && memPerCore == 0.0 ==> r == Err(ZeroDivisionError)
  {
    var req :- MakeRequest(cores, memoryGB, memPerCore, overhead);
    Advise(req, memPerCore, overhead, output)
  }

  /** `int(budget / perCore)` cores fit the budget, and one more would not. */
  lemma CoresWithin(budget: real, perCore: real)
    requires budget >= 0.0 && perCore > 0.0
    ensures var t := Trunc(budget / perCore);
      t >= 0 && t as real * perCore <= budget < (t + 1) as real * perCore
  {
    var q := budget / perCore;
    Quotient(budget, perCore);
    var t := Trunc(q);
    Between(t as real, q, (t + 1) as real, perCore, budget);
  }

  lemma Quotient(budget: real, perCore: real)
    requires budget >= 0.0 && perCore > 0.0
    ensures budget / perCore >= 0.0 && (budget / perCore) * perCore == budget
  {
  }

  /** Scaling `lo <= q < hi` by a positive factor. */
  lemma Between(lo: real, q: real, hi: real, m: real, product: real)
    requires lo <= q < hi && m > 0.0 && q * m == product
    ensures lo * m <= product < hi * m
  {
    MulMonotone(lo, q, m);
    StrictMul(q, hi, m);
  }

  lemma MulMonotone(a: real, b: real, m: real)
    requires a <= b && m >= 0.0
    ensures a * m <= b * m
  {
  }

  lemma StrictMul(a: real, b: real, m: real)
    requires a < b && m > 0.0
    ensures a * m < b * m
  {
  }

  /** The automatic core count fits the large queue: its cores and the
      memory the formula gives them stay within the queue's limits, and
      below the core cap one more core would not fit. */
  lemma AutoCoresFitLargeQueue(memPerCore: real, overhead: real)
    requires memPerCore > 0.0 && overhead <= LargeQueueMemoryGB
    ensures AutoCores(memPerCore, overhead).Ok?
    ensures var c := AutoCores(memPerCore, overhead).value;
      && 0 <= c <= LargeQueueCores
      && c as real * memPerCore + overhead <= LargeQueueMemoryGB
      && (c < LargeQueueCores ==> (c + 1) as real * memPerCore + overhead > LargeQueueMemoryGB)
  {
    var budget := LargeQueueMemoryGB - overhead;
    var t := Trunc(budget / memPerCore);
    CoresWithin(budget, memPerCore);
    var c := MinInt(t, LargeQueueCores);
    assert AutoCores(memPerCore, overhead) == Ok(c);
    CappedWithin(c, t, LargeQueueCores, memPerCore, budget);
  }

  /** Capping the quotient of a budget keeps the cores within it, and below
      the cap the quotient is the most that fits. */
  lemma CappedWithin(c: int, t: int, cap: int, perCore: real, budget: real)
    requires perCore > 0.0 && t >= 0 && cap >= 0 && c == MinInt(t, cap)
    requires t as real * perCore <= budget < (t + 1) as real * perCore
    ensures 0 <= c <= cap && c as real * perCore <= budget
    ensures c < cap ==> (c + 1) as real * perCore > budget
  {
    MulMonotone(c as real, t as real, perCore);
  }

  /** So a fully automatic request is never rejected: the large queue takes it. */
  lemma AutoRequestAdmitted(memPerCore: real, overhead: real, output: string)
    requires memPerCore > 0.0 && overhead <= LargeQueueMemoryGB
    ensures MakeRequest(None, None, memPerCore, overhead).Ok?
    ensures var req := MakeRequest(None, None, memPerCore, overhead).value;
      LargeQ in Eligible(req) && Advise(req, memPerCore, overhead, output) != Ok(Rejected)
  {
    AutoCoresFitLargeQueue(memPerCore, overhead);
    var req := MakeRequest(None, None, memPerCore, overhead).value;
    assert Admits(LargeQ, req.cores, req.memoryGB);
  }

  /** The rejection depends on the request alone: whatever the dump says,
      a request no queue takes is rejected, and one that some queue takes
      is not. */
  lemma RejectionIgnoresDump(req: Request, memPerCore: real, overhead: real, output: string, output': string)
    ensures Advise(req, memPerCore, overhead, output) == Ok(Rejected)
        <==> Advise(req, memPerCore, overhead, output') == Ok(Rejected)
  {
  }

  /** A node that fits the request makes the answer "Yes", listing it. */
  lemma FittingNodeAnswersYes(req: Request, memPerCore: real, overhead: real, output: string, n: FreeNode)
    requires n in Candidates(req, output) && Meets(n, Fits(req.cores, req.memoryMB))
    ensures var r := Advise(req, memPerCore, overhead, output);
      r.Ok? && r.value.Available? && n in r.value.nodes
  {
    var r := Advise(req, memPerCore, overhead, output);
    var fitting := Select(Candidates(req, output), Fits(req.cores, req.memoryMB));
    assert n in fitting;
    assert Eligible(req) != [] by {
      if Eligible(req) == [] {
        NoEligibleQueueNoNodes(output);
      }
    }
    assert n in multiset(r.value.nodes);
  }

  /** A suggested configuration fits its node: the practical cores and the
      memory the formula gives them fit in the node's whole free GB. */
  lemma SuggestionFitsNode(node: FreeNode, memPerCore: real, overhead: real)
    requires memPerCore > 0.0 && node.memAvailableMB >= 0
    ensures var s := Suggest(node, memPerCore, overhead);
      s.practicalCores > 0 ==>
        && s.practicalCores as real * memPerCore + overhead <= s.availableGB as real
        && s.practicalMemoryGB.value <= s.availableGB
  {
    SuggestionFits(node.cpuAvailable, memPerCore, overhead, Suggest(node, memPerCore, overhead));
  }

  /** Below the node's free cores, one more core would not fit its free GB. */
  lemma SuggestionMaximal(node: FreeNode, memPerCore: real, overhead: real)
    requires memPerCore > 0.0 && node.memAvailableMB >= 0
    ensures var s := Suggest(node, memPerCore, overhead);
      s.practicalCores < node.cpuAvailable ==>
        (s.practicalCores + 1) as real * memPerCore + overhead > s.availableGB as real
  {
    SuggestionFits(node.cpuAvailable, memPerCore, overhead, Suggest(node, memPerCore, overhead));
  }

  /** The fit of any suggestion built by the formula, whatever its node. */
  lemma SuggestionFits(cores: int, perCore: real, overhead: real, s: Suggestion)
    requires perCore > 0.0 && s.availableGB >= 0
    requires s.practicalCores == MinInt(cores, CoresByMemory(s.availableGB, perCore, overhead))
    requires s.practicalMemoryGB.Some? ==> s.practicalMemoryGB.value == Trunc(s.practicalCores as real * perCore + overhead)
    requires s.practicalMemoryGB.Some? <==> s.practicalCores > 0
    ensures s.practicalCores > 0 ==>
      && s.practicalCores as real * perCore + overhead <= s.availableGB as real
      && s.practicalMemoryGB.value <= s.availableGB
    ensures s.practicalCores < cores ==> (s.practicalCores + 1) as real * perCore + overhead > s.availableGB as real
  {
    PracticalFits(cores, s.availableGB, perCore, overhead, s.practicalCores);
  }

  /** The practical-cores formula `min(cores, max(0, int((gb - overhead) / perCore)))`. */
  lemma PracticalFits(cores: int, gb: int, perCore: real, overhead: real, p: int)
    requires perCore > 0.0 && gb >= 0
    requires p == MinInt(cores, CoresByMemory(gb, perCore, overhead))
    ensures p > 0 ==> p as real * perCore + overhead <= gb as real && Trunc(p as real * perCore + overhead) <= gb
    ensures p < cores ==> (p + 1) as real * perCore + overhead > gb as real
  {
    var c := CoresByMemory(gb, perCore, overhead);
    if p > 0 {
      MulMonotone(p as real, c as real, perCore);
      TruncBelow(p as real * perCore + overhead, gb);
    }
  }

  lemma TruncBelow(x: real, n: int)
    requires x <= n as real && n >= 0
    ensures Trunc(x) <= n
  {
  }

  lemma NegativeQuotient(budget: real, perCore: real)
    requires budget < 0.0 && perCore > 0.0
    ensures Trunc(budget / perCore) <= 0
  {
    assert budget / perCore < 0.0;
  }

  /** Two cores and 10 GB free against a request for 4 cores and 8 GB, with
      1.5 GB per core and 4 GB overhead: cores are what is short, the node
      scores 502, and the suggestion is 2 cores with 7 GB. */
  lemma ShortOfCores()
    ensures var node := FreeNode("n1", "free", 2, 48, 10240, 196608);
      && Diagnose([node], 4, 8192) == CoresLimiting
      && Score(node, 4, 8192) == 502.0
      && Suggest(node, 1.5, 4.0) == Suggestion(node, 10, 2, Some(7))
  {
    var node := FreeNode("n1", "free", 2, 48, 10240, 196608);
    assert (10.0 - 4.0) / 1.5 == 4.0;
    assert Trunc(4.0) == 4 by { TruncOfWhole(4); }
    assert Trunc(7.0) == 7 by { TruncOfWhole(7); }
  }

  /** The two tools disagree on a figure without a unit: the checker takes
      it as MB, the utilisation report as bytes. */
  lemma BareFigureReadings(n: nat)
    ensures ParseMemoryMB(FormatNat(n)) == n
    ensures ClusterStats.ParseMemoryValue(FormatNat(n)) == Ok(n as real / 1048576.0)
  {
    BareRoundTrip(n);
    ClusterStats.MemoryBare(n);
  }

  /** ... and on a `tb` figure: the checker scales it, the report raises. */
  lemma TerabyteReadings(n: nat)
    ensures ParseMemoryMB(FormatNat(n) + "tb") == n * 1024 * 1024
    ensures ClusterStats.ParseMemoryValue(FormatNat(n) + "tb").Err?
  {
    TerabytesRoundTrip(n);
    ClusterStats.TerabytesRaise(FormatNat(n));
  }

  /** A lower-case word occurs in the lower-cased text wherever its
      upper-case form occurs in the upper-cased text. */
  lemma UpperOccurrence(s: string, lower: string, upper: string)
    requires |lower| == |upper|
    requires forall k :: 0 <= k < |lower| ==> 'a' <= lower[k] <= 'z' && upper[k] == UpperChar(lower[k])
    requires Contains(Upper(s), upper)
    ensures Contains(Lower(s), lower)
  {
    var i :| 0 <= i <= |s| - |upper| && OccursAt(Upper(s), upper, i);
    forall k | 0 <= k < |lower|
      ensures Lower(s)[i + k] == lower[k]
    {
      assert Upper(s)[i + k] == upper[k];
    }
    assert Lower(s)[i..i + |lower|] == lower;
    assert OccursAt(Lower(s), lower, i);
  }

  /** `UNKNOWN`, the report's default state, is not a down or offline state. */
  lemma UnknownIsAvailable()
    ensures !ClusterStats.Unavailable("unknown")
  {
    var u := Upper("unknown");
    assert u == "UNKNOWN";
    forall i | 0 <= i <= |u| - 4
      ensures !OccursAt(u, "DOWN", i)
    {
      assert u[i..i + 4][0] == u[i] != 'D';
    }
    forall i | 0 <= i <= |u| - 7
      ensures !OccursAt(u, "OFFLINE", i)
    {
      assert u[i..i + 7][0] == u[0] == 'U';
    }
  }

  /** A state the checker accepts is one the report treats as available. */
  lemma IncludedStateAvailable(b: Block)
    requires !ExcludedState(Lower(Get(b, "state", "")))
    ensures !ClusterStats.Unavailable(Get(b, "state", "unknown"))
  {
    var state := Get(b, "state", "unknown");
    if "state" in b.attrs {
      if Contains(Upper(state), "DOWN") {
        UpperOccurrence(state, "down", "DOWN");
      }
      if Contains(Upper(state), "OFFLINE") {
        UpperOccurrence(state, "offline", "OFFLINE");
      }
    } else {
      UnknownIsAvailable();
    }
  }

  /** A queue list naming an eligible queue names a queue the report monitors. */
  lemma EligibleQueueMonitored(qlist: string, q: Queue)
    requires QueueName(q) in NodeQueues(qlist)
    ensures QueueName(q) in ClusterStats.QueueSet(qlist) * ClusterStats.Monitored
  {
    var parts := Split(qlist, ',');
    var i :| 0 <= i < |parts| && NodeQueues(qlist)[i] == QueueName(q);
    assert parts[i] in parts && Strip(parts[i]) == QueueName(q);
  }

  /** The report counts a live compute node that names a monitored queue. */
  lemma CountedWhenMonitored(state: string, qlist: string, vntype: string, name: string)
    requires !ClusterStats.Unavailable(state) && ClusterStats.ComputeKind(vntype)
    requires name in ClusterStats.QueueSet(qlist) * ClusterStats.Monitored
    ensures ClusterStats.Classify(state, qlist, vntype).counted
  {
  }

  /** A node the checker would offer is one the utilisation report counts:
      the checker's filter is the stricter of the two. */
  lemma CheckedNodesAreCounted(b: Block, eligible: seq<Queue>)
    requires ShouldInclude(b, eligible)
    ensures Aggregation.VerdictOf(b).counted
  {
    IncludedStateAvailable(b);
    var qlist := Get(b, "resources_available.Qlist", "");
    var q :| q in eligible && QueueName(q) in NodeQueues(qlist);
    EligibleQueueMonitored(qlist, q);
    CountedWhenMonitored(Get(b, "state", "unknown"), qlist, Get(b, "resources_available.vntype", ""), QueueName(q));
  }
}
