/** The per-node logic of the availability checker (rescheck.py): memory
    figures in MB, the node filter, the free-resource record of a node, the
    nodes that fit a request, and the ranking of alternatives when none does. */
module ResCheck {
  import opened Results
  import opened Text
  import opened Numbers
  import opened Inventory
  import opened Queues
  import opened Sorting

  /** The unit suffixes `parse_memory_mb` tries, in the order it tries them. */
  datatype Scale = TB | GB | MB | KB | B | NoUnit

  /** The first suffix of `tb`, `gb`, `mb`, `kb`, `b` that the text ends with. */
  function ScaleOf(t: string): (u: Scale)
    ensures u != NoUnit <==> EndsWith(t, "b")
    ensures |t| >= Width(u)
  {
    if EndsWith(t, "tb") then
      EndsWithLast(t, "tb");
      TB
    else if EndsWith(t, "gb") then
      EndsWithLast(t, "gb");
      GB
    else if EndsWith(t, "mb") then
      EndsWithLast(t, "mb");
      MB
    else if EndsWith(t, "kb") then
      EndsWithLast(t, "kb");
      KB
    else if EndsWith(t, "b") then B
    else NoUnit
  }

  /** The length of the suffix a unit strips. */
  function Width(u: Scale): nat {
    match u
    case TB => 2
    case GB => 2
    case MB => 2
    case KB => 2
    case B => 1
    case NoUnit => 0
  }

  /** A figure in the given unit, converted to MB; a bare figure is MB. */
  function InMB(x: real, u: Scale): real {
    match u
    case TB => x * 1024.0 * 1024.0
    case GB => x * 1024.0
    case MB => x
    case KB => x / 1024.0
    case B => x / (1024.0 * 1024.0)
    case NoUnit => x
  }

  /** The number in front of a normalised figure's unit suffix. */
  function Mantissa(t: string): Option<real> {
    ParseDecimal(t[..|t| - Width(ScaleOf(t))])
  }

  /** `parse_memory_mb`: a memory figure as whole MB. Blank text and `0` give
      0, and so does a figure whose number is unreadable, where the source
      catches the `ValueError`. */
  function ParseMemoryMB(text: string): (r: int)
    ensures Strip(text) == [] || Lower(Strip(text)) == "0" ==> r == 0
    ensures r != 0 ==> Mantissa(Lower(Strip(text))).Some?
    ensures Mantissa(Lower(Strip(text))).Some? && Mantissa(Lower(Strip(text))).value >= 0.0 ==> r >= 0
  {
    if text == "" then 0
    else
      var t := Lower(Strip(text));
      if t == "" || t == "0" then 0 else FigureMB(t)
  }

  /** The MB value of a normalised, non-blank figure. */
  function FigureMB(t: string): (r: int)
    ensures Mantissa(t).None? ==> r == 0
    ensures Mantissa(t).Some? && Mantissa(t).value >= 0.0 ==> r >= 0
  {
    match Mantissa(t)
    case Some(x) => Trunc(InMB(x, ScaleOf(t)))
    case None => 0
  }

  /** `mb_to_gb`: whole GB, rounded down. */
  function MbToGb(mb: int): (gb: int)
    ensures gb * 1024 <= mb < (gb + 1) * 1024
    ensures mb >= 0 ==> gb >= 0
  {
    mb / 1024
  }

  /** The stripped entries of a node's comma-separated queue list. */
  function NodeQueues(qlist: string): (qs: seq<string>)
    ensures |qs| == |Split(qlist, ',')|
    ensures forall i :: 0 <= i < |qs| ==> qs[i] == Strip(Split(qlist, ',')[i])
  {
    var parts := Split(qlist, ',');
    seq(|parts|, i requires 0 <= i < |parts| => Strip(parts[i]))
  }

  /** Whether one of the queues is named in the list. */
  function AnyListed(queues: seq<Queue>, names: seq<string>): (r: bool)
    ensures r <==> exists q :: q in queues && QueueName(q) in names
    decreases |queues|
  {
    if |queues| == 0 then false
    else
      assert forall q :: q in queues <==> q == queues[0] || q in queues[1..];
      QueueName(queues[0]) in names || AnyListed(queues[1..], names)
  }

  /** `node_supports_eligible_queue`. */
  function SupportsEligibleQueue(qlist: string, eligible: seq<Queue>): (r: bool)
    ensures r <==> exists q :: q in eligible && QueueName(q) in NodeQueues(qlist)
  {
    if eligible == [] then false else AnyListed(eligible, NodeQueues(qlist))
  }

  /** Whether a lower-cased state names one of the excluded conditions. */
  predicate ExcludedState(state: string) {
    Contains(state, "offline") || Contains(state, "unknown") || Contains(state, "down")
  }

  /** `should_include_node`: a live compute vnode serving an eligible queue. */
  function ShouldInclude(b: Block, eligible: seq<Queue>): (r: bool)
    ensures r ==> eligible != []
    ensures r ==> Get(b, "resources_available.vntype", "") == "compute_vnode"
    ensures r <==>
      && !ExcludedState(Lower(Get(b, "state", "")))
      && Get(b, "resources_available.vntype", "") == "compute_vnode"
      && exists q :: q in eligible && QueueName(q) in NodeQueues(Get(b, "resources_available.Qlist", ""))
  {
    var state := Lower(Get(b, "state", ""));
    if ExcludedState(state) then false
    else if Get(b, "resources_available.vntype", "") != "compute_vnode" then false
    else SupportsEligibleQueue(Get(b, "resources_available.Qlist", ""), eligible)
  }

  /** A node's free resources, as `process_node` reports them. */
  datatype FreeNode = FreeNode(
    name: string,
    state: string,
    cpuAvailable: int,
    cpuTotal: int,
    memAvailableMB: int,
    memTotalMB: int)

  /** `max(0, total - used)`. */
  function Spare(total: int, used: int): (r: int)
    ensures r >= 0 && r >= total - used
    ensures r == 0 || r == total - used
  {
    if total - used > 0 then total - used else 0
  }

  /** The record of a node with the given totals and assigned amounts. */
  function Free(name: string, state: string, totalCpus: int, assignedCpus: int, totalMem: int, assignedMem: int): (n: FreeNode)
    ensures n.name == name && n.state == state && n.cpuTotal == totalCpus && n.memTotalMB == totalMem
    ensures n.cpuAvailable == MaxInt(0, totalCpus - assignedCpus)
    ensures n.memAvailableMB == MaxInt(0, totalMem - assignedMem)
  {
    FreeNode(name, state, Spare(totalCpus, assignedCpus), totalCpus, Spare(totalMem, assignedMem), totalMem)
  }

  /** The figures `process_node` reads from a node's attributes, with its
      defaults for missing ones: the state (`unknown`), the total and
      assigned core counts (`0`, read as integers, `None` when not one), the
      total memory (`0mb`) and the assigned memory (`0kb`, since PBS reports
      assigned memory in KB), both read in MB. */
  datatype Reading = Reading(
    name: string,
    state: string,
    totalCpus: Option<int>,
    assignedCpus: Option<int>,
    totalMemMB: int,
    assignedMemMB: int)

  function ReadingOf(b: Block): (f: Reading)
    ensures f.name == Name(b) && f.state == Get(b, "state", "unknown")
    ensures f.totalCpus == ParseInteger(Get(b, "resources_available.ncpus", "0"))
    ensures f.assignedCpus == ParseInteger(Get(b, "resources_assigned.ncpus", "0"))
    ensures f.totalMemMB == ParseMemoryMB(Get(b, "resources_available.mem", "0mb"))
    ensures f.assignedMemMB == ParseMemoryMB(Get(b, "resources_assigned.mem", "0kb"))
  {
    Reading(
      Name(b),
      Get(b, "state", "unknown"),
      ParseInteger(Get(b, "resources_available.ncpus", "0")),
      ParseInteger(Get(b, "resources_assigned.ncpus", "0")),
      ParseMemoryMB(Get(b, "resources_available.mem", "0mb")),
      ParseMemoryMB(Get(b, "resources_assigned.mem", "0kb")))
  }

  /** `process_node` on the figures read: `None` when either core count is
      not an integer (the memory figures cannot fail); otherwise the record
      keeps the name and state, its totals are the figures read, and its
      free cores and memory are the totals less what is assigned, never
      below zero. */
  function Process(f: Reading): (r: Option<FreeNode>)
    ensures r.Some? <==> f.totalCpus.Some? && f.assignedCpus.Some?
    ensures r.Some? ==> r.value.name == f.name && r.value.state == f.state
    ensures r.Some? ==> r.value.cpuTotal == f.totalCpus.value && r.value.cpuAvailable == MaxInt(0, f.totalCpus.value - f.assignedCpus.value)
    ensures r.Some? ==> r.value.memTotalMB == f.totalMemMB && r.value.memAvailableMB == MaxInt(0, f.totalMemMB - f.assignedMemMB)
    ensures r.Some? ==> r.value.cpuAvailable >= 0 && r.value.memAvailableMB >= 0
  {
    if f.totalCpus.None? || f.assignedCpus.None? then None
    else Some(Free(f.name, f.state, f.totalCpus.value, f.assignedCpus.value, f.totalMemMB, f.assignedMemMB))
  }

  /** `process_node(node)`. */
  function ProcessNode(b: Block): Option<FreeNode> {
    Process(ReadingOf(b))
  }

  /** A node's record exists exactly when both core-count attributes (with
      their default `0`) read as integers; it then carries the node's name
      and `state` (default `unknown`), its total cores are the first count
      and its free cores the first less the second, never below zero. */
  lemma ProcessNodeCpus(b: Block)
    ensures ProcessNode(b).Some? <==>
      ParseInteger(Get(b, "resources_available.ncpus", "0")).Some? && ParseInteger(Get(b, "resources_assigned.ncpus", "0")).Some?
    ensures ProcessNode(b).Some? ==> ProcessNode(b).value.cpuTotal == ParseInteger(Get(b, "resources_available.ncpus", "0")).value
    ensures ProcessNode(b).Some? ==>
      ProcessNode(b).value.cpuAvailable ==
        MaxInt(0, ParseInteger(Get(b, "resources_available.ncpus", "0")).value - ParseInteger(Get(b, "resources_assigned.ncpus", "0")).value)
    ensures ProcessNode(b).Some? ==> ProcessNode(b).value.name == Name(b) && ProcessNode(b).value.state == Get(b, "state", "unknown")
  {
    var f := ReadingOf(b);
    assert ProcessNode(b) == Process(f);
  }

  /** A node's memory figures are its `resources_available.mem` (default
      `0mb`) in MB, less its `resources_assigned.mem` (default `0kb`), never
      below zero. */
  lemma ProcessNodeMemory(b: Block)
    ensures ProcessNode(b).Some? ==>
      ProcessNode(b).value.memTotalMB == ParseMemoryMB(Get(b, "resources_available.mem", "0mb"))
    ensures ProcessNode(b).Some? ==>
      ProcessNode(b).value.memAvailableMB ==
        MaxInt(0, ParseMemoryMB(Get(b, "resources_available.mem", "0mb")) - ParseMemoryMB(Get(b, "resources_assigned.mem", "0kb")))
  {
  }

  /** One block's contribution to the parsed list: its record when the
      filter includes it and it processes cleanly. */
  function Survivor(b: Block, eligible: seq<Queue>): (r: Option<FreeNode>)
    ensures r.Some? <==> ShouldInclude(b, eligible) && ProcessNode(b).Some?
    ensures r.Some? ==> ProcessNode(b) == r
  {
    if ShouldInclude(b, eligible) then ProcessNode(b) else None
  }

  /** What each block contributes to the parsed list under `keep`. */
  function Survivors(bs: seq<Block>, keep: Block -> Option<FreeNode>): (r: seq<Option<FreeNode>>)
    ensures |r| == |bs|
    ensures forall i :: 0 <= i < |bs| ==> r[i] == keep(bs[i])
  {
    seq(|bs|, i requires 0 <= i < |bs| => keep(bs[i]))
  }

  /** The contribution of a block given the eligible queues. */
  function Keeper(eligible: seq<Queue>): Block -> Option<FreeNode> {
    b => Survivor(b, eligible)
  }

  /** The present values of a sequence of options, in order. */
  function Present(s: seq<Option<FreeNode>>): (r: seq<FreeNode>)
    ensures |r| <= |s|
    ensures forall x :: x in r <==> Some(x) in s
    decreases |s|
  {
    if |s| == 0 then []
    else
      assert forall o :: o in s <==> o == s[0] || o in s[1..];
      (if s[0].Some? then [s[0].value] else []) + Present(s[1..])
  }

  /** The records of the blocks that the filter includes and that process
      cleanly, in the order of the blocks. */
  function Kept(bs: seq<Block>, eligible: seq<Queue>): seq<FreeNode> {
    Present(Survivors(bs, Keeper(eligible)))
  }

  /** `parse_pbsnodes_output`: at most one record per block of the dump.
      Which records, and in which order, is stated by
      `ParsedNodesComeFromDump`, `DumpNodesAreParsed` and `KeptAppend`. */
  function ParseNodes(output: string, eligible: seq<Queue>): (r: seq<FreeNode>)
    ensures |r| <= |ParseBlocks(output)|
  {
    Kept(ParseBlocks(output), eligible)
  }

  /** The node tests of the checker: each of the script's list
      comprehensions keeps the nodes that meet one of these. */
  datatype Criterion =
    | Fits(cores: int, memoryMB: int)      // both requirements
    | HasCores(cores: int)
    | HasMemory(memoryMB: int)
    | Useful(floorMB: int)                 // some cores and at least the floor

  predicate Meets(n: FreeNode, c: Criterion) {
    match c
    case Fits(cores, memoryMB) => n.cpuAvailable >= cores && n.memAvailableMB >= memoryMB
    case HasCores(cores) => n.cpuAvailable >= cores
    case HasMemory(memoryMB) => n.memAvailableMB >= memoryMB
    case Useful(floorMB) => n.cpuAvailable > 0 && n.memAvailableMB >= floorMB
  }

  /** The nodes meeting a criterion, in their original order. */
  function Select(nodes: seq<FreeNode>, c: Criterion): (r: seq<FreeNode>)
    ensures |r| <= |nodes|
    ensures forall n :: n in r <==> n in nodes && Meets(n, c)
    decreases |nodes|
  {
    if |nodes| == 0 then []
    else
      var init := nodes[..|nodes| - 1];
      var last := nodes[|nodes| - 1];
      assert nodes == init + [last];
      Select(init, c) + (if Meets(last, c) then [last] else [])
  }

  /** `find_available_nodes`. */
  method FindAvailableNodes(nodes: seq<FreeNode>, cores: int, memoryMB: int) returns (available: seq<FreeNode>)
    ensures available == Select(nodes, Fits(cores, memoryMB))
    ensures forall n :: n in available <==> n in nodes && n.cpuAvailable >= cores && n.memAvailableMB >= memoryMB
  {
    available := [];
    for i := 0 to |nodes|
      invariant available == Select(nodes[..i], Fits(cores, memoryMB))
    {
      assert nodes[..i + 1] == nodes[..i] + [nodes[i]];
      if nodes[i].cpuAvailable >= cores && nodes[i].memAvailableMB >= memoryMB {
        available := available + [nodes[i]];
      }
    }
    assert nodes[..|nodes|] == nodes;
  }

  /** Nodes keyed by their free cores, for the sort of the "Yes" list. */
  function ByCores(nodes: seq<FreeNode>): (s: seq<Keyed<FreeNode>>)
    ensures Items(s) == nodes
    ensures forall e :: e in s ==> e.key == e.item.cpuAvailable as real
  {
    var s := seq(|nodes|, i requires 0 <= i < |nodes| => Keyed(nodes[i].cpuAvailable as real, nodes[i]));
    assert Items(s) == nodes;
    s
  }

  /** `nodes.sort(key=cpu_available, reverse=True)`: most free cores first, a
      rearrangement of the input. */
  function SortByCores(nodes: seq<FreeNode>): (r: seq<FreeNode>)
    ensures multiset(r) == multiset(nodes)
    ensures forall i, j :: 0 <= i < j < |r| ==> r[i].cpuAvailable >= r[j].cpuAvailable
  {
    var sorted := SortDesc(ByCores(nodes));
    ItemsPermutation(sorted, ByCores(nodes));
    assert forall i :: 0 <= i < |sorted| ==> sorted[i].key == sorted[i].item.cpuAvailable as real by {
      forall i | 0 <= i < |sorted| ensures sorted[i].key == sorted[i].item.cpuAvailable as real {
        assert sorted[i] in multiset(ByCores(nodes));
      }
    }
    Items(sorted)
  }

  /** Which requirement no node meets on its own. */
  datatype Limiting = MemoryLimiting | CoresLimiting | BothLimiting | NothingLimiting

  /** The diagnosis `get_best_alternatives` prints before ranking. */
  function Diagnose(nodes: seq<FreeNode>, cores: int, memoryMB: int): (d: Limiting)
    ensures d == MemoryLimiting <==>
      (exists n :: n in nodes && n.cpuAvailable >= cores) && (forall n :: n in nodes ==> n.memAvailableMB < memoryMB)
    ensures d == CoresLimiting <==>
      (exists n :: n in nodes && n.memAvailableMB >= memoryMB) && (forall n :: n in nodes ==> n.cpuAvailable < cores)
    ensures d == BothLimiting <==>
      forall n :: n in nodes ==> n.cpuAvailable < cores && n.memAvailableMB < memoryMB
  {
    var enoughCores := Select(nodes, HasCores(cores));
    var enoughMemory := Select(nodes, HasMemory(memoryMB));
    assert enoughCores == [] <==> forall n :: n in nodes ==> n.cpuAvailable < cores by {
      if enoughCores != [] { assert enoughCores[0] in enoughCores; }
    }
    assert enoughMemory == [] <==> forall n :: n in nodes ==> n.memAvailableMB < memoryMB by {
      if enoughMemory != [] { assert enoughMemory[0] in enoughMemory; }
    }
    if enoughCores != [] && enoughMemory == [] then MemoryLimiting
    else if enoughMemory != [] && enoughCores == [] then CoresLimiting
    else if enoughCores == [] && enoughMemory == [] then BothLimiting
    else NothingLimiting
  }

  /** The memory floor a node needs to be worth suggesting, and the lower
      floor used when no node reaches it. */
  const UsefulMemoryMB: int := 5 * 1024
  const FallbackMemoryMB: int := 2 * 1024

  /** The candidates for alternatives: nodes with free cores and at least
      5 GB, or, failing any, at least 2 GB. */
  function ViableNodes(nodes: seq<FreeNode>): (r: seq<FreeNode>)
    ensures forall n :: n in r ==> n in nodes && Meets(n, Useful(FallbackMemoryMB))
    ensures r == [] <==> forall n :: n in nodes ==> !Meets(n, Useful(FallbackMemoryMB))
    ensures (exists n :: n in nodes && Meets(n, Useful(UsefulMemoryMB))) ==>
      forall n :: n in r ==> Meets(n, Useful(UsefulMemoryMB))
    ensures forall n :: n in nodes && Meets(n, Useful(UsefulMemoryMB)) ==> n in r
    ensures (forall m :: m in nodes ==> !Meets(m, Useful(UsefulMemoryMB))) ==>
      forall n :: n in nodes && Meets(n, Useful(FallbackMemoryMB)) ==> n in r
  {
    var first := Select(nodes, Useful(UsefulMemoryMB));
    if first != [] then
      assert first[0] in first;
      first
    else
      var second := Select(nodes, Useful(FallbackMemoryMB));
      assert second != [] ==> second[0] in second;
      second
  }

  /** How much of the request a share of `whole` covers, capped at all of it. */
  function Fraction(part: real, whole: real): (f: real)
    requires whole != 0.0
    ensures f <= 1.0
  {
    Min(part / whole, 1.0)
  }

  /** `node_score`: the covered fraction of the request (the smaller of the
      core and memory fractions) in thousandths, plus the free cores as a
      tie-break. */
  function Score(n: FreeNode, cores: int, memoryMB: int): (s: real)
    requires cores != 0 && memoryMB != 0
    ensures s <= 1000.0 + n.cpuAvailable as real
  {
    var coreFraction := Fraction(n.cpuAvailable as real, cores as real);
    var memoryFraction := Fraction(n.memAvailableMB as real / 1024.0, memoryMB as real / 1024.0);
    Min(coreFraction, memoryFraction) * 1000.0 + n.cpuAvailable as real
  }

  /** Nodes keyed by score, for the ranking sort. */
  function ByScore(nodes: seq<FreeNode>, cores: int, memoryMB: int): (s: seq<Keyed<FreeNode>>)
    requires cores != 0 && memoryMB != 0
    ensures Items(s) == nodes
    ensures forall e :: e in s ==> e.key == Score(e.item, cores, memoryMB)
  {
    var s := seq(|nodes|, i requires 0 <= i < |nodes| => Keyed(Score(nodes[i], cores, memoryMB), nodes[i]));
    assert Items(s) == nodes;
    s
  }

  /** The end of the slice `s[:min(k, len(s))]` under Python's rules, where a
      negative bound counts from the end. */
  function SliceEnd(length: nat, k: int): (e: nat)
    ensures e <= length
    ensures k >= 0 ==> e == MinInt(k, length)
    ensures k < 0 ==> e == MaxInt(length + k, 0)
  {
    var m := MinInt(k, length);
    if m >= 0 then m else MaxInt(length + m, 0)
  }

  /** The viable nodes ranked by score, best first; ties keep their order. */
  function Ranked(viable: seq<FreeNode>, cores: int, memoryMB: int): seq<FreeNode>
    requires cores != 0 && memoryMB != 0
  {
    Items(SortDesc(ByScore(viable, cores, memoryMB)))
  }

  /** `get_best_alternatives(nodes, cores, memory_mb, max_options)`. Scoring
      divides by both requirements, so it raises when either is zero and
      there is something to score. */
  function BestAlternatives(nodes: seq<FreeNode>, cores: int, memoryMB: int, maxOptions: int): (r: Result<seq<FreeNode>>)
    ensures r.Err? <==> ViableNodes(nodes) != [] && (cores == 0 || memoryMB == 0)
    ensures r.Err? ==> r.fault == ZeroDivisionError
    ensures r.Ok? ==> |r.value| == SliceEnd(|ViableNodes(nodes)|, maxOptions)
    ensures r.Ok? ==> forall n :: n in r.value ==> n in nodes && Meets(n, Useful(FallbackMemoryMB))
    ensures r.Ok? ==> forall n :: n in r.value ==> n in ViableNodes(nodes)
    ensures r.Ok? ==> multiset(r.value) <= multiset(ViableNodes(nodes))
  {
    var viable := ViableNodes(nodes);
    if viable == [] then Ok([])
    else if cores == 0 || memoryMB == 0 then Err(ZeroDivisionError)
    else
      var k := SliceEnd(|viable|, maxOptions);
      ChosenAreViable(viable, cores, memoryMB, k);
      Ok(Ranked(viable, cores, memoryMB)[..k])
  }

  /** A prefix of the ranking draws only on the viable nodes, each no more
      often than it occurs among them. */
  lemma ChosenAreViable(viable: seq<FreeNode>, cores: int, memoryMB: int, k: nat)
    requires cores != 0 && memoryMB != 0 && k <= |viable|
    ensures |Ranked(viable, cores, memoryMB)| == |viable|
    ensures multiset(Ranked(viable, cores, memoryMB)[..k]) <= multiset(viable)
    ensures forall n :: n in Ranked(viable, cores, memoryMB)[..k] ==> n in viable
  {
    var ranked := Ranked(viable, cores, memoryMB);
    RankedPermutation(viable, cores, memoryMB);
    assert |ranked| == |multiset(ranked)| == |multiset(viable)| == |viable|;
    assert ranked == ranked[..k] + ranked[k..];
    assert multiset(ranked[..k]) <= multiset(ranked);
    forall n | n in ranked[..k] ensures n in viable {
      assert n in multiset(ranked[..k]);
    }
  }

  /** The projection to items keeps a permutation a permutation. */
  lemma {:induction false} ItemsPermutation<T>(a: seq<Keyed<T>>, b: seq<Keyed<T>>)
    requires multiset(a) == multiset(b)
    ensures multiset(Items(a)) == multiset(Items(b))
    decreases |a|
  {
    if |a| > 0 {
      var x := a[0];
      assert x in multiset(b);
      var j :| 0 <= j < |b| && b[j] == x;
      var rest := b[..j] + b[j + 1..];
      RemoveMatching(a, b, j);
      ItemsPermutation(a[1..], rest);
      ItemsMatching(a, b, j);
    }
  }

  lemma ItemsMatching<T>(a: seq<Keyed<T>>, b: seq<Keyed<T>>, j: int)
    requires |a| > 0 && 0 <= j < |b| && b[j] == a[0]
    requires multiset(Items(a[1..])) == multiset(Items(b[..j] + b[j + 1..]))
    ensures multiset(Items(a)) == multiset(Items(b))
  {
    ItemsRemoveFirst(a);
    ItemsRemove(b, j, b[..j] + b[j + 1..]);
  }

  lemma ItemsRemoveFirst<T>(s: seq<Keyed<T>>)
    requires |s| > 0
    ensures multiset(Items(s)) == multiset{s[0].item} + multiset(Items(s[1..]))
  {
    assert s == [s[0]] + s[1..];
    ItemsAppend([s[0]], s[1..]);
    assert Items([s[0]]) == [s[0].item];
  }

  /** Taking the same element out of two permutations leaves permutations. */
  lemma RemoveMatching<T>(a: seq<T>, b: seq<T>, j: int)
    requires multiset(a) == multiset(b) && |a| > 0
    requires 0 <= j < |b| && b[j] == a[0]
    ensures multiset(a[1..]) == multiset(b[..j] + b[j + 1..])
  {
    assert a == [a[0]] + a[1..];
    assert b == b[..j] + [b[j]] + b[j + 1..];
    assert multiset(a[1..]) == multiset(a) - multiset{a[0]};
  }

  lemma ItemsRemove<T>(s: seq<Keyed<T>>, j: int, rest: seq<Keyed<T>>)
    requires 0 <= j < |s| && rest == s[..j] + s[j + 1..]
    ensures multiset(Items(s)) == multiset{s[j].item} + multiset(Items(rest))
  {
    assert s == s[..j] + ([s[j]] + s[j + 1..]);
    ItemsAppend(s[..j], [s[j]] + s[j + 1..]);
    ItemsAppend([s[j]], s[j + 1..]);
    ItemsAppend(s[..j], s[j + 1..]);
    assert Items([s[j]]) == [s[j].item];
  }

  lemma ItemsAppend<T>(a: seq<Keyed<T>>, b: seq<Keyed<T>>)
    ensures Items(a + b) == Items(a) + Items(b)
  {
    assert forall i :: 0 <= i < |a + b| ==> Items(a + b)[i] == (Items(a) + Items(b))[i] by {
      forall i | 0 <= i < |a + b| ensures Items(a + b)[i] == (Items(a) + Items(b))[i] {
        if i < |a| { assert (a + b)[i] == a[i]; } else { assert (a + b)[i] == b[i - |a|]; }
      }
    }
  }

  /** Ranking rearranges the viable nodes: none is lost or duplicated. */
  lemma RankedPermutation(viable: seq<FreeNode>, cores: int, memoryMB: int)
    requires cores != 0 && memoryMB != 0
    ensures multiset(Ranked(viable, cores, memoryMB)) == multiset(viable)
  {
    ItemsPermutation(SortDesc(ByScore(viable, cores, memoryMB)), ByScore(viable, cores, memoryMB));
  }

  /** The ranking is by descending score. */
  lemma RankedByScore(viable: seq<FreeNode>, cores: int, memoryMB: int)
    requires cores != 0 && memoryMB != 0
    ensures var r := Ranked(viable, cores, memoryMB);
      forall i, j :: 0 <= i < j < |r| ==> Score(r[i], cores, memoryMB) >= Score(r[j], cores, memoryMB)
  {
    var keyed := ByScore(viable, cores, memoryMB);
    var sorted := SortDesc(keyed);
    assert forall i :: 0 <= i < |sorted| ==> sorted[i].key == Score(sorted[i].item, cores, memoryMB) by {
      forall i | 0 <= i < |sorted| ensures sorted[i].key == Score(sorted[i].item, cores, memoryMB) {
        assert sorted[i] in multiset(keyed);
      }
    }
  }

  /** The alternatives are the best-scoring viable nodes: they come in
      descending score order, and a viable node left out scores no higher
      than any node chosen. With room for all, every viable node is listed. */
  lemma AlternativesAreBest(nodes: seq<FreeNode>, cores: int, memoryMB: int, maxOptions: int)
    requires cores != 0 && memoryMB != 0
    ensures BestAlternatives(nodes, cores, memoryMB, maxOptions).Ok?
    ensures var r := BestAlternatives(nodes, cores, memoryMB, maxOptions).value;
      && (forall i, j :: 0 <= i < j < |r| ==> Score(r[i], cores, memoryMB) >= Score(r[j], cores, memoryMB))
      && (forall n, m :: n in ViableNodes(nodes) && n !in r && m in r ==> Score(n, cores, memoryMB) <= Score(m, cores, memoryMB))
      && (forall n :: n in r ==> n in ViableNodes(nodes))
      && (maxOptions >= |ViableNodes(nodes)| ==> multiset(r) == multiset(ViableNodes(nodes)))
  {
    var viable := ViableNodes(nodes);
    if viable != [] {
      var ranked := Ranked(viable, cores, memoryMB);
      var k := SliceEnd(|viable|, maxOptions);
      RankedPermutation(viable, cores, memoryMB);
      RankedByScore(viable, cores, memoryMB);
      assert BestAlternatives(nodes, cores, memoryMB, maxOptions).value == ranked[..k];
      SameMembers(viable, ranked);
      PrefixOutranks(ranked, k, cores, memoryMB);
      if maxOptions >= |viable| {
        assert ranked[..k] == ranked;
      }
    }
  }

  /** Permutations have the same members. */
  lemma SameMembers(a: seq<FreeNode>, b: seq<FreeNode>)
    requires multiset(b) == multiset(a)
    ensures forall n :: n in a <==> n in b
  {
    forall n ensures n in a <==> n in b {
      assert n in a <==> n in multiset(a);
      assert n in b <==> n in multiset(b);
    }
  }

  /** In a sequence of non-increasing scores, nothing outside a prefix
      outscores anything inside it. */
  lemma PrefixOutranks(ranked: seq<FreeNode>, k: nat, cores: int, memoryMB: int)
    requires cores != 0 && memoryMB != 0 && k <= |ranked|
    requires forall i, j :: 0 <= i < j < |ranked| ==> Score(ranked[i], cores, memoryMB) >= Score(ranked[j], cores, memoryMB)
    ensures forall n, m :: n in ranked && n !in ranked[..k] && m in ranked[..k] ==>
      Score(n, cores, memoryMB) <= Score(m, cores, memoryMB)
  {
    forall n, m | n in ranked && n !in ranked[..k] && m in ranked[..k]
      ensures Score(n, cores, memoryMB) <= Score(m, cores, memoryMB)
    {
      var j :| 0 <= j < |ranked| && ranked[j] == n;
      var i :| 0 <= i < k && ranked[..k][i] == m;
      forall t | 0 <= t < k ensures ranked[t] != n {
        assert ranked[t] == ranked[..k][t];
      }
      assert i < j;
      assert ranked[i] == m;
    }
  }

  /** A digit string with a lower-case unit reads as that number in the
      unit. */
  lemma FigureWithUnit(n: nat, unit: string, u: Scale, t: string)
    requires forall i :: 0 <= i < |unit| ==> 'a' <= unit[i] <= 'z'
    requires t == FormatNat(n) + unit
    requires |unit| == Width(u) && ScaleOf(t) == u && t != "0"
    ensures ParseMemoryMB(t) == Trunc(InMB(n as real, u))
  {
    NormalisedDigits(FormatNat(n), unit);
    MantissaWithUnit(n, unit, t);
    NormalisedFigure(t);
    FigureValue(t, n as real);
  }

  lemma MantissaWithUnit(n: nat, unit: string, t: string)
    requires t == FormatNat(n) + unit && |unit| == Width(ScaleOf(t))
    ensures Mantissa(t) == Some(n as real)
  {
    var d := FormatNat(n);
    assert t[..|t| - |unit|] == d;
    MantissaSlice(t, |unit|);
    ParseDecimalFormat(n);
  }

  /** The number part of a figure is what precedes its unit. */
  lemma MantissaSlice(t: string, w: nat)
    requires w == Width(ScaleOf(t))
    ensures w <= |t| && Mantissa(t) == ParseDecimal(t[..|t| - w])
  {
    var number := t[..|t| - w];
    assert number == t[..|t| - Width(ScaleOf(t))];
  }

  /** A figure that normalising leaves unchanged is read as it stands. */
  lemma NormalisedFigure(t: string)
    requires t != [] && t != "0" && Lower(Strip(t)) == t
    ensures ParseMemoryMB(t) == FigureMB(t)
  {
  }

  lemma FigureValue(t: string, x: real)
    requires Mantissa(t) == Some(x)
    ensures FigureMB(t) == Trunc(InMB(x, ScaleOf(t)))
  {
  }

  /** Which suffix a figure ends with decides its unit. */
  lemma ScaleSuffix(d: string, unit: string, u: Scale)
    requires (unit == "tb" && u == TB) || (unit == "gb" && u == GB) || (unit == "mb" && u == MB) || (unit == "kb" && u == KB)
    requires |d| >= 1 && AllDigits(d)
    ensures ScaleOf(d + unit) == u
  {
    var t := d + unit;
    assert t[|t| - 2..] == unit;
    assert d[|d| - 1] != 'b' && d[|d| - 1] != 't';
  }

  /** `int(q / k)` of naturals is floor division. */
  lemma TruncQuotient(n: nat, k: nat)
    requires k > 0
    ensures Trunc(n as real / k as real) == n / k
  {
    var q := n / k;
    var r := n % k;
    assert n == q * k + r;
    assert n as real == q as real * k as real + r as real;
    assert n as real / k as real == q as real + r as real / k as real;
  }

  lemma MegabytesRoundTrip(n: nat)
    ensures ParseMemoryMB(FormatNat(n) + "mb") == n
  {
    var d, u := FormatNat(n), MB;
    ScaleSuffix(d, "mb", u);
    FigureWithUnit(n, "mb", u, d + "mb");
    MegabytesInMB(n, u);
  }

  lemma MegabytesInMB(n: nat, u: Scale)
    requires u == MB
    ensures Trunc(InMB(n as real, u)) == n
  {
    TruncOfWhole(n);
  }

  lemma GigabytesRoundTrip(n: nat)
    ensures ParseMemoryMB(FormatNat(n) + "gb") == n * 1024
  {
    var d, u := FormatNat(n), GB;
    ScaleSuffix(d, "gb", u);
    FigureWithUnit(n, "gb", u, d + "gb");
    GigabytesInMB(n, u);
  }

  lemma GigabytesInMB(n: nat, u: Scale)
    requires u == GB
    ensures Trunc(InMB(n as real, u)) == n * 1024
  {
    assert (n * 1024) as real == n as real * 1024.0;
    TruncOfWhole(n * 1024);
  }

  lemma TerabytesRoundTrip(n: nat)
    ensures ParseMemoryMB(FormatNat(n) + "tb") == n * 1024 * 1024
  {
    var d, u := FormatNat(n), TB;
    ScaleSuffix(d, "tb", u);
    FigureWithUnit(n, "tb", u, d + "tb");
    TerabytesInMB(n, u);
  }

  lemma TerabytesInMB(n: nat, u: Scale)
    requires u == TB
    ensures Trunc(InMB(n as real, u)) == n * 1024 * 1024
  {
    assert (n * 1024 * 1024) as real == n as real * 1024.0 * 1024.0;
    TruncOfWhole(n * 1024 * 1024);
  }

  /** A kilobyte figure loses its remainder below one MB. */
  lemma KilobytesRoundDown(n: nat)
    ensures ParseMemoryMB(FormatNat(n) + "kb") == n / 1024
  {
    var d, u := FormatNat(n), KB;
    ScaleSuffix(d, "kb", u);
    FigureWithUnit(n, "kb", u, d + "kb");
    KilobytesInMB(n, u);
  }

  lemma KilobytesInMB(n: nat, u: Scale)
    requires u == KB
    ensures Trunc(InMB(n as real, u)) == n / 1024
  {
    TruncQuotient(n, 1024);
  }

  lemma BytesInMB(n: nat, u: Scale)
    requires u == B
    ensures Trunc(InMB(n as real, u)) == n / (1024 * 1024)
  {
    assert 1024.0 * 1024.0 == (1024 * 1024) as real;
    TruncQuotient(n, 1024 * 1024);
  }

  /** Digits followed by a lone `b` are a byte count. */
  lemma BytesScale(d: string, u: Scale)
    requires |d| >= 1 && AllDigits(d) && u == B
    ensures ScaleOf(d + "b") == u
  {
    var t := d + "b";
    assert t[|t| - 2..] == [d[|d| - 1], 'b'];
    assert t[|t| - 1..] == "b";
  }

  lemma BytesRoundDown(n: nat)
    ensures ParseMemoryMB(FormatNat(n) + "b") == n / (1024 * 1024)
  {
    var d, u := FormatNat(n), B;
    BytesScale(d, u);
    FigureWithUnit(n, "b", u, d + "b");
    BytesInMB(n, u);
  }

  /** A figure without a unit is taken as MB. */
  lemma BareRoundTrip(n: nat)
    ensures ParseMemoryMB(FormatNat(n)) == n
  {
    var d := FormatNat(n);
    assert d + "" == d;
    if n == 0 {
      assert d == "0";
      NormalisedDigits(d, "");
    } else {
      DigitsValueOfFormat(n);
      assert DigitsValue("0") == 0;
      assert d[|d| - 1..] == [d[|d| - 1]];
      FigureWithUnit(n, "", NoUnit, d);
      TruncOfWhole(n);
    }
  }

  /** The filter needs every condition: a node that passes reads as live,
      as a compute vnode, and as serving a named eligible queue. */
  lemma IncludedNodeServesEligible(b: Block, eligible: seq<Queue>)
    requires ShouldInclude(b, eligible)
    ensures exists q :: q in eligible && QueueName(q) in NodeQueues(Get(b, "resources_available.Qlist", ""))
    ensures !Contains(Lower(Get(b, "state", "")), "down")
  {
  }

  /** With no eligible queue, no node survives parsing. */
  lemma NoEligibleQueueNoNodes(output: string)
    ensures ParseNodes(output, []) == []
  {
    var bs := ParseBlocks(output);
    var s := Survivors(bs, Keeper([]));
    forall i | 0 <= i < |s| ensures s[i].None? {
      assert s[i] == Survivor(bs[i], []);
      assert !ShouldInclude(bs[i], []);
    }
    PresentOfNothing(s);
  }

  lemma {:induction false} PresentOfNothing(s: seq<Option<FreeNode>>)
    requires forall i :: 0 <= i < |s| ==> s[i].None?
    ensures Present(s) == []
    decreases |s|
  {
    if |s| > 0 {
      PresentOfNothing(s[1..]);
    }
  }

  /** Taking the present values commutes with concatenation. */
  lemma {:induction false} PresentAppend(s: seq<Option<FreeNode>>, t: seq<Option<FreeNode>>)
    ensures Present(s + t) == Present(s) + Present(t)
    decreases |s|
  {
    if |s| > 0 {
      var st := s + t;
      assert st[1..] == s[1..] + t;
      PresentAppend(s[1..], t);
      var h, p, q := PresentHead(s), Present(s[1..]), Present(t);
      assert Present(st) == h + (p + q) by { assert st[0] == s[0]; }
      assert h + (p + q) == (h + p) + q;
    } else {
      assert s + t == t;
    }
  }

  /** The value, if any, of the first option. */
  function PresentHead(s: seq<Option<FreeNode>>): (h: seq<FreeNode>)
    requires |s| > 0
    ensures Present(s) == h + Present(s[1..])
  {
    if s[0].Some? then [s[0].value] else []
  }

  /** Contributions of a concatenation are the concatenated contributions. */
  lemma SurvivorsAppend(a: seq<Block>, b: seq<Block>, keep: Block -> Option<FreeNode>)
    ensures Survivors(a + b, keep) == Survivors(a, keep) + Survivors(b, keep)
  {
    var sa, sb := Survivors(a, keep), Survivors(b, keep);
    forall i | 0 <= i < |a| + |b| ensures Survivors(a + b, keep)[i] == (sa + sb)[i] {
      if i < |a| {
        assert (a + b)[i] == a[i];
      } else {
        assert (a + b)[i] == b[i - |a|];
      }
    }
  }

  /** The parsed list follows the dump: the records of an earlier stretch of
      blocks come before those of a later one. */
  lemma KeptAppend(a: seq<Block>, b: seq<Block>, eligible: seq<Queue>)
    ensures Kept(a + b, eligible) == Kept(a, eligible) + Kept(b, eligible)
  {
    var keep := Keeper(eligible);
    SurvivorsAppend(a, b, keep);
    PresentAppend(Survivors(a, keep), Survivors(b, keep));
  }

  /** Every free-resource record comes from a block of the dump that the
      filter includes and that processes to it, and it reports no negative
      free resource. */
  lemma ParsedNodesComeFromDump(output: string, eligible: seq<Queue>, n: FreeNode)
    requires n in ParseNodes(output, eligible)
    ensures exists b :: b in ParseBlocks(output) && ShouldInclude(b, eligible) && ProcessNode(b) == Some(n)
    ensures n.cpuAvailable >= 0 && n.memAvailableMB >= 0
  {
    KeptFrom(ParseBlocks(output), eligible, n);
  }

  lemma KeptFrom(bs: seq<Block>, eligible: seq<Queue>, n: FreeNode)
    requires n in Kept(bs, eligible)
    ensures exists b :: b in bs && ShouldInclude(b, eligible) && ProcessNode(b) == Some(n)
    ensures n.cpuAvailable >= 0 && n.memAvailableMB >= 0
  {
    var s := Survivors(bs, Keeper(eligible));
    assert Some(n) in s;
    var i :| 0 <= i < |bs| && s[i] == Some(n);
    SurvivorAt(bs, eligible, i);
    Survived(bs[i], eligible, n);
  }

  lemma SurvivorAt(bs: seq<Block>, eligible: seq<Queue>, i: int)
    requires 0 <= i < |bs|
    ensures Survivors(bs, Keeper(eligible))[i] == Survivor(bs[i], eligible)
  {
  }

  /** Conversely, every block of the dump that the filter includes and that
      processes cleanly has its record listed. */
  lemma DumpNodesAreParsed(output: string, eligible: seq<Queue>, b: Block)
    requires b in ParseBlocks(output) && ShouldInclude(b, eligible) && ProcessNode(b).Some?
    ensures ProcessNode(b).value in ParseNodes(output, eligible)
  {
    KeptHas(ParseBlocks(output), eligible, b);
  }

  lemma KeptHas(bs: seq<Block>, eligible: seq<Queue>, b: Block)
    requires b in bs && ShouldInclude(b, eligible) && ProcessNode(b).Some?
    ensures ProcessNode(b).value in Kept(bs, eligible)
  {
    var i :| 0 <= i < |bs| && bs[i] == b;
    SurvivorAt(bs, eligible, i);
    assert Survivors(bs, Keeper(eligible))[i] == Some(ProcessNode(b).value);
  }

  /** A block's record is that of a block the filter includes, and it has
      no negative free resource. */
  lemma Survived(b: Block, eligible: seq<Queue>, n: FreeNode)
    requires Survivor(b, eligible) == Some(n)
    ensures ShouldInclude(b, eligible) && ProcessNode(b) == Some(n)
    ensures n.cpuAvailable >= 0 && n.memAvailableMB >= 0
  {
    assert Process(ReadingOf(b)) == Some(n);
  }
}
