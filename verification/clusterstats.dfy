/** The per-node decisions of the utilisation report (clusterstats.py):
    memory and integer normalisation, distinct job IDs, the three-step node
    classifier, and the colour tier of a utilisation percentage. */
module ClusterStats {
  import opened Results
  import opened Text
  import opened Numbers

  /** The batch queues whose nodes count as general compute. */
  const Monitored: set<string> :=
    {"smallq", "mediumq", "largeq", "expressq", "bigmemq", "commercialq", "specialq", "benchmarkq"}

  /** The queue that marks a node as part of the GPU pool. */
  const GpuQueue: string := "gpuq"

  /** `float(s)`, raising `ValueError` where Python does. */
  function Float(s: string): (r: Result<real>)
    ensures r.Ok? <==> ParseDecimal(s).Some?
    ensures r.Ok? ==> r.value == ParseDecimal(s).value
  {
    match ParseDecimal(s)
    case Some(x) => Ok(x)
    case None => Err(ValueError(s))
  }

  /** The unit suffixes `parse_memory_value` tries, in the order it tries them. */
  datatype Unit = MB | KB | GB | B | Bare

  /** The first suffix of `mb`, `kb`, `gb`, `b` that the text ends with. */
  function UnitOf(t: string): (u: Unit)
    ensures u != Bare <==> EndsWith(t, "b")
    ensures u != Bare ==> |t| >= SuffixLength(u)
  {
    if EndsWith(t, "mb") then
      assert t[|t| - 1..] == t[|t| - 2..][1..];
      MB
    else if EndsWith(t, "kb") then
      assert t[|t| - 1..] == t[|t| - 2..][1..];
      KB
    else if EndsWith(t, "gb") then
      assert t[|t| - 1..] == t[|t| - 2..][1..];
      GB
    else if EndsWith(t, "b") then B
    else Bare
  }

  function SuffixLength(u: Unit): nat {
    match u
    case MB => 2
    case KB => 2
    case GB => 2
    case B => 1
    case Bare => 0
  }

  /** A figure in the given unit, converted to MB. */
  function ToMB(x: real, u: Unit): real {
    match u
    case MB => x
    case KB => x / 1024.0
    case GB => x * 1024.0
    case B => x / (1024.0 * 1024.0)
    case Bare => x / (1024.0 * 1024.0)
  }

  /** `parse_memory_value`: a memory figure in MB. Sentinels give 0; a bare
      number is bytes and falls back to 0 when unreadable; a suffixed figure
      whose number is unreadable raises, and nothing here catches it. */
  function ParseMemoryValue(text: string): (r: Result<real>)
    ensures text == "" || text == "<various>" ==> r == Ok(0.0)
    ensures r.Err? ==> UnitOf(Lower(Strip(text))) != Bare
    ensures var t := Lower(Strip(text));
      text != "" && text != "<various>" && UnitOf(t) == Bare && ParseDecimal(t).None? ==> r == Ok(0.0)
  {
    if text == "" || text == "<various>" then Ok(0.0)
    else MemoryOf(Lower(Strip(text)))
  }

  /** The value of an already stripped, lower-cased memory figure. */
  function MemoryOf(t: string): (r: Result<real>)
    ensures r.Err? ==> UnitOf(t) != Bare
    ensures UnitOf(t) == Bare && ParseDecimal(t).None? ==> r == Ok(0.0)
    ensures UnitOf(t) == Bare && ParseDecimal(t).Some? ==> r == Ok(ParseDecimal(t).value / (1024.0 * 1024.0))
  {
    var u := UnitOf(t);
    if u == Bare then
      match ParseDecimal(t)
      case Some(x) => Ok(ToMB(x, Bare))
      case None => Ok(0.0)
    else
      Suffixed(t, u)
  }

  /** A figure with a unit suffix: the number before the suffix, scaled. */
  function Suffixed(t: string, u: Unit): (r: Result<real>)
    requires u != Bare && |t| >= SuffixLength(u)
    ensures r.Ok? <==> ParseDecimal(t[..|t| - SuffixLength(u)]).Some?
    ensures r.Ok? ==> r.value == ToMB(ParseDecimal(t[..|t| - SuffixLength(u)]).value, u)
  {
    var x :- Float(t[..|t| - SuffixLength(u)]);
    Ok(ToMB(x, u))
  }

  /** `safe_int_parse(value, default)`: the integer the text spells, or the
      default for blanks, the `<various>`/`various` sentinels and anything
      `int()` rejects. */
  function SafeIntParse(value: string, default: int): (r: int)
    ensures r == default || ParseInteger(value) == Some(r)
    ensures ParseInteger(value).None? ==> r == default
    ensures Strip(value) == [] || value == "<various>" || value == "various" ==> r == default
    ensures value != "<various>" && value != "various" && ParseInteger(value).Some? ==>
              r == ParseInteger(value).value
  {
    if value == "" || value == "<various>" || value == "various" then default
    else if Strip(value) == "" then default
    else
      match ParseInteger(value)
      case Some(n) => n
      case None => default
  }

  /** The job ID of one `jobs` entry: everything before its first `/`. */
  function JobId(entry: string): string {
    Before(entry, '/')
  }

  /** The non-blank entries of a comma-separated list, stripped. */
  function Entries(list: string): set<string> {
    set e | e in Split(list, ',') && Strip(e) != [] :: Strip(e)
  }

  /** `count_unique_jobs`: the distinct job IDs of a node's `jobs` attribute. */
  function CountUniqueJobs(jobs: string): (r: set<string>)
    ensures forall id :: id in r ==> '/' !in id
    ensures forall id :: id in r ==> exists e :: e in Entries(jobs) && JobId(e) == id
    ensures forall e :: e in Entries(jobs) ==> JobId(e) in r
  {
    if jobs == "" then
      assert Entries(jobs) == {} by {
        assert Split(jobs, ',') == [""];
      }
      {}
    else
      set e | e in Entries(jobs) :: JobId(e)
  }

  /** The node's queues: the non-blank comma-separated entries of its `Qlist`. */
  function QueueSet(qlist: string): set<string> {
    Entries(qlist)
  }

  /** Why a node is, or is not, counted. */
  datatype Reason = Included | DownOffline | NotComputeVnode | NoMonitoredQueues

  /** The pool a node is counted in. */
  datatype PoolKind = Compute | Gpu | Unknown

  /** `(include, reason, node_type)` as `should_include_node` returns it. */
  datatype Verdict = Verdict(counted: bool, reason: Reason, pool: PoolKind)

  /** The state names a node that cannot take new work, whatever else it says. */
  predicate Unavailable(state: string) {
    Contains(Upper(state), "DOWN") || Contains(Upper(state), "OFFLINE")
  }

  predicate ComputeKind(vntype: string) {
    vntype == "compute_vnode" || vntype == "gpu_vnode"
  }

  /** `should_include_node`: liveness first, then node kind, then queues. */
  function Classify(state: string, qlist: string, vntype: string): (v: Verdict)
    ensures v.counted <==> v.reason == Included
    ensures v.counted ==> v.pool != Unknown
    ensures Unavailable(state) ==> v == Verdict(false, DownOffline, Unknown)
    ensures !Unavailable(state) && !ComputeKind(vntype) ==> v == Verdict(false, NotComputeVnode, Unknown)
    ensures v.counted ==> !Unavailable(state) && ComputeKind(vntype)
    ensures v.pool == Gpu <==> v.counted && GpuQueue in QueueSet(qlist)
    ensures v.reason == NoMonitoredQueues <==>
              !Unavailable(state) && ComputeKind(vntype) && qlist != []
              && GpuQueue !in QueueSet(qlist) && QueueSet(qlist) * Monitored == {}
    ensures v.reason == DownOffline <==> Unavailable(state)
    ensures !Unavailable(state) && ComputeKind(vntype) && GpuQueue in QueueSet(qlist) ==>
              v == Verdict(true, Included, Gpu)
    ensures !Unavailable(state) && ComputeKind(vntype) && GpuQueue !in QueueSet(qlist)
            && (qlist == [] || QueueSet(qlist) * Monitored != {}) ==>
              v == Verdict(true, Included, Compute)
    ensures !Unavailable(state) && ComputeKind(vntype) && qlist != []
            && GpuQueue !in QueueSet(qlist) && QueueSet(qlist) * Monitored == {} ==>
              v == Verdict(false, NoMonitoredQueues, Compute)
  {
    if Unavailable(state) then Verdict(false, DownOffline, Unknown)
    else if !ComputeKind(vntype) then Verdict(false, NotComputeVnode, Unknown)
    else if qlist != "" then
      var queues := QueueSet(qlist);
      if GpuQueue in queues then Verdict(true, Included, Gpu)
      else if queues * Monitored != {} then Verdict(true, Included, Compute)
      else Verdict(false, NoMonitoredQueues, Compute)
    else
      assert QueueSet(qlist) == {} by { assert Split(qlist, ',') == [""]; }
      Verdict(true, Included, Compute)
  }

  /** The colour band of a utilisation percentage. */
  datatype Tier = Green | Yellow | Red

  function TierRank(t: Tier): nat {
    match t
    case Green => 0
    case Yellow => 1
    case Red => 2
  }

  /** `get_color_for_utilization`. */
  function TierOf(percentage: real): (t: Tier)
    ensures t == Green <==> percentage < 50.0
    ensures t == Red <==> percentage > 70.0
  {
    if percentage < 50.0 then Green
    else if percentage <= 70.0 then Yellow
    else Red
  }

  /** The numbers `calculate_utilization_display` renders: used, total,
      percentage, and the colour (absent on the zero-capacity line). */
  datatype Display = Display(used: real, total: real, percent: real, tier: Option<Tier>)

  /** `calculate_utilization_display`: no division happens when nothing is
      available; that case is shown as `0 used / 0 total (0.0%)`. */
  function UtilizationDisplay(inUse: real, capacity: real): (d: Display)
    ensures capacity <= 0.0 ==> d == Display(0.0, 0.0, 0.0, None)
    ensures capacity > 0.0 ==> d.used == inUse && d.total == capacity
    ensures capacity > 0.0 ==> d.percent * capacity == inUse * 100.0
    ensures capacity > 0.0 ==> d.tier == Some(TierOf(d.percent))
  {
    if capacity > 0.0 then
      var p := inUse / capacity * 100.0;
      Display(inUse, capacity, p, Some(TierOf(p)))
    else
      Display(0.0, 0.0, 0.0, None)
  }

  /** A normalised figure with a unit suffix reads as its number times the unit. */
  lemma SuffixedMemory(t: string, u: Unit, x: real)
    requires t != [] && t[0] != '<' && Lower(Strip(t)) == t
    requires u != Bare && UnitOf(t) == u
    requires ParseDecimal(t[..|t| - SuffixLength(u)]) == Some(x)
    ensures ParseMemoryValue(t) == Ok(ToMB(x, u))
  {
    NormalisedMemory(t);
    SuffixedValue(t, u, x);
  }

  /** The facts the unit lemmas need about `str(n) + unit`. */
  lemma NumberWithUnit(n: nat, unit: string)
    requires forall i :: 0 <= i < |unit| ==> 'a' <= unit[i] <= 'z'
    ensures var t := FormatNat(n) + unit;
      t != [] && t[0] != '<' && Lower(Strip(t)) == t
      && ParseDecimal(t[..|t| - |unit|]) == Some(n as real)
  {
    var d := FormatNat(n);
    var t := d + unit;
    NormalisedDigits(d, unit);
    ParseDecimalFormat(n);
    assert t[..|t| - |unit|] == d;
  }

  /** A figure that is neither a sentinel nor changed by normalising is
      read as it stands. */
  lemma NormalisedMemory(t: string)
    requires t != [] && t[0] != '<' && Lower(Strip(t)) == t
    ensures ParseMemoryValue(t) == MemoryOf(t)
    ensures UnitOf(t) != Bare ==> ParseMemoryValue(t) == Suffixed(t, UnitOf(t))
  {
  }

  lemma SuffixedValue(t: string, u: Unit, x: real)
    requires u != Bare && |t| >= SuffixLength(u)
    requires ParseDecimal(t[..|t| - SuffixLength(u)]) == Some(x)
    ensures Suffixed(t, u) == Ok(ToMB(x, u))
  {
  }

  /** `str(n)` followed by a recognised suffix is `n` in that unit. */
  lemma MemoryWithUnit(n: nat, unit: string, u: Unit)
    requires forall i :: 0 <= i < |unit| ==> 'a' <= unit[i] <= 'z'
    requires u != Bare && |unit| == SuffixLength(u) && UnitOf(FormatNat(n) + unit) == u
    ensures ParseMemoryValue(FormatNat(n) + unit) == Ok(ToMB(n as real, u))
  {
    NumberWithUnit(n, unit);
    SuffixedMemory(FormatNat(n) + unit, u, n as real);
  }

  lemma MemoryInMB(n: nat)
    ensures ParseMemoryValue(FormatNat(n) + "mb") == Ok(n as real)
  {
    UnitSuffix(FormatNat(n), "mb", MB);
    MemoryWithUnit(n, "mb", MB);
  }

  lemma MemoryInKB(n: nat)
    ensures ParseMemoryValue(FormatNat(n) + "kb") == Ok(n as real / 1024.0)
  {
    UnitSuffix(FormatNat(n), "kb", KB);
    MemoryWithUnit(n, "kb", KB);
  }

  lemma MemoryInGB(n: nat)
    ensures ParseMemoryValue(FormatNat(n) + "gb") == Ok(n as real * 1024.0)
  {
    UnitSuffix(FormatNat(n), "gb", GB);
    MemoryWithUnit(n, "gb", GB);
  }

  lemma MemoryInBytes(n: nat)
    ensures ParseMemoryValue(FormatNat(n) + "b") == Ok(n as real / 1048576.0)
  {
    BytesSuffix(FormatNat(n));
    MemoryWithUnit(n, "b", B);
  }

  /** Which two-letter suffix a figure ends with decides its unit. */
  lemma UnitSuffix(d: string, unit: string, u: Unit)
    requires (unit == "mb" && u == MB) || (unit == "kb" && u == KB) || (unit == "gb" && u == GB)
    ensures UnitOf(d + unit) == u
  {
    var t := d + unit;
    assert t[|t| - 2..] == unit;
  }

  lemma BytesSuffix(d: string)
    requires |d| >= 1 && AllDigits(d)
    ensures UnitOf(d + "b") == B
  {
    var t := d + "b";
    assert t[|t| - 2..] == [d[|d| - 1], 'b'];
    assert t[|t| - 1..] == "b";
  }

  lemma MemoryBare(n: nat)
    ensures ParseMemoryValue(FormatNat(n)) == Ok(n as real / 1048576.0)
  {
    var d := FormatNat(n);
    ParseDecimalFormat(n);
    BareDigits(d, n as real);
  }

  /** A digit string without a unit is a byte count. */
  lemma BareDigits(d: string, x: real)
    requires |d| >= 1 && AllDigits(d)
    requires ParseDecimal(d) == Some(x)
    ensures ParseMemoryValue(d) == Ok(x / 1048576.0)
  {
    assert d + "" == d;
    NormalisedDigits(d, "");
    NoSuffix(d);
    BareMemory(d, x);
  }

  /** A normalised figure without a unit whose number reads as `x` is `x` bytes. */
  lemma BareMemory(t: string, x: real)
    requires t != [] && t[0] != '<' && Lower(Strip(t)) == t
    requires UnitOf(t) == Bare && ParseDecimal(t) == Some(x)
    ensures ParseMemoryValue(t) == Ok(x / 1048576.0)
  {
    NormalisedMemory(t);
  }

  lemma NoSuffix(d: string)
    requires |d| >= 1 && AllDigits(d)
    ensures UnitOf(d) == Bare
  {
    assert d[|d| - 1..] == [d[|d| - 1]];
  }

  /** A `tb` figure has no branch of its own: it falls into the `b` branch,
      whose remaining number `...t` is unreadable, and the call raises. */
  lemma TerabytesRaise(d: string)
    requires |d| >= 1 && AllDigits(d)
    ensures ParseMemoryValue(d + "tb").Err?
  {
    var t := d + "tb";
    NormalisedDigits(d, "tb");
    TerabyteSuffix(d);
    var u := B;
    TerabyteNumber(d, t, u);
    SuffixedFault(t, u);
  }

  /** What is left of `<digits>tb` once the `b` is cut off is unreadable. */
  lemma TerabyteNumber(d: string, t: string, u: Unit)
    requires |d| >= 1 && AllDigits(d) && t == d + "tb" && u == B
    ensures ParseDecimal(t[..|t| - SuffixLength(u)]).None?
  {
    var number := t[..|t| - SuffixLength(u)];
    assert |number| == |d| + 1;
    assert number[..|number| - 1] == d && number[|number| - 1] == 't';
    UnreadableNumber(number);
  }

  lemma TerabyteSuffix(d: string)
    ensures UnitOf(d + "tb") == B
  {
    var t := d + "tb";
    assert t[|t| - 2..] == "tb";
    assert t[|t| - 1..] == "b";
  }

  /** A normalised suffixed figure whose number is unreadable raises. */
  lemma SuffixedFault(t: string, u: Unit)
    requires t != [] && t[0] != '<' && Lower(Strip(t)) == t
    requires u != Bare && UnitOf(t) == u
    requires ParseDecimal(t[..|t| - SuffixLength(u)]).None?
    ensures ParseMemoryValue(t).Err?
  {
    NormalisedMemory(t);
  }

  /** Digits followed by a `t` are not a number. */
  lemma UnreadableNumber(u: string)
    requires |u| >= 2 && AllDigits(u[..|u| - 1]) && u[|u| - 1] == 't'
    ensures ParseDecimal(u).None?
  {
    assert IsDigit(u[..|u| - 1][0]);
    assert Trimmed(u);
    assert '.' !in u by {
      forall i | 0 <= i < |u| ensures u[i] != '.' {
        if i < |u| - 1 { assert IsDigit(u[..|u| - 1][i]); }
      }
    }
    assert !AllDigits(u);
  }

  /** `safe_int_parse(str(n)) == n`. */
  lemma SafeIntParseFormat(n: nat, default: int)
    ensures SafeIntParse(FormatNat(n), default) == n
  {
    ParseIntegerFormat(n);
    var d := FormatNat(n);
    assert d[0] != '<' && d[0] != 'v';
    assert d != "<various>" && d != "various";
  }

  /** Over a listing of comma-free, non-blank entries, the distinct job IDs are
      exactly the entries' prefixes before `/`. */
  lemma JobsOfListing(entries: seq<string>)
    requires |entries| >= 1
    requires forall i :: 0 <= i < |entries| ==> ',' !in entries[i] && Strip(entries[i]) != []
    ensures CountUniqueJobs(Join(entries, ',')) == set e | e in entries :: JobId(Strip(e))
  {
    var listing := Join(entries, ',');
    EntriesOfJoin(entries);
    JobsOfEntries(listing, entries);
  }

  /** Joining non-blank, comma-free entries gives a non-empty listing whose
      entries are the stripped originals. */
  lemma EntriesOfJoin(entries: seq<string>)
    requires |entries| >= 1
    requires forall i :: 0 <= i < |entries| ==> ',' !in entries[i] && Strip(entries[i]) != []
    ensures Join(entries, ',') != ""
    ensures Entries(Join(entries, ',')) == set e | e in entries :: Strip(e)
  {
    SplitJoin(entries, ',');
    JoinStartsWithFirst(entries, ',');
  }

  /** The job IDs of a non-empty listing, given its entries. */
  lemma JobsOfEntries(listing: string, entries: seq<string>)
    requires listing != ""
    requires Entries(listing) == set e | e in entries :: Strip(e)
    ensures CountUniqueJobs(listing) == set e | e in entries :: JobId(Strip(e))
  {
  }

  lemma {:induction false} JoinStartsWithFirst(parts: seq<string>, sep: char)
    requires |parts| >= 1
    ensures |Join(parts, sep)| >= |parts[0]|
  {
  }

  /** Entries `id/0`, `id/1`, ... of one job collapse to the single ID `id`. */
  lemma JobsSharingIdCollapse(id: string, slots: seq<nat>)
    requires |slots| >= 1
    requires id != [] && Trimmed(id) && ',' !in id && '/' !in id
    ensures CountUniqueJobs(Join(seq(|slots|, i requires 0 <= i < |slots| => id + "/" + FormatNat(slots[i])), ',')) == {id}
  {
    var entries := seq(|slots|, i requires 0 <= i < |slots| => id + "/" + FormatNat(slots[i]));
    forall i | 0 <= i < |entries|
      ensures ',' !in entries[i] && Strip(entries[i]) == entries[i] && JobId(entries[i]) == id
    {
      SlotEntry(id, FormatNat(slots[i]));
    }
    JobsOfListing(entries);
    SameIds(entries, id);
  }

  /** One entry `id/slot` is comma-free, already stripped, and names `id`. */
  lemma SlotEntry(id: string, d: string)
    requires id != [] && Trimmed(id) && ',' !in id && '/' !in id
    requires d != [] && AllDigits(d)
    ensures var e := id + "/" + d;
      ',' !in e && Strip(e) == e && JobId(e) == id
  {
    var e := id + "/" + d;
    assert e == id + ['/'] + d;
    assert ',' !in d by {
      forall i | 0 <= i < |d| ensures d[i] != ',' {
        assert IsDigit(d[i]);
      }
    }
    assert e[0] == id[0] && e[|e| - 1] == d[|d| - 1];
    assert IsDigit(d[|d| - 1]);
    assert Trimmed(e);
    IndexOfAfterSegment(id, '/', d);
    assert e[..|id|] == id;
  }

  /** Non-empty entries that all strip to ones naming `id` give `{id}`. */
  lemma SameIds(entries: seq<string>, id: string)
    requires |entries| >= 1
    requires forall i :: 0 <= i < |entries| ==> Strip(entries[i]) == entries[i] && JobId(entries[i]) == id
    ensures (set e | e in entries :: JobId(Strip(e))) == {id}
  {
    assert entries[0] in entries;
  }

  /** A queue list that is present but holds only blanks is not the "no queue
      list" fallback: the node is excluded as serving no monitored queue. */
  lemma BlankQueueListExcluded(state: string, vntype: string)
    requires !Unavailable(state) && ComputeKind(vntype)
    ensures Classify(state, ",", vntype) == Verdict(false, NoMonitoredQueues, Compute)
    ensures Classify(state, "", vntype) == Verdict(true, Included, Compute)
  {
    SplitJoin(["", ""], ',');
    assert Join(["", ""], ',') == ",";
    assert Split(",", ',') == ["", ""];
    assert QueueSet(",") == {};
  }

  /** Higher utilisation never gives a calmer colour. */
  lemma TierMonotone(p: real, q: real)
    requires p <= q
    ensures TierRank(TierOf(p)) <= TierRank(TierOf(q))
  {
  }

  /** A node with 64 cores of which 32 are used, and 256000 MB of which
      128000 MB are used, shows 50% on both lines, in the middle band. */
  lemma HalfUsedNodeDisplay()
    ensures UtilizationDisplay(32.0, 64.0) == Display(32.0, 64.0, 50.0, Some(Yellow))
    ensures UtilizationDisplay(128000.0, 256000.0) == Display(128000.0, 256000.0, 50.0, Some(Yellow))
  {
  }
}
