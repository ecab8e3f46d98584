# Cluster advisory logic of two PBS utilities, in Dafny

This project models the decision logic of two small command-line tools for a
PBS batch cluster:

- **clusterstats.py**, the utilisation report. It reads a `pbsnodes -a`
  inventory dump and splits it into node blocks. It classifies each node as
  counted, down/offline or excluded (with a reason), and folds the counted
  nodes into a compute pool and a GPU pool: cores, memory, GPUs and distinct
  job IDs. It also keeps a ledger of excluded node names.
- **rescheck.py**, the availability checker. It works out a request (cores
  and GB, or an automatic core count), the batch queues whose limits admit
  it, and the preferred queue. It then takes the live compute nodes of the
  dump that serve one of those queues and works out their free resources.
  The answer is either "Yes" with the fitting nodes, most free cores first,
  or "No" with a diagnosis and up to five ranked alternatives, each with a
  practical configuration.

Both tools are modelled as pure functions of the dump text and the request.

| module | file | contents |
|---|---|---|
| `Results` | results.dfy | `Option`, `Result` and the two Python faults raised (`ValueError`, `ZeroDivisionError`) |
| `Text` | text.dfy | Python's `strip`, ASCII `lower`/`upper`, `in`, `split`/`join`, `str.split(sep, 1)` |
| `Numbers` | numbers.dfy | `int()`/`float()` on plain decimal literals, `str(n)`, `int(x)` truncation |
| `Inventory` | inventory.dfy | the block-format `pbsnodes -a` parser both scripts share |
| `ClusterStats` | clusterstats.dfy | memory and integer normalisation, job IDs, node classifier, colour tier, zero guard |
| `Aggregation` | aggregation.dfy | the `analyze_cluster` loop, with a per-pool reference sum it is proved equal to |
| `Sorting` | sorting.dfy | `list.sort(key=..., reverse=True)` as a stable descending sort |
| `Queues` | queues.dfy | queue limits, eligibility and the preferred queue |
| `ResCheck` | rescheck.dfy | `parse_memory_mb`, the node filter, `process_node`, the fit search, diagnosis and ranking |
| `Advisor` | advisor.dfy | the script body: request, rejection, Yes/No answer, suggestions; facts relating the two tools |

How Python constructs are represented:

- A node is a `Block`: its header line plus a `map<string, string>` of
  attributes. `node.get(key, default)` is `Inventory.Get`; the `name` key
  falls back to the header, as the dictionary does.
- An exception that escapes a function is an `Err` result.
  - An unreadable suffixed memory figure makes the whole report fail.
  - A zero divisor (a request of 0 cores or 0 MB in the ranking, or a memory
    per core of 0 in the formulas) makes the check fail.

## Model

| member | source | states |
|---|---|---|
| ClusterStats.ParseMemoryValue | clusterstats.py:27-47 | blank text and `<various>` read as 0 MB, and so does an unreadable figure without a unit (the `ValueError` is caught); the only failure is a suffixed figure whose number is unreadable |
| ClusterStats.Suffixed | clusterstats.py:34-43 | a suffixed figure succeeds exactly when the text before the suffix is a number, and is that number scaled to MB |
| ClusterStats.MemoryInMB | clusterstats.py:34-35 | `str(n) + "mb"` reads as n MB |
| ClusterStats.MemoryInKB | clusterstats.py:36-37 | `str(n) + "kb"` reads as n/1024 MB |
| ClusterStats.MemoryInGB | clusterstats.py:38-39 | `str(n) + "gb"` reads as n*1024 MB |
| ClusterStats.MemoryInBytes | clusterstats.py:40-41 | `str(n) + "b"` reads as n/1048576 MB |
| ClusterStats.MemoryBare | clusterstats.py:42-47 | a figure without a unit is bytes: `str(n)` reads as n/1048576 MB |
| ClusterStats.TerabytesRaise | clusterstats.py:40-41 | `<digits>tb` falls into the bytes branch, its number `<digits>t` is unreadable, and the parse raises instead of returning 0 |
| ClusterStats.SuffixedFault | clusterstats.py:33-43 | any normalised suffixed figure with an unreadable number raises |
| ClusterStats.SafeIntParse | clusterstats.py:49-58 | text other than `<various>` and `various` that spells an integer gives that integer; blank, `<various>`, `various` and unreadable text give the default |
| ClusterStats.SafeIntParseFormat | clusterstats.py:49-58 | `safe_int_parse(str(n))` is n whatever the default |
| ClusterStats.CountUniqueJobs | clusterstats.py:60-76 | the result is exactly the set of job IDs (text before the first `/`) of the non-blank stripped entries; no ID contains `/` |
| ClusterStats.JobsOfListing | clusterstats.py:60-76 | joining comma-free non-blank entries with `,` and counting gives exactly their job IDs |
| ClusterStats.JobsSharingIdCollapse | clusterstats.py:67-76 | entries `id/0`, `id/1`, ... of one job count as the single ID `id` |
| ClusterStats.Classify | clusterstats.py:78-117 | the reason is down/offline iff the state says down or offline; a live node of another kind is excluded; a live compute or GPU node is counted in the GPU pool when `gpuq` is listed, otherwise counted in the compute pool when its list is empty or names a monitored queue, and otherwise excluded for naming no monitored queue; counted iff the reason is Included |
| ClusterStats.BlankQueueListExcluded | clusterstats.py:97-117 | a queue list of only blanks (`,`) is not the empty-list fallback: the node is excluded, while `""` includes it |
| ClusterStats.TierOf | clusterstats.py:119-126 | green iff below 50, red iff above 70, otherwise yellow |
| ClusterStats.TierMonotone | clusterstats.py:119-126 | a higher percentage never gives a calmer tier |
| ClusterStats.UtilizationDisplay | clusterstats.py:128-141 | with no capacity no division happens and `0/0 (0.0%)` is shown with no colour; otherwise the percentage times the capacity is 100 times the usage and the colour is its tier |
| ClusterStats.HalfUsedNodeDisplay | clusterstats.py:128-141 | 32 of 64 cores and 128000 of 256000 MB both show 50% in yellow |
| Inventory.KindCases | clusterstats.py:175-193 | a line is skipped as blank iff it is all whitespace; otherwise it starts a node iff it does not begin with a space or tab, and that node's name is non-empty and stripped; attribute keys and values come stripped |
| Inventory.ParseBlocks | clusterstats.py:169-200 | one node per non-blank unindented line, in order, named by that line stripped, the last one included |
| Inventory.OrphanLinesIgnored | clusterstats.py:185-188 | attribute lines before the first node are dropped |
| Inventory.ParseSplitsAtHeader | clusterstats.py:180-184 | parsing splits at every header line: the text before it never affects the nodes after it |
| Inventory.OneBlock | clusterstats.py:180-198 | a header followed by non-header lines gives one node holding exactly those lines' attributes |
| Inventory.IndentedKind | clusterstats.py:185-194 | an indented line that is not all whitespace is an attribute iff it holds `=`, and is skipped otherwise |
| Inventory.AttributeLine | clusterstats.py:185-194 | an indented `key = value` line, with any indentation and any blanks around the `=`, gives the attribute `key` with the value `value`; it splits at its first `=`, so the value keeps later `=` signs |
| Inventory.StateLine | clusterstats.py:185-194 | the `pbsnodes -a` line `    state = free` is the attribute `state` with the value `free` |
| Inventory.StripIndented | clusterstats.py:186-189 | stripping a line indented by any non-empty run of whitespace removes exactly that indentation |
| Aggregation.OfflinePool | clusterstats.py:252-265 | a down/offline node is tallied in the GPU pool iff its queue list names `gpuq`, otherwise in the compute pool |
| Aggregation.Read | clusterstats.py:238-250 | what the loop reads from a node satisfies the classifier's guarantees |
| Aggregation.Record | clusterstats.py:267-271 | recording an excluded node appends its name under its reason and leaves the other reasons unchanged |
| Aggregation.Step | clusterstats.py:238-309 | one pass fails exactly when the node is counted and its memory is unreadable; every pass adds one to the node total |
| Aggregation.StepShares | clusterstats.py:238-309 | one pass adds exactly the node's share to each pool and its ledger entry to each reason |
| Aggregation.Run | clusterstats.py:238-309 | on well-formed readings the loop completes iff no counted node has unreadable memory; when it completes every node has added one to the total |
| Aggregation.RunTally | clusterstats.py:238-309 | the loop completes iff no counted node has unreadable memory, and then equals the per-pool sum of shares and the per-reason list of names |
| Aggregation.AnalyzeCluster | clusterstats.py:202-311 | the report completes iff no counted node of the inventory has unreadable memory, and then its node total is the inventory size |
| Aggregation.AnalyzeTotals | clusterstats.py:202-311 | the report completes iff no counted node of the inventory has unreadable memory; each pool is then the sum of its nodes' shares, the node total is the inventory size, and the ledger lists the excluded names in inventory order |
| Aggregation.ShareAccounted | clusterstats.py:252-309 | a node is counted once, as included or offline, in exactly one pool, or ledgered once; the compute pool never gains devices |
| Aggregation.NodesAccounted | clusterstats.py:238-309 | over any inventory the pools' included and offline counts plus the ledger's excluded names add up to the number of nodes |
| Aggregation.TallyAppend | clusterstats.py:238-309 | the pool sum over two inventories is the sum of the two pool sums |
| Aggregation.PlusComm | clusterstats.py:286-309 | adding to a pool is commutative, job-ID union included |
| Aggregation.PlusAssoc | clusterstats.py:286-309 | adding to a pool is associative |
| Aggregation.AnalyzeOrderIndependent | clusterstats.py:202-311 | for any two inventories holding the same nodes in any order, the pools, the node total and whether the report completes are the same |
| Sorting.SortDesc | rescheck.py:248 | the sort returns a non-increasing permutation of its input |
| Sorting.SortDescStable | rescheck.py:248 | items with equal keys keep their original order |
| Queues.DetermineEligibleQueues | rescheck.py:48-65 | a queue is listed iff its inclusive limits (and the big-memory queue's floor) admit the request; the list follows the order of the checks |
| Queues.AdmitsDownward | rescheck.py:48-65 | every queue except the big-memory one admits any smaller request |
| Queues.BigMemNotDownward | rescheck.py:62-63 | the big-memory queue admits 130 GB and rejects 129 GB |
| Queues.EligibleNested | rescheck.py:48-65 | express and small imply medium, medium implies large; no queue is eligible iff neither large nor big-memory admits the request |
| Queues.NoQueueFits | rescheck.py:48-65 | memory strictly between 120 and 130 GB, over 500 GB, or more than 128 cores fits no queue |
| Queues.BestRegular | rescheck.py:79-82 | no queue is chosen iff none is regular; otherwise the choice is a regular queue of the list with the highest priority among them |
| Queues.PreferredQueue | rescheck.py:68-87 | the express flag is set iff express is eligible; the preference is the eligible non-express queue of highest priority, and absent only when there is none |
| Queues.EligibleHasRegular | rescheck.py:68-87 | whenever some queue is eligible, a regular queue is recommended |
| Queues.PreferredIsSmallest | rescheck.py:68-87 | the recommendation is small if it admits the request, else medium, else large, else big-memory |
| ResCheck.ParseMemoryMB | rescheck.py:16-40 | blank text and `0` give 0; a non-zero result needs a readable number; a non-negative number never gives a negative result |
| ResCheck.FigureMB | rescheck.py:24-40 | an unreadable number gives 0 (the `ValueError` is caught) |
| ResCheck.MegabytesRoundTrip | rescheck.py:30-31 | `str(n) + "mb"` reads as n |
| ResCheck.GigabytesRoundTrip | rescheck.py:28-29 | `str(n) + "gb"` reads as n*1024 |
| ResCheck.TerabytesRoundTrip | rescheck.py:26-27 | `str(n) + "tb"` reads as n*1024*1024 |
| ResCheck.KilobytesRoundDown | rescheck.py:32-33 | `str(n) + "kb"` reads as n/1024 rounded down |
| ResCheck.BytesRoundDown | rescheck.py:34-35 | `str(n) + "b"` reads as n/1048576 rounded down |
| ResCheck.BareRoundTrip | rescheck.py:36-37 | a figure without a unit is MB: `str(n)` reads as n |
| ResCheck.MbToGb | rescheck.py:43-45 | the result is the whole GB below the figure: `gb*1024 <= mb < (gb+1)*1024` |
| ResCheck.SupportsEligibleQueue | rescheck.py:90-96 | true iff some eligible queue is among the node's stripped queue names (so false for no eligible queue) |
| ResCheck.ShouldInclude | rescheck.py:99-118 | true iff the lower-cased state mentions none of offline, unknown, down, the kind is exactly `compute_vnode`, and the node serves an eligible queue |
| ResCheck.IncludedNodeServesEligible | rescheck.py:99-118 | a node that passes the filter serves an eligible queue and is not down |
| ResCheck.Spare | rescheck.py:176-182 | `max(0, total - used)` is non-negative, at least the difference, and either 0 or the difference |
| ResCheck.Process | rescheck.py:176-194 | a record exists iff both core counts are integers; it keeps the name and state; its totals are the figures read; its free cores and memory are total less assigned, never below 0 |
| ResCheck.ProcessNodeCpus | rescheck.py:165-192 | a node has a record iff both `ncpus` attributes (default `0`) read as integers; the record carries the node's name and its `state` (default `unknown`), its total cores are the `resources_available.ncpus` integer, and its free cores are that less `resources_assigned.ncpus`, never below zero |
| ResCheck.ProcessNodeMemory | rescheck.py:169-182 | total memory is `parse_memory_mb` of `resources_available.mem` (default `0mb`); free memory is that less `parse_memory_mb` of `resources_assigned.mem` (default `0kb`), never below 0 |
| ResCheck.ParseNodes | rescheck.py:121-159 | at most one record per block of the dump |
| ResCheck.ParsedNodesComeFromDump | rescheck.py:121-159 | every parsed record is the processed form of a block of the dump that passes the filter, and has non-negative free resources |
| ResCheck.DumpNodesAreParsed | rescheck.py:121-159 | every block of the dump that passes the filter and processes cleanly has its record listed |
| ResCheck.KeptAppend | rescheck.py:127-159 | the records follow the dump's order: those of an earlier run of blocks come before those of a later one |
| ResCheck.NoEligibleQueueNoNodes | rescheck.py:121-159 | with no eligible queue, no node survives parsing |
| ResCheck.Select | rescheck.py:197-206 | the kept nodes are exactly the input's nodes meeting the test |
| ResCheck.FindAvailableNodes | rescheck.py:197-206 | the result is, in input order, exactly the nodes with at least the requested free cores and memory |
| ResCheck.SortByCores | rescheck.py:338 | the fitting nodes are rearranged, none lost or duplicated, into non-increasing free cores |
| ResCheck.Diagnose | rescheck.py:213-222 | memory is limiting iff some node has the cores and none the memory; cores iff the reverse; both iff no node has either |
| ResCheck.ViableNodes | rescheck.py:224-235 | candidates are nodes with free cores and at least 2 GB; the list is empty iff no node has that; every node with free cores and 5 GB is a candidate, and when there is one every candidate has 5 GB; when there is none every node with free cores and 2 GB is a candidate |
| ResCheck.Score | rescheck.py:239-246 | the score is at most 1000 plus the node's free cores |
| ResCheck.SliceEnd | rescheck.py:250 | the slice end follows Python's rule for `s[:min(k, len(s))]`, negative k included |
| ResCheck.BestAlternatives | rescheck.py:209-250 | fails with a division by zero iff there are viable nodes and a zero requirement; otherwise returns `min(k, len)` nodes, every one of them a viable node and none listed more often than among the viable nodes |
| ResCheck.RankedPermutation | rescheck.py:248 | ranking is a permutation of the viable nodes |
| ResCheck.RankedByScore | rescheck.py:239-248 | ranked nodes come in non-increasing score |
| ResCheck.AlternativesAreBest | rescheck.py:209-250 | alternatives are viable nodes in non-increasing score, no viable node left out outscores a chosen one, and with room for all every viable node is listed |
| Advisor.AutoCores | rescheck.py:265-272 | fails iff the memory per core is 0; otherwise at most 128 cores |
| Advisor.AutoCoresFitLargeQueue | rescheck.py:266-272 | the automatic count fits the large queue's 128 cores and 120 GB with the formula's memory, and below the cap one more core would not |
| Advisor.MakeRequest | rescheck.py:264-283 | given cores and memory are kept; missing memory is cores times memory per core plus overhead; the MB figure is the GB figure times 1024 truncated; auto iff cores were missing |
| Advisor.AutoRequestAdmitted | rescheck.py:264-291 | with a positive memory per core and an overhead of at most 120 GB, a fully automatic request is admitted by the large queue and never rejected |
| Advisor.Advise | rescheck.py:285-361 | rejected iff no queue admits the request; "no nodes" iff none survive parsing; "Yes" lists exactly the fitting nodes, most free cores first; otherwise no candidate fits |
| Advisor.RejectionIgnoresDump | rescheck.py:285-291 | whether a request is rejected does not depend on the dump |
| Advisor.FittingNodeAnswersYes | rescheck.py:332-343 | a candidate that fits makes the answer "Yes" and is listed |
| Advisor.Check | rescheck.py:264-361 | an automatic request with memory per core 0 fails with a division by zero |
| Advisor.CoresByMemory | rescheck.py:351 | the cores the memory allows are never negative; when positive they and the overhead fit in the GB, and one more core would not |
| Advisor.Suggest | rescheck.py:346-355 | practical cores are between 0 and the node's free cores; a practical memory figure exists iff they are positive |
| Advisor.SuggestionFitsNode | rescheck.py:349-355 | the practical configuration, and the memory figure printed for it, fit in the node's whole free GB |
| Advisor.SuggestionMaximal | rescheck.py:349-352 | below the node's free cores, one more practical core would not fit its whole free GB |
| Advisor.PracticalFits | rescheck.py:351-354 | the formula `min(cores, max(0, int((gb - overhead) / per_core)))` fits its budget and is maximal below the core cap |
| Advisor.Suggestions | rescheck.py:345-355 | fails iff there are alternatives and memory per core is 0; otherwise the i-th suggestion is the one for the i-th alternative |
| Advisor.ShortOfCores | rescheck.py:209-355 | a node with 2 cores and 10 GB against 4 cores and 8 GB: cores are limiting, the score is 502, and the suggestion is 2 cores with 7 GB |
| Advisor.BareFigureReadings | rescheck.py:36-37 | the two tools disagree on a figure without a unit: the checker reads MB, the report bytes |
| Advisor.TerabyteReadings | rescheck.py:26-27 | on a `tb` figure the checker scales by 1048576 while the report raises |
| Advisor.UnknownIsAvailable | clusterstats.py:84-88 | the report's default state `unknown` is not a down or offline state |
| Advisor.IncludedStateAvailable | rescheck.py:105-108 | a state the checker accepts is one the report treats as available |
| Advisor.CountedWhenMonitored | clusterstats.py:86-111 | the report counts a live compute node whose queue list names a monitored queue |
| Advisor.EligibleQueueMonitored | clusterstats.py:97-111 | every queue the checker knows is one the report monitors |
| Advisor.CheckedNodesAreCounted | rescheck.py:99-118 | a node the checker would offer is one the report counts |

## Left out

- Running `pbsnodes` (clusterstats.py:152-167, rescheck.py:311-323) is left out: process I/O, its timeout and its error paths. Both scripts are modelled as functions of the dump text.
- Printing, ANSI colours, the report text (`print_utilization_report`, `main`), `argparse` and `sys.exit` are presentation and are left out. The script body's decisions are modelled in `Advisor`, and so is its arithmetic: the automatic cores, the memory requirement and the practical configuration.
- The printed queue recommendation (`preferred_regular.replace('q', '')`) is left out; the chosen queue and the express flag are modelled.
- `format_memory` and every `:.1f` rendering are left out; the numbers are Dafny `real`.
- Python's `float()` and `int()` are modelled only for plain decimal literals: optional surrounding whitespace, an optional sign, digits, and for `float` an optional fraction. Exponents, `inf`/`nan`, underscores and non-ASCII digits are read as unreadable. Floating-point rounding is not modelled: memory, fractions and scores are exact reals.
- `lower()`/`upper()` map ASCII letters only.
- `scfcheck.py` and `convergence.py` are not part of this model: qstat JSON, file reading, plotting and a regular-expression line scan outside the scheduling logic.
- ClusterStats.ParseMemoryValue: its contract gives the sentinels, the unreadable figure without a unit, and where failures come from. The value of each unit is stated by the `MemoryIn…`, `MemoryBare` and `TerabytesRaise` lemmas.
- ResCheck.ParseMemoryMB: its contract gives only the zero cases and the sign. The scaling of each unit is stated by the round-trip lemmas.
- ResCheck.ParseMemoryMB: a figure whose number is beyond the float range (`inf`, `1e999`, a 400-digit figure) makes `int(float(...))` raise `OverflowError` (rescheck.py:26-38), which neither `parse_memory_mb` nor `process_node` catches, so the script stops. The model reads such a figure as unreadable (0) or as its exact value.
- ResCheck.Score: its contract states only the upper bound. Its role in the ranking is stated by `AlternativesAreBest`.
- ResCheck.BestAlternatives: the ordering and best-first choice are stated by `AlternativesAreBest`, not by its own contract.
- Advisor.Advise: the "No" branch's diagnosis and suggestions are stated by `Diagnose`, `BestAlternatives` and `Suggestions`, not repeated in its contract.
