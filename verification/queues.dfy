/** The batch-queue limits the availability checker (rescheck.py) applies to
    a request, and its queue recommendation. */
module Queues {
  import opened Results

  datatype Queue = ExpressQ | SmallQ | MediumQ | LargeQ | BigMemQ

  function QueueName(q: Queue): string {
    match q
    case ExpressQ => "expressq"
    case SmallQ => "smallq"
    case MediumQ => "mediumq"
    case LargeQ => "largeq"
    case BigMemQ => "bigmemq"
  }

  /** A queue's limits: at most `maxCores` cores and `maxMemoryGB` GB, and,
      for the big-memory queue only, at least `minMemoryGB` GB. */
  datatype Limits = Limits(maxCores: int, maxMemoryGB: real, minMemoryGB: Option<real>)

  function LimitsOf(q: Queue): Limits {
    match q
    case ExpressQ => Limits(4, 16.0, None)
    case SmallQ => Limits(8, 4.0, None)
    case MediumQ => Limits(16, 16.0, None)
    case LargeQ => Limits(128, 120.0, None)
    case BigMemQ => Limits(32, 500.0, Some(130.0))
  }

  /** Whether a queue's limits admit a request. */
  predicate Admits(q: Queue, cores: int, memoryGB: real) {
    var l := LimitsOf(q);
    && cores <= l.maxCores
    && memoryGB <= l.maxMemoryGB
    && (l.minMemoryGB.Some? ==> l.minMemoryGB.value <= memoryGB)
  }

  /** The order in which the checks are written. */
  function Rank(q: Queue): nat {
    match q
    case ExpressQ => 0
    case SmallQ => 1
    case MediumQ => 2
    case LargeQ => 3
    case BigMemQ => 4
  }

  /** `determine_eligible_queues(cores, memory_gb)`. */
  function DetermineEligibleQueues(cores: int, memoryGB: real): (eligible: seq<Queue>)
    ensures forall q :: q in eligible <==> Admits(q, cores, memoryGB)
    ensures forall i, j :: 0 <= i < j < |eligible| ==> Rank(eligible[i]) < Rank(eligible[j])
  {
    (if cores <= 4 && memoryGB <= 16.0 then [ExpressQ] else [])
    + (if cores <= 8 && memoryGB <= 4.0 then [SmallQ] else [])
    + (if cores <= 16 && memoryGB <= 16.0 then [MediumQ] else [])
    + (if cores <= 128 && memoryGB <= 120.0 then [LargeQ] else [])
    + (if cores <= 32 && 130.0 <= memoryGB <= 500.0 then [BigMemQ] else [])
  }

  /** The preference among regular queues: the smallest suitable queue
      first, because it sees the least competition. */
  function Priority(q: Queue): nat {
    match q
    case SmallQ => 4
    case MediumQ => 3
    case LargeQ => 2
    case BigMemQ => 1
    case ExpressQ => 0
  }

  predicate Regular(q: Queue) {
    q != ExpressQ
  }

  /** The eligible regular queue of highest priority, if any. */
  function BestRegular(qs: seq<Queue>): (r: Option<Queue>)
    ensures r.None? <==> forall q :: q in qs ==> !Regular(q)
    ensures r.Some? ==> r.value in qs && Regular(r.value)
    ensures r.Some? ==> forall q :: q in qs && Regular(q) ==> Priority(q) <= Priority(r.value)
    decreases |qs|
  {
    if |qs| == 0 then None
    else
      var rest := BestRegular(qs[1..]);
      assert forall q :: q in qs ==> q == qs[0] || q in qs[1..];
      if !Regular(qs[0]) then rest
      else if rest.None? || Priority(rest.value) < Priority(qs[0]) then Some(qs[0])
      else rest
  }

  /** `get_preferred_queue(eligible)`: the preferred regular queue and
      whether the express queue is also eligible. */
  function PreferredQueue(eligible: seq<Queue>): (r: (Option<Queue>, bool))
    ensures r.1 <==> ExpressQ in eligible
    ensures r.0.None? <==> forall q :: q in eligible ==> q == ExpressQ
    ensures r.0.Some? ==> r.0.value in eligible && r.0.value != ExpressQ
    ensures r.0.Some? ==> forall q :: q in eligible && q != ExpressQ ==> Priority(q) <= Priority(r.0.value)
  {
    (BestRegular(eligible), ExpressQ in eligible)
  }

  /** Every queue but the big-memory one admits any smaller request. */
  lemma AdmitsDownward(q: Queue, cores: int, memoryGB: real, cores': int, memoryGB': real)
    requires q != BigMemQ && Admits(q, cores, memoryGB)
    requires cores' <= cores && memoryGB' <= memoryGB
    ensures Admits(q, cores', memoryGB')
  {
  }

  /** The big-memory queue is the exception: a request just below its
      memory floor loses it. */
  lemma BigMemNotDownward()
    ensures Admits(BigMemQ, 1, 130.0) && !Admits(BigMemQ, 1, 129.0)
  {
  }

  /** The express, small and medium queues sit inside the large queue's
      limits, so only the large and big-memory queues decide whether any
      queue takes the request. */
  lemma EligibleNested(cores: int, memoryGB: real)
    ensures var e := DetermineEligibleQueues(cores, memoryGB);
      && (ExpressQ in e ==> MediumQ in e)
      && (SmallQ in e ==> MediumQ in e)
      && (MediumQ in e ==> LargeQ in e)
      && (e == [] <==> !Admits(LargeQ, cores, memoryGB) && !Admits(BigMemQ, cores, memoryGB))
  {
    var e := DetermineEligibleQueues(cores, memoryGB);
    if !Admits(LargeQ, cores, memoryGB) && !Admits(BigMemQ, cores, memoryGB) {
      assert forall q :: q !in e by {
        forall q ensures q !in e {
          assert !Admits(q, cores, memoryGB);
        }
      }
    }
  }

  /** Requests between the large queue's ceiling and the big-memory queue's
      floor, or above 128 cores, fit no queue at all. */
  lemma NoQueueFits(cores: int, memoryGB: real)
    requires (120.0 < memoryGB < 130.0) || cores > 128 || memoryGB > 500.0
    ensures DetermineEligibleQueues(cores, memoryGB) == []
  {
    EligibleNested(cores, memoryGB);
  }

  /** A request that some queue takes always gets a regular-queue
      recommendation: express is never the only eligible queue. */
  lemma EligibleHasRegular(cores: int, memoryGB: real)
    requires DetermineEligibleQueues(cores, memoryGB) != []
    ensures PreferredQueue(DetermineEligibleQueues(cores, memoryGB)).0.Some?
  {
    var e := DetermineEligibleQueues(cores, memoryGB);
    EligibleNested(cores, memoryGB);
    if ExpressQ in e {
      assert MediumQ in e;
    } else {
      assert e[0] in e;
    }
  }

  /** The recommendation is the smallest queue the request fits: small when
      small admits it, otherwise medium, otherwise large, otherwise the
      big-memory queue. */
  lemma PreferredIsSmallest(cores: int, memoryGB: real)
    requires DetermineEligibleQueues(cores, memoryGB) != []
    ensures var p := PreferredQueue(DetermineEligibleQueues(cores, memoryGB)).0;
      && (Admits(SmallQ, cores, memoryGB) ==> p == Some(SmallQ))
      && (!Admits(SmallQ, cores, memoryGB) && Admits(MediumQ, cores, memoryGB) ==> p == Some(MediumQ))
      && (!Admits(MediumQ, cores, memoryGB) && Admits(LargeQ, cores, memoryGB) ==> p == Some(LargeQ))
      && (!Admits(LargeQ, cores, memoryGB) ==> p == Some(BigMemQ))
  {
    var e := DetermineEligibleQueues(cores, memoryGB);
    EligibleHasRegular(cores, memoryGB);
    EligibleNested(cores, memoryGB);
    var p := BestRegular(e).value;
    assert Admits(p, cores, memoryGB);
  }
}
