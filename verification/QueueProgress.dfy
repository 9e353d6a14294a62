/** Without early returns from wait_event every run of the work queue ends, and it can only
    end with all accepted jobs processed. */
module QueueProgress {
  import opened Bytes
  import opened Storage
  import opened FileSystem
  import opened MovePages
  import opened QueueModel
  import opened QueueSafety

  function Total(xs: seq<nat>): nat {
    if xs == [] then 0 else Total(xs[..|xs| - 1]) + xs[|xs| - 1]
  }

  lemma {:induction false} TotalUpdate(xs: seq<nat>, i: nat, x: nat)
    requires i < |xs|
    ensures Total(xs[i := x]) + xs[i] == Total(xs) + x
  {
    var n := |xs| - 1;
    if i < n {
      TotalUpdate(xs[..n], i, x);
      assert xs[i := x][..n] == xs[..n][i := x];
    } else {
      assert xs[i := x][..n] == xs[..n];
    }
  }

  lemma {:induction false} TotalBound(xs: seq<nat>, bound: nat)
    requires forall i :: 0 <= i < |xs| ==> xs[i] <= bound
    ensures Total(xs) <= |xs| * bound
  {
    if xs == [] {
    } else {
      TotalBound(xs[..|xs| - 1], bound);
      assert |xs| * bound == (|xs| - 1) * bound + bound;
    }
  }

  // ----- what is still to happen -----

  /** Loop passes that copying one file of at most `bound` bytes can take. */
  function Passes(bound: nat): nat {
    bound / PAGE_SIZE + 1
  }

  predicate PagesBounded(pc: ConsumerPc, bound: nat) {
    && (pc.CRead? ==> pc.pages * PAGE_SIZE <= bound)
    && (pc.CWrite? ==> pc.pages * PAGE_SIZE <= bound && (pc.data == [] || pc.pages * PAGE_SIZE + |pc.data| <= bound))
  }

  /** Files never grow beyond the longest one there was, and a copy stays inside its source. */
  ghost predicate FilesBounded(s: State, bound: nat) {
    && (forall path :: path in s.files ==> |s.files[path]| <= bound)
    && (forall c :: 0 <= c < |s.cons| ==> PagesBounded(s.cons[c], bound))
  }

  function PerJob(bound: nat): nat {
    2 * Passes(bound) + 7
  }

  /** Events ahead of a consumer that has a job in hand. */
  function ConsumerEvents(pc: ConsumerPc, bound: nat): nat {
    match pc
    case CDec(_) => 2 * Passes(bound) + 7
    case CWake(_) => 2 * Passes(bound) + 6
    case CUnlock(_) => 2 * Passes(bound) + 5
    case COpen(_) => 2 * Passes(bound) + 4
    case CCreate(_) => 2 * Passes(bound) + 3
    case CRead(_, k) => if k <= Passes(bound) then 2 * (Passes(bound) - k) + 2 else 0
    case CWrite(_, k, _) => if k <= Passes(bound) then 2 * (Passes(bound) - k) + 1 else 0
    case CUnlink(_) => 1
    case _ => 0
  }

  /** Events ahead of a producer, with those its job will cause. */
  function ProducerEvents(pc: ProducerPc, bound: nat): nat {
    match pc
    case PCount => 2
    case PUnlock => 1
    case PWake => 1
    case PUnlockRefused => 0
    case PUnlockNoMemory => 0
    case PAccepted => 0
    case PRefused => 0
    case PNoMemory => 0
    case PInvalid => 0
    case PNotMove => 0
    case _ => PerJob(bound) + 2
  }

  /** Steps a producer can take while nothing happens, from where it is; which ones those
      are depends on whether the queue is full. */
  function ProducerRank(pc: ProducerPc, full: bool): nat {
    match pc
    case PStart => 13
    case PThrottleTest => if full then 8 else 12
    case PThrottleInc => if full then 7 else 11
    case PUnlockToWait => if full then 6 else 10
    case PWait => if full then 5 else 9
    case PAsleep => if full then 4 else 9
    case PLeave => if full then 11 else 8
    case PLock => if full then 10 else 7
    case PTest => if full then 9 else 6
    case PAlloc => if full then 3 else 5
    case PAdd => if full then 2 else 4
    case PCount => if full then 1 else 3
    case PUnlock => 2
    case PWake => 1
    case PUnlockRefused => 1
    case PUnlockNoMemory => 1
    case _ => 0
  }

  function ConsumerRank(pc: ConsumerPc, empty: bool): nat {
    match pc
    case CUnlockToWait => if empty then 6 else 10
    case CWait => if empty then 5 else 9
    case CAsleep => if empty then 4 else 9
    case CLock => 8
    case CTest => 7
    case CTake => 3
    case _ => 0
  }

  function ProducerEventList(prod: seq<ProducerPc>, bound: nat): seq<nat> {
    seq(|prod|, i requires 0 <= i < |prod| => ProducerEvents(prod[i], bound))
  }

  function ConsumerEventList(cons: seq<ConsumerPc>, bound: nat): seq<nat> {
    seq(|cons|, i requires 0 <= i < |cons| => ConsumerEvents(cons[i], bound))
  }

  function ProducerRankList(prod: seq<ProducerPc>, full: bool): seq<nat> {
    seq(|prod|, i requires 0 <= i < |prod| => ProducerRank(prod[i], full))
  }

  function ConsumerRankList(cons: seq<ConsumerPc>, empty: bool): seq<nat> {
    seq(|cons|, i requires 0 <= i < |cons| => ConsumerRank(cons[i], empty))
  }

  function Events(s: State, bound: nat): nat {
    Total(ProducerEventList(s.prod, bound)) + |s.queue| * PerJob(bound) + Total(ConsumerEventList(s.cons, bound))
  }

  function Ranks(cfg: Config, s: State): nat {
    Total(ProducerRankList(s.prod, s.size >= cfg.capacity)) + Total(ConsumerRankList(s.cons, s.size <= 0))
  }

  // ----- every step without an early return brings it down -----

  lemma ProducerEventsUpdate(prod: seq<ProducerPc>, p: nat, pc: ProducerPc, bound: nat)
    requires p < |prod|
    ensures Total(ProducerEventList(prod[p := pc], bound)) + ProducerEvents(prod[p], bound)
         == Total(ProducerEventList(prod, bound)) + ProducerEvents(pc, bound)
  {
    TotalUpdate(ProducerEventList(prod, bound), p, ProducerEvents(pc, bound));
    assert ProducerEventList(prod[p := pc], bound) == ProducerEventList(prod, bound)[p := ProducerEvents(pc, bound)];
  }

  lemma ConsumerEventsUpdate(cons: seq<ConsumerPc>, c: nat, pc: ConsumerPc, bound: nat)
    requires c < |cons|
    ensures Total(ConsumerEventList(cons[c := pc], bound)) + ConsumerEvents(cons[c], bound)
         == Total(ConsumerEventList(cons, bound)) + ConsumerEvents(pc, bound)
  {
    TotalUpdate(ConsumerEventList(cons, bound), c, ConsumerEvents(pc, bound));
    assert ConsumerEventList(cons[c := pc], bound) == ConsumerEventList(cons, bound)[c := ConsumerEvents(pc, bound)];
  }

  lemma WakingIsNoEvent(s: State, bound: nat)
    ensures ProducerEventList(WakeProducers(s.prod), bound) == ProducerEventList(s.prod, bound)
    ensures ConsumerEventList(WakeConsumers(s.cons), bound) == ConsumerEventList(s.cons, bound)
  {
  }

  lemma ProducerRankUpdate(prod: seq<ProducerPc>, p: nat, pc: ProducerPc, full: bool)
    requires p < |prod|
    ensures Total(ProducerRankList(prod[p := pc], full)) + ProducerRank(prod[p], full)
         == Total(ProducerRankList(prod, full)) + ProducerRank(pc, full)
  {
    TotalUpdate(ProducerRankList(prod, full), p, ProducerRank(pc, full));
    assert ProducerRankList(prod[p := pc], full) == ProducerRankList(prod, full)[p := ProducerRank(pc, full)];
  }

  lemma ConsumerRankUpdate(cons: seq<ConsumerPc>, c: nat, pc: ConsumerPc, empty: bool)
    requires c < |cons|
    ensures Total(ConsumerRankList(cons[c := pc], empty)) + ConsumerRank(cons[c], empty)
         == Total(ConsumerRankList(cons, empty)) + ConsumerRank(pc, empty)
  {
    TotalUpdate(ConsumerRankList(cons, empty), c, ConsumerRank(pc, empty));
    assert ConsumerRankList(cons[c := pc], empty) == ConsumerRankList(cons, empty)[c := ConsumerRank(pc, empty)];
  }

  /** A producer step is an event, or brings only the producer itself closer to a stop; one
      event moves from the producer to the list when its job is linked. */
  ghost predicate ProducerGains(cfg: Config, s: State, s': State, p: nat, bound: nat)
    requires p < |s.prod| == |s'.prod|
  {
    var gone := ProducerEvents(s.prod[p], bound) - ProducerEvents(s'.prod[p], bound);
    var full := s.size >= cfg.capacity;
    var closer := && s'.size == s.size && s'.cons == s.cons
                  && ProducerRank(s'.prod[p], full) < ProducerRank(s.prod[p], full);
    if s.prod[p] == PAdd then gone == PerJob(bound) && |s'.queue| == |s.queue| + 1 && closer
    else s'.queue == s.queue && (gone > 0 || (gone == 0 && closer))
  }

  ghost predicate ConsumerGains(s: State, s': State, c: nat, bound: nat)
    requires c < |s.cons| == |s'.cons|
  {
    var gone := ConsumerEvents(s.cons[c], bound) - ConsumerEvents(s'.cons[c], bound);
    var empty := s.size <= 0;
    var closer := && s'.size == s.size && s'.prod == s.prod
                  && ConsumerRank(s'.cons[c], empty) < ConsumerRank(s.cons[c], empty);
    if s.cons[c] == CTake then gone + PerJob(bound) == 0 && |s'.queue| == |s.queue| - 1 && closer
    else s'.queue == s.queue && (gone > 0 || (gone == 0 && closer))
  }

  lemma ProducerProgressStep(cfg: Config, s: State, p: nat, allocFails: bool, bound: nat)
    requires p < |s.prod| && p < |cfg.jobs| && ProducerStep(cfg, s, p, allocFails).Some?
    ensures var s' := ProducerStep(cfg, s, p, allocFails).value;
            |s'.prod| == |s.prod| && ProducerGains(cfg, s, s', p, bound)
  {
    match s.prod[p]
    case PTest =>
    case PWait =>
    case PAdd =>
    case _ =>
  }

  lemma ConsumerProgressStep(cfg: Config, s: State, c: nat, bound: nat)
    requires c < |s.cons| && (s.cons[c].HasJob() ==> s.cons[c].job < |cfg.jobs|) && ConsumerStep(cfg, s, c).Some?
    requires s.size >= 0 && s.cons[c] != CUnlockEmpty && (s.cons[c] == CTake ==> s.queue != [])
    requires FilesBounded(s, bound)
    ensures var s' := ConsumerStep(cfg, s, c).value;
            |s'.cons| == |s.cons| && ConsumerGains(s, s', c, bound)
  {
    match s.cons[c]
    case CTest =>
    case CWait =>
    case CTake =>
    case CRead(_, _) =>
    case CWrite(_, _, _) =>
    case _ =>
  }

  lemma PageRead(src: Bytes, k: nat, bound: nat)
    requires |src| <= bound
    ensures PageAt(src, k) == [] || k * PAGE_SIZE + |PageAt(src, k)| <= bound
  {
  }

  lemma PageWritten(dst: Bytes, k: nat, data: Bytes, accepts: int, bound: nat)
    requires |dst| <= bound && (data == [] || k * PAGE_SIZE + |data| <= bound)
    ensures |AfterWrite(dst, Wrap32(k * PAGE_SIZE), data, accepts)| <= bound
    ensures |data| == PAGE_SIZE ==> (k + 1) * PAGE_SIZE <= bound
  {
    assert Wrap32(k * PAGE_SIZE) <= k * PAGE_SIZE;
  }

  lemma ReadStaysBounded(cfg: Config, s: State, c: nat, bound: nat)
    requires c < |s.cons| && s.cons[c].CRead? && s.cons[c].job < |cfg.jobs| && FilesBounded(s, bound)
    ensures FilesBounded(ConsumerStep(cfg, s, c).value, bound)
  {
    PageRead(ContentOrEmpty(s.files, cfg.jobs[s.cons[c].job].fname), s.cons[c].pages, bound);
  }

  lemma WriteStaysBounded(cfg: Config, s: State, c: nat, bound: nat)
    requires c < |s.cons| && s.cons[c].CWrite? && s.cons[c].job < |cfg.jobs| && FilesBounded(s, bound)
    ensures FilesBounded(ConsumerStep(cfg, s, c).value, bound)
  {
    var job, k := cfg.jobs[s.cons[c].job], s.cons[c].pages;
    PageWritten(ContentOrEmpty(s.files, job.trash), k, s.cons[c].data, job.dev.accepts(k), bound);
  }

  lemma ConsumerStaysBounded(cfg: Config, s: State, c: nat, bound: nat)
    requires c < |s.cons| && (s.cons[c].HasJob() ==> s.cons[c].job < |cfg.jobs|) && ConsumerStep(cfg, s, c).Some?
    requires FilesBounded(s, bound)
    ensures FilesBounded(ConsumerStep(cfg, s, c).value, bound)
  {
    match s.cons[c]
    case CRead(_, _) => ReadStaysBounded(cfg, s, c, bound);
    case CWrite(_, _, _) => WriteStaysBounded(cfg, s, c, bound);
    case CCreate(_) =>
    case CUnlink(_) =>
    case CWake(_) =>
    case _ =>
  }

  lemma ProducerStaysBounded(cfg: Config, s: State, p: nat, allocFails: bool, bound: nat)
    requires p < |s.prod| && p < |cfg.jobs| && ProducerStep(cfg, s, p, allocFails).Some?
    requires FilesBounded(s, bound)
    ensures FilesBounded(ProducerStep(cfg, s, p, allocFails).value, bound)
  {
    ProducerFrame(cfg, s, p, allocFails);
    ProducerHandsOff(cfg, s, p, allocFails);
  }

  lemma OneMore(n: nat, each: nat)
    ensures (n + 1) * each == n * each + each
  {
  }

  ghost predicate Falls(cfg: Config, s: State, s': State, bound: nat) {
    Events(s', bound) < Events(s, bound) || (Events(s', bound) == Events(s, bound) && Ranks(cfg, s') < Ranks(cfg, s))
  }

  lemma FallsAfterProducer(cfg: Config, s: State, s': State, p: nat, bound: nat)
    requires ProducerMoved(s, s', p) && ProducerGains(cfg, s, s', p, bound)
    ensures Falls(cfg, s, s', bound)
  {
    ProducerEventsUpdate(s.prod, p, s'.prod[p], bound);
    ProducerRankUpdate(s.prod, p, s'.prod[p], s.size >= cfg.capacity);
    WakingIsNoEvent(s, bound);
    OneMore(|s.queue|, PerJob(bound));
  }

  lemma FallsAfterConsumer(cfg: Config, s: State, s': State, c: nat, bound: nat)
    requires ConsumerMoved(s, s', c) && ConsumerGains(s, s', c, bound)
    ensures Falls(cfg, s, s', bound)
  {
    ConsumerEventsUpdate(s.cons, c, s'.cons[c], bound);
    ConsumerRankUpdate(s.cons, c, s'.cons[c], s.size <= 0);
    WakingIsNoEvent(s, bound);
    if s.queue != [] {
      OneMore(|s.queue| - 1, PerJob(bound));
    }
  }

  lemma ProducerProgress(cfg: Config, s: State, p: nat, allocFails: bool, bound: nat)
    requires p < |s.prod| && p < |cfg.jobs| && ProducerStep(cfg, s, p, allocFails).Some?
    ensures Falls(cfg, s, ProducerStep(cfg, s, p, allocFails).value, bound)
  {
    ProducerFrame(cfg, s, p, allocFails);
    ProducerProgressStep(cfg, s, p, allocFails, bound);
    FallsAfterProducer(cfg, s, ProducerStep(cfg, s, p, allocFails).value, p, bound);
  }

  lemma ConsumerProgress(cfg: Config, s: State, c: nat, bound: nat)
    requires c < |s.cons| && (s.cons[c].HasJob() ==> s.cons[c].job < |cfg.jobs|) && ConsumerStep(cfg, s, c).Some?
    requires s.size >= 0 && s.cons[c] != CUnlockEmpty && (s.cons[c] == CTake ==> s.queue != [])
    requires FilesBounded(s, bound)
    ensures Falls(cfg, s, ConsumerStep(cfg, s, c).value, bound)
  {
    ConsumerFrame(cfg, s, c);
    ConsumerProgressStep(cfg, s, c, bound);
    FallsAfterConsumer(cfg, s, ConsumerStep(cfg, s, c).value, c, bound);
  }

  lemma TakeFindsAJob(cfg: Config, s: State, c: nat)
    requires MutexInv(s) && SizeInv(cfg, s) && c < |s.cons|
    ensures s.size >= 0 && s.cons[c] != CUnlockEmpty && (s.cons[c] == CTake ==> s.queue != [])
  {
  }

  /** Every step that is not an early return makes the measure fall. */
  lemma {:induction false} StepFalls(cfg: Config, s: State, a: Action, bound: nat)
    requires Inv(cfg, s) && FilesBounded(s, bound) && Next(cfg, s, a).Some? && !a.IsEarly()
    ensures Falls(cfg, s, Next(cfg, s, a).value, bound)
    ensures FilesBounded(Next(cfg, s, a).value, bound)
  {
    match a
    case StepProducer(p, allocFails) =>
      ProducerProgress(cfg, s, p, allocFails, bound);
      ProducerStaysBounded(cfg, s, p, allocFails, bound);
    case StepConsumer(c) =>
      TakeFindsAJob(cfg, s, c);
      ConsumerProgress(cfg, s, c, bound);
      ConsumerStaysBounded(cfg, s, c, bound);
  }

  // ----- so runs are finite, with a bound known beforehand -----

  function RankLimit(cfg: Config): nat {
    13 * |cfg.jobs| + 10 * cfg.consumers
  }

  function RunLimit(cfg: Config, bound: nat): nat {
    (|cfg.jobs| * (PerJob(bound) + 2) + 1) * (RankLimit(cfg) + 1)
  }

  function Measure(cfg: Config, s: State, bound: nat): nat {
    Events(s, bound) * (RankLimit(cfg) + 1) + Ranks(cfg, s)
  }

  lemma RanksLimited(cfg: Config, s: State)
    requires Shape(cfg, s)
    ensures Ranks(cfg, s) <= RankLimit(cfg)
  {
    TotalBound(ProducerRankList(s.prod, s.size >= cfg.capacity), 13);
    TotalBound(ConsumerRankList(s.cons, s.size <= 0), 10);
  }

  lemma {:induction false} Lexicographic(e: nat, r: nat, e': nat, r': nat, limit: nat)
    requires r' <= limit && (e' < e || (e' == e && r' < r))
    ensures e' * (limit + 1) + r' < e * (limit + 1) + r
  {
    if e' < e {
      assert e * (limit + 1) == (e - e' - 1) * (limit + 1) + e' * (limit + 1) + (limit + 1);
      assert (e - e' - 1) * (limit + 1) >= 0;
    }
  }

  lemma {:induction false} MeasureFalls(cfg: Config, s: State, s': State, bound: nat)
    requires Falls(cfg, s, s', bound) && Shape(cfg, s')
    ensures Measure(cfg, s', bound) < Measure(cfg, s, bound)
  {
    RanksLimited(cfg, s');
    Lexicographic(Events(s, bound), Ranks(cfg, s), Events(s', bound), Ranks(cfg, s'), RankLimit(cfg));
  }

  lemma MeasureLimit(e: nat, r: nat, most: nat, limit: nat)
    requires e <= most && r <= limit
    ensures e * (limit + 1) + r <= (most + 1) * (limit + 1)
  {
    assert (most + 1) * (limit + 1) == e * (limit + 1) + (most - e) * (limit + 1) + (limit + 1);
    assert (most - e) * (limit + 1) >= 0;
  }

  lemma InitEvents(cfg: Config, bound: nat)
    ensures Events(Init(cfg), bound) <= |cfg.jobs| * (PerJob(bound) + 2)
  {
    var s := Init(cfg);
    TotalBound(ProducerEventList(s.prod, bound), PerJob(bound) + 2);
    TotalBound(ConsumerEventList(s.cons, bound), 0);
  }

  lemma {:induction false} RunMeasure(cfg: Config, actions: seq<Action>, bound: nat)
    requires cfg.Repaired() && Run(cfg, actions).Some? && (forall i :: 0 <= i < |actions| ==> !actions[i].IsEarly())
    requires forall path :: path in cfg.files ==> |cfg.files[path]| <= bound
    ensures FilesBounded(Run(cfg, actions).value, bound)
    ensures |actions| + Measure(cfg, Run(cfg, actions).value, bound) <= Measure(cfg, Init(cfg), bound)
  {
    if actions == [] {
    } else {
      var n := |actions| - 1;
      RunMeasure(cfg, actions[..n], bound);
      RunInv(cfg, actions[..n]);
      RunInv(cfg, actions);
      StepFalls(cfg, Run(cfg, actions[..n]).value, actions[n], bound);
      MeasureFalls(cfg, Run(cfg, actions[..n]).value, Run(cfg, actions).value, bound);
    }
  }

  lemma InitMeasure(cfg: Config, bound: nat)
    ensures Measure(cfg, Init(cfg), bound) <= RunLimit(cfg, bound)
  {
    InitEvents(cfg, bound);
    InitInv(cfg);
    RanksLimited(cfg, Init(cfg));
    MeasureLimit(Events(Init(cfg), bound), Ranks(cfg, Init(cfg)), |cfg.jobs| * (PerJob(bound) + 2), RankLimit(cfg));
  }

  /** Termination: no run without early returns is longer than a limit that depends only on
      the number of requests, the number of consumers and the longest file. */
  lemma {:induction false} RunsEnd(cfg: Config, actions: seq<Action>, bound: nat)
    requires cfg.Repaired() && Run(cfg, actions).Some? && (forall i :: 0 <= i < |actions| ==> !actions[i].IsEarly())
    requires forall path :: path in cfg.files ==> |cfg.files[path]| <= bound
    ensures |actions| <= RunLimit(cfg, bound)
  {
    RunMeasure(cfg, actions, bound);
    InitMeasure(cfg, bound);
  }

  // ----- where a run can stop -----

  predicate Returned(pc: ProducerPc) {
    pc.PAccepted? || pc.PRefused? || pc.PNoMemory? || pc.PInvalid? || pc.PNotMove?
  }

  lemma StuckProducer(cfg: Config, s: State, p: nat)
    requires p < |s.prod| && p < |cfg.jobs| && ProducerStep(cfg, s, p, false) == None
    ensures (s.prod[p] == PLock && s.holder.Some?) || s.prod[p] == PAsleep || Returned(s.prod[p])
  {
  }

  lemma StuckConsumer(cfg: Config, s: State, c: nat)
    requires c < |s.cons| && (s.cons[c].HasJob() ==> s.cons[c].job < |cfg.jobs|) && ConsumerStep(cfg, s, c) == None
    ensures (s.cons[c] == CLock && s.holder.Some?) || s.cons[c] == CAsleep
  {
  }

  ghost predicate Stuck(cfg: Config, s: State) {
    forall a: Action :: !a.IsEarly() ==> Next(cfg, s, a) == None
  }

  lemma StuckThreads(cfg: Config, s: State)
    requires Shape(cfg, s) && MutexInv(s) && Stuck(cfg, s)
    ensures s.holder == None
    ensures forall p :: 0 <= p < |s.prod| ==> s.prod[p] == PAsleep || Returned(s.prod[p])
    ensures forall c :: 0 <= c < |s.cons| ==> s.cons[c] == CAsleep
  {
    forall p | 0 <= p < |s.prod|
      ensures (s.prod[p] == PLock && s.holder.Some?) || s.prod[p] == PAsleep || Returned(s.prod[p])
    {
      assert Next(cfg, s, StepProducer(p, false)) == None;
      StuckProducer(cfg, s, p);
    }
    forall c | 0 <= c < |s.cons| ensures (s.cons[c] == CLock && s.holder.Some?) || s.cons[c] == CAsleep {
      assert Next(cfg, s, StepConsumer(c)) == None;
      StuckConsumer(cfg, s, c);
    }
  }

  /** Deadlock freedom: a run can only stop with nothing left to do. */
  lemma {:induction false} StopsOnlyWhenDone(cfg: Config, actions: seq<Action>)
    requires cfg.Repaired() && cfg.consumers >= 1 && cfg.capacity >= 1
    requires Run(cfg, actions).Some? && Stuck(cfg, Run(cfg, actions).value)
    ensures var s := Run(cfg, actions).value;
            && s.holder == None && s.queue == [] && s.size == 0 && s.throttled == 0
            && (forall c :: 0 <= c < |s.cons| ==> s.cons[c] == CAsleep)
            && (forall p :: 0 <= p < |s.prod| ==> Returned(s.prod[p]))
            && (forall p :: 0 <= p < |s.prod| ==> (s.prod[p] == PAccepted <==> p in s.inserted))
            && s.taken == s.inserted
            && multiset(s.processed) == multiset(s.inserted) && NoDuplicates(s.inserted)
  {
    var s := Run(cfg, actions).value;
    RunInv(cfg, actions);
    StuckThreads(cfg, s);
    assert s.cons[0] == CAsleep;
    assert !ConsumerWakeUpPending(s) && !ProducerWakeUpPending(s);
    forall j: nat ensures multiset(s.processed)[j] == multiset(s.taken)[j] {
      NoJobInHand(s.cons, j);
    }
    NobodyWaits(s.prod);
  }

  lemma {:induction false} NobodyWaits(prod: seq<ProducerPc>)
    requires forall p :: 0 <= p < |prod| ==> !Throttled(prod[p])
    ensures ThrottledCount(prod) == 0
  {
    if prod == [] {
    } else {
      NobodyWaits(prod[..|prod| - 1]);
    }
  }
}
