/** What every reachable state of the work queue satisfies, early returns included. */
module QueueSafety {
  import opened Bytes
  import opened Storage
  import opened QueueModel

  // ----- vocabulary -----

  predicate PHolds(pc: ProducerPc) {
    pc.PTest? || pc.PThrottleTest? || pc.PThrottleInc? || pc.PUnlockToWait? || pc.PAlloc? || pc.PAdd? || pc.PCount?
    || pc.PUnlock? || pc.PUnlockRefused? || pc.PUnlockNoMemory?
  }

  predicate CHolds(pc: ConsumerPc) {
    pc.CTest? || pc.CUnlockToWait? || pc.CTake? || pc.CUnlockEmpty? || pc.CDec? || pc.CWake? || pc.CUnlock?
  }

  /** In the critical section. */
  ghost predicate Inside(s: State, t: Thread) {
    match t
    case ProducerThread(p) => p < |s.prod| && PHolds(s.prod[p])
    case ConsumerThread(c) => c < |s.cons| && CHolds(s.cons[c])
  }

  /** Between atomic_inc and atomic_dec of `t_producers`. */
  predicate Throttled(pc: ProducerPc) {
    pc.PUnlockToWait? || pc.PWait? || pc.PAsleep? || pc.PLeave?
  }

  /** From list_add_tail on. */
  predicate Inserted(pc: ProducerPc) {
    pc.PCount? || pc.PUnlock? || pc.PWake? || pc.PAccepted?
  }

  /** Between atomic_inc of `wq_size` and wake_up_all(&consumer_wq). */
  predicate WakesConsumers(pc: ProducerPc) {
    pc.PUnlock? || pc.PWake?
  }

  function ThrottledCount(prod: seq<ProducerPc>): nat {
    if prod == [] then 0
    else ThrottledCount(prod[..|prod| - 1]) + if Throttled(prod[|prod| - 1]) then 1 else 0
  }

  /** How many consumers have job `j` in hand. */
  function InHand(cons: seq<ConsumerPc>, j: nat): nat {
    if cons == [] then 0
    else InHand(cons[..|cons| - 1], j) + Holds(cons[|cons| - 1], j)
  }

  function Holds(pc: ConsumerPc, j: nat): nat {
    if pc.HasJob() && pc.job == j then 1 else 0
  }

  ghost predicate NoDuplicates(ids: seq<nat>) {
    forall i, j :: 0 <= i < j < |ids| ==> ids[i] != ids[j]
  }

  // ----- the invariant, clause by clause -----

  ghost predicate Shape(cfg: Config, s: State) {
    && |s.prod| == |cfg.jobs| && |s.cons| == cfg.consumers
    && (forall c :: 0 <= c < |s.cons| && s.cons[c].HasJob() ==> s.cons[c].job < |cfg.jobs|)
  }

  ghost predicate MutexInv(s: State) {
    && (s.holder.Some? ==> Inside(s, s.holder.value))
    && (forall p :: 0 <= p < |s.prod| && PHolds(s.prod[p]) ==> s.holder == Some(ProducerThread(p)))
    && (forall c :: 0 <= c < |s.cons| && CHolds(s.cons[c]) ==> s.holder == Some(ConsumerThread(c)))
  }

  /** How far `wq_size` is from the length of the list: the two are updated in turn. */
  function Drift(s: State): int {
    match s.holder
    case Some(ProducerThread(p)) => if p < |s.prod| && s.prod[p] == PCount then -1 else 0
    case Some(ConsumerThread(c)) => if c < |s.cons| && s.cons[c].CDec? then 1 else 0
    case None => 0
  }

  /** What the thread holding the mutex knows about `wq_size`. */
  ghost predicate HolderKnows(cfg: Config, s: State) {
    match s.holder
    case Some(ProducerThread(p)) =>
      && p < |s.prod|
      && (s.prod[p] == PAlloc || s.prod[p] == PAdd || s.prod[p] == PCount ==> s.size < cfg.capacity)
      && (s.prod[p] == PThrottleTest ==> s.size >= cfg.capacity)
    case Some(ConsumerThread(c)) =>
      && c < |s.cons|
      && (s.cons[c] == CTake || s.cons[c].CDec? ==> s.size > 0)
      && (s.cons[c].CWake? ==> s.size < cfg.capacity)
      && s.cons[c] != CUnlockEmpty
    case None => true
  }

  ghost predicate SizeInv(cfg: Config, s: State) {
    s.size == |s.queue| + Drift(s) && 0 <= s.size <= cfg.capacity && HolderKnows(cfg, s)
  }

  ghost predicate ThrottleInv(cfg: Config, s: State) {
    && s.throttled == ThrottledCount(s.prod) <= cfg.maxProducers + 1
    && (forall p :: 0 <= p < |s.prod| && s.prod[p] == PThrottleInc ==> s.throttled <= cfg.maxProducers)
  }

  ghost predicate FifoInv(s: State) {
    && s.inserted == s.taken + s.queue
    && NoDuplicates(s.inserted)
    && (forall p :: p in s.inserted ==> p < |s.prod| && Inserted(s.prod[p]))
    && (forall p :: 0 <= p < |s.prod| && Inserted(s.prod[p]) ==> p in s.inserted)
  }

  /** Only requests to move a file get as far as the queue. */
  ghost predicate AdmittedInv(cfg: Config, s: State) {
    forall p :: 0 <= p < |s.prod| && p < |cfg.jobs| && !NotAdmitted(s.prod[p]) ==> cfg.jobs[p].IsMove()
  }

  ghost predicate ConservedInv(s: State) {
    forall j: nat :: multiset(s.taken)[j] == multiset(s.processed)[j] + InHand(s.cons, j)
  }

  ghost predicate ConsumerSleeps(s: State) {
    exists c :: 0 <= c < |s.cons| && s.cons[c] == CAsleep
  }

  ghost predicate ConsumerWakeUpPending(s: State) {
    exists p :: 0 <= p < |s.prod| && WakesConsumers(s.prod[p])
  }

  ghost predicate ProducerSleeps(s: State) {
    exists p :: 0 <= p < |s.prod| && s.prod[p] == PAsleep
  }

  ghost predicate ProducerWakeUpPending(s: State) {
    exists c :: 0 <= c < |s.cons| && s.cons[c].CWake?
  }

  ghost predicate WakeInv(cfg: Config, s: State) {
    && (ConsumerSleeps(s) && s.size > 0 ==> ConsumerWakeUpPending(s))
    && (ProducerSleeps(s) && s.size < cfg.capacity ==> ProducerWakeUpPending(s))
  }

  ghost predicate Inv(cfg: Config, s: State) {
    Shape(cfg, s) && MutexInv(s) && SizeInv(cfg, s) && ThrottleInv(cfg, s) && FifoInv(s)
    && AdmittedInv(cfg, s) && ConservedInv(s) && WakeInv(cfg, s)
  }

  // ----- counting lemmas -----

  lemma {:induction false} ThrottledCountUpdate(prod: seq<ProducerPc>, p: nat, pc: ProducerPc)
    requires p < |prod|
    ensures ThrottledCount(prod[p := pc])
         == ThrottledCount(prod) - (if Throttled(prod[p]) then 1 else 0) + (if Throttled(pc) then 1 else 0)
  {
    var n := |prod| - 1;
    if p < n {
      ThrottledCountUpdate(prod[..n], p, pc);
      assert prod[p := pc][..n] == prod[..n][p := pc];
    } else {
      assert prod[p := pc][..n] == prod[..n];
    }
  }

  lemma {:induction false} ThrottledCountWake(prod: seq<ProducerPc>)
    ensures ThrottledCount(WakeProducers(prod)) == ThrottledCount(prod)
  {
    if prod == [] {
    } else {
      var n := |prod| - 1;
      ThrottledCountWake(prod[..n]);
      assert WakeProducers(prod)[..n] == WakeProducers(prod[..n]);
    }
  }

  lemma {:induction false} InHandUpdate(cons: seq<ConsumerPc>, c: nat, pc: ConsumerPc, j: nat)
    requires c < |cons|
    ensures InHand(cons[c := pc], j) == InHand(cons, j) - Holds(cons[c], j) + Holds(pc, j)
  {
    var n := |cons| - 1;
    if c < n {
      InHandUpdate(cons[..n], c, pc, j);
      assert cons[c := pc][..n] == cons[..n][c := pc];
    } else {
      assert cons[c := pc][..n] == cons[..n];
    }
  }

  lemma {:induction false} InHandWake(cons: seq<ConsumerPc>, j: nat)
    ensures InHand(WakeConsumers(cons), j) == InHand(cons, j)
  {
    if cons == [] {
    } else {
      var n := |cons| - 1;
      InHandWake(cons[..n], j);
      assert WakeConsumers(cons)[..n] == WakeConsumers(cons[..n]);
    }
  }

  // ----- every step keeps every clause -----

  /** What a producer step does to the threads: one moves, sleeping consumers may be woken. */
  ghost predicate ProducerMoved(s: State, s': State, p: nat) {
    && p < |s.prod| == |s'.prod|
    && s'.prod == s.prod[p := s'.prod[p]]
    && (s'.cons == s.cons || s'.cons == WakeConsumers(s.cons))
  }

  ghost predicate ConsumerMoved(s: State, s': State, c: nat) {
    && c < |s.cons| == |s'.cons|
    && s'.cons == s.cons[c := s'.cons[c]]
    && (s'.prod == s.prod || s'.prod == WakeProducers(s.prod))
  }

  /** A thread that holds the mutex before (after) a step. */
  predicate HandOver(before: bool, after: bool, t: Thread, holder: Option<Thread>, holder': Option<Thread>) {
    if before then holder' == (if after then holder else None)
    else if after then holder == None && holder' == Some(t)
    else holder' == holder
  }

  lemma ProducerFrame(cfg: Config, s: State, p: nat, allocFails: bool)
    requires p < |s.prod| && p < |cfg.jobs| && ProducerStep(cfg, s, p, allocFails).Some?
    ensures var s' := ProducerStep(cfg, s, p, allocFails).value;
            && ProducerMoved(s, s', p)
  {
  }

  lemma ProducerHandOver(cfg: Config, s: State, p: nat, allocFails: bool)
    requires cfg.Repaired() && p < |s.prod| && p < |cfg.jobs| && ProducerStep(cfg, s, p, allocFails).Some?
    ensures var s' := ProducerStep(cfg, s, p, allocFails).value;
            && |s'.prod| == |s.prod|
            && HandOver(PHolds(s.prod[p]), PHolds(s'.prod[p]), ProducerThread(p), s.holder, s'.holder)
  {
    match s.prod[p]
    case PLock =>
    case PTest =>
    case PUnlock =>
    case _ =>
  }

  lemma ConsumerFrame(cfg: Config, s: State, c: nat)
    requires c < |s.cons| && (s.cons[c].HasJob() ==> s.cons[c].job < |cfg.jobs|) && ConsumerStep(cfg, s, c).Some?
    ensures var s' := ConsumerStep(cfg, s, c).value;
            && ConsumerMoved(s, s', c)
  {
  }

  lemma ConsumerHandOver(cfg: Config, s: State, c: nat)
    requires cfg.relocks
    requires c < |s.cons| && (s.cons[c].HasJob() ==> s.cons[c].job < |cfg.jobs|) && ConsumerStep(cfg, s, c).Some?
    ensures var s' := ConsumerStep(cfg, s, c).value;
            && |s'.cons| == |s.cons|
            && HandOver(CHolds(s.cons[c]), CHolds(s'.cons[c]), ConsumerThread(c), s.holder, s'.holder)
  {
    match s.cons[c]
    case CLock =>
    case CTest =>
    case CTake =>
    case CUnlock(_) =>
    case _ =>
  }

  lemma ProducerKeepsMutex(s: State, s': State, p: nat)
    requires MutexInv(s) && ProducerMoved(s, s', p)
    requires HandOver(PHolds(s.prod[p]), PHolds(s'.prod[p]), ProducerThread(p), s.holder, s'.holder)
    ensures MutexInv(s')
  {
  }

  lemma ConsumerKeepsMutex(s: State, s': State, c: nat)
    requires MutexInv(s) && ConsumerMoved(s, s', c)
    requires HandOver(CHolds(s.cons[c]), CHolds(s'.cons[c]), ConsumerThread(c), s.holder, s'.holder)
    ensures MutexInv(s')
  {
  }

  lemma ProducerSizeStep(cfg: Config, s: State, p: nat, allocFails: bool)
    requires p < |s.prod| && p < |cfg.jobs| && ProducerStep(cfg, s, p, allocFails).Some?
    ensures var s', pc := ProducerStep(cfg, s, p, allocFails).value, s.prod[p];
            && |s'.prod| == |s.prod|
            && |s'.queue| == |s.queue| + (if pc == PAdd then 1 else 0)
            && s'.size == s.size + (if pc == PCount then 1 else 0)
            && (s'.prod[p] == PCount <==> pc == PAdd)
            && (s'.prod[p] == PAdd ==> pc == PAlloc)
            && (s'.prod[p] == PAlloc ==> pc == PTest && s.size < cfg.capacity)
            && (s'.prod[p] == PThrottleTest ==> pc == PTest && s.size >= cfg.capacity)
  {
  }

  lemma SizeAfterProducer(cfg: Config, s: State, s': State, p: nat)
    requires MutexInv(s) && SizeInv(cfg, s) && ProducerMoved(s, s', p)
    requires HandOver(PHolds(s.prod[p]), PHolds(s'.prod[p]), ProducerThread(p), s.holder, s'.holder)
    requires |s'.queue| == |s.queue| + (if s.prod[p] == PAdd then 1 else 0)
    requires s'.size == s.size + (if s.prod[p] == PCount then 1 else 0)
    requires (s'.prod[p] == PCount <==> s.prod[p] == PAdd) && (s'.prod[p] == PAdd ==> s.prod[p] == PAlloc)
    requires s'.prod[p] == PAlloc ==> s.prod[p] == PTest && s.size < cfg.capacity
    requires s'.prod[p] == PThrottleTest ==> s.prod[p] == PTest && s.size >= cfg.capacity
    ensures SizeInv(cfg, s')
  {
  }

  lemma ConsumerSizeStep(cfg: Config, s: State, c: nat)
    requires c < |s.cons| && (s.cons[c].HasJob() ==> s.cons[c].job < |cfg.jobs|) && ConsumerStep(cfg, s, c).Some?
    ensures var s', pc := ConsumerStep(cfg, s, c).value, s.cons[c];
            && |s'.cons| == |s.cons|
            && |s'.queue| == |s.queue| - (if s'.cons[c].CDec? then 1 else 0)
            && s'.size == s.size - (if pc.CDec? then 1 else 0)
            && (s'.cons[c].CDec? ==> pc == CTake)
            && (s'.cons[c].CWake? <==> pc.CDec?)
            && (s'.cons[c] == CTake ==> s.size != 0)
            && (s'.cons[c] == CUnlockEmpty ==> pc == CTake && s.queue == [])
  {
    match s.cons[c]
    case CTest =>
    case CTake =>
    case CDec(_) =>
    case _ =>
  }

  lemma SizeAfterConsumer(cfg: Config, s: State, s': State, c: nat)
    requires MutexInv(s) && SizeInv(cfg, s) && ConsumerMoved(s, s', c)
    requires HandOver(CHolds(s.cons[c]), CHolds(s'.cons[c]), ConsumerThread(c), s.holder, s'.holder)
    requires |s'.queue| == |s.queue| - (if s'.cons[c].CDec? then 1 else 0)
    requires s'.size == s.size - (if s.cons[c].CDec? then 1 else 0)
    requires (s'.cons[c].CDec? ==> s.cons[c] == CTake) && (s'.cons[c].CWake? <==> s.cons[c].CDec?)
    requires s'.cons[c] == CTake ==> s.size != 0
    requires s'.cons[c] == CUnlockEmpty ==> s.cons[c] == CTake && s.queue == []
    ensures SizeInv(cfg, s')
  {
  }

  lemma ProducerThrottleStep(cfg: Config, s: State, p: nat, allocFails: bool)
    requires p < |s.prod| && p < |cfg.jobs| && ProducerStep(cfg, s, p, allocFails).Some?
    ensures var s' := ProducerStep(cfg, s, p, allocFails).value;
            && |s'.prod| == |s.prod|
            && s'.throttled - s.throttled
               == (if Throttled(s'.prod[p]) then 1 else 0) - (if Throttled(s.prod[p]) then 1 else 0)
            && (s'.throttled > s.throttled ==> s.prod[p] == PThrottleInc)
            && (s'.prod[p] == PThrottleInc ==> s'.throttled == s.throttled <= cfg.maxProducers)
  {
    match s.prod[p]
    case PThrottleTest =>
    case PThrottleInc =>
    case PLeave =>
    case _ =>
  }

  lemma ProducerKeepsThrottle(cfg: Config, s: State, p: nat, allocFails: bool)
    requires p < |s.prod| && p < |cfg.jobs| && ProducerStep(cfg, s, p, allocFails).Some?
    requires MutexInv(s) && ThrottleInv(cfg, s)
    ensures ThrottleInv(cfg, ProducerStep(cfg, s, p, allocFails).value)
  {
    ProducerFrame(cfg, s, p, allocFails);
    ProducerThrottleStep(cfg, s, p, allocFails);
    ThrottledCountUpdate(s.prod, p, ProducerStep(cfg, s, p, allocFails).value.prod[p]);
  }

  lemma ConsumerKeepsThrottle(cfg: Config, s: State, c: nat)
    requires c < |s.cons| && (s.cons[c].HasJob() ==> s.cons[c].job < |cfg.jobs|) && ConsumerStep(cfg, s, c).Some?
    requires ThrottleInv(cfg, s)
    ensures ThrottleInv(cfg, ConsumerStep(cfg, s, c).value)
  {
    ThrottledCountWake(s.prod);
  }

  lemma ProducerListStep(cfg: Config, s: State, p: nat, allocFails: bool)
    requires p < |s.prod| && p < |cfg.jobs| && ProducerStep(cfg, s, p, allocFails).Some?
    ensures var s' := ProducerStep(cfg, s, p, allocFails).value;
            && |s'.prod| == |s.prod| && s'.taken == s.taken
            && if Inserted(s'.prod[p]) && !Inserted(s.prod[p])
               then s'.inserted == s.inserted + [p] && s'.queue == s.queue + [p]
               else s'.inserted == s.inserted && s'.queue == s.queue && Inserted(s'.prod[p]) == Inserted(s.prod[p])
  {
    match s.prod[p]
    case PAdd =>
    case PUnlock =>
    case PWake =>
    case _ =>
  }

  lemma {:induction false} ProducerKeepsFifo(cfg: Config, s: State, p: nat, allocFails: bool)
    requires p < |s.prod| && p < |cfg.jobs| && ProducerStep(cfg, s, p, allocFails).Some?
    requires FifoInv(s)
    ensures FifoInv(ProducerStep(cfg, s, p, allocFails).value)
  {
    ProducerFrame(cfg, s, p, allocFails);
    ProducerListStep(cfg, s, p, allocFails);
    FifoAfterProducer(s, ProducerStep(cfg, s, p, allocFails).value, p);
  }

  lemma FifoAfterProducer(s: State, s': State, p: nat)
    requires FifoInv(s) && ProducerMoved(s, s', p) && s'.taken == s.taken
    requires if Inserted(s'.prod[p]) && !Inserted(s.prod[p])
             then s'.inserted == s.inserted + [p] && s'.queue == s.queue + [p]
             else s'.inserted == s.inserted && s'.queue == s.queue && Inserted(s'.prod[p]) == Inserted(s.prod[p])
    ensures FifoInv(s')
  {
    assert s.taken + (s.queue + [p]) == s.taken + s.queue + [p];
    forall q | q in s'.inserted ensures q < |s'.prod| && Inserted(s'.prod[q]) {
      assert q in s.inserted || q == p;
    }
    forall q | 0 <= q < |s'.prod| && Inserted(s'.prod[q]) ensures q in s'.inserted {
      assert q != p ==> s'.prod[q] == s.prod[q];
    }
  }

  lemma ConsumerListStep(cfg: Config, s: State, c: nat)
    requires c < |s.cons| && (s.cons[c].HasJob() ==> s.cons[c].job < |cfg.jobs|) && ConsumerStep(cfg, s, c).Some?
    ensures var s' := ConsumerStep(cfg, s, c).value;
            && s'.inserted == s.inserted
            && if s.cons[c] == CTake && s.queue != []
               then s'.queue == s.queue[1..] && s'.taken == s.taken + [s.queue[0]]
               else s'.queue == s.queue && s'.taken == s.taken
  {
  }

  lemma ConsumerKeepsFifo(cfg: Config, s: State, c: nat)
    requires c < |s.cons| && (s.cons[c].HasJob() ==> s.cons[c].job < |cfg.jobs|) && ConsumerStep(cfg, s, c).Some?
    requires FifoInv(s)
    ensures FifoInv(ConsumerStep(cfg, s, c).value)
  {
    var s' := ConsumerStep(cfg, s, c).value;
    ConsumerFrame(cfg, s, c);
    ConsumerListStep(cfg, s, c);
    assert s'.taken + s'.queue == s.taken + s.queue;
  }

  /** A consumer step takes a job, finishes one, or keeps what it has. */
  ghost predicate HandChange(s: State, s': State, c: nat)
    requires c < |s.cons| && c < |s'.cons|
  {
    var pc, pc' := s.cons[c], s'.cons[c];
    if !pc.HasJob() && pc'.HasJob() then s'.taken == s.taken + [pc'.job] && s'.processed == s.processed
    else if pc.HasJob() && !pc'.HasJob() then s'.taken == s.taken && s'.processed == s.processed + [pc.job]
    else s'.taken == s.taken && s'.processed == s.processed && (pc.HasJob() ==> pc'.job == pc.job)
  }

  lemma ConsumerHandStep(cfg: Config, s: State, c: nat)
    requires c < |s.cons| && (s.cons[c].HasJob() ==> s.cons[c].job < |cfg.jobs|) && ConsumerStep(cfg, s, c).Some?
    ensures |ConsumerStep(cfg, s, c).value.cons| == |s.cons|
    ensures HandChange(s, ConsumerStep(cfg, s, c).value, c)
  {
    match s.cons[c]
    case CTake =>
    case COpen(_) =>
    case CRead(_, _) =>
    case CUnlink(_) =>
    case _ =>
  }

  lemma ConservedAfterConsumer(s: State, s': State, c: nat)
    requires ConservedInv(s) && ConsumerMoved(s, s', c) && HandChange(s, s', c)
    ensures ConservedInv(s')
  {
    forall j: nat ensures multiset(s'.taken)[j] == multiset(s'.processed)[j] + InHand(s'.cons, j) {
      InHandUpdate(s.cons, c, s'.cons[c], j);
    }
  }

  lemma ProducerKeepsConserved(cfg: Config, s: State, p: nat, allocFails: bool)
    requires p < |s.prod| && p < |cfg.jobs| && ProducerStep(cfg, s, p, allocFails).Some?
    requires ConservedInv(s)
    ensures ConservedInv(ProducerStep(cfg, s, p, allocFails).value)
  {
    ProducerFrame(cfg, s, p, allocFails);
    ProducerHandsOff(cfg, s, p, allocFails);
    var s' := ProducerStep(cfg, s, p, allocFails).value;
    forall j: nat ensures InHand(s'.cons, j) == InHand(s.cons, j) {
      InHandWake(s.cons, j);
    }
  }

  lemma ProducerHandsOff(cfg: Config, s: State, p: nat, allocFails: bool)
    requires p < |s.prod| && p < |cfg.jobs| && ProducerStep(cfg, s, p, allocFails).Some?
    ensures var s' := ProducerStep(cfg, s, p, allocFails).value;
            s'.taken == s.taken && s'.processed == s.processed && s'.files == s.files
  {
  }

  lemma ProducerWakeStep(cfg: Config, s: State, p: nat, allocFails: bool)
    requires p < |s.prod| && p < |cfg.jobs| && ProducerStep(cfg, s, p, allocFails).Some?
    ensures var s' := ProducerStep(cfg, s, p, allocFails).value;
            && |s'.prod| == |s.prod|
            && (s'.size == s.size || s'.prod[p] == PUnlock)
            && s.size <= s'.size
            && (s'.prod[p] == PAsleep ==> s.size >= cfg.capacity)
            && (WakesConsumers(s.prod[p]) && !WakesConsumers(s'.prod[p]) ==> s'.cons == WakeConsumers(s.cons))
  {
    match s.prod[p]
    case PWait =>
    case PCount =>
    case PWake =>
    case _ =>
  }

  lemma WakeAfterProducer(cfg: Config, s: State, s': State, p: nat)
    requires WakeInv(cfg, s) && ProducerMoved(s, s', p)
    requires s'.size == s.size || s'.prod[p] == PUnlock
    requires s.size <= s'.size && (s'.prod[p] == PAsleep ==> s.size >= cfg.capacity)
    requires WakesConsumers(s.prod[p]) && !WakesConsumers(s'.prod[p]) ==> s'.cons == WakeConsumers(s.cons)
    ensures WakeInv(cfg, s')
  {
    if ConsumerSleeps(s') && s'.size > 0 && s'.size == s.size {
      assert s'.cons == s.cons;
      var q :| 0 <= q < |s.prod| && WakesConsumers(s.prod[q]);
      assert WakesConsumers(s'.prod[q]);
    } else if s'.size != s.size {
      assert WakesConsumers(s'.prod[p]);
    }
    if ProducerSleeps(s') && s'.size < cfg.capacity {
      var q :| 0 <= q < |s'.prod| && s'.prod[q] == PAsleep;
      assert q != p && s.prod[q] == PAsleep;
      var c :| 0 <= c < |s.cons| && s.cons[c].CWake?;
      assert s'.cons[c].CWake?;
    }
  }

  lemma ConsumerWakeStep(cfg: Config, s: State, c: nat)
    requires c < |s.cons| && (s.cons[c].HasJob() ==> s.cons[c].job < |cfg.jobs|) && ConsumerStep(cfg, s, c).Some?
    requires MutexInv(s) && SizeInv(cfg, s)
    ensures var s' := ConsumerStep(cfg, s, c).value;
            && |s'.cons| == |s.cons|
            && (s'.size == s.size || s'.cons[c].CWake?)
            && s'.size <= s.size
            && (s'.cons[c] == CAsleep ==> s.size == 0)
            && (s.cons[c].CWake? && !s'.cons[c].CWake? ==> s'.prod == WakeProducers(s.prod))
  {
    match s.cons[c]
    case CTest =>
    case CWait =>
    case CTake =>
    case CDec(j) =>
    case CWake(j) =>
    case _ =>
  }

  lemma WakeAfterConsumer(cfg: Config, s: State, s': State, c: nat)
    requires WakeInv(cfg, s) && ConsumerMoved(s, s', c)
    requires s'.size == s.size || s'.cons[c].CWake?
    requires s'.size <= s.size && (s'.cons[c] == CAsleep ==> s.size == 0)
    requires s.cons[c].CWake? && !s'.cons[c].CWake? ==> s'.prod == WakeProducers(s.prod)
    ensures WakeInv(cfg, s')
  {
    if ProducerSleeps(s') && s'.size < cfg.capacity && s'.size == s.size {
      assert s'.prod == s.prod;
      var d :| 0 <= d < |s.cons| && s.cons[d].CWake?;
      assert s'.cons[d].CWake?;
    } else if s'.size != s.size {
      assert s'.cons[c].CWake?;
    }
    if ConsumerSleeps(s') && s'.size > 0 {
      var d :| 0 <= d < |s'.cons| && s'.cons[d] == CAsleep;
      assert d != c && s.cons[d] == CAsleep;
      var q :| 0 <= q < |s.prod| && WakesConsumers(s.prod[q]);
      assert WakesConsumers(s'.prod[q]);
    }
  }

  /** Before a request has been admitted, or after it has been turned down unqueued. */
  predicate NotAdmitted(pc: ProducerPc) {
    pc.PStart? || pc.PInvalid? || pc.PNotMove?
  }

  lemma ProducerAdmitStep(cfg: Config, s: State, p: nat, allocFails: bool)
    requires p < |s.prod| && p < |cfg.jobs| && ProducerStep(cfg, s, p, allocFails).Some?
    ensures var s' := ProducerStep(cfg, s, p, allocFails).value;
            |s'.prod| == |s.prod|
            && (!NotAdmitted(s'.prod[p]) && NotAdmitted(s.prod[p]) ==> cfg.jobs[p].IsMove())
  {
  }

  lemma ProducerKeepsAdmitted(cfg: Config, s: State, p: nat, allocFails: bool)
    requires p < |s.prod| && p < |cfg.jobs| && ProducerStep(cfg, s, p, allocFails).Some?
    requires AdmittedInv(cfg, s)
    ensures AdmittedInv(cfg, ProducerStep(cfg, s, p, allocFails).value)
  {
    ProducerFrame(cfg, s, p, allocFails);
    ProducerAdmitStep(cfg, s, p, allocFails);
  }

  lemma ConsumerKeepsShape(cfg: Config, s: State, c: nat)
    requires c < |s.cons| && Shape(cfg, s) && FifoInv(s) && ConsumerStep(cfg, s, c).Some?
    ensures Shape(cfg, ConsumerStep(cfg, s, c).value)
  {
    var s' := ConsumerStep(cfg, s, c).value;
    ConsumerFrame(cfg, s, c);
    ConsumerHandStep(cfg, s, c);
    ConsumerListStep(cfg, s, c);
    if !s.cons[c].HasJob() && s'.cons[c].HasJob() {
      ConsumerKeepsFifo(cfg, s, c);
      assert s'.cons[c].job in s'.taken;
      assert s'.cons[c].job in s'.inserted;
    }
  }

  lemma {:induction false} ProducerKeepsInv(cfg: Config, s: State, p: nat, allocFails: bool)
    requires cfg.Repaired() && Inv(cfg, s) && p < |s.prod| && ProducerStep(cfg, s, p, allocFails).Some?
    ensures Inv(cfg, ProducerStep(cfg, s, p, allocFails).value)
  {
    var s' := ProducerStep(cfg, s, p, allocFails).value;
    ProducerFrame(cfg, s, p, allocFails);
    ProducerHandOver(cfg, s, p, allocFails);
    ProducerKeepsMutex(s, s', p);
    ProducerSizeStep(cfg, s, p, allocFails);
    SizeAfterProducer(cfg, s, s', p);
    ProducerKeepsThrottle(cfg, s, p, allocFails);
    ProducerKeepsFifo(cfg, s, p, allocFails);
    ProducerKeepsAdmitted(cfg, s, p, allocFails);
    ProducerKeepsConserved(cfg, s, p, allocFails);
    ProducerWakeStep(cfg, s, p, allocFails);
    WakeAfterProducer(cfg, s, s', p);
  }

  lemma {:induction false} ConsumerKeepsInv(cfg: Config, s: State, c: nat)
    requires cfg.relocks && Inv(cfg, s) && c < |s.cons| && ConsumerStep(cfg, s, c).Some?
    ensures Inv(cfg, ConsumerStep(cfg, s, c).value)
  {
    var s' := ConsumerStep(cfg, s, c).value;
    ConsumerFrame(cfg, s, c);
    ConsumerHandOver(cfg, s, c);
    ConsumerKeepsMutex(s, s', c);
    ConsumerSizeStep(cfg, s, c);
    SizeAfterConsumer(cfg, s, s', c);
    ConsumerKeepsThrottle(cfg, s, c);
    ConsumerKeepsShape(cfg, s, c);
    ConsumerKeepsFifo(cfg, s, c);
    ConsumerHandStep(cfg, s, c);
    ConservedAfterConsumer(s, s', c);
    ConsumerWakeStep(cfg, s, c);
    WakeAfterConsumer(cfg, s, s', c);
  }

  lemma EarlyProducerKeepsInv(cfg: Config, s: State, p: nat)
    requires Inv(cfg, s) && p < |s.prod| && (s.prod[p] == PWait || s.prod[p] == PAsleep)
    ensures Inv(cfg, s.GoP(p, PLeave))
  {
    var s' := s.GoP(p, PLeave);
    ProducerKeepsMutex(s, s', p);
    ThrottledCountUpdate(s.prod, p, PLeave);
    FifoAfterProducer(s, s', p);
    WakeAfterProducer(cfg, s, s', p);
  }

  lemma EarlyConsumerKeepsInv(cfg: Config, s: State, c: nat)
    requires cfg.relocks && Inv(cfg, s) && c < |s.cons| && (s.cons[c] == CWait || s.cons[c] == CAsleep)
    ensures Inv(cfg, s.GoC(c, AfterWait(cfg)))
  {
    var s' := s.GoC(c, CLock);
    ConsumerKeepsMutex(s, s', c);
    ConservedAfterConsumer(s, s', c);
    WakeAfterConsumer(cfg, s, s', c);
  }

  lemma {:induction false} StepKeepsInv(cfg: Config, s: State, a: Action)
    requires cfg.Repaired() && Inv(cfg, s) && Next(cfg, s, a).Some?
    ensures Inv(cfg, Next(cfg, s, a).value)
  {
    match a
    case StepProducer(p, allocFails) => ProducerKeepsInv(cfg, s, p, allocFails);
    case StepConsumer(c) => ConsumerKeepsInv(cfg, s, c);
    case EarlyProducer(p) => EarlyProducerKeepsInv(cfg, s, p);
    case EarlyConsumer(c) => EarlyConsumerKeepsInv(cfg, s, c);
  }

  lemma {:induction false} NobodyThrottled(prod: seq<ProducerPc>)
    requires forall p :: 0 <= p < |prod| ==> prod[p] == PStart
    ensures ThrottledCount(prod) == 0
  {
    if prod == [] {
    } else {
      NobodyThrottled(prod[..|prod| - 1]);
    }
  }

  lemma {:induction false} NoJobInHand(cons: seq<ConsumerPc>, j: nat)
    requires forall c :: 0 <= c < |cons| ==> !cons[c].HasJob()
    ensures InHand(cons, j) == 0
  {
    if cons == [] {
    } else {
      NoJobInHand(cons[..|cons| - 1], j);
    }
  }

  lemma InitInv(cfg: Config)
    ensures Inv(cfg, Init(cfg))
  {
    NobodyThrottled(Init(cfg).prod);
    forall j: nat ensures InHand(Init(cfg).cons, j) == 0 {
      NoJobInHand(Init(cfg).cons, j);
    }
  }

  lemma {:induction false} RunInv(cfg: Config, actions: seq<Action>)
    requires cfg.Repaired() && Run(cfg, actions).Some?
    ensures Inv(cfg, Run(cfg, actions).value)
  {
    if actions == [] {
      InitInv(cfg);
    } else {
      var n := |actions| - 1;
      RunInv(cfg, actions[..n]);
      StepKeepsInv(cfg, Run(cfg, actions[..n]).value, actions[n]);
    }
  }

  // ----- the main results, for the state after any run -----

  lemma {:induction false} MutualExclusion(cfg: Config, actions: seq<Action>, t: Thread, u: Thread)
    requires cfg.Repaired() && Run(cfg, actions).Some?
    ensures Inside(Run(cfg, actions).value, t) && Inside(Run(cfg, actions).value, u) ==> t == u
  {
    RunInv(cfg, actions);
  }

  /** Some consumer is between list_del and atomic_dec. */
  ghost predicate DecrementPending(s: State) {
    exists c :: 0 <= c < |s.cons| && s.cons[c].CDec?
  }

  /** Some producer is between list_add_tail and atomic_inc. */
  ghost predicate IncrementPending(s: State) {
    exists p :: 0 <= p < |s.prod| && s.prod[p] == PCount
  }

  lemma DriftMeaning(s: State)
    requires MutexInv(s)
    ensures Drift(s) == (if DecrementPending(s) then 1 else 0) - (if IncrementPending(s) then 1 else 0)
  {
    if DecrementPending(s) {
      var c :| 0 <= c < |s.cons| && s.cons[c].CDec?;
      assert s.holder == Some(ConsumerThread(c));
    }
    if IncrementPending(s) {
      var p :| 0 <= p < |s.prod| && s.prod[p] == PCount;
      assert s.holder == Some(ProducerThread(p));
    }
  }

  lemma {:induction false} SizeAccounting(cfg: Config, actions: seq<Action>)
    requires cfg.Repaired() && Run(cfg, actions).Some?
    ensures var s := Run(cfg, actions).value;
            && s.size == |s.queue| + (if DecrementPending(s) then 1 else 0) - (if IncrementPending(s) then 1 else 0)
            && 0 <= s.size <= cfg.capacity
            && (forall c :: 0 <= c < |s.cons| && s.cons[c] == CTake ==> s.queue != [])
  {
    RunInv(cfg, actions);
    DriftMeaning(Run(cfg, actions).value);
  }

  lemma {:induction false} CountedOnce(ids: seq<nat>, j: nat)
    requires NoDuplicates(ids)
    ensures multiset(ids)[j] <= 1
  {
    if ids == [] {
    } else {
      var n := |ids| - 1;
      CountedOnce(ids[..n], j);
      assert ids == ids[..n] + [ids[n]];
      if ids[n] == j {
        assert j !in ids[..n];
        assert j !in multiset(ids[..n]);
      }
    }
  }

  lemma {:induction false} FifoExactlyOnce(cfg: Config, actions: seq<Action>)
    requires cfg.Repaired() && Run(cfg, actions).Some?
    ensures var s := Run(cfg, actions).value;
            && s.inserted == s.taken + s.queue
            && NoDuplicates(s.inserted)
            && (forall j: nat :: multiset(s.inserted)[j]
                                 == multiset(s.queue)[j] + InHand(s.cons, j) + multiset(s.processed)[j] <= 1)
            && (forall p :: p in s.inserted <==> 0 <= p < |s.prod| && Inserted(s.prod[p]))
            && (forall p :: p in s.inserted ==> p < |cfg.jobs| && cfg.jobs[p].IsMove())
  {
    RunInv(cfg, actions);
    var s := Run(cfg, actions).value;
    assert multiset(s.inserted) == multiset(s.taken) + multiset(s.queue);
    forall j: nat ensures multiset(s.inserted)[j] <= 1 {
      CountedOnce(s.inserted, j);
    }
  }

  lemma {:induction false} NoLostWakeUp(cfg: Config, actions: seq<Action>)
    requires cfg.Repaired() && Run(cfg, actions).Some?
    ensures var s := Run(cfg, actions).value;
            && (ConsumerSleeps(s) && s.size > 0 ==>
                  exists p :: 0 <= p < |s.prod| && (s.prod[p] == PUnlock || s.prod[p] == PWake))
            && (ProducerSleeps(s) && s.size < cfg.capacity ==> exists c :: 0 <= c < |s.cons| && s.cons[c].CWake?)
  {
    RunInv(cfg, actions);
    var s := Run(cfg, actions).value;
    if ConsumerSleeps(s) && s.size > 0 {
      var p :| 0 <= p < |s.prod| && WakesConsumers(s.prod[p]);
    }
  }

  lemma {:induction false} ThrottledCountIsCardinality(prod: seq<ProducerPc>)
    ensures ThrottledCount(prod) == |set p: nat | p < |prod| && Throttled(prod[p])|
  {
    var all := set p: nat | p < |prod| && Throttled(prod[p]);
    if prod == [] {
    } else {
      var n := |prod| - 1;
      ThrottledCountIsCardinality(prod[..n]);
      var rest := set p: nat | p < n && Throttled(prod[..n][p]);
      assert all == if Throttled(prod[n]) then rest + {n} else rest;
    }
  }

  lemma {:induction false} ThrottleBound(cfg: Config, actions: seq<Action>)
    requires cfg.Repaired() && Run(cfg, actions).Some?
    ensures var s := Run(cfg, actions).value;
            s.throttled == |set p: nat | p < |s.prod| && Throttled(s.prod[p])| <= cfg.maxProducers + 1
  {
    RunInv(cfg, actions);
    ThrottledCountIsCardinality(Run(cfg, actions).value.prod);
  }

  /** A producer is turned away only from a full queue with every place to wait taken. */
  lemma {:induction false} RefusedOnlyWhenFull(cfg: Config, actions: seq<Action>, p: nat, allocFails: bool)
    requires cfg.Repaired() && Run(cfg, actions).Some? && p < |cfg.jobs|
    ensures var s := Run(cfg, actions).value;
            && p < |s.prod|
            && (s.prod[p] == PTest ==>
                  && ProducerStep(cfg, s, p, allocFails).Some?
                  && (ProducerStep(cfg, s, p, allocFails).value.prod[p] == PThrottleTest <==> s.size == cfg.capacity))
            && (s.prod[p] == PThrottleTest ==>
                  && ProducerStep(cfg, s, p, allocFails).Some?
                  && (ProducerStep(cfg, s, p, allocFails).value.prod[p] == PUnlockRefused
                      <==> s.size == cfg.capacity && s.throttled == cfg.maxProducers + 1))
  {
    RunInv(cfg, actions);
  }

}
