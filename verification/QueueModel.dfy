/** The bounded work queue of sys_xclone2async.c as an interleaving of threads.

    Every request is one producer thread (one `xclone2async` call); any number of consumer
    threads run `consumer_work_func`.  One action moves one thread by one step, which makes at
    most one access to the mutex, to `wq_size`, to `t_producers`, to the list, to a wait queue
    or to the files, but for two cases in which nobody else can come in between: the first
    entry is found and unlinked in one step, as the list is only used under the mutex, and a
    page is written together with the decision, on local values, whether to go on. */
module QueueModel {
  import opened Bytes
  import opened Storage
  import opened FileSystem
  import opened MovePages

  const CLONE_PROT_MV: bv32 := 0xff1

  /** One `xclone2async` argument; `trash` is the name its file gets in the trash bin, and
      `dev` says which of the transfers of its move fail or fall short. */
  datatype Job = Job(present: bool, named: bool, fname: Path, flags: bv32, trash: Path, dev: Device)
  {
    predicate IsMove() {
      present && named && flags & CLONE_PROT_MV == CLONE_PROT_MV
    }
  }

  /** `releases` tells whether the insert unlocks the mutex before it returns, and `relocks`
      whether a consumer that has waited locks it again and tests again: both have to be, in
      the unrepaired code neither is. */
  datatype Config = Config(jobs: seq<Job>, consumers: nat, capacity: nat, maxProducers: nat,
                           files: Files, releases: bool, relocks: bool)
  {
    predicate Repaired() {
      releases && relocks
    }
  }

  datatype Thread = ProducerThread(p: nat) | ConsumerThread(c: nat)

  datatype ProducerPc =
    | PStart
    | PLock            // about to lock the mutex
    | PTest            // holds it, at the `while` test
    | PThrottleTest    // found the queue full, at the test of `t_producers`
    | PThrottleInc     // about to atomic_inc(&t_producers)
    | PUnlockToWait    // counted as throttled, about to unlock
    | PWait            // in wait_event: about to test the condition
    | PAsleep          // in wait_event: asleep
    | PLeave           // out of wait_event, still counted
    | PAlloc | PAdd | PCount   // allocate, list_add_tail, atomic_inc
    | PUnlock          // inserted and counted, about to unlock
    | PWake            // about to wake_up_all(&consumer_wq)
    | PUnlockRefused | PUnlockNoMemory
    | PAccepted | PRefused | PNoMemory | PInvalid | PNotMove   // returned

  datatype ConsumerPc =
    | CLock | CTest | CUnlockToWait | CWait | CAsleep
    | CTake            // holds the mutex, queue tested non-empty
    | CUnlockEmpty     // found no entry after all
    | CDec(job: nat)   // entry unlinked, about to atomic_dec
    | CWake(job: nat)  // decremented, about to wake_up_all(&producer_wq)
    | CUnlock(job: nat)
    | COpen(job: nat) | CCreate(job: nat)
    | CRead(job: nat, pages: nat)
    | CWrite(job: nat, pages: nat, data: Bytes)
    | CUnlink(job: nat)
  {
    predicate HasJob() {
      CDec? || CWake? || CUnlock? || COpen? || CCreate? || CRead? || CWrite? || CUnlink?
    }
  }

  datatype State = State(holder: Option<Thread>, queue: seq<nat>, size: int, throttled: int,
                         prod: seq<ProducerPc>, cons: seq<ConsumerPc>, files: Files,
                         inserted: seq<nat>, taken: seq<nat>, processed: seq<nat>)
  {
    function GoP(p: nat, pc: ProducerPc): State
      requires p < |prod|
    {
      this.(prod := prod[p := pc])
    }

    function GoC(c: nat, pc: ConsumerPc): State
      requires c < |cons|
    {
      this.(cons := cons[c := pc])
    }
  }

  function Init(cfg: Config): State {
    State(None, [], 0, 0, seq(|cfg.jobs|, _ => PStart), seq(cfg.consumers, _ => CLock), cfg.files, [], [], [])
  }

  function WakeProducers(prod: seq<ProducerPc>): (r: seq<ProducerPc>)
    ensures |r| == |prod|
  {
    seq(|prod|, i requires 0 <= i < |prod| => if prod[i] == PAsleep then PWait else prod[i])
  }

  function WakeConsumers(cons: seq<ConsumerPc>): (r: seq<ConsumerPc>)
    ensures |r| == |cons|
  {
    seq(|cons|, i requires 0 <= i < |cons| => if cons[i] == CAsleep then CWait else cons[i])
  }

  /** What an exit of the insert does to the mutex. */
  function AfterInsert(cfg: Config, s: State): Option<Thread> {
    if cfg.releases then None else s.holder
  }

  /** One step of producer `p`, or None where it has none: it is blocked or has returned.
      In wait_event the thread is queued before the condition is tested, so testing it and
      falling asleep are one step with respect to a wake-up. */
  function ProducerStep(cfg: Config, s: State, p: nat, allocFails: bool): Option<State>
    requires p < |s.prod| && p < |cfg.jobs|
  {
    match s.prod[p]
    case PStart =>
      var job := cfg.jobs[p];
      Some(s.GoP(p, if !job.present || !job.named then PInvalid else if job.IsMove() then PLock else PNotMove))
    case PLock =>
      if s.holder == None then Some(s.GoP(p, PTest).(holder := Some(ProducerThread(p)))) else None
    case PTest =>
      Some(s.GoP(p, if s.size < cfg.capacity then PAlloc else PThrottleTest))
    case PThrottleTest =>
      Some(s.GoP(p, if s.throttled <= cfg.maxProducers then PThrottleInc else PUnlockRefused))
    case PThrottleInc => Some(s.GoP(p, PUnlockToWait).(throttled := s.throttled + 1))
    case PUnlockToWait => Some(s.GoP(p, PWait).(holder := None))
    case PWait => Some(s.GoP(p, if s.size < cfg.capacity then PLeave else PAsleep))
    case PLeave => Some(s.GoP(p, PLock).(throttled := s.throttled - 1))
    case PAlloc => Some(s.GoP(p, if allocFails then PUnlockNoMemory else PAdd))
    case PAdd => Some(s.GoP(p, PCount).(queue := s.queue + [p], inserted := s.inserted + [p]))
    case PCount => Some(s.GoP(p, PUnlock).(size := s.size + 1))
    case PUnlock => Some(s.GoP(p, PWake).(holder := AfterInsert(cfg, s)))
    case PWake => Some(s.GoP(p, PAccepted).(cons := WakeConsumers(s.cons)))
    case PUnlockRefused => Some(s.GoP(p, PRefused).(holder := None))
    case PUnlockNoMemory => Some(s.GoP(p, PNoMemory).(holder := AfterInsert(cfg, s)))
    case _ => None
  }

  /** Consumer `c` is done with `job`: it frees it and goes round its loop. */
  function Finish(s: State, c: nat, job: nat): State
    requires c < |s.cons|
  {
    s.GoC(c, CLock).(processed := s.processed + [job])
  }

  /** Where a consumer goes on after waiting. */
  function AfterWait(cfg: Config): ConsumerPc {
    if cfg.relocks then CLock else CTake
  }

  /** One step of consumer `c`; pages are read and written outside the mutex. */
  function ConsumerStep(cfg: Config, s: State, c: nat): Option<State>
    requires c < |s.cons|
    requires s.cons[c].HasJob() ==> s.cons[c].job < |cfg.jobs|
  {
    match s.cons[c]
    case CLock =>
      if s.holder == None then Some(s.GoC(c, CTest).(holder := Some(ConsumerThread(c)))) else None
    case CTest => Some(s.GoC(c, if s.size == 0 then CUnlockToWait else CTake))
    case CUnlockToWait => Some(s.GoC(c, CWait).(holder := None))
    case CWait => Some(s.GoC(c, if s.size > 0 then AfterWait(cfg) else CAsleep))
    case CAsleep => None
    case CTake =>
      if s.queue == [] then Some(s.GoC(c, CUnlockEmpty))
      else Some(s.GoC(c, CDec(s.queue[0])).(queue := s.queue[1..], taken := s.taken + [s.queue[0]]))
    case CUnlockEmpty => Some(s.GoC(c, CLock).(holder := None))
    case CDec(j) => Some(s.GoC(c, CWake(j)).(size := s.size - 1))
    case CWake(j) =>
      Some(s.GoC(c, CUnlock(j)).(prod := if s.size < cfg.capacity then WakeProducers(s.prod) else s.prod))
    case CUnlock(j) => Some(s.GoC(c, COpen(j)).(holder := None))
    case COpen(j) =>
      if cfg.jobs[j].fname in s.files then Some(s.GoC(c, CCreate(j))) else Some(Finish(s, c, j))
    case CCreate(j) =>
      var trash := cfg.jobs[j].trash;
      if !cfg.jobs[j].dev.trashOpens then Some(Finish(s, c, j))
      else Some(s.GoC(c, CRead(j, 0)).(files := s.files[trash := ContentOrEmpty(s.files, trash)]))
    case CRead(j, k) =>
      var job := cfg.jobs[j];
      if job.dev.readFails(k) then Some(Finish(s, c, j))
      else Some(s.GoC(c, CWrite(j, k, PageAt(ContentOrEmpty(s.files, job.fname), k))))
    case CWrite(j, k, data) =>
      var job, total := cfg.jobs[j], Wrap32(k * PAGE_SIZE);
      var writebytes := Transferred(total, |data|, job.dev.accepts(k));
      var now := AfterWrite(ContentOrEmpty(s.files, job.trash), total, data, job.dev.accepts(k));
      Some(s.GoC(c, if writebytes == |data| == PAGE_SIZE then CRead(j, k + 1) else CUnlink(j))
            .(files := s.files[job.trash := now]))
    case CUnlink(j) =>
      var job := cfg.jobs[j];
      Some(Finish(s, c, j).(files := if job.dev.unlinkFails then s.files else s.files - {job.fname}))
  }

  /** `EarlyProducer` and `EarlyConsumer` are wait_event_interruptible returning although
      its condition does not hold; the code ignores that. */
  datatype Action =
    | StepProducer(p: nat, allocFails: bool)
    | StepConsumer(c: nat)
    | EarlyProducer(p: nat)
    | EarlyConsumer(c: nat)
  {
    predicate IsEarly() {
      EarlyProducer? || EarlyConsumer?
    }
  }

  function Next(cfg: Config, s: State, a: Action): Option<State> {
    match a
    case StepProducer(p, allocFails) =>
      if p < |s.prod| && p < |cfg.jobs| then ProducerStep(cfg, s, p, allocFails) else None
    case StepConsumer(c) =>
      if c < |s.cons| && (s.cons[c].HasJob() ==> s.cons[c].job < |cfg.jobs|) then ConsumerStep(cfg, s, c) else None
    case EarlyProducer(p) =>
      if p < |s.prod| && s.prod[p] in {PWait, PAsleep} then Some(s.GoP(p, PLeave)) else None
    case EarlyConsumer(c) =>
      if c < |s.cons| && s.cons[c] in {CWait, CAsleep} then Some(s.GoC(c, AfterWait(cfg))) else None
  }

  /** The state a sequence of actions leads to, if each was possible in its turn. */
  function Run(cfg: Config, actions: seq<Action>): Option<State> {
    if actions == [] then Some(Init(cfg))
    else
      var before := Run(cfg, actions[..|actions| - 1]);
      if before == None then None else Next(cfg, before.value, actions[|actions| - 1])
  }
}
