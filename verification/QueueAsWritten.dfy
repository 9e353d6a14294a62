/** What the two missing locking steps do, each with every other repair in force.  The insert
    as it is written returns with the mutex held: then at most one job ever gets into the list
    and no consumer ever takes one.  The consumer as it is written goes on after waiting without
    the mutex: then two of them are inside at once, and `wq_size` falls below zero.  With both
    missing, as in the code, a consumer that was waiting takes the job and gives back a mutex
    that it never held. */
module QueueAsWritten {
  import opened Bytes
  import opened Storage
  import opened QueueModel
  import opened QueueSafety
  import opened QueueProgress

  ghost predicate NothingTaken(s: State) {
    && s.taken == [] && s.processed == []
    && (forall c :: 0 <= c < |s.cons| ==> !s.cons[c].HasJob() && s.cons[c] != CTake && s.cons[c] != CUnlockEmpty)
  }

  ghost predicate StillHeld(s: State) {
    && (forall p :: 0 <= p < |s.prod| && PHolds(s.prod[p]) ==> s.holder == Some(ProducerThread(p)))
    && (forall c :: 0 <= c < |s.cons| && CHolds(s.cons[c]) ==> s.holder == Some(ConsumerThread(c)))
    && (s.inserted == [] ==> s.size == 0)
    && (s.inserted != [] ==> |s.inserted| == 1 && s.holder == Some(ProducerThread(s.inserted[0])))
    && (forall p :: 0 <= p < |s.prod| && Inserted(s.prod[p]) ==> s.inserted == [p])
    && (s.inserted != [] ==> s.inserted[0] < |s.prod| && Inserted(s.prod[s.inserted[0]]))
  }

  ghost predicate StuckInv(s: State) {
    NothingTaken(s) && StillHeld(s)
  }

  lemma {:induction false} ProducerKeepsStuck(cfg: Config, s: State, p: nat, allocFails: bool)
    requires !cfg.releases && cfg.relocks && StuckInv(s)
    requires p < |s.prod| && p < |cfg.jobs| && ProducerStep(cfg, s, p, allocFails).Some?
    ensures StuckInv(ProducerStep(cfg, s, p, allocFails).value)
  {
    ProducerFrame(cfg, s, p, allocFails);
    ProducerHandsOff(cfg, s, p, allocFails);
    ProducerListStep(cfg, s, p, allocFails);
    var s' := ProducerStep(cfg, s, p, allocFails).value;
    assert PHolds(s.prod[p]) ==> s.holder == Some(ProducerThread(p));
    assert PHolds(s'.prod[p]) ==> s'.holder == Some(ProducerThread(p));
  }

  lemma ConsumerKeepsStuck(cfg: Config, s: State, c: nat)
    requires cfg.relocks && StuckInv(s) && c < |s.cons| && ConsumerStep(cfg, s, c).Some?
    ensures StuckInv(ConsumerStep(cfg, s, c).value)
  {
  }

  // ----- the insert does not unlock -----

  /** With the unlock missing and the consumer repaired, no run takes a job and no run inserts a
      second one. */
  lemma {:induction false} NoJobEverTaken(cfg: Config, actions: seq<Action>)
    requires !cfg.releases && cfg.relocks && Run(cfg, actions).Some?
    ensures var s := Run(cfg, actions).value;
            StuckInv(s) && s.taken == [] && s.processed == [] && |s.inserted| <= 1
  {
    if actions == [] {
    } else {
      var n := |actions| - 1;
      NoJobEverTaken(cfg, actions[..n]);
      var s := Run(cfg, actions[..n]).value;
      match actions[n]
      case StepProducer(p, allocFails) => ProducerKeepsStuck(cfg, s, p, allocFails);
      case StepConsumer(c) => ConsumerKeepsStuck(cfg, s, c);
      case EarlyProducer(p) =>
      case EarlyConsumer(c) =>
    }
  }

  lemma RunOneMore(cfg: Config, actions: seq<Action>, a: Action)
    requires Run(cfg, actions).Some?
    ensures Run(cfg, actions + [a]) == Next(cfg, Run(cfg, actions).value, a)
  {
    assert (actions + [a])[..|actions|] == actions;
  }

  /** Producer 0 runs from its start to its return. */
  function Submit(n: nat): seq<Action> {
    if n == 0 then [] else Submit(n - 1) + [StepProducer(0, false)]
  }

  function SubmitPc(n: nat): ProducerPc {
    if n == 0 then PStart else if n == 1 then PLock else if n == 2 then PTest else if n == 3 then PAlloc
    else if n == 4 then PAdd else if n == 5 then PCount else if n == 6 then PUnlock else if n == 7 then PWake
    else PAccepted
  }

  ghost predicate Submitted(cfg: Config, s: State, n: nat) {
    && |s.prod| == 1 && s.prod[0] == SubmitPc(n)
    && s.size == (if n <= 5 then 0 else 1)
    && s.queue == (if n <= 4 then [] else [0]) && s.processed == []
    && s.holder == (if n <= 1 then None else Some(ProducerThread(0)))
    && (forall c :: 0 <= c < |s.cons| ==> s.cons[c] == CLock)
  }

  ghost predicate SubmittedAfter(cfg: Config, r: Option<State>, n: nat) {
    r.Some? && Submitted(cfg, r.value, n)
  }

  lemma SubmitStart(cfg: Config)
    requires |cfg.jobs| == 1
    ensures SubmittedAfter(cfg, Run(cfg, Submit(0)), 0)
  {
  }

  lemma SubmitStep(cfg: Config, r: Option<State>, r': Option<State>, n: nat)
    requires !cfg.releases && |cfg.jobs| == 1 && cfg.jobs[0].IsMove() && cfg.capacity >= 1
    requires n < 8 && SubmittedAfter(cfg, r, n) && r' == Next(cfg, r.value, StepProducer(0, false))
    ensures SubmittedAfter(cfg, r', n + 1)
  {
  }

  lemma {:induction false} SubmitRuns(cfg: Config, n: nat)
    requires !cfg.releases && |cfg.jobs| == 1 && cfg.jobs[0].IsMove() && cfg.capacity >= 1 && n <= 8
    ensures SubmittedAfter(cfg, Run(cfg, Submit(n)), n)
  {
    if n == 0 {
      SubmitStart(cfg);
    } else {
      SubmitRuns(cfg, n - 1);
      RunOneMore(cfg, Submit(n - 1), StepProducer(0, false));
      SubmitStep(cfg, Run(cfg, Submit(n - 1)), Run(cfg, Submit(n)), n - 1);
    }
  }

  lemma SubmittedIsStuck(cfg: Config, s: State)
    requires Submitted(cfg, s, 8)
    ensures Stuck(cfg, s)
  {
    forall a: Action | !a.IsEarly() ensures Next(cfg, s, a) == None {
      match a
      case StepProducer(p, allocFails) =>
      case StepConsumer(c) =>
    }
  }

  /** If it comes before any consumer waits, a single accepted request already deadlocks. */
  lemma {:induction false} OneRequestDeadlocks(cfg: Config)
    requires !cfg.releases && |cfg.jobs| == 1 && cfg.jobs[0].IsMove() && cfg.capacity >= 1
    ensures Run(cfg, Submit(8)).Some?
    ensures var s := Run(cfg, Submit(8)).value;
            Stuck(cfg, s) && s.prod[0] == PAccepted && s.queue == [0] && s.processed == []
  {
    SubmitRuns(cfg, 8);
    SubmittedIsStuck(cfg, Run(cfg, Submit(8)).value);
  }

  // ----- the consumer does not lock again -----

  ghost predicate Reachable(cfg: Config, s: State) {
    exists actions: seq<Action> :: Run(cfg, actions) == Some(s)
  }

  lemma {:induction false} ReachInit(cfg: Config)
    ensures Reachable(cfg, Init(cfg))
  {
    assert Run(cfg, []) == Some(Init(cfg));
  }

  ghost predicate SameState(s: State, t: State) {
    && s.holder == t.holder && s.queue == t.queue && s.size == t.size && s.throttled == t.throttled
    && s.prod == t.prod && s.cons == t.cons && s.files == t.files
    && s.inserted == t.inserted && s.taken == t.taken && s.processed == t.processed
  }

  lemma {:induction false} ReachStep(cfg: Config, s: State, a: Action, s': State)
    requires Reachable(cfg, s) && Next(cfg, s, a).Some? && SameState(Next(cfg, s, a).value, s')
    ensures Reachable(cfg, s')
  {
    var actions :| Run(cfg, actions) == Some(s);
    RunOneMore(cfg, actions, a);
    assert Run(cfg, actions + [a]) == Some(s');
  }

  /** A consumer finds the queue empty and falls asleep. */
  lemma {:induction false} FallsAsleep(cfg: Config, s: State, c: nat)
    requires Reachable(cfg, s) && c < |s.cons| && s.cons[c] == CLock && s.holder == None && s.size == 0
    ensures Reachable(cfg, s.GoC(c, CAsleep))
  {
    var held := s.(holder := Some(ConsumerThread(c)));
    ReachStep(cfg, s, StepConsumer(c), held.GoC(c, CTest));
    ReachStep(cfg, held.GoC(c, CTest), StepConsumer(c), held.GoC(c, CUnlockToWait));
    ReachStep(cfg, held.GoC(c, CUnlockToWait), StepConsumer(c), s.GoC(c, CWait));
    ReachStep(cfg, s.GoC(c, CWait), StepConsumer(c), s.GoC(c, CAsleep));
  }

  /** A request finds room in the queue. */
  lemma {:induction false} Enters(cfg: Config, s: State, p: nat)
    requires Reachable(cfg, s) && p < |s.prod| && p < |cfg.jobs| && cfg.jobs[p].IsMove() && s.prod[p] == PStart
    requires s.holder == None && s.size < cfg.capacity
    ensures Reachable(cfg, s.GoP(p, PAlloc).(holder := Some(ProducerThread(p))))
  {
    var held := s.(holder := Some(ProducerThread(p)));
    ReachStep(cfg, s, StepProducer(p, false), s.GoP(p, PLock));
    ReachStep(cfg, s.GoP(p, PLock), StepProducer(p, false), held.GoP(p, PTest));
    ReachStep(cfg, held.GoP(p, PTest), StepProducer(p, false), held.GoP(p, PAlloc));
  }

  /** It gets as far as linking its job, with the counter still to come. */
  function Linked(s: State, p: nat): State
    requires p < |s.prod|
  {
    s.GoP(p, PCount).(holder := Some(ProducerThread(p)), queue := s.queue + [p], inserted := s.inserted + [p])
  }

  lemma {:induction false} Links(cfg: Config, s: State, p: nat)
    requires Reachable(cfg, s) && p < |s.prod| && p < |cfg.jobs| && cfg.jobs[p].IsMove() && s.prod[p] == PStart
    requires s.holder == None && s.size < cfg.capacity
    ensures Reachable(cfg, Linked(s, p))
  {
    Enters(cfg, s, p);
    var held := s.(holder := Some(ProducerThread(p)));
    ReachStep(cfg, held.GoP(p, PAlloc), StepProducer(p, false), held.GoP(p, PAdd));
    ReachStep(cfg, held.GoP(p, PAdd), StepProducer(p, false), Linked(s, p));
  }

  /** And on to its return. */
  function Accepted(cfg: Config, s: State, p: nat): State
    requires p < |s.prod|
  {
    s.GoP(p, PAccepted).(holder := if cfg.releases then None else Some(ProducerThread(p)), queue := s.queue + [p],
                         inserted := s.inserted + [p], size := s.size + 1, cons := WakeConsumers(s.cons))
  }

  lemma {:induction false} IsAccepted(cfg: Config, s: State, p: nat)
    requires Reachable(cfg, s) && p < |s.prod| && p < |cfg.jobs| && cfg.jobs[p].IsMove() && s.prod[p] == PStart
    requires s.holder == None && s.size < cfg.capacity
    ensures Reachable(cfg, Accepted(cfg, s, p))
  {
    Links(cfg, s, p);
    var counted := Linked(s, p).(size := s.size + 1);
    ReachStep(cfg, Linked(s, p), StepProducer(p, false), counted.GoP(p, PUnlock));
    Returns(cfg, s, counted.GoP(p, PUnlock), p);
  }

  lemma {:induction false} Returns(cfg: Config, s: State, counted: State, p: nat)
    requires p < |s.prod| && p < |cfg.jobs| && Reachable(cfg, counted)
    requires counted == Linked(s, p).GoP(p, PUnlock).(size := s.size + 1)
    ensures Reachable(cfg, Accepted(cfg, s, p))
  {
    var freed := counted.GoP(p, PWake).(holder := if cfg.releases then None else Some(ProducerThread(p)));
    ReachStep(cfg, counted, StepProducer(p, false), freed);
    ReachStep(cfg, freed, StepProducer(p, false), Accepted(cfg, s, p));
  }

  /** A consumer at the list takes the only job and counts it off. */
  lemma {:induction false} TakesOff(cfg: Config, s: State, j: nat)
    requires Reachable(cfg, s) && |s.cons| > 0 && s.cons[0] == CTake && s.queue == [j] && j < |cfg.jobs|
    ensures Reachable(cfg, s.GoC(0, CWake(j)).(queue := [], taken := s.taken + [j], size := s.size - 1))
  {
    var taking := s.GoC(0, CDec(j)).(queue := [], taken := s.taken + [j]);
    ReachStep(cfg, s, StepConsumer(0), taking);
    ReachStep(cfg, taking, StepConsumer(0), taking.GoC(0, CWake(j)).(size := s.size - 1));
    assert taking.GoC(0, CWake(j)).cons == s.GoC(0, CWake(j)).cons;
  }

  /** One request, and both consumers are at the list at the same time without the mutex. */
  lemma {:induction false} TwoConsumersInside(cfg: Config)
    requires cfg.releases && !cfg.relocks && |cfg.jobs| == 1 && cfg.jobs[0].IsMove()
    requires cfg.capacity >= 1 && cfg.consumers == 2
    ensures exists s :: Reachable(cfg, s) && |s.cons| == 2 && s.cons[0] == s.cons[1] == CTake && s.holder == None
  {
    var s0 := Init(cfg);
    ReachInit(cfg);
    FallsAsleep(cfg, s0, 0);
    var s1 := s0.GoC(0, CAsleep);
    FallsAsleep(cfg, s1, 1);
    var s2 := s1.GoC(1, CAsleep);
    IsAccepted(cfg, s2, 0);
    var s3 := Accepted(cfg, s2, 0);
    ReachStep(cfg, s3, StepConsumer(0), s3.GoC(0, CTake));
    ReachStep(cfg, s3.GoC(0, CTake), StepConsumer(1), s3.GoC(0, CTake).GoC(1, CTake));
  }

  /** One request, one consumer whose waiting ends early between the linking of the job and
      its counting: `wq_size` is -1. */
  lemma {:induction false} SizeBelowZero(cfg: Config)
    requires !cfg.relocks && |cfg.jobs| == 1 && cfg.jobs[0].IsMove() && cfg.capacity >= 1 && cfg.consumers >= 1
    ensures exists s :: Reachable(cfg, s) && s.inserted == [0] && s.size == -1
  {
    var s0 := Init(cfg);
    ReachInit(cfg);
    FallsAsleep(cfg, s0, 0);
    var s1 := s0.GoC(0, CAsleep);
    Links(cfg, s1, 0);
    var s2 := Linked(s1, 0);
    var s3 := s2.GoC(0, CTake);
    ReachStep(cfg, s2, EarlyConsumer(0), s3);
    TakesOff(cfg, s3, 0);
    assert s3.GoC(0, CWake(0)).(queue := [], taken := [0], size := -1).inserted == [0];
  }

  /** The first consumer has a job, and its next step frees the mutex that the request, which
      has returned, still holds. */
  ghost predicate Freeing(cfg: Config, s: State) {
    && s.taken == [0] && |s.prod| == 1 && s.prod[0] == PAccepted && s.holder == Some(ProducerThread(0))
    && Next(cfg, s, StepConsumer(0)).Some? && Next(cfg, s, StepConsumer(0)).value.holder == None
  }

  lemma {:induction false} FreesNext(cfg: Config, s: State)
    requires Reachable(cfg, s) && cfg.capacity >= 1 && |cfg.jobs| == 1
    requires |s.cons| > 0 && s.cons[0] == CWake(0) && s.size == 0 && s.taken == [0]
    requires |s.prod| == 1 && s.prod[0] == PAccepted && s.holder == Some(ProducerThread(0))
    ensures exists s' :: Reachable(cfg, s') && Freeing(cfg, s')
  {
    var s' := s.GoC(0, CUnlock(0)).(prod := WakeProducers(s.prod));
    ReachStep(cfg, s, StepConsumer(0), s');
    assert Freeing(cfg, s');
  }

  /** With neither repair a consumer that was waiting takes the job although the mutex is still
      held by the request, which has returned, and frees it. */
  lemma {:induction false} WaitingConsumerFrees(cfg: Config)
    requires !cfg.releases && !cfg.relocks && |cfg.jobs| == 1 && cfg.jobs[0].IsMove()
    requires cfg.capacity >= 1 && cfg.consumers >= 1
    ensures exists s :: Reachable(cfg, s) && Freeing(cfg, s)
  {
    var s0 := Init(cfg);
    ReachInit(cfg);
    FallsAsleep(cfg, s0, 0);
    var s1 := s0.GoC(0, CAsleep);
    IsAccepted(cfg, s1, 0);
    var s2 := Accepted(cfg, s1, 0);
    var s3 := s2.GoC(0, CTake);
    ReachStep(cfg, s2, StepConsumer(0), s3);
    TakesOff(cfg, s3, 0);
    FreesNext(cfg, s3.GoC(0, CWake(0)).(queue := [], taken := [0], size := 0));
  }
}
