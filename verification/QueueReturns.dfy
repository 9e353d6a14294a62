/** What becomes of each request: when it is turned down, when it is refused, when it runs out
    of memory, and that otherwise it is accepted, however long it has to wait. */
module QueueReturns {
  import opened Bytes
  import opened QueueModel
  import opened QueueSafety
  import opened QueueProgress

  /** The flag is there if all its bits are. */
  lemma MoveBits(job: Job)
    ensures job.IsMove() <==> job.present && job.named && job.flags | 0xff1 == job.flags
    ensures job.present && job.named && job.flags in {4081, 4083, 4085, 4087} ==> job.IsMove()
    ensures job.flags in {0, 1, 0xff0, 0xff2, 0xff4} ==> !job.IsMove()
  {
  }

  // ----- the two events that decide against a request -----

  /** In step `i` producer `p` finds the queue full and the throttle bound reached. */
  ghost predicate RefusedAt(cfg: Config, actions: seq<Action>, p: nat, i: nat)
    requires i < |actions|
  {
    && actions[i].StepProducer? && actions[i].p == p && Run(cfg, actions[..i]).Some?
    && var s := Run(cfg, actions[..i]).value;
       p < |s.prod| && s.prod[p] == PThrottleTest && s.size == cfg.capacity && s.throttled == cfg.maxProducers + 1
  }

  /** In step `i` its allocation fails. */
  ghost predicate FailedAt(cfg: Config, actions: seq<Action>, p: nat, i: nat)
    requires i < |actions|
  {
    && actions[i] == StepProducer(p, true) && Run(cfg, actions[..i]).Some?
    && var s := Run(cfg, actions[..i]).value;
       p < |s.prod| && s.prod[p] == PAlloc
  }

  ghost predicate WasRefused(cfg: Config, actions: seq<Action>, p: nat) {
    exists i: nat :: i < |actions| && RefusedAt(cfg, actions, p, i)
  }

  ghost predicate HasFailed(cfg: Config, actions: seq<Action>, p: nat) {
    exists i: nat :: i < |actions| && FailedAt(cfg, actions, p, i)
  }

  /** Earlier steps are the same in a longer run. */
  lemma SameEvents(cfg: Config, actions: seq<Action>, before: seq<Action>, p: nat, i: nat)
    requires actions != [] && before == actions[..|actions| - 1] && i < |before|
    ensures RefusedAt(cfg, actions, p, i) <==> RefusedAt(cfg, before, p, i)
    ensures FailedAt(cfg, actions, p, i) <==> FailedAt(cfg, before, p, i)
  {
    assert before[..i] == actions[..i];
  }

  lemma EitherRefused(cfg: Config, actions: seq<Action>, before: seq<Action>, p: nat)
    requires |actions| == |before| + 1
    requires forall i: nat :: i < |before| ==> (RefusedAt(cfg, actions, p, i) <==> RefusedAt(cfg, before, p, i))
    ensures WasRefused(cfg, actions, p) <==> WasRefused(cfg, before, p) || RefusedAt(cfg, actions, p, |before|)
  {
    if i: nat :| i < |before| && RefusedAt(cfg, before, p, i) {
      assert RefusedAt(cfg, actions, p, i);
    }
  }

  lemma EitherFailed(cfg: Config, actions: seq<Action>, before: seq<Action>, p: nat)
    requires |actions| == |before| + 1
    requires forall i: nat :: i < |before| ==> (FailedAt(cfg, actions, p, i) <==> FailedAt(cfg, before, p, i))
    ensures HasFailed(cfg, actions, p) <==> HasFailed(cfg, before, p) || FailedAt(cfg, actions, p, |before|)
  {
    if i: nat :| i < |before| && FailedAt(cfg, before, p, i) {
      assert FailedAt(cfg, actions, p, i);
    }
  }

  lemma {:induction false} OneMoreRefusal(cfg: Config, actions: seq<Action>, before: seq<Action>, p: nat)
    requires actions != [] && before == actions[..|actions| - 1]
    ensures WasRefused(cfg, actions, p) <==> WasRefused(cfg, before, p) || RefusedAt(cfg, actions, p, |before|)
  {
    forall i: nat | i < |before| ensures RefusedAt(cfg, actions, p, i) <==> RefusedAt(cfg, before, p, i) {
      SameEvents(cfg, actions, before, p, i);
    }
    EitherRefused(cfg, actions, before, p);
  }

  lemma {:induction false} OneMoreFailure(cfg: Config, actions: seq<Action>, before: seq<Action>, p: nat)
    requires actions != [] && before == actions[..|actions| - 1]
    ensures HasFailed(cfg, actions, p) <==> HasFailed(cfg, before, p) || FailedAt(cfg, actions, p, |before|)
  {
    forall i: nat | i < |before| ensures FailedAt(cfg, actions, p, i) <==> FailedAt(cfg, before, p, i) {
      SameEvents(cfg, actions, before, p, i);
    }
    EitherFailed(cfg, actions, before, p);
  }

  // ----- where a request stands tells what has happened to it -----

  predicate OnRefusal(pc: ProducerPc) {
    pc.PUnlockRefused? || pc.PRefused?
  }

  predicate OnFailure(pc: ProducerPc) {
    pc.PUnlockNoMemory? || pc.PNoMemory?
  }

  /** Every request is where its argument and the events so far have brought it. */
  ghost predicate Told(cfg: Config, actions: seq<Action>, s: State) {
    forall p :: 0 <= p < |s.prod| && p < |cfg.jobs| ==> ToldOf(cfg, actions, s.prod[p], p)
  }

  ghost predicate ToldOf(cfg: Config, actions: seq<Action>, pc: ProducerPc, p: nat)
    requires p < |cfg.jobs|
  {
    var job := cfg.jobs[p];
    && (OnRefusal(pc) <==> WasRefused(cfg, actions, p))
    && (OnFailure(pc) <==> HasFailed(cfg, actions, p))
    && (pc.PInvalid? ==> !(job.present && job.named))
    && (pc.PNotMove? ==> job.present && job.named && !job.IsMove())
    && (!NotAdmitted(pc) ==> job.IsMove())
  }

  /** What one step of a producer has to do with the two events. */
  ghost predicate EventStep(job: Job, pc: ProducerPc, pc': ProducerPc, refused: bool, failed: bool) {
    && (OnRefusal(pc') <==> OnRefusal(pc) || refused) && (OnFailure(pc') <==> OnFailure(pc) || failed)
    && (pc'.PInvalid? ==> !(job.present && job.named))
    && (pc'.PNotMove? ==> job.present && job.named && !job.IsMove())
    && (!NotAdmitted(pc') && NotAdmitted(pc) ==> job.IsMove())
  }

  lemma ProducerEventStep(cfg: Config, s: State, p: nat, allocFails: bool)
    requires p < |s.prod| && p < |cfg.jobs| && ProducerStep(cfg, s, p, allocFails).Some?
    ensures var s', pc := ProducerStep(cfg, s, p, allocFails).value, s.prod[p];
            && |s'.prod| == |s.prod|
            && EventStep(cfg.jobs[p], pc, s'.prod[p], pc == PThrottleTest && s.throttled > cfg.maxProducers,
                         pc == PAlloc && allocFails)
  {
    match s.prod[p]
    case PStart =>
    case PThrottleTest =>
    case PAlloc =>
    case PUnlockRefused =>
    case PUnlockNoMemory =>
    case _ =>
  }

  /** How the producers other than the one that moves change in a step. */
  ghost predicate Undecided(pc: ProducerPc, pc': ProducerPc) {
    pc' == pc || (pc == PAsleep && pc' == PWait) || ((pc == PAsleep || pc == PWait) && pc' == PLeave)
  }

  lemma UndecidedStep(pc: ProducerPc, pc': ProducerPc)
    requires Undecided(pc, pc')
    ensures pc' == pc || !(OnRefusal(pc) || OnFailure(pc) || OnRefusal(pc') || OnFailure(pc'))
    ensures pc' == pc || !(pc'.PInvalid? || pc'.PNotMove?)
    ensures NotAdmitted(pc) <==> NotAdmitted(pc')
  {
  }

  /** Waking, or an early return from waiting, decides nothing. */
  lemma OthersUndecided(cfg: Config, actions: seq<Action>, more: seq<Action>, p: nat, pc: ProducerPc, pc': ProducerPc)
    requires p < |cfg.jobs| && ToldOf(cfg, actions, pc, p)
    requires Undecided(pc, pc')
    requires WasRefused(cfg, more, p) <==> WasRefused(cfg, actions, p)
    requires HasFailed(cfg, more, p) <==> HasFailed(cfg, actions, p)
    ensures ToldOf(cfg, more, pc', p)
  {
    UndecidedStep(pc, pc');
  }

  lemma StepUndecided(cfg: Config, s: State, a: Action, p: nat)
    requires Next(cfg, s, a).Some? && p < |s.prod| && !(a.StepProducer? && a.p == p)
    ensures |Next(cfg, s, a).value.prod| == |s.prod| && Undecided(s.prod[p], Next(cfg, s, a).value.prod[p])
  {
    match a
    case StepProducer(q, allocFails) => ProducerFrame(cfg, s, q, allocFails);
    case StepConsumer(c) => ConsumerFrame(cfg, s, c);
    case EarlyProducer(q) =>
    case EarlyConsumer(c) =>
  }

  /** Which event, if any, the last step of a run is. */
  lemma {:induction false} LastEvent(cfg: Config, actions: seq<Action>, s: State, n: nat, p: nat, allocFails: bool)
    requires cfg.Repaired() && |actions| == n + 1 && actions[n] == StepProducer(p, allocFails)
    requires Run(cfg, actions[..n]) == Some(s) && Inv(cfg, s) && p < |s.prod| && p < |cfg.jobs|
    ensures RefusedAt(cfg, actions, p, n) <==> s.prod[p] == PThrottleTest && s.throttled > cfg.maxProducers
    ensures FailedAt(cfg, actions, p, n) <==> s.prod[p] == PAlloc && allocFails
  {
  }

  /** The mover stands where the events, the last one included, have brought it. */
  lemma MovedTold(cfg: Config, before: seq<Action>, actions: seq<Action>, p: nat, pc: ProducerPc, pc': ProducerPc,
                  refused: bool, failed: bool)
    requires p < |cfg.jobs| && ToldOf(cfg, before, pc, p)
    requires WasRefused(cfg, actions, p) <==> WasRefused(cfg, before, p) || refused
    requires HasFailed(cfg, actions, p) <==> HasFailed(cfg, before, p) || failed
    requires EventStep(cfg.jobs[p], pc, pc', refused, failed)
    ensures ToldOf(cfg, actions, pc', p)
  {
  }

  lemma {:induction false} MoverTold(cfg: Config, actions: seq<Action>, s: State, n: nat, p: nat, allocFails: bool)
    requires cfg.Repaired() && |actions| == n + 1 && actions[n] == StepProducer(p, allocFails)
    requires Run(cfg, actions[..n]) == Some(s) && Inv(cfg, s)
    requires p < |s.prod| && p < |cfg.jobs| && ProducerStep(cfg, s, p, allocFails).Some?
    requires ToldOf(cfg, actions[..n], s.prod[p], p)
    ensures var s' := ProducerStep(cfg, s, p, allocFails).value;
            |s'.prod| == |s.prod| && ToldOf(cfg, actions, s'.prod[p], p)
  {
    OneMoreRefusal(cfg, actions, actions[..n], p);
    OneMoreFailure(cfg, actions, actions[..n], p);
    LastEvent(cfg, actions, s, n, p, allocFails);
    ProducerEventStep(cfg, s, p, allocFails);
    MovedTold(cfg, actions[..n], actions, p, s.prod[p], ProducerStep(cfg, s, p, allocFails).value.prod[p],
              RefusedAt(cfg, actions, p, n), FailedAt(cfg, actions, p, n));
  }

  lemma {:induction false} StepTold(cfg: Config, actions: seq<Action>, s: State)
    requires cfg.Repaired() && actions != [] && Run(cfg, actions).Some?
    requires Run(cfg, actions[..|actions| - 1]) == Some(s) && Inv(cfg, s) && Told(cfg, actions[..|actions| - 1], s)
    ensures Told(cfg, actions, Run(cfg, actions).value)
  {
    var n := |actions| - 1;
    var a, s' := actions[n], Run(cfg, actions).value;
    forall p | 0 <= p < |s'.prod| && p < |cfg.jobs| ensures ToldOf(cfg, actions, s'.prod[p], p) {
      assert ToldOf(cfg, actions[..n], s.prod[p], p);
      if a.StepProducer? && a.p == p {
        MoverTold(cfg, actions, s, n, p, a.allocFails);
      } else {
        StepUndecided(cfg, s, a, p);
        OneMoreRefusal(cfg, actions, actions[..n], p);
        OneMoreFailure(cfg, actions, actions[..n], p);
        OthersUndecided(cfg, actions[..n], actions, p, s.prod[p], s'.prod[p]);
      }
    }
  }

  lemma {:induction false} RunTold(cfg: Config, actions: seq<Action>)
    requires cfg.Repaired() && Run(cfg, actions).Some?
    ensures Told(cfg, actions, Run(cfg, actions).value)
  {
    if actions == [] {
    } else {
      var n := |actions| - 1;
      RunTold(cfg, actions[..n]);
      RunInv(cfg, actions[..n]);
      StepTold(cfg, actions, Run(cfg, actions[..n]).value);
    }
  }

  // ----- the main results -----

  /** A request has been refused, at any point of a run, if and only if it once found the queue
      full with every place to wait taken; it has run out of memory if and only if its
      allocation failed. */
  lemma {:induction false} RefusedIff(cfg: Config, actions: seq<Action>, p: nat)
    requires cfg.Repaired() && Run(cfg, actions).Some? && p < |cfg.jobs|
    ensures var s := Run(cfg, actions).value;
            && p < |s.prod|
            && (OnRefusal(s.prod[p]) <==> WasRefused(cfg, actions, p))
            && (OnFailure(s.prod[p]) <==> HasFailed(cfg, actions, p))
  {
    RunInv(cfg, actions);
    RunTold(cfg, actions);
    assert ToldOf(cfg, actions, Run(cfg, actions).value.prod[p], p);
  }

  /** How every request has returned when a run has stopped; accepted ones have been processed. */
  lemma {:induction false} StoppedRunSettles(cfg: Config, actions: seq<Action>, p: nat)
    requires cfg.Repaired() && cfg.consumers >= 1 && cfg.capacity >= 1 && p < |cfg.jobs|
    requires Run(cfg, actions).Some? && Stuck(cfg, Run(cfg, actions).value)
    ensures var s, job := Run(cfg, actions).value, cfg.jobs[p];
            && p < |s.prod|
            && (s.prod[p] == PInvalid <==> !job.present || !job.named)
            && (s.prod[p] == PNotMove <==> job.present && job.named && !job.IsMove())
            && (s.prod[p] == PRefused <==> WasRefused(cfg, actions, p))
            && (s.prod[p] == PNoMemory <==> HasFailed(cfg, actions, p))
            && (s.prod[p] == PAccepted
                <==> job.IsMove() && !WasRefused(cfg, actions, p) && !HasFailed(cfg, actions, p))
            && (s.prod[p] == PAccepted <==> p in s.processed)
  {
    var s := Run(cfg, actions).value;
    RunInv(cfg, actions);
    RunTold(cfg, actions);
    StopsOnlyWhenDone(cfg, actions);
    assert ToldOf(cfg, actions, s.prod[p], p) && Returned(s.prod[p]);
    assert p in s.processed <==> p in multiset(s.processed);
    assert p in s.inserted <==> p in multiset(s.inserted);
  }
}
