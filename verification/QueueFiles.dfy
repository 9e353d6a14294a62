/** What the consumers do to the file system: although they copy and unlink outside the
    mutex, page by page and interleaved, the outcome is that of running processunlink on the
    jobs one after another in the order in which they were inserted, whichever reads, writes,
    opens and unlinks fail. */
module QueueFiles {
  import opened Bytes
  import opened Storage
  import opened FileSystem
  import opened MovePages
  import opened QueueModel
  import opened QueueSafety
  import opened QueueProgress

  /** No path is used by two moves. */
  ghost predicate DistinctPaths(cfg: Config) {
    forall i, j :: 0 <= i < |cfg.jobs| && 0 <= j < |cfg.jobs| && cfg.jobs[i].IsMove() && cfg.jobs[j].IsMove() ==>
      && cfg.jobs[i].fname != cfg.jobs[j].trash
      && (i != j ==> cfg.jobs[i].fname != cfg.jobs[j].fname && cfg.jobs[i].trash != cfg.jobs[j].trash)
  }

  predicate JobIds(cfg: Config, ids: seq<nat>) {
    forall i :: 0 <= i < |ids| ==> ids[i] < |cfg.jobs|
  }

  /** One move from start to end. */
  function MoveJob(files: Files, job: Job): Files {
    MoveOutcome(files, job.fname, job.trash, job.dev).files
  }

  /** The moves done one after another. */
  function InOrder(cfg: Config, order: seq<nat>): Files
    requires JobIds(cfg, order)
  {
    if order == [] then cfg.files
    else
      MoveJob(InOrder(cfg, order[..|order| - 1]), cfg.jobs[order[|order| - 1]])
  }

  // ----- which jobs have touched the files, and how far they got -----

  predicate SameForJob(f: Files, g: Files, job: Job) {
    SameAt(f, g, job.fname) && SameAt(f, g, job.trash)
  }

  ghost predicate IsMoveId(cfg: Config, j: int) {
    0 <= j < |cfg.jobs| && cfg.jobs[j].IsMove()
  }

  ghost predicate Owned(cfg: Config, path: Path) {
    exists j :: IsMoveId(cfg, j) && (path == cfg.jobs[j].fname || path == cfg.jobs[j].trash)
  }

  /** `files` is as it started but for the moves in `done`, which are complete. */
  ghost predicate Settled(cfg: Config, files: Files, done: seq<nat>) {
    && (forall j :: IsMoveId(cfg, j) && j !in done ==> SameForJob(files, cfg.files, cfg.jobs[j]))
    && (forall j :: IsMoveId(cfg, j) && j in done ==> SameForJob(files, MoveJob(cfg.files, cfg.jobs[j]), cfg.jobs[j]))
    && (forall path :: !Owned(cfg, path) ==> SameAt(files, cfg.files, path))
  }

  lemma SettledIsUnique(cfg: Config, f: Files, g: Files, done: seq<nat>)
    requires Settled(cfg, f, done) && Settled(cfg, g, done)
    ensures f == g
  {
    forall path ensures SameAt(f, g, path) {
      if Owned(cfg, path) {
        var j :| IsMoveId(cfg, j) && (path == cfg.jobs[j].fname || path == cfg.jobs[j].trash);
        assert j in done || j !in done;
      }
    }
    assert f.Keys == g.Keys by {
      forall path ensures path in f <==> path in g { assert SameAt(f, g, path); }
    }
    forall path | path in f ensures f[path] == g[path] { assert SameAt(f, g, path); }
  }

  lemma MovedElsewhere(files: Files, job: Job, path: Path)
    requires path != job.fname && path != job.trash
    ensures SameAt(MoveJob(files, job), files, path)
  {
  }

  lemma MovedSame(f: Files, g: Files, job: Job)
    requires SameForJob(f, g, job) && job.fname != job.trash
    ensures SameForJob(MoveJob(f, job), MoveJob(g, job), job)
  {
  }

  /** One more move, of a job not done before, on settled files. */
  lemma OneMoreSettled(cfg: Config, before: Files, done: seq<nat>, j: nat)
    requires DistinctPaths(cfg) && IsMoveId(cfg, j) && j !in done && Settled(cfg, before, done)
    ensures Settled(cfg, MoveJob(before, cfg.jobs[j]), done + [j])
  {
    var job := cfg.jobs[j];
    var after := MoveJob(before, job);
    forall i | IsMoveId(cfg, i) && i != j ensures SameForJob(after, before, cfg.jobs[i]) {
      MovedElsewhere(before, job, cfg.jobs[i].fname);
      MovedElsewhere(before, job, cfg.jobs[i].trash);
    }
    MovedSame(before, cfg.files, job);
    forall path | !Owned(cfg, path) ensures SameAt(after, cfg.files, path) {
      MovedElsewhere(before, job, path);
    }
  }

  lemma {:induction false} InOrderSettled(cfg: Config, order: seq<nat>)
    requires DistinctPaths(cfg) && NoDuplicates(order) && JobIds(cfg, order)
    requires forall i :: 0 <= i < |order| ==> IsMoveId(cfg, order[i])
    ensures Settled(cfg, InOrder(cfg, order), order)
  {
    if order == [] {
    } else {
      var n := |order| - 1;
      InOrderSettled(cfg, order[..n]);
      assert order[n] !in order[..n] by {
        forall i | 0 <= i < n ensures order[..n][i] != order[n] { assert order[i] != order[n]; }
      }
      OneMoreSettled(cfg, InOrder(cfg, order[..n]), order[..n], order[n]);
      assert order == order[..n] + [order[n]];
    }
  }

  /** How far the job of a consumer has got: its files are as before, or the copy under way
      is going to end as the whole copy ends. */
  ghost predicate Stage(cfg: Config, files: Files, pc: ConsumerPc)
    requires pc.HasJob() && pc.job < |cfg.jobs|
  {
    var job := cfg.jobs[pc.job];
    var all := CopyFrom(ContentOrEmpty(cfg.files, job.fname), 0, ContentOrEmpty(cfg.files, job.trash), job.dev);
    if pc.CCreate? then SameForJob(files, cfg.files, job) && job.fname in cfg.files
    else if pc.CRead? || pc.CWrite? || pc.CUnlink? then
      && SameAt(files, cfg.files, job.fname) && job.fname in cfg.files && job.trash in files && job.dev.trashOpens
      && (pc.CWrite? ==> !job.dev.readFails(pc.pages) && pc.data == PageAt(cfg.files[job.fname], pc.pages))
      && all == if pc.CUnlink? then Copy(files[job.trash], false)
                else CopyFrom(cfg.files[job.fname], pc.pages, files[job.trash], job.dev)
    else SameForJob(files, cfg.files, job)
  }

  ghost predicate FilesInv(cfg: Config, s: State) {
    && (forall j :: IsMoveId(cfg, j) && j !in s.taken ==> SameForJob(s.files, cfg.files, cfg.jobs[j]))
    && (forall c :: 0 <= c < |s.cons| && s.cons[c].HasJob() ==>
          s.cons[c].job < |cfg.jobs| && Stage(cfg, s.files, s.cons[c]))
    && (forall j :: IsMoveId(cfg, j) && j in s.processed ==>
          SameForJob(s.files, MoveJob(cfg.files, cfg.jobs[j]), cfg.jobs[j]))
    && (forall path :: !Owned(cfg, path) ==> SameAt(s.files, cfg.files, path))
  }

  // ----- one step -----

  /** A step of a consumer with a job changes the two files of that job only. */
  lemma ConsumerTouches(cfg: Config, s: State, c: nat, path: Path)
    requires c < |s.cons| && (s.cons[c].HasJob() ==> s.cons[c].job < |cfg.jobs|) && ConsumerStep(cfg, s, c).Some?
    requires s.cons[c].HasJob() ==> path != cfg.jobs[s.cons[c].job].fname && path != cfg.jobs[s.cons[c].job].trash
    ensures SameAt(ConsumerStep(cfg, s, c).value.files, s.files, path)
  {
  }

  lemma ReadStage(cfg: Config, s: State, c: nat)
    requires c < |s.cons| && s.cons[c].CRead? && s.cons[c].job < |cfg.jobs| && Stage(cfg, s.files, s.cons[c])
    requires cfg.jobs[s.cons[c].job].fname != cfg.jobs[s.cons[c].job].trash
    ensures StageAfter(cfg, s, ConsumerStep(cfg, s, c).value, c)
  {
  }

  /** A page written: the consumer goes on reading, or is done copying. */
  ghost predicate PageDone(cfg: Config, s: State, s': State, c: nat, src: Bytes)
    requires c < |s.cons| && s.cons[c].CWrite? && s.cons[c].job < |cfg.jobs|
  {
    var pc, job := s.cons[c], cfg.jobs[s.cons[c].job];
    && |s'.cons| == |s.cons| && job.trash in s.files
    && s'.files == s.files[job.trash := AfterPass(src, pc.pages, s.files[job.trash], job.dev)]
    && s'.cons[c] == if Written(src, pc.pages, job.dev) == PAGE_SIZE then CRead(pc.job, pc.pages + 1)
                     else CUnlink(pc.job)
  }

  lemma WriteStep(cfg: Config, s: State, c: nat, src: Bytes)
    requires c < |s.cons| && s.cons[c].CWrite? && s.cons[c].job < |cfg.jobs|
    requires cfg.jobs[s.cons[c].job].trash in s.files && s.cons[c].data == PageAt(src, s.cons[c].pages)
    ensures PageDone(cfg, s, ConsumerStep(cfg, s, c).value, c, src)
  {
  }

  lemma {:induction false} StageAfterPage(cfg: Config, s: State, s': State, c: nat)
    requires c < |s.cons| && s.cons[c].CWrite? && s.cons[c].job < |cfg.jobs| && Stage(cfg, s.files, s.cons[c])
    requires cfg.jobs[s.cons[c].job].fname != cfg.jobs[s.cons[c].job].trash
    requires PageDone(cfg, s, s', c, cfg.files[cfg.jobs[s.cons[c].job].fname])
    ensures StageAfter(cfg, s, s', c)
  {
    var job, k := cfg.jobs[s.cons[c].job], s.cons[c].pages;
    CopyUnfolds(cfg.files[job.fname], k, s.files[job.trash], job.dev, s'.files[job.trash]);
  }

  lemma WriteStage(cfg: Config, s: State, c: nat)
    requires c < |s.cons| && s.cons[c].CWrite? && s.cons[c].job < |cfg.jobs| && Stage(cfg, s.files, s.cons[c])
    requires cfg.jobs[s.cons[c].job].fname != cfg.jobs[s.cons[c].job].trash
    ensures StageAfter(cfg, s, ConsumerStep(cfg, s, c).value, c)
  {
    WriteStep(cfg, s, c, cfg.files[cfg.jobs[s.cons[c].job].fname]);
    StageAfterPage(cfg, s, ConsumerStep(cfg, s, c).value, c);
  }

  lemma UnlinkStage(cfg: Config, s: State, c: nat)
    requires c < |s.cons| && s.cons[c].CUnlink? && s.cons[c].job < |cfg.jobs| && Stage(cfg, s.files, s.cons[c])
    requires cfg.jobs[s.cons[c].job].fname != cfg.jobs[s.cons[c].job].trash
    ensures StageAfter(cfg, s, ConsumerStep(cfg, s, c).value, c)
  {
  }

  /** The job in hand has moved on, or is complete. */
  ghost predicate StageAfter(cfg: Config, s: State, s': State, c: nat)
    requires c < |s.cons| && s.cons[c].HasJob() && s.cons[c].job < |cfg.jobs|
  {
    && |s'.cons| == |s.cons|
    && if s'.cons[c].HasJob() then s'.cons[c].job == s.cons[c].job && Stage(cfg, s'.files, s'.cons[c])
       else SameForJob(s'.files, MoveJob(cfg.files, cfg.jobs[s.cons[c].job]), cfg.jobs[s.cons[c].job])
  }

  lemma StageAdvances(cfg: Config, s: State, c: nat)
    requires c < |s.cons| && s.cons[c].HasJob() && s.cons[c].job < |cfg.jobs| && Stage(cfg, s.files, s.cons[c])
    requires cfg.jobs[s.cons[c].job].fname != cfg.jobs[s.cons[c].job].trash
    ensures ConsumerStep(cfg, s, c).Some? && StageAfter(cfg, s, ConsumerStep(cfg, s, c).value, c)
  {
    match s.cons[c]
    case CRead(_, _) => ReadStage(cfg, s, c);
    case CWrite(_, _, _) => WriteStage(cfg, s, c);
    case CUnlink(_) => UnlinkStage(cfg, s, c);
    case CCreate(_) =>
    case COpen(_) =>
    case _ =>
  }

  // ----- nobody else has the job -----

  lemma {:induction false} HeldIsInHand(cons: seq<ConsumerPc>, c: nat)
    requires c < |cons| && cons[c].HasJob()
    ensures InHand(cons, cons[c].job) >= 1
  {
    var n := |cons| - 1;
    if c < n {
      HeldIsInHand(cons[..n], c);
    }
  }

  lemma {:induction false} HeldTwice(cons: seq<ConsumerPc>, c: nat, d: nat)
    requires c < d < |cons| && cons[c].HasJob() && cons[d].HasJob() && cons[c].job == cons[d].job
    ensures InHand(cons, cons[c].job) >= 2
  {
    var n := |cons| - 1;
    if d < n {
      HeldTwice(cons[..n], c, d);
    } else {
      HeldIsInHand(cons[..n], c);
    }
  }

  /** No job is taken twice, and none that is still listed has been taken. */
  lemma TakenDistinct(s: State)
    requires FifoInv(s)
    ensures NoDuplicates(s.taken)
    ensures s.queue != [] ==> s.queue[0] !in s.taken
  {
    forall i, j | 0 <= i < j < |s.taken| ensures s.taken[i] != s.taken[j] {
      assert s.inserted[i] != s.inserted[j];
    }
    if s.queue != [] {
      forall i | 0 <= i < |s.taken| ensures s.taken[i] != s.queue[0] {
        assert s.inserted[i] != s.inserted[|s.taken|];
      }
    }
  }

  lemma TakenAreMoves(cfg: Config, s: State)
    requires FifoInv(s) && AdmittedInv(cfg, s) && Shape(cfg, s)
    ensures forall i :: 0 <= i < |s.taken| ==> IsMoveId(cfg, s.taken[i])
  {
    forall i | 0 <= i < |s.taken| ensures IsMoveId(cfg, s.taken[i]) {
      assert s.taken[i] in s.inserted;
    }
  }

  /** The job in hand is a taken move, not processed, and no other consumer has it. */
  lemma JobIsMine(cfg: Config, s: State, c: nat)
    requires Inv(cfg, s) && c < |s.cons| && s.cons[c].HasJob()
    ensures s.cons[c].job in s.taken && IsMoveId(cfg, s.cons[c].job) && s.cons[c].job !in s.processed
    ensures forall d :: 0 <= d < |s.cons| && d != c && s.cons[d].HasJob() ==> s.cons[d].job != s.cons[c].job
  {
    var j := s.cons[c].job;
    HeldIsInHand(s.cons, c);
    assert multiset(s.taken)[j] == multiset(s.processed)[j] + InHand(s.cons, j);
    assert j in multiset(s.taken);
    TakenDistinct(s);
    TakenAreMoves(cfg, s);
    CountedOnce(s.taken, j);
    assert j in s.processed ==> j in multiset(s.processed);
    forall d | 0 <= d < |s.cons| && d != c && s.cons[d].HasJob() ensures s.cons[d].job != j {
      if s.cons[d].job == j {
        if c < d { HeldTwice(s.cons, c, d); } else { HeldTwice(s.cons, d, c); }
      }
    }
  }

  // ----- every step -----

  lemma OtherStage(cfg: Config, f: Files, f': Files, pc: ConsumerPc)
    requires pc.HasJob() && pc.job < |cfg.jobs| && Stage(cfg, f, pc)
    requires SameForJob(f', f, cfg.jobs[pc.job])
    ensures Stage(cfg, f', pc)
  {
  }

  /** The step of a consumer with job `j` leaves every other move's files alone. */
  lemma OthersUntouched(cfg: Config, s: State, c: nat, i: nat)
    requires DistinctPaths(cfg) && c < |s.cons| && s.cons[c].HasJob() && ConsumerStep.requires(cfg, s, c)
    requires ConsumerStep(cfg, s, c).Some?
    requires IsMoveId(cfg, s.cons[c].job) && IsMoveId(cfg, i) && i != s.cons[c].job
    ensures SameForJob(ConsumerStep(cfg, s, c).value.files, s.files, cfg.jobs[i])
  {
    ConsumerTouches(cfg, s, c, cfg.jobs[i].fname);
    ConsumerTouches(cfg, s, c, cfg.jobs[i].trash);
  }

  lemma {:induction false} FilesAfterWork(cfg: Config, s: State, s': State, c: nat)
    requires Inv(cfg, s) && FilesInv(cfg, s) && c < |s.cons| && s.cons[c].HasJob()
    requires ConsumerMoved(s, s', c) && HandChange(s, s', c) && StageAfter(cfg, s, s', c)
    requires forall i :: IsMoveId(cfg, i) && i != s.cons[c].job ==> SameForJob(s'.files, s.files, cfg.jobs[i])
    requires forall path :: !Owned(cfg, path) ==> SameAt(s'.files, s.files, path)
    ensures FilesInv(cfg, s')
  {
    JobIsMine(cfg, s, c);
    forall d | 0 <= d < |s'.cons| && s'.cons[d].HasJob()
      ensures s'.cons[d].job < |cfg.jobs| && Stage(cfg, s'.files, s'.cons[d])
    {
      if d != c {
        assert s'.cons[d] == s.cons[d];
        JobIsMine(cfg, s, d);
        OtherStage(cfg, s.files, s'.files, s.cons[d]);
      }
    }
  }

  lemma {:induction false} WorkKeepsFiles(cfg: Config, s: State, c: nat)
    requires DistinctPaths(cfg) && Inv(cfg, s) && FilesInv(cfg, s)
    requires c < |s.cons| && s.cons[c].HasJob() && ConsumerStep(cfg, s, c).Some?
    ensures FilesInv(cfg, ConsumerStep(cfg, s, c).value)
  {
    var s' := ConsumerStep(cfg, s, c).value;
    JobIsMine(cfg, s, c);
    StageAdvances(cfg, s, c);
    ConsumerFrame(cfg, s, c);
    ConsumerHandStep(cfg, s, c);
    forall i | IsMoveId(cfg, i) && i != s.cons[c].job ensures SameForJob(s'.files, s.files, cfg.jobs[i]) {
      OthersUntouched(cfg, s, c, i);
    }
    forall path | !Owned(cfg, path) ensures SameAt(s'.files, s.files, path) {
      ConsumerTouches(cfg, s, c, path);
    }
    FilesAfterWork(cfg, s, s', c);
  }

  lemma IdleKeepsFiles(cfg: Config, s: State, c: nat)
    requires Inv(cfg, s) && FilesInv(cfg, s)
    requires c < |s.cons| && !s.cons[c].HasJob() && ConsumerStep(cfg, s, c).Some?
    ensures FilesInv(cfg, ConsumerStep(cfg, s, c).value)
  {
    var s' := ConsumerStep(cfg, s, c).value;
    ConsumerFrame(cfg, s, c);
    ConsumerHandStep(cfg, s, c);
    ConsumerListStep(cfg, s, c);
    if s'.cons[c].HasJob() {
      TakenDistinct(s);
      assert s.queue[0] in s.inserted;
    }
  }

  lemma {:induction false} StepKeepsFiles(cfg: Config, s: State, a: Action)
    requires DistinctPaths(cfg) && Inv(cfg, s) && FilesInv(cfg, s) && Next(cfg, s, a).Some?
    ensures FilesInv(cfg, Next(cfg, s, a).value)
  {
    match a
    case StepProducer(p, allocFails) =>
      ProducerFrame(cfg, s, p, allocFails);
      ProducerHandsOff(cfg, s, p, allocFails);
    case StepConsumer(c) =>
      if s.cons[c].HasJob() { WorkKeepsFiles(cfg, s, c); } else { IdleKeepsFiles(cfg, s, c); }
    case EarlyProducer(p) =>
    case EarlyConsumer(c) =>
  }

  lemma {:induction false} RunFiles(cfg: Config, actions: seq<Action>)
    requires cfg.Repaired() && DistinctPaths(cfg) && Run(cfg, actions).Some?
    ensures FilesInv(cfg, Run(cfg, actions).value)
  {
    if actions == [] {
    } else {
      var n := |actions| - 1;
      RunFiles(cfg, actions[..n]);
      RunInv(cfg, actions[..n]);
      StepKeepsFiles(cfg, Run(cfg, actions[..n]).value, actions[n]);
    }
  }

  lemma AllTakenSettled(cfg: Config, s: State)
    requires ConservedInv(s) && FilesInv(cfg, s)
    requires forall c :: 0 <= c < |s.cons| ==> !s.cons[c].HasJob()
    ensures Settled(cfg, s.files, s.taken)
  {
    forall j | j in s.taken ensures j in s.processed {
      NoJobInHand(s.cons, j);
      assert j in multiset(s.taken);
    }
    forall j | j in s.processed ensures j in s.taken {
      assert j in multiset(s.processed);
    }
  }

  /** Concurrent refines sequential: whenever no consumer has a job in hand, the files are
      as if the jobs taken so far had been moved one by one, first in, first out. */
  lemma {:induction false} ConcurrentIsSequential(cfg: Config, actions: seq<Action>)
    requires cfg.Repaired() && DistinctPaths(cfg) && Run(cfg, actions).Some?
    requires var s := Run(cfg, actions).value; forall c :: 0 <= c < |s.cons| ==> !s.cons[c].HasJob()
    ensures var s := Run(cfg, actions).value;
            JobIds(cfg, s.taken) && s.files == InOrder(cfg, s.taken)
  {
    var s := Run(cfg, actions).value;
    RunInv(cfg, actions);
    RunFiles(cfg, actions);
    TakenDistinct(s);
    TakenAreMoves(cfg, s);
    AllTakenSettled(cfg, s);
    InOrderSettled(cfg, s.taken);
    SettledIsUnique(cfg, s.files, InOrder(cfg, s.taken), s.taken);
  }

  /** A run that has stopped has moved every accepted file, in insertion order. */
  lemma {:induction false} StoppedRunMovedAll(cfg: Config, actions: seq<Action>)
    requires cfg.Repaired() && cfg.consumers >= 1 && cfg.capacity >= 1 && DistinctPaths(cfg)
    requires Run(cfg, actions).Some? && Stuck(cfg, Run(cfg, actions).value)
    ensures var s := Run(cfg, actions).value;
            JobIds(cfg, s.inserted) && s.files == InOrder(cfg, s.inserted)
  {
    StopsOnlyWhenDone(cfg, actions);
    ConcurrentIsSequential(cfg, actions);
  }

  /** What a run that has stopped made of one accepted request: what moving its file alone,
      from the beginning, would have made of it. */
  lemma {:induction false} AcceptedFileMoved(cfg: Config, actions: seq<Action>, p: nat)
    requires cfg.Repaired() && cfg.consumers >= 1 && cfg.capacity >= 1 && DistinctPaths(cfg)
    requires Run(cfg, actions).Some? && Stuck(cfg, Run(cfg, actions).value)
    requires p in Run(cfg, actions).value.inserted
    ensures var s := Run(cfg, actions).value;
            p < |cfg.jobs| && IsMoveId(cfg, p) && SameForJob(s.files, MoveJob(cfg.files, cfg.jobs[p]), cfg.jobs[p])
  {
    var s := Run(cfg, actions).value;
    StopsOnlyWhenDone(cfg, actions);
    RunInv(cfg, actions);
    RunFiles(cfg, actions);
    TakenAreMoves(cfg, s);
    AllTakenSettled(cfg, s);
  }

  /** Data of an accepted request is lost exactly if the first fault its move meets is a
      write that falls short; how the threads were interleaved has no part in it. */
  lemma {:induction false} AcceptedFileLostIff(cfg: Config, actions: seq<Action>, p: nat)
    requires cfg.Repaired() && cfg.consumers >= 1 && cfg.capacity >= 1 && DistinctPaths(cfg)
    requires Run(cfg, actions).Some? && Stuck(cfg, Run(cfg, actions).value)
    requires p in Run(cfg, actions).value.inserted && p < |cfg.jobs|
    requires cfg.jobs[p].fname in cfg.files && ContentOrEmpty(cfg.files, cfg.jobs[p].trash) == []
    ensures var job := cfg.jobs[p];
            Lost(cfg.files, Run(cfg, actions).value.files, job.fname, job.trash)
            <==> job.dev.trashOpens && !job.dev.unlinkFails && ShortWriteFirst(cfg.files[job.fname], job.dev)
  {
    var job := cfg.jobs[p];
    AcceptedFileMoved(cfg, actions, p);
    MoveLosesIff(cfg.files, job.fname, job.trash, job.dev);
  }
}
