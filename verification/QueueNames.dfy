/** The trash names give the queue the pairwise distinct paths under which its concurrent
    moves are sequential ones. */
module QueueNames {
  import opened Bytes
  import opened Storage
  import opened QueueModel
  import opened QueueFiles
  import opened TrashName

  /** Each request to move a file, made at the time `times` says, gets the name built for it. */
  ghost predicate NamedAt(cfg: Config, times: seq<Stamp>) {
    && |times| == |cfg.jobs|
    && (forall i :: IsMoveId(cfg, i) ==>
          times[i].Valid() && cfg.jobs[i].trash == Name(times[i], cfg.jobs[i].fname, Move))
  }

  /** The requests are for different files, outside the trash bin, without '[' in their paths. */
  ghost predicate DistinctSources(cfg: Config) {
    && (forall i :: IsMoveId(cfg, i) ==> '[' !in cfg.jobs[i].fname && !(PREFIX <= cfg.jobs[i].fname))
    && (forall i, j :: IsMoveId(cfg, i) && IsMoveId(cfg, j) && i != j ==> cfg.jobs[i].fname != cfg.jobs[j].fname)
  }

  lemma InTrashBin(t: Stamp, path: Path, op: Op)
    requires t.Valid()
    ensures PREFIX <= Name(t, path, op)
  {
  }

  lemma NamesAreDistinct(cfg: Config, times: seq<Stamp>)
    requires NamedAt(cfg, times) && DistinctSources(cfg)
    ensures DistinctPaths(cfg)
  {
    forall i, j | IsMoveId(cfg, i) && IsMoveId(cfg, j)
      ensures cfg.jobs[i].fname != cfg.jobs[j].trash
      ensures i != j ==> cfg.jobs[i].trash != cfg.jobs[j].trash
    {
      InTrashBin(times[j], cfg.jobs[j].fname, Move);
      if cfg.jobs[i].trash == cfg.jobs[j].trash {
        MovesDiffer(times[i], cfg.jobs[i].fname, times[j], cfg.jobs[j].fname);
      }
    }
  }
}
