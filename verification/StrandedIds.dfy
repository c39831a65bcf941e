/**
  Stranded ids: a publisher that stops after its immutable manifest leaves an id
  on disk that was never committed.  Pruning may remove that manifest, and then
  a later publisher allocates and commits the same id.
 */
module StrandedIds {
  import opened BuildDirectory
  import opened PublicationModel
  import opened Wrappers

  /* ---- making runs ---- */

  function Last(run: seq<System>): System
    requires run != []
  {
    run[|run| - 1]
  }

  lemma StepRun(codec: Codec, run: seq<System>, s: System, event: Event) returns (longer: seq<System>)
    requires IsRun(codec, run) && NextBy(codec, Last(run), s, event)
    ensures IsRun(codec, longer) && run < longer && Last(longer) == s
  {
    longer := run + [s];
    forall i | 0 <= i < |longer| - 1 ensures Next(codec, longer[i], longer[i + 1]) {
      if i < |run| - 1 {
        assert Next(codec, run[i], run[i + 1]);
      } else {
        assert NextBy(codec, longer[i], longer[i + 1], event);
      }
    }
  }

  /** The process `pid` alone at work. */
  function Working(s: System, pid: nat, local: Local, files: Files): System {
    s.(files := files, processes := map[pid := Holding(local)], holder := Some(pid))
  }

  /** Nobody at work. */
  function Resting(s: System, files: Files): System {
    s.(files := files, processes := map[], holder := None)
  }

  /** One step of the process at work. */
  lemma BodyRun(codec: Codec, run: seq<System>, s: System, pid: nat, l: Local, f: Files, l': Local, f': Files)
    returns (longer: seq<System>)
    requires IsRun(codec, run) && Last(run) == Working(s, pid, l, f) && BodyStep(codec, l, f, l', f')
    ensures IsRun(codec, longer) && run < longer
    ensures Last(longer) == Working(s, pid, l', f').(
              commits := if Commits(l, l') then s.commits + [l.ctx] else s.commits,
              returned := if l'.Returned? then s.returned + {l'.published} else s.returned)
  {
    var next := Working(s, pid, l', f').(
      commits := if Commits(l, l') then s.commits + [l.ctx] else s.commits,
      returned := if l'.Returned? then s.returned + {l'.published} else s.returned);
    assert map[pid := Holding(l)][pid := Holding(l')] == map[pid := Holding(l')];
    assert RunsTo(codec, Last(run), next, pid, l');
    longer := StepRun(codec, run, next, Run(pid));
  }

  /** Somebody starts a job and takes the free lock. */
  lemma EnterRun(codec: Codec, run: seq<System>, s: System, pid: nat, job: Job) returns (longer: seq<System>)
    requires IsRun(codec, run) && Last(run) == s && s == Resting(s, s.files)
    requires job.Publish? ==> Coherent(codec, job.snapshot)
    requires job.Prune? ==> job.published in s.returned
    ensures IsRun(codec, longer) && run < longer && Last(longer) == Working(s, pid, EntryPoint(job), s.files)
  {
    var waiting := s.(processes := map[][pid := Waiting(job)]);
    longer := StepRun(codec, run, waiting, Start(pid, job));
    assert map[pid := Waiting(job)][pid := Holding(EntryPoint(job))] == map[pid := Holding(EntryPoint(job))];
    longer := StepRun(codec, longer, Working(s, pid, EntryPoint(job), s.files), Acquire(pid));
  }

  /** The process at work ends or crashes. */
  lemma LeaveRun(codec: Codec, run: seq<System>, s: System, pid: nat, l: Local, f: Files) returns (longer: seq<System>)
    requires IsRun(codec, run) && Last(run) == Working(s, pid, l, f)
    ensures IsRun(codec, longer) && run < longer && Last(longer) == Resting(s, f)
  {
    assert map[pid := Holding(l)] - {pid} == map[];
    longer := StepRun(codec, run, Resting(s, f), Crash(pid));
  }

  /* ---- publishing the empty snapshot ---- */

  function Sibling(path: Path): Path {
    Temporary(path, 0, 0)
  }

  /** Nothing stands in the way of publishing with this id. */
  ghost predicate Free(codec: Codec, files: Files, ctx: Context) {
    && ctx.snapshot == [] && PointerGeneration(codec, files) == ctx.predecessor
    && Allocates(KnownIds(files, ctx.predecessor), ctx.generationId)
    && Sibling(GenerationManifest(ctx.generationId)) !in files && Sibling(Pointer) !in files
  }

  /** A resting system up to a publisher about to write its manifest. */
  lemma AllocationRun(codec: Codec, run: seq<System>, s: System, pid: nat, ctx: Context) returns (longer: seq<System>)
    requires IsRun(codec, run) && Last(run) == s && s == Resting(s, s.files) && Free(codec, s.files, ctx)
    ensures IsRun(codec, longer) && run < longer && Last(longer) == Working(s, pid, Store(ctx, ManifestCopy), s.files)
  {
    AllocationIsUnique(KnownIds(s.files, ctx.predecessor), ctx.generationId);
    GenerationIdsExact(s.files);
    longer := EnterRun(codec, run, s, pid, Publish([]));
    longer := BodyRun(codec, longer, s, pid, Reconcile([]), s.files, ReadPointer([]), s.files);
    longer := BodyRun(codec, longer, s, pid, ReadPointer([]), s.files, Scan([], ctx.predecessor), s.files);
    longer := BodyRun(codec, longer, s, pid, Scan([], ctx.predecessor), s.files, Examine(ctx, 0), s.files);
    longer := BodyRun(codec, longer, s, pid, Examine(ctx, 0), s.files, Store(ctx, ManifestCopy), s.files);
  }

  /** An atomic write up to the rename, which is still to come. */
  lemma WriteRun(codec: Codec, run: seq<System>, s: System, pid: nat, ctx: Context, target: Target, f: Files,
                 temp: Path) returns (longer: seq<System>)
    requires IsRun(codec, run) && Last(run) == Working(s, pid, Store(ctx, target), f)
    requires ValidTarget(ctx, target) && temp == Sibling(TargetPath(ctx, target)) && temp !in f
    ensures IsRun(codec, longer) && run < longer
    ensures Last(longer) == Working(s, pid, Renaming(ctx, target, temp), f[temp := TargetText(codec, ctx, target)])
  {
    var text := TargetText(codec, ctx, target);
    assert OpenedAs(ctx, target, Temporary(TargetPath(ctx, target), 0, 0), f, Filling(ctx, target, temp),
                    f[temp := ""]);
    longer := BodyRun(codec, run, s, pid, Store(ctx, target), f, Filling(ctx, target, temp), f[temp := ""]);
    assert f[temp := ""][temp := text] == f[temp := text];
    longer :=
        BodyRun(codec, longer, s, pid, Filling(ctx, target, temp), f[temp := ""], Renaming(ctx, target, temp),
                f[temp := text]);
  }

  /** The rename puts the text in place; over the pointer it commits. */
  lemma PlaceRun(codec: Codec, run: seq<System>, s: System, pid: nat, ctx: Context, target: Target, f: Files,
                 temp: Path) returns (longer: seq<System>)
    requires ValidTarget(ctx, target) && temp == Sibling(TargetPath(ctx, target)) && temp !in f
    requires IsRun(codec, run)
             && Last(run) == Working(s, pid, Renaming(ctx, target, temp), f[temp := TargetText(codec, ctx, target)])
    ensures IsRun(codec, longer) && run < longer
    ensures Last(longer) ==
              Working(s, pid, Syncing(ctx, target), f[TargetPath(ctx, target) := TargetText(codec, ctx, target)]).(
              commits := if target.PointerCopy? then s.commits + [ctx] else s.commits)
  {
    var path, text := TargetPath(ctx, target), TargetText(codec, ctx, target);
    var before := f[temp := text];
    assert (before - {temp})[path := before[temp]] == f[path := text];
    longer := BodyRun(codec, run, s, pid, Renaming(ctx, target, temp), before, Syncing(ctx, target), f[path := text]);
  }

  /** A publisher with its manifest in place, and nothing committed yet. */
  lemma ManifestRun(codec: Codec, run: seq<System>, s: System, pid: nat, ctx: Context) returns (longer: seq<System>)
    requires IsRun(codec, run) && Last(run) == s && s == Resting(s, s.files) && Free(codec, s.files, ctx)
    ensures IsRun(codec, longer) && run < longer
    ensures Last(longer) ==
              Working(s, pid, Syncing(ctx, ManifestCopy),
                      s.files[GenerationManifest(ctx.generationId) := ManifestText(codec, ctx)])
  {
    var temp := Sibling(GenerationManifest(ctx.generationId));
    longer := AllocationRun(codec, run, s, pid, ctx);
    longer := WriteRun(codec, longer, s, pid, ctx, ManifestCopy, s.files, temp);
    longer := PlaceRun(codec, longer, s, pid, ctx, ManifestCopy, s.files, temp);
  }

  function PublishedFiles(files: Files, codec: Codec, ctx: Context): Files {
    files[GenerationManifest(ctx.generationId) := ManifestText(codec, ctx)][Pointer := ManifestText(codec, ctx)]
  }

  /** A whole publication, back to rest. */
  lemma PublicationRun(codec: Codec, run: seq<System>, s: System, pid: nat, ctx: Context) returns (longer: seq<System>)
    requires IsRun(codec, run) && Last(run) == s && s == Resting(s, s.files) && Free(codec, s.files, ctx)
    ensures IsRun(codec, longer) && run < longer
    ensures Last(longer) == Resting(s, PublishedFiles(s.files, codec, ctx)).(
              commits := s.commits + [ctx], returned := s.returned + {PublishedBy(codec, ctx)})
  {
    var f := s.files[GenerationManifest(ctx.generationId) := ManifestText(codec, ctx)];
    var f' := f[Pointer := ManifestText(codec, ctx)];
    longer := ManifestRun(codec, run, s, pid, ctx);
    longer := BodyRun(codec, longer, s, pid, Syncing(ctx, ManifestCopy), f, Store(ctx, PointerCopy), f);
    longer := WriteRun(codec, longer, s, pid, ctx, PointerCopy, f, Sibling(Pointer));
    longer := PlaceRun(codec, longer, s, pid, ctx, PointerCopy, f, Sibling(Pointer));
    var t := s.(commits := s.commits + [ctx]);
    longer := BodyRun(codec, longer, t, pid, Syncing(ctx, PointerCopy), f', Returned(PublishedBy(codec, ctx)), f');
    longer :=
        LeaveRun(codec, longer, t.(returned := s.returned + {PublishedBy(codec, ctx)}), pid,
                 Returned(PublishedBy(codec, ctx)), f');
  }

  /* ---- pruning a stranded manifest ---- */

  /** A pruner of a first generation removes one prunable manifest and ends. */
  lemma PruningRun(codec: Codec, run: seq<System>, s: System, pid: nat, published: Published, path: Path)
    returns (longer: seq<System>)
    requires IsRun(codec, run) && Last(run) == s && s == Resting(s, s.files) && published in s.returned
             && published.predecessor.None?
    requires PointerGeneration(codec, s.files) == Some(published.generationId) && Prunable(published, path)
    requires GenerationManifest(published.generationId) in s.files
             && codec.decode(s.files[GenerationManifest(published.generationId)]).Some?
    ensures IsRun(codec, longer) && run < longer && Last(longer) == Resting(s, s.files - {path})
  {
    var g := published.generationId;
    var retained := {} + ListedPaths(codec.decode(s.files[GenerationManifest(g)]).value);
    var f := s.files;
    longer := EnterRun(codec, run, s, pid, Prune(published));
    longer := BodyRun(codec, longer, s, pid, CheckPointer(published), f, Retain(published, [g], {}), f);
    longer := BodyRun(codec, longer, s, pid, Retain(published, [g], {}), f, Retain(published, [], retained), f);
    longer := BodyRun(codec, longer, s, pid, Retain(published, [], retained), f, DropManifests(published, retained), f);
    longer :=
        BodyRun(codec, longer, s, pid, DropManifests(published, retained), f, DropManifests(published, retained),
                f - {path});
    longer := BodyRun(codec, longer, s, pid, DropManifests(published, retained), f - {path}, Pruned, f - {path});
    longer := LeaveRun(codec, longer, s, pid, Pruned, f - {path});
  }

  /* ---- the run ---- */

  /** An id stranded by a crash is on disk without a commit, is pruned, and is committed after all. */
  lemma StrandedIdCommitted(codec: Codec) returns (run: seq<System>, stranded: nat, pruned: nat)
    requires Faithful(codec)
    ensures IsRun(codec, run) && stranded < pruned < |run| - 1
    ensures GenerationManifest(2) in run[stranded].files && GenerationManifest(2) !in run[pruned].files
    ensures run[stranded].processes == map[] && |run[stranded].commits| == 1
            && run[stranded].commits[0].generationId == 1
    ensures run[pruned].commits == run[stranded].commits
    ensures |Last(run).commits| == 2 && Last(run).commits[1].generationId == 2
  {
    var first, second := Context([], None, 1), Context([], Some(1), 2);
    var s := System(map[], map[], None, [], {});
    assert GenerationIds(map[]) == {};
    run := PublicationRun(codec, [s], s, 0, first);
    var a := Last(run);
    FirstPublished(codec, first);
    run := ManifestRun(codec, run, a, 1, second);
    var left := a.files[GenerationManifest(2) := ManifestText(codec, second)];
    run := LeaveRun(codec, run, a, 1, Syncing(second, ManifestCopy), left);
    var b := Last(run);
    stranded := |run| - 1;
    run := PruningRun(codec, run, b, 2, PublishedBy(codec, first), GenerationManifest(2));
    var c := Last(run);
    pruned := |run| - 1;
    assert c.files == a.files;
    run := PublicationRun(codec, run, c, 3, second);
  }

  lemma FirstPublished(codec: Codec, first: Context)
    requires Faithful(codec) && first == Context([], None, 1)
    ensures var files := PublishedFiles(map[], codec, first);
            && Free(codec, files, Context([], Some(1), 2))
            && PointerGeneration(codec, files) == Some(1)
  {
    var files := PublishedFiles(map[], codec, first);
    var manifest := ManifestFor([], 1);
    assert codec.decode(codec.encode(manifest)) == Some(manifest);
    GenerationIdsExact(files);
    assert GenerationIds(files) == {1};
  }
}
