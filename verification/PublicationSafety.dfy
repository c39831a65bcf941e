/**
  Safety of publication over every interleaving of publishers, pruners, crashes
  and pointer damage: the pointer always names a complete immutable generation,
  its recorded predecessor stays complete too, and committed ids only grow.
 */
module PublicationSafety {
  import opened Wrappers
  import opened PublicationModel

  /* ---- what a complete generation is ---- */

  ghost predicate ArtifactsStored(files: Files, snapshot: Snapshot, count: nat)
    requires count <= |snapshot|
  {
    forall i :: 0 <= i < count ==>
      ArtifactPath(snapshot[i]) in files && files[ArtifactPath(snapshot[i])] == snapshot[i].serialized
  }

  ghost predicate GenerationStored(codec: Codec, files: Files, ctx: Context) {
    && GenerationManifest(ctx.generationId) in files
    && files[GenerationManifest(ctx.generationId)] == ManifestText(codec, ctx)
    && ArtifactsStored(files, ctx.snapshot, |ctx.snapshot|)
  }

  /** Generation `id` is on disk, readable, and every listed artifact hashes to its listed hash. */
  ghost predicate Intact(codec: Codec, files: Files, id: GenerationId) {
    && GenerationManifest(id) in files
    && var decoded := codec.decode(files[GenerationManifest(id)]);
    && decoded.Some?
    && decoded.value.generationId == id
    && forall entry :: entry in Listed(decoded.value) ==>
         entry.path in files && codec.sha(files[entry.path]) == entry.hash
  }

  ghost predicate Safe(codec: Codec, s: System) {
    PointerGeneration(codec, s.files).Some? ==>
      var current := PointerGeneration(codec, s.files).value;
      && s.commits != []
      && var last := s.commits[|s.commits| - 1];
      && current == last.generationId
      && Intact(codec, s.files, current)
      && s.files[GenerationManifest(current)] == s.files[Pointer]
      && (last.predecessor.Some? ==> Intact(codec, s.files, last.predecessor.value))
  }

  /* ---- manifests list exactly the snapshot ---- */

  lemma {:induction false} EntriesExact(snapshot: Snapshot, family: Family, entry: ManifestEntry)
    ensures entry in EntriesOf(snapshot, family) <==>
            exists i :: 0 <= i < |snapshot| && snapshot[i].family == family && EntryFor(snapshot[i]) == entry
  {
    if snapshot != [] {
      var n := |snapshot| - 1;
      EntriesExact(snapshot[..n], family, entry);
      if i :| 0 <= i < |snapshot| && snapshot[i].family == family && EntryFor(snapshot[i]) == entry {
        assert i < n ==> snapshot[..n][i] == snapshot[i];
      }
      if entry in EntriesOf(snapshot[..n], family) {
        var i :| 0 <= i < n && snapshot[..n][i].family == family && EntryFor(snapshot[..n][i]) == entry;
        assert snapshot[i] == snapshot[..n][i];
      }
    }
  }

  lemma ManifestListsSnapshot(snapshot: Snapshot, id: GenerationId, entry: ManifestEntry)
    ensures entry in Listed(ManifestFor(snapshot, id)) <==>
            exists i :: 0 <= i < |snapshot| && EntryFor(snapshot[i]) == entry
  {
    EntriesExact(snapshot, Operation, entry);
    EntriesExact(snapshot, Fragment, entry);
    if i :| 0 <= i < |snapshot| && EntryFor(snapshot[i]) == entry {
      assert snapshot[i].family == Operation || snapshot[i].family == Fragment;
    }
  }

  ghost function SnapshotPaths(snapshot: Snapshot): set<Path> {
    set i | 0 <= i < |snapshot| :: ArtifactPath(snapshot[i])
  }

  lemma ListedPathsExact(snapshot: Snapshot, id: GenerationId)
    ensures ListedPaths(ManifestFor(snapshot, id)) == SnapshotPaths(snapshot)
  {
    var manifest := ManifestFor(snapshot, id);
    forall path | path in ListedPaths(manifest) ensures path in SnapshotPaths(snapshot) {
      var entry :| entry in Listed(manifest) && entry.path == path;
      ManifestListsSnapshot(snapshot, id, entry);
    }
    forall path | path in SnapshotPaths(snapshot) ensures path in ListedPaths(manifest) {
      var i :| 0 <= i < |snapshot| && ArtifactPath(snapshot[i]) == path;
      ManifestListsSnapshot(snapshot, id, EntryFor(snapshot[i]));
    }
  }

  lemma StoredIsIntact(codec: Codec, files: Files, ctx: Context)
    requires Faithful(codec) && Coherent(codec, ctx.snapshot) && GenerationStored(codec, files, ctx)
    ensures Intact(codec, files, ctx.generationId)
  {
    var manifest := ManifestFor(ctx.snapshot, ctx.generationId);
    assert codec.decode(codec.encode(manifest)) == Some(manifest);
    forall entry | entry in Listed(manifest)
      ensures entry.path in files && codec.sha(files[entry.path]) == entry.hash
    {
      ManifestListsSnapshot(ctx.snapshot, ctx.generationId, entry);
    }
  }

  /* ---- the invariant ---- */

  ghost predicate Ascending(commits: seq<Context>) {
    forall i, j :: 0 <= i < j < |commits| ==> commits[i].generationId < commits[j].generationId
  }

  /** The newest commit and the predecessor it recorded are complete. */
  ghost predicate NewestStored(codec: Codec, files: Files, commits: seq<Context>) {
    commits != [] ==>
      var last := commits[|commits| - 1];
      && GenerationStored(codec, files, last)
      && (last.predecessor.Some? ==>
            && |commits| >= 2
            && commits[|commits| - 2].generationId == last.predecessor.value
            && GenerationStored(codec, files, commits[|commits| - 2]))
  }

  /** A committed manifest that is still on disk still has its committed text. */
  ghost predicate Immutable(codec: Codec, files: Files, commits: seq<Context>) {
    forall i :: 0 <= i < |commits| && GenerationManifest(commits[i].generationId) in files ==>
      files[GenerationManifest(commits[i].generationId)] == ManifestText(codec, commits[i])
  }

  ghost predicate PointerCurrent(codec: Codec, files: Files, commits: seq<Context>) {
    PointerGeneration(codec, files).Some? ==>
      commits != [] && files[Pointer] == ManifestText(codec, commits[|commits| - 1])
  }

  ghost predicate Recorded(codec: Codec, commits: seq<Context>, published: Published) {
    exists i :: 0 <= i < |commits| && published == PublishedBy(codec, commits[i])
  }

  ghost predicate DiskInv(codec: Codec, files: Files, commits: seq<Context>) {
    && Ascending(commits)
    && (forall i :: 0 <= i < |commits| ==> Coherent(codec, commits[i].snapshot))
    && NewestStored(codec, files, commits)
    && Immutable(codec, files, commits)
    && PointerCurrent(codec, files, commits)
  }

  ghost predicate PredecessorIsNewest(predecessor: Option<GenerationId>, commits: seq<Context>) {
    predecessor.Some? ==> commits != [] && commits[|commits| - 1].generationId == predecessor.value
  }

  /** The allocated id is above every committed one. */
  ghost predicate Fresh(codec: Codec, ctx: Context, commits: seq<Context>) {
    && Coherent(codec, ctx.snapshot)
    && PredecessorIsNewest(ctx.predecessor, commits)
    && forall i :: 0 <= i < |commits| ==> commits[i].generationId < ctx.generationId
  }

  ghost predicate IsNewest(codec: Codec, published: Published, commits: seq<Context>) {
    commits != [] && published == PublishedBy(codec, commits[|commits| - 1])
  }

  ghost predicate SparesNewest(commits: seq<Context>, retained: set<Path>)
    requires commits != []
  {
    var last := commits[|commits| - 1];
    && SnapshotPaths(last.snapshot) <= retained
    && (last.predecessor.Some? && |commits| >= 2 ==> SnapshotPaths(commits[|commits| - 2].snapshot) <= retained)
  }

  /** Everything an atomic write of `target` relies on before it starts. */
  ghost predicate ReadyFor(codec: Codec, files: Files, ctx: Context, target: Target) {
    && ValidTarget(ctx, target)
    && match target
       case ArtifactAt(i) =>
         && ArtifactsStored(files, ctx.snapshot, i)
         && ArtifactPath(ctx.snapshot[i]) !in files
         && GenerationManifest(ctx.generationId) !in files
       case ManifestCopy =>
         && ArtifactsStored(files, ctx.snapshot, |ctx.snapshot|)
         && GenerationManifest(ctx.generationId) !in files
       case PointerCopy => GenerationStored(codec, files, ctx)
  }

  ghost predicate Written(codec: Codec, files: Files, commits: seq<Context>, ctx: Context, target: Target) {
    && ValidTarget(ctx, target)
    && match target
       case ArtifactAt(i) =>
         && Fresh(codec, ctx, commits)
         && ArtifactsStored(files, ctx.snapshot, i + 1)
         && GenerationManifest(ctx.generationId) !in files
       case ManifestCopy => Fresh(codec, ctx, commits) && GenerationStored(codec, files, ctx)
       case PointerCopy => commits != [] && commits[|commits| - 1] == ctx
  }

  ghost predicate RetainInv(codec: Codec, commits: seq<Context>, published: Published, pending: seq<GenerationId>,
                            retained: set<Path>)
  {
    && IsNewest(codec, published, commits)
    && (pending == RetainedIds(published) ||
        (&& SnapshotPaths(commits[|commits| - 1].snapshot) <= retained
         && (pending == RetainedIds(published)[1..] || (pending == [] && SparesNewest(commits, retained)))))
  }

  ghost predicate LocalInv(codec: Codec, files: Files, commits: seq<Context>, l: Local) {
    match l
    case Reconcile(snapshot) => Coherent(codec, snapshot)
    case ReadPointer(snapshot) => Coherent(codec, snapshot)
    case Scan(snapshot, predecessor) => Coherent(codec, snapshot) && PredecessorIsNewest(predecessor, commits)
    case Examine(ctx, i) =>
      && Fresh(codec, ctx, commits)
      && i <= |ctx.snapshot| && ArtifactsStored(files, ctx.snapshot, i)
      && GenerationManifest(ctx.generationId) !in files
    case Store(ctx, target) => Fresh(codec, ctx, commits) && ReadyFor(codec, files, ctx, target)
    case Filling(ctx, target, temp) =>
        Fresh(codec, ctx, commits) && ReadyFor(codec, files, ctx, target) && temp.Temporary?
    case Renaming(ctx, target, temp) =>
      && Fresh(codec, ctx, commits) && ReadyFor(codec, files, ctx, target) && temp.Temporary?
      && temp in files && files[temp] == TargetText(codec, ctx, target)
    case Syncing(ctx, target) => Written(codec, files, commits, ctx, target)
    case CheckPointer(published) => Recorded(codec, commits, published)
    case Retain(published, pending, retained) => RetainInv(codec, commits, published, pending, retained)
    case DropManifests(published, retained) => IsNewest(codec, published, commits) && SparesNewest(commits, retained)
    case DropArtifacts(published, retained) => IsNewest(codec, published, commits) && SparesNewest(commits, retained)
    case Returned(published) => Recorded(codec, commits, published)
    case Failed => true
    case Pruned => true
  }

  ghost predicate Inv(codec: Codec, s: System) {
    && DiskInv(codec, s.files, s.commits)
    && (forall published :: published in s.returned ==> Recorded(codec, s.commits, published))
    && (forall pid :: pid in s.processes && s.processes[pid].Waiting? ==>
          match s.processes[pid].job
          case Publish(snapshot) => Coherent(codec, snapshot)
          case Prune(published) => Recorded(codec, s.commits, published))
    && (forall pid :: pid in s.processes ==> (s.processes[pid].Holding? <==> s.holder == Some(pid)))
    && (s.holder.Some? ==> s.holder.value in s.processes)
    && (forall pid :: pid in s.processes && s.processes[pid].Holding? ==>
          LocalInv(codec, s.files, s.commits, s.processes[pid].local))
  }

  /* ---- one step of the lock holder ---- */

  /** Opening, filling and abandoning a temporary file touch nothing the invariant speaks of. */
  lemma TemporaryFrame(codec: Codec, files: Files, files': Files, temp: Path, commits: seq<Context>)
    requires temp.Temporary?
    requires forall path :: path != temp ==> (path in files' <==> path in files)
    requires forall path :: path != temp && path in files ==> files'[path] == files[path]
    requires DiskInv(codec, files, commits)
    ensures DiskInv(codec, files', commits)
    ensures forall ctx, target :: ReadyFor(codec, files, ctx, target) ==> ReadyFor(codec, files', ctx, target)
  {
  }

  /** A rename that puts a new artifact or a new manifest on disk. */
  lemma NewFileFrame(codec: Codec, files: Files, files': Files, temp: Path, path: Path, text: Text,
                     commits: seq<Context>)
    requires temp.Temporary? && path != Pointer && !path.Temporary? && path !in files
    requires path.GenerationManifest? ==> forall i :: 0 <= i < |commits| ==> commits[i].generationId != path.id
    requires files' == (files - {temp})[path := text]
    requires DiskInv(codec, files, commits)
    ensures DiskInv(codec, files', commits)
  {
  }

  lemma CommitStep(codec: Codec, files: Files, files': Files, temp: Path, ctx: Context, commits: seq<Context>)
    requires Faithful(codec) && temp.Temporary?
    requires DiskInv(codec, files, commits) && Fresh(codec, ctx, commits) && GenerationStored(codec, files, ctx)
    requires files' == (files - {temp})[Pointer := ManifestText(codec, ctx)]
    ensures DiskInv(codec, files', commits + [ctx])
  {
    var commits' := commits + [ctx];
    assert GenerationStored(codec, files', ctx);
    if ctx.predecessor.Some? {
      assert commits'[|commits'| - 2] == commits[|commits| - 1];
    }
  }

  lemma PlacingKeeps(codec: Codec, l: Local, files: Files, l': Local, files': Files, commits: seq<Context>)
    requires Faithful(codec) && l.Renaming? && !l.target.PointerCopy?
    requires DiskInv(codec, files, commits) && LocalInv(codec, files, commits, l)
    requires RenameStep(l, files, l', files') && l' != Failed
    ensures DiskInv(codec, files', commits) && LocalInv(codec, files', commits, l')
  {
    NewFileFrame(codec, files, files', l.temp, TargetPath(l.ctx, l.target), files[l.temp], commits);
  }

  lemma CommittingKeeps(codec: Codec, l: Local, files: Files, l': Local, files': Files, commits: seq<Context>)
    requires Faithful(codec) && l.Renaming? && l.target.PointerCopy?
    requires DiskInv(codec, files, commits) && LocalInv(codec, files, commits, l)
    requires RenameStep(l, files, l', files') && l' != Failed
    ensures DiskInv(codec, files', commits + [l.ctx]) && LocalInv(codec, files', commits + [l.ctx], l')
  {
    CommitStep(codec, files, files', l.temp, l.ctx, commits);
  }

  lemma RenameKeeps(codec: Codec, l: Local, files: Files, l': Local, files': Files, commits: seq<Context>)
    requires Faithful(codec) && l.Renaming?
    requires DiskInv(codec, files, commits) && LocalInv(codec, files, commits, l)
    requires RenameStep(l, files, l', files') && l' != Failed
    ensures var commits' := if Commits(l, l') then commits + [l.ctx] else commits;
            DiskInv(codec, files', commits') && LocalInv(codec, files', commits', l')
  {
    if l.target.PointerCopy? {
      CommittingKeeps(codec, l, files, l', files', commits);
    } else {
      PlacingKeeps(codec, l, files, l', files', commits);
    }
  }

  /** The id allocated from disk and pointer is above every committed id and not on disk. */
  lemma AllocationIsFresh(codec: Codec, files: Files, commits: seq<Context>, snapshot: Snapshot,
                          predecessor: Option<GenerationId>, id: GenerationId)
    requires DiskInv(codec, files, commits) && Coherent(codec, snapshot) && PredecessorIsNewest(predecessor, commits)
    requires Allocates(KnownIds(files, predecessor), id)
    ensures Fresh(codec, Context(snapshot, predecessor, id), commits)
    ensures GenerationManifest(id) !in files
  {
    if commits != [] {
      var last := commits[|commits| - 1];
      assert GenerationManifest(last.generationId) in files;
      assert last.generationId in GenerationIds(files);
    }
    assert GenerationManifest(id) in files ==> id in GenerationIds(files);
  }

  lemma RetainKeeps(codec: Codec, l: Local, files: Files, l': Local, commits: seq<Context>)
    requires Faithful(codec) && l.Retain?
    requires DiskInv(codec, files, commits) && LocalInv(codec, files, commits, l)
    requires RetainStep(codec, l, files, l')
    ensures LocalInv(codec, files, commits, l')
  {
    if l' != Pruned && l.pending != [] {
      var n := |commits|;
      var last := commits[n - 1];
      if l.pending == RetainedIds(l.published) {
        assert codec.decode(codec.encode(ManifestFor(last.snapshot, last.generationId))).Some?;
        ListedPathsExact(last.snapshot, last.generationId);
      } else {
        var previous := commits[n - 2];
        assert l.pending == [previous.generationId];
        assert codec.decode(codec.encode(ManifestFor(previous.snapshot, previous.generationId))).Some?;
        ListedPathsExact(previous.snapshot, previous.generationId);
      }
    }
  }

  /** Dropping a manifest other than the newest two, or an unretained artifact, keeps the disk sound. */
  lemma DropKeeps(codec: Codec, files: Files, path: Path, published: Published, retained: set<Path>,
                  commits: seq<Context>)
    requires DiskInv(codec, files, commits)
    requires IsNewest(codec, published, commits) && SparesNewest(commits, retained)
    requires Prunable(published, path) || Unretained(retained, path)
    ensures DiskInv(codec, files - {path}, commits)
  {
    var files' := files - {path};
    var last := commits[|commits| - 1];
    forall i | 0 <= i < |last.snapshot| ensures ArtifactPath(last.snapshot[i]) != path {
      assert ArtifactPath(last.snapshot[i]) in SnapshotPaths(last.snapshot);
    }
    assert GenerationStored(codec, files', last);
    if last.predecessor.Some? {
      var previous := commits[|commits| - 2];
      forall i | 0 <= i < |previous.snapshot| ensures ArtifactPath(previous.snapshot[i]) != path {
        assert ArtifactPath(previous.snapshot[i]) in SnapshotPaths(previous.snapshot);
      }
      assert GenerationStored(codec, files', previous);
    }
    assert PointerCurrent(codec, files', commits);
  }

  lemma NewestDecodes(codec: Codec, commits: seq<Context>)
    requires Faithful(codec) && commits != []
    ensures var last := commits[|commits| - 1];
            codec.decode(ManifestText(codec, last)) == Some(ManifestFor(last.snapshot, last.generationId))
  {
    var last := commits[|commits| - 1];
    assert codec.decode(codec.encode(ManifestFor(last.snapshot, last.generationId))) ==
             Some(ManifestFor(last.snapshot, last.generationId));
  }

  /** A pruner that finds its own generation in the pointer prunes for the newest commit. */
  lemma PointerNamesNewest(codec: Codec, files: Files, commits: seq<Context>, published: Published)
    requires Faithful(codec) && DiskInv(codec, files, commits) && Recorded(codec, commits, published)
    requires PointerGeneration(codec, files) == Some(published.generationId)
    ensures IsNewest(codec, published, commits)
  {
    NewestDecodes(codec, commits);
    var i :| 0 <= i < |commits| && published == PublishedBy(codec, commits[i]);
  }

  lemma ReadingKeeps(codec: Codec, l: Local, files: Files, l': Local, commits: seq<Context>)
    requires Faithful(codec)
             && (l.Reconcile? || l.ReadPointer? || l.Scan? || l.Examine? || l.Syncing? || l.CheckPointer?)
    requires DiskInv(codec, files, commits) && LocalInv(codec, files, commits, l)
    requires BodyStep(codec, l, files, l', files)
    ensures LocalInv(codec, files, commits, l')
  {
    match l
    case ReadPointer(snapshot) =>
      if PointerGeneration(codec, files).Some? {
        NewestDecodes(codec, commits);
      }
    case Scan(snapshot, predecessor) =>
      if l' != Failed {
        AllocationIsFresh(codec, files, commits, snapshot, predecessor, l'.ctx.generationId);
      }
    case Syncing(ctx, target) =>
      if l' != Failed && target.PointerCopy? {
        assert l'.published == PublishedBy(codec, commits[|commits| - 1]);
      }
    case CheckPointer(published) =>
      if l' != Pruned {
        PointerNamesNewest(codec, files, commits, published);
      }
    case _ =>
  }

  lemma WritingKeeps(codec: Codec, l: Local, files: Files, l': Local, files': Files, commits: seq<Context>)
    requires Faithful(codec) && (l.Store? || l.Filling? || l.Renaming?)
    requires DiskInv(codec, files, commits) && LocalInv(codec, files, commits, l)
    requires BodyStep(codec, l, files, l', files')
    ensures var commits' := if Commits(l, l') then commits + [l.ctx] else commits;
            DiskInv(codec, files', commits') && LocalInv(codec, files', commits', l')
  {
    if l.Renaming? && l' != Failed {
      RenameKeeps(codec, l, files, l', files', commits);
    } else {
      var temp: Path;
      if l.Store? {
        var writer, unique :|
          OpenedAs(l.ctx, l.target, Temporary(TargetPath(l.ctx, l.target), writer, unique), files, l', files');
        temp := Temporary(TargetPath(l.ctx, l.target), writer, unique);
      } else {
        temp := l.temp;
      }
      TemporaryFrame(codec, files, files', temp, commits);
    }
  }

  lemma DroppingKeeps(codec: Codec, l: Local, files: Files, l': Local, files': Files, commits: seq<Context>)
    requires l.DropManifests? || l.DropArtifacts?
    requires DiskInv(codec, files, commits) && LocalInv(codec, files, commits, l)
    requires BodyStep(codec, l, files, l', files')
    ensures DiskInv(codec, files', commits) && LocalInv(codec, files', commits, l')
  {
    if files' != files {
      var path :| (Prunable(l.published, path) || Unretained(l.retained, path)) && files' == files - {path};
      DropKeeps(codec, files, path, l.published, l.retained, commits);
    }
  }

  lemma BodyKeeps(codec: Codec, l: Local, files: Files, l': Local, files': Files, commits: seq<Context>)
    requires Faithful(codec)
    requires DiskInv(codec, files, commits) && LocalInv(codec, files, commits, l)
    requires BodyStep(codec, l, files, l', files')
    ensures var commits' := if Commits(l, l') then commits + [l.ctx] else commits;
            DiskInv(codec, files', commits') && LocalInv(codec, files', commits', l')
  {
    if l.Store? || l.Filling? || l.Renaming? {
      WritingKeeps(codec, l, files, l', files', commits);
    } else if l.DropManifests? || l.DropArtifacts? {
      DroppingKeeps(codec, l, files, l', files', commits);
    } else if l.Retain? {
      RetainKeeps(codec, l, files, l', commits);
    } else {
      ReadingKeeps(codec, l, files, l', commits);
    }
  }

  /* ---- one step of the system ---- */

  ghost predicate SameExceptPointer(files: Files, files': Files) {
    && (forall path :: path != Pointer ==> (path in files' <==> path in files))
    && (forall path :: path != Pointer && path in files ==> files'[path] == files[path])
  }

  /** Damage to the pointer leaves every statement about the other files standing. */
  lemma SpoilKeepsDisk(codec: Codec, files: Files, files': Files, commits: seq<Context>)
    requires DiskInv(codec, files, commits) && SameExceptPointer(files, files')
    requires PointerGeneration(codec, files').None?
    ensures DiskInv(codec, files', commits)
  {
  }

  lemma SpoilKeepsLocal(codec: Codec, files: Files, files': Files, commits: seq<Context>, l: Local)
    requires LocalInv(codec, files, commits, l) && SameExceptPointer(files, files')
    ensures LocalInv(codec, files', commits, l)
  {
    match l
    case Renaming(ctx, target, temp) =>
      assert temp in files';
      assert ReadyFor(codec, files', ctx, target);
    case _ =>
  }

  lemma SpoilKeeps(codec: Codec, s: System, s': System)
    requires Inv(codec, s) && NextBy(codec, s, s', SpoilPointer)
    ensures Inv(codec, s')
  {
    SpoilKeepsDisk(codec, s.files, s'.files, s.commits);
    forall pid | pid in s.processes && s.processes[pid].Holding?
      ensures LocalInv(codec, s'.files, s.commits, s.processes[pid].local)
    {
      SpoilKeepsLocal(codec, s.files, s'.files, s.commits, s.processes[pid].local);
    }
  }

  lemma RecordedGrows(codec: Codec, commits: seq<Context>, ctx: Context, published: Published)
    requires Recorded(codec, commits, published)
    ensures Recorded(codec, commits + [ctx], published)
  {
    var i :| 0 <= i < |commits| && published == PublishedBy(codec, commits[i]);
    assert (commits + [ctx])[i] == commits[i];
  }

  lemma RunKeeps(codec: Codec, s: System, s': System, pid: nat)
    requires Faithful(codec) && Inv(codec, s) && NextBy(codec, s, s', Run(pid))
    ensures Inv(codec, s')
  {
    var l' :| RunsTo(codec, s, s', pid, l');
    var l := s.processes[pid].local;
    BodyKeeps(codec, l, s.files, l', s'.files, s.commits);
    if Commits(l, l') {
      forall published | Recorded(codec, s.commits, published) ensures Recorded(codec, s'.commits, published) {
        RecordedGrows(codec, s.commits, l.ctx, published);
      }
    }
  }

  lemma StepKeeps(codec: Codec, s: System, s': System, event: Event)
    requires Faithful(codec) && Inv(codec, s) && NextBy(codec, s, s', event)
    ensures Inv(codec, s')
  {
    match event
    case Run(pid) => RunKeeps(codec, s, s', pid);
    case SpoilPointer => SpoilKeeps(codec, s, s');
    case _ =>
  }

  lemma {:induction false} RunInv(codec: Codec, run: seq<System>, i: nat)
    requires Faithful(codec) && IsRun(codec, run) && i < |run|
    ensures Inv(codec, run[i])
  {
    if i > 0 {
      RunInv(codec, run, i - 1);
      assert Next(codec, run[i - 1], run[i - 1 + 1]);
      var event :| NextBy(codec, run[i - 1], run[i], event);
      StepKeeps(codec, run[i - 1], run[i], event);
    }
  }

  /* ---- the theorems ---- */

  /**
    In every reachable state a readable pointer names a complete generation with identical
    bytes, and its recorded predecessor is complete.
   */
  lemma PublicationIsSafe(codec: Codec, run: seq<System>, i: nat)
    requires Faithful(codec) && IsRun(codec, run) && i < |run|
    ensures Safe(codec, run[i])
  {
    RunInv(codec, run, i);
    var s := run[i];
    if PointerGeneration(codec, s.files).Some? {
      var last := s.commits[|s.commits| - 1];
      NewestDecodes(codec, s.commits);
      StoredIsIntact(codec, s.files, last);
      if last.predecessor.Some? {
        StoredIsIntact(codec, s.files, s.commits[|s.commits| - 2]);
      }
    }
  }

  /** The newest committed generation is never damaged, whatever happens to the pointer. */
  lemma NewestGenerationSurvives(codec: Codec, run: seq<System>, i: nat)
    requires Faithful(codec) && IsRun(codec, run) && i < |run| && run[i].commits != []
    ensures Intact(codec, run[i].files, run[i].commits[|run[i].commits| - 1].generationId)
  {
    RunInv(codec, run, i);
    StoredIsIntact(codec, run[i].files, run[i].commits[|run[i].commits| - 1]);
  }

  lemma {:induction false} HistoryGrows(codec: Codec, run: seq<System>, i: nat, j: nat)
    requires IsRun(codec, run) && i <= j < |run|
    ensures run[i].commits <= run[j].commits
    decreases j
  {
    if i < j {
      HistoryGrows(codec, run, i, j - 1);
      assert Next(codec, run[j - 1], run[j - 1 + 1]);
    }
  }

  /** Committed ids strictly increase along every run; none is committed twice. */
  lemma CommittedIdsIncrease(codec: Codec, run: seq<System>, i: nat, j: nat)
    requires Faithful(codec) && IsRun(codec, run) && i <= j < |run|
    ensures run[i].commits <= run[j].commits
    ensures Ascending(run[j].commits)
  {
    HistoryGrows(codec, run, i, j);
    RunInv(codec, run, j);
  }

  /** While a committed manifest stays on disk, its bytes never change. */
  lemma ManifestsAreImmutable(codec: Codec, run: seq<System>, i: nat, j: nat, id: GenerationId, k: nat)
    requires Faithful(codec) && IsRun(codec, run) && i <= j < |run|
    requires k < |run[i].commits| && run[i].commits[k].generationId == id
    requires GenerationManifest(id) in run[i].files && GenerationManifest(id) in run[j].files
    ensures run[i].files[GenerationManifest(id)] == run[j].files[GenerationManifest(id)]
  {
    RunInv(codec, run, i);
    RunInv(codec, run, j);
    HistoryGrows(codec, run, i, j);
    assert run[j].commits[k] == run[i].commits[k];
  }
}
