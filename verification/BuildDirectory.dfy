/**
  The bodies that run under the publication lock, on one mutable directory.
  Every method keeps a ghost trace of the moments between its file-system
  effects and shows that consecutive moments are steps of the protocol, so what
  the protocol keeps over all interleavings holds at every point where the
  running code may stop.  `faulty` lets any effect fail.
 */
module BuildDirectory {
  import opened Wrappers
  import opened PublicationModel
  import PublicationSafety

  datatype Moment = Moment(local: Local, files: Files)

  datatype PublishError =
    | MatchLock
    | CounterOverflow
    | AddressCollision(path: Path)
    | Io

  /** The move out of moment `i` is a protocol step. */
  ghost predicate StepAt(codec: Codec, trace: seq<Moment>, i: nat)
    requires i + 1 < |trace|
  {
    BodyStep(codec, trace[i].local, trace[i].files, trace[i + 1].local, trace[i + 1].files)
  }

  ghost predicate Chain(codec: Codec, trace: seq<Moment>) {
    forall i {:trigger StepAt(codec, trace, i)} :: 0 <= i < |trace| - 1 ==> StepAt(codec, trace, i)
  }

  lemma ChainGrows(codec: Codec, trace: seq<Moment>, moment: Moment)
    requires trace != [] && Chain(codec, trace)
    requires BodyStep(codec, trace[|trace| - 1].local, trace[|trace| - 1].files, moment.local, moment.files)
    ensures Chain(codec, trace + [moment])
  {
    forall i | 0 <= i < |trace| ensures StepAt(codec, trace + [moment], i) {
      if i < |trace| - 1 {
        assert StepAt(codec, trace, i);
      }
    }
  }

  /* ---- what a publication and a pruning amount to ---- */

  ghost function WithArtifacts(files: Files, snapshot: Snapshot, count: nat): Files
    requires count <= |snapshot|
  {
    if count == 0 then files
    else WithArtifacts(files, snapshot, count - 1)[ArtifactPath(snapshot[count - 1]) := snapshot[count - 1].serialized]
  }

  ghost function NewArtifacts(files: Files, snapshot: Snapshot, count: nat): seq<Path>
    requires count <= |snapshot|
  {
    if count == 0 then []
    else
      NewArtifacts(files, snapshot, count - 1) +
      if ArtifactPath(snapshot[count - 1]) in WithArtifacts(files, snapshot, count - 1) then []
      else [ArtifactPath(snapshot[count - 1])]
  }

  /** The artifact's address holds another text. */
  ghost predicate Occupied(files: Files, artifact: Artifact) {
    ArtifactPath(artifact) in files && files[ArtifactPath(artifact)] != artifact.serialized
  }

  /** The artifact at `i` finds its address taken once the earlier ones are stored. */
  ghost predicate CollidesAt(files: Files, snapshot: Snapshot, i: nat)
    requires i < |snapshot|
  {
    Occupied(WithArtifacts(files, snapshot, i), snapshot[i])
  }

  /** None of the first `count` artifacts collides. */
  ghost predicate Clear(files: Files, snapshot: Snapshot, count: nat)
    requires count <= |snapshot|
  {
    count == 0 || (Clear(files, snapshot, count - 1) && !CollidesAt(files, snapshot, count - 1))
  }

  ghost predicate Collides(files: Files, snapshot: Snapshot) {
    exists i :: 0 <= i < |snapshot| && CollidesAt(files, snapshot, i)
  }

  lemma {:induction false} ClearAt(files: Files, snapshot: Snapshot, count: nat, i: nat)
    requires i < count <= |snapshot| && Clear(files, snapshot, count)
    ensures !CollidesAt(files, snapshot, i)
  {
    if i < count - 1 {
      ClearAt(files, snapshot, count - 1, i);
    }
  }

  lemma {:induction false} NoCollisionIsClear(files: Files, snapshot: Snapshot, count: nat)
    requires count <= |snapshot| && !Collides(files, snapshot)
    ensures Clear(files, snapshot, count)
  {
    if count > 0 {
      NoCollisionIsClear(files, snapshot, count - 1);
    }
  }

  ghost function AfterPublication(codec: Codec, files: Files, ctx: Context): Files {
    WithArtifacts(files, ctx.snapshot, |ctx.snapshot|)
      [GenerationManifest(ctx.generationId) := ManifestText(codec, ctx)]
      [Pointer := ManifestText(codec, ctx)]
  }

  /** No temporary file carries this process's name. */
  ghost predicate NoLeftovers(files: Files, writer: nat) {
    forall path :: path in files && path.Temporary? ==> path.writer != writer
  }

  function ReadRetained(codec: Codec, files: Files, ids: seq<GenerationId>): Option<set<Path>> {
    if ids == [] then Some({})
    else
      var rest := ReadRetained(codec, files, ids[..|ids| - 1]);
      var path := GenerationManifest(ids[|ids| - 1]);
      if rest.None? || path !in files then None
      else
        match codec.decode(files[path])
        case None => None
        case Some(manifest) => Some(rest.value + ListedPaths(manifest))
  }

  ghost predicate Removable(published: Published, retained: set<Path>, path: Path) {
    Prunable(published, path) || Unretained(retained, path)
  }

  ghost function AfterPruning(files: Files, published: Published, retained: set<Path>): Files {
    map path | path in files && !Removable(published, retained, path) :: files[path]
  }

  /* ---- the directory ---- */

  /** Filling a temporary sibling and renaming it is writing the target. */
  lemma Renamed(before: Files, after: Files, temp: Path, path: Path, content: Text)
    requires temp !in before && temp != path && after == (before[temp := ""][temp := content] - {temp})[path := content]
    ensures after == before[path := content]
  {
  }

  class BuildDirectory {
    var files: Files
    ghost var trace: seq<Moment>

    /** The trace ends now and each of its moments follows from the one before. */
    ghost predicate Follows(codec: Codec)
      reads this
    {
      && trace != []
      && trace[|trace| - 1].files == files
      && Chain(codec, trace)
    }

    ghost function Now(): Local
      reads this
      requires trace != []
    {
      trace[|trace| - 1].local
    }

    ghost method Enter(codec: Codec, local: Local)
      modifies this`trace
      ensures Follows(codec) && trace == [Moment(local, files)]
    {
      trace := [Moment(local, files)];
    }

    /** Records that the effect just performed was the step to `local`. */
    ghost method Advance(codec: Codec, local: Local)
      requires trace != [] && Chain(codec, trace)
      requires BodyStep(codec, Now(), trace[|trace| - 1].files, local, files)
      modifies this`trace
      ensures Follows(codec) && trace == old(trace) + [Moment(local, files)]
    {
      ChainGrows(codec, trace, Moment(local, files));
      trace := trace + [Moment(local, files)];
    }

    /** Opens the temporary sibling; one that exists already is refused, and removed like any failed write's. */
    method Open(codec: Codec, ghost ctx: Context, ghost target: Target, path: Path, temp: Path, faulty: bool)
      returns (ok: bool)
      requires Follows(codec) && Now() == Store(ctx, target) && ValidTarget(ctx, target)
      requires path == TargetPath(ctx, target) && temp.Temporary? && temp.target == path
      modifies this
      ensures Follows(codec) && old(trace) < trace
      ensures ok ==> Now() == Filling(ctx, target, temp) && files == old(files)[temp := ""]
      ensures !ok ==> Now() == Failed
      ensures temp in old(files) ==> !ok
      ensures !faulty && temp !in old(files) ==> ok
    {
      ghost var before := files;
      var fault := *;
      ok := temp !in files && !(faulty && fault);
      files := if ok then files[temp := ""] else files - {temp};
      assert OpenedAs(ctx, target, Temporary(path, temp.writer, temp.unique), before,
                      if ok then Filling(ctx, target, temp) else Failed, files);
      Advance(codec, if ok then Filling(ctx, target, temp) else Failed);
    }

    method Fill(codec: Codec, ghost ctx: Context, ghost target: Target, content: Text, temp: Path, faulty: bool)
      returns (ok: bool)
      requires Follows(codec) && Now() == Filling(ctx, target, temp) && ValidTarget(ctx, target)
      requires content == TargetText(codec, ctx, target)
      modifies this
      ensures Follows(codec) && old(trace) < trace
      ensures ok ==> Now() == Renaming(ctx, target, temp) && files == old(files)[temp := content]
      ensures !ok ==> Now() == Failed
      ensures !faulty ==> ok
    {
      var fault := *;
      ok := !(faulty && fault);
      files := if ok then files[temp := content] else files - {temp};
      Advance(codec, if ok then Renaming(ctx, target, temp) else Failed);
    }

    method Promote(codec: Codec, ghost ctx: Context, ghost target: Target, path: Path, temp: Path, faulty: bool)
      returns (ok: bool)
      requires Follows(codec) && Now() == Renaming(ctx, target, temp) && ValidTarget(ctx, target)
      requires path == TargetPath(ctx, target) && temp in files
      modifies this
      ensures Follows(codec) && old(trace) < trace
      ensures ok ==> Now() == Syncing(ctx, target) && files == (old(files) - {temp})[path := old(files)[temp]]
      ensures !ok ==> Now() == Failed
      ensures !faulty ==> ok
    {
      var fault := *;
      ok := !(faulty && fault);
      files := if ok then (files - {temp})[path := files[temp]] else files - {temp};
      Advance(codec, if ok then Syncing(ctx, target) else Failed);
    }

    method Settle(codec: Codec, ghost ctx: Context, ghost target: Target, faulty: bool) returns (ok: bool)
      requires Follows(codec) && Now() == Syncing(ctx, target)
      modifies this`trace
      ensures Follows(codec) && old(trace) < trace
      ensures Now() == if ok then After(codec, ctx, target) else Failed
      ensures !faulty ==> ok
    {
      var fault := *;
      ok := !(faulty && fault);
      Advance(codec, if ok then After(codec, ctx, target) else Failed);
    }

    /** Writes the target to a fresh temporary sibling and renames it into place. */
    method AtomicWrite(codec: Codec, ghost ctx: Context, ghost target: Target, path: Path, content: Text, writer: nat,
                       unique: nat, faulty: bool)
      returns (ok: bool)
      requires Follows(codec) && Now() == Store(ctx, target)
      requires ValidTarget(ctx, target) && path == TargetPath(ctx, target) && content == TargetText(codec, ctx, target)
      modifies this
      ensures Follows(codec) && old(trace) < trace
      ensures ok ==> Now() == After(codec, ctx, target) && files == old(files)[path := content]
      ensures !ok ==> Now() == Failed
      ensures !faulty ==> (ok <==> Temporary(path, writer, unique) !in old(files))
    {
      ghost var before := files;
      var temp := Temporary(path, writer, unique);
      ok := Open(codec, ctx, target, path, temp, faulty);
      if !ok { return; }
      ok := Fill(codec, ctx, target, content, temp, faulty);
      if !ok { return; }
      ok := Promote(codec, ctx, target, path, temp, faulty);
      if !ok { return; }
      Renamed(before, files, temp, path, content);
      ok := Settle(codec, ctx, target, faulty);
    }

    /** Every immutable manifest id on disk. */
    method GenerationIdsOnDisk() returns (ids: seq<GenerationId>)
      ensures forall id :: id in ids <==> GenerationManifest(id) in files
    {
      ids := [];
      var entries := files.Keys;
      ghost var seen: set<Path> := {};
      while entries != {}
        invariant seen + entries == files.Keys
        invariant forall id :: id in ids <==> GenerationManifest(id) in seen
        decreases entries
      {
        var entry :| entry in entries;
        if entry.GenerationManifest? {
          ids := ids + [entry.id];
        }
        entries := entries - {entry};
        seen := seen + {entry};
      }
    }

    /** One more than the largest id known from disk or from the pointer. */
    method NextGeneration(predecessor: Option<GenerationId>) returns (next: nat)
      ensures Allocates(KnownIds(files, predecessor), next)
    {
      var ids := GenerationIdsOnDisk();
      if predecessor.Some? {
        ids := ids + [predecessor.value];
      }
      GenerationIdsExact(files);
      assert forall id :: id in ids <==> id in KnownIds(files, predecessor);
      var largest: nat := 0;
      for i := 0 to |ids|
        invariant forall k :: 0 <= k < i ==> ids[k] <= largest
        invariant largest == 0 || largest in ids
      {
        if ids[i] > largest {
          largest := ids[i];
        }
      }
      next := largest + 1;
    }

    /** Examines one artifact and writes it when its path is free. */
    method StoreArtifact(codec: Codec, ghost ctx: Context, ghost index: nat, artifact: Artifact, writer: nat,
                         unique: nat, faulty: bool)
      returns (problem: Option<PublishError>, wrote: bool)
      requires Follows(codec) && Now() == Examine(ctx, index)
      requires index < |ctx.snapshot| && ctx.snapshot[index] == artifact
      modifies this
      ensures Follows(codec) && old(trace) < trace
      ensures problem.None? ==>
        && Now() == Examine(ctx, index + 1)
        && files == old(files)[ArtifactPath(artifact) := artifact.serialized]
        && (wrote <==> ArtifactPath(artifact) !in old(files))
        && !Occupied(old(files), artifact)
      ensures problem.Some? ==>
                Now() == Failed && (problem == Some(Io) || problem == Some(AddressCollision(ArtifactPath(artifact))))
      ensures problem.Some? && problem != Some(Io) ==> Occupied(old(files), artifact)
      ensures !faulty && old(NoLeftovers(files, writer)) ==> problem != Some(Io)
    {
      var path := ArtifactPath(artifact);
      var fault := *;
      wrote := false;
      if (faulty && fault) || (path in files && files[path] != artifact.serialized) {
        Advance(codec, Failed);
        return Some(if faulty && fault then Io else AddressCollision(path)), false;
      }
      if path in files {
        assert files == files[path := artifact.serialized];
        Advance(codec, Examine(ctx, index + 1));
        return None, false;
      }
      Advance(codec, Store(ctx, ArtifactAt(index)));
      wrote := AtomicWrite(codec, ctx, ArtifactAt(index), path, artifact.serialized, writer, unique, faulty);
      problem := if wrote then None else Some(Io);
    }

    /** Writes every artifact that is not on disk yet; stops at a taken address. */
    method StoreArtifacts(codec: Codec, ghost ctx: Context, snapshot: Snapshot, writer: nat, faulty: bool)
      returns (problem: Option<PublishError>, written: seq<Path>)
      requires Follows(codec) && Now() == Examine(ctx, 0) && ctx.snapshot == snapshot
      modifies this
      ensures Follows(codec) && old(trace) <= trace
      ensures problem.Some? ==> Now() == Failed && (problem.value == Io || problem.value.AddressCollision?)
      ensures problem.None? ==>
        && Now() == Examine(ctx, |snapshot|)
        && !Collides(old(files), snapshot)
        && files == WithArtifacts(old(files), snapshot, |snapshot|)
        && written == NewArtifacts(old(files), snapshot, |snapshot|)
        && (old(NoLeftovers(files, writer)) ==> NoLeftovers(files, writer))
      ensures problem.Some? && problem.value.AddressCollision? ==>
                CollisionAmong(old(files), snapshot, problem.value.path)
      ensures !faulty && old(NoLeftovers(files, writer)) ==> problem != Some(Io)
    {
      problem, written := None, [];
      for i := 0 to |snapshot|
        invariant problem.None?
        invariant Follows(codec) && Now() == Examine(ctx, i) && old(trace) <= trace
        invariant files == WithArtifacts(old(files), snapshot, i)
        invariant written == NewArtifacts(old(files), snapshot, i)
        invariant Clear(old(files), snapshot, i)
        invariant old(NoLeftovers(files, writer)) ==> NoLeftovers(files, writer)
      {
        ghost var before := files;
        var wrote;
        problem, wrote := StoreArtifact(codec, ctx, i, snapshot[i], writer, i, faulty);
        NewArtifactsStep(old(files), before, snapshot, i);
        if problem.Some? {
          return;
        }
        written := written + if wrote then [ArtifactPath(snapshot[i])] else [];
      }
      forall i | 0 <= i < |snapshot| ensures !CollidesAt(old(files), snapshot, i) {
        ClearAt(old(files), snapshot, |snapshot|, i);
      }
    }

    /** Writes the immutable manifest and then the pointer. */
    method Commit(codec: Codec, ghost ctx: Context, serialized: Text, generationId: GenerationId, writer: nat,
                  unique: nat, faulty: bool)
      returns (ok: bool)
      requires Follows(codec) && Now() == Examine(ctx, |ctx.snapshot|)
      requires generationId == ctx.generationId && serialized == ManifestText(codec, ctx)
      requires GenerationManifest(generationId) !in files
      modifies this
      ensures Follows(codec) && old(trace) <= trace
      ensures ok ==> Now() == Returned(PublishedBy(codec, ctx))
      ensures ok ==> files == old(files)[GenerationManifest(generationId) := serialized][Pointer := serialized]
      ensures !ok ==> Now() == Failed
      ensures !faulty && old(NoLeftovers(files, writer)) ==> ok
    {
      Advance(codec, Store(ctx, ManifestCopy));
      ok := AtomicWrite(codec, ctx, ManifestCopy, GenerationManifest(generationId), serialized, writer, unique, faulty);
      if ok {
        ok := AtomicWrite(codec, ctx, PointerCopy, Pointer, serialized, writer, unique + 1, faulty);
      }
    }

    /** Reads the pointer, scans the ids on disk and allocates the next one. */
    method Reserve(codec: Codec, snapshot: Snapshot, faulty: bool) returns (r: Result<GenerationId, PublishError>)
      requires Follows(codec) && Now() == Reconcile(snapshot)
      modifies this`trace
      ensures Follows(codec) && old(trace) < trace
      ensures match r
              case Err(error) =>
                && Now() == Failed && (error == Io ==> faulty) && (error == Io || error == CounterOverflow)
                && (error == CounterOverflow ==> Allocates(KnownIds(files, PointerGeneration(codec, files)), U64_LIMIT))
              case Ok(id) =>
                && Now() == Examine(Context(snapshot, PointerGeneration(codec, files), id), 0)
                && Allocates(KnownIds(files, PointerGeneration(codec, files)), id) && GenerationManifest(id) !in files
    {
      Advance(codec, ReadPointer(snapshot));
      var predecessor := PointerGeneration(codec, files);
      Advance(codec, Scan(snapshot, predecessor));
      var fault := *;
      if faulty && fault {
        Advance(codec, Failed);
        return Err(Io);
      }
      var next := NextGeneration(predecessor);
      AllocationIsUnique(KnownIds(files, predecessor), next);
      if next >= U64_LIMIT {
        Advance(codec, Failed);
        return Err(CounterOverflow);
      }
      assert GenerationManifest(next) in files ==> next in GenerationIds(files);
      Advance(codec, Examine(Context(snapshot, predecessor, next), 0));
      return Ok(next);
    }

    method Publish(codec: Codec, snapshot: Snapshot, reconciled: bool, writer: nat, faulty: bool)
      returns (outcome: Result<Published, PublishError>, written: seq<Path>)
      modifies this
      ensures Follows(codec)
      ensures trace[0] == Moment(Reconcile(snapshot), old(files))
      ensures outcome.Ok? ==> Now() == Returned(outcome.value)
      ensures outcome.Err? ==> Now() == Failed
      ensures outcome.Ok? ==>
        var predecessor := PointerGeneration(codec, old(files));
        var ctx := Context(snapshot, predecessor, outcome.value.generationId);
        && !Collides(old(files), snapshot)
        && Allocates(KnownIds(old(files), predecessor), outcome.value.generationId)
        && outcome.value == PublishedBy(codec, ctx)
        && files == AfterPublication(codec, old(files), ctx)
        && written == NewArtifacts(old(files), snapshot, |snapshot|) + [GenerationManifest(ctx.generationId)]
      ensures outcome == Err(MatchLock) <==> !reconciled
      ensures outcome.Err? && outcome.error.AddressCollision? ==>
                CollisionAmong(old(files), snapshot, outcome.error.path)
      ensures outcome == Err(CounterOverflow) ==>
        Allocates(KnownIds(old(files), PointerGeneration(codec, old(files))), U64_LIMIT)
      ensures !faulty && old(NoLeftovers(files, writer)) ==> outcome != Err(Io)
    {
      written := [];
      Enter(codec, Reconcile(snapshot));
      if !reconciled {
        Advance(codec, Failed);
        return Err(MatchLock), written;
      }
      var next := Reserve(codec, snapshot, faulty);
      if next.Err? {
        return Err(next.error), written;
      }
      var predecessor := PointerGeneration(codec, files);
      ghost var ctx := Context(snapshot, predecessor, next.value);
      ghost var before := files;
      var problem;
      problem, written := StoreArtifacts(codec, ctx, snapshot, writer, faulty);
      if problem.Some? {
        return Err(problem.value), written;
      }
      ArtifactsOnly(before, snapshot, |snapshot|, GenerationManifest(next.value));
      var serialized := codec.encode(ManifestFor(snapshot, next.value));
      var ok := Commit(codec, ctx, serialized, next.value, writer, |snapshot|, faulty);
      if !ok {
        return Err(Io), written;
      }
      written := written + [GenerationManifest(next.value)];
      return Ok(Published(next.value, serialized, predecessor)), written;
    }

    /** The artifact paths listed by the generations to keep; nothing when one of them is unreadable. */
    method CollectRetained(codec: Codec, published: Published, faulty: bool) returns (retained: Option<set<Path>>)
      requires Follows(codec) && Now() == Retain(published, RetainedIds(published), {})
      modifies this`trace
      ensures Follows(codec) && old(trace) <= trace
      ensures retained.Some? ==> Now() == DropManifests(published, retained.value)
      ensures retained.None? ==> Now() == Pruned
      ensures retained.Some? ==> retained == ReadRetained(codec, files, RetainedIds(published))
      ensures !faulty ==> retained == ReadRetained(codec, files, RetainedIds(published))
    {
      var ids := RetainedIds(published);
      var paths: set<Path> := {};
      for i := 0 to |ids|
        invariant Follows(codec) && Now() == Retain(published, ids[i..], paths) && old(trace) <= trace
        invariant ReadRetained(codec, files, ids[..i]) == Some(paths)
      {
        assert ids[..i + 1][..i] == ids[..i] && ids[i..][1..] == ids[i + 1..];
        var path := GenerationManifest(ids[i]);
        var fault := *;
        if path !in files || codec.decode(files[path]).None? || (faulty && fault) {
          UnreadableStays(codec, files, ids, i + 1);
          Advance(codec, Pruned);
          return None;
        }
        paths := paths + ListedPaths(codec.decode(files[path]).value);
        Advance(codec, Retain(published, ids[i + 1..], paths));
      }
      assert ids[..|ids|] == ids && ids[|ids|..] == [];
      Advance(codec, DropManifests(published, paths));
      return Some(paths);
    }

    /** Removes one file as a step of the protocol. */
    method Drop(codec: Codec, path: Path, published: Published, retained: set<Path>)
      requires Follows(codec)
      requires || (Now() == DropManifests(published, retained) && Prunable(published, path))
               || (Now() == DropArtifacts(published, retained) && Unretained(retained, path))
      modifies this
      ensures Follows(codec) && old(trace) <= trace && Now() == old(Now()) && files == old(files) - {path}
    {
      files := files - {path};
      Advance(codec, Now());
    }

    method DropStaleManifests(codec: Codec, published: Published, retained: set<Path>, faulty: bool)
      requires Follows(codec) && Now() == DropManifests(published, retained)
      modifies this
      ensures Follows(codec) && Now() == DropManifests(published, retained) && old(trace) <= trace
      ensures Kept(old(files), files, published, retained)
      ensures forall path :: path in old(files) && !path.GenerationManifest? ==> path in files
      ensures !faulty ==> forall path :: path in files ==> !Prunable(published, path)
    {
      var ids := GenerationIdsOnDisk();
      for i := 0 to |ids|
        invariant Follows(codec) && Now() == DropManifests(published, retained) && old(trace) <= trace
        invariant Kept(old(files), files, published, retained)
        invariant forall path :: path in old(files) && !path.GenerationManifest? ==> path in files
        invariant !faulty ==> forall k :: 0 <= k < i && Prunable(published, GenerationManifest(ids[k])) ==>
                    GenerationManifest(ids[k]) !in files
      {
        var path := GenerationManifest(ids[i]);
        var fault := *;
        if Prunable(published, path) && !(faulty && fault) {
          Drop(codec, path, published, retained);
        }
      }
      forall path | !faulty && path in files ensures !Prunable(published, path) {
        if path.GenerationManifest? {
          assert path.id in ids;
        }
      }
    }

    method DropStaleArtifacts(codec: Codec, published: Published, retained: set<Path>, faulty: bool)
      requires Follows(codec) && Now() == DropArtifacts(published, retained)
      modifies this
      ensures Follows(codec) && Now() == DropArtifacts(published, retained) && old(trace) <= trace
      ensures Kept(old(files), files, published, retained)
      ensures !faulty ==> forall path :: path in files ==> !Unretained(retained, path)
    {
      var entries := files.Keys;
      while entries != {}
        invariant Follows(codec) && Now() == DropArtifacts(published, retained) && old(trace) <= trace
        invariant Kept(old(files), files, published, retained)
        invariant !faulty ==> forall path :: path in files && Unretained(retained, path) ==> path in entries
        decreases entries
      {
        var entry :| entry in entries;
        var fault := *;
        if Unretained(retained, entry) && !(faulty && fault) {
          Drop(codec, entry, published, retained);
        }
        entries := entries - {entry};
      }
    }

    /** Removes stale manifests first and stale artifacts second. */
    method DropStale(codec: Codec, published: Published, retained: set<Path>, faulty: bool)
      requires Follows(codec) && Now() == DropManifests(published, retained)
      modifies this
      ensures Follows(codec) && Now() == Pruned && old(trace) <= trace
      ensures Kept(old(files), files, published, retained)
      ensures !faulty ==> files == AfterPruning(old(files), published, retained)
    {
      ghost var before := files;
      DropStaleManifests(codec, published, retained, faulty);
      ghost var between := files;
      Advance(codec, DropArtifacts(published, retained));
      DropStaleArtifacts(codec, published, retained, faulty);
      Advance(codec, Pruned);
      KeptTwice(before, between, files, published, retained);
    }

    /** Removes what neither the published generation nor its predecessor lists. */
    method Prune(codec: Codec, published: Published, faulty: bool) returns (completed: bool)
      modifies this
      ensures Follows(codec)
      ensures trace[0] == Moment(CheckPointer(published), old(files))
      ensures Now() == Pruned
      ensures !completed ==> files == old(files)
      ensures completed ==>
        var retained := ReadRetained(codec, old(files), RetainedIds(published));
        && PointerGeneration(codec, old(files)) == Some(published.generationId)
        && retained.Some?
        && Kept(old(files), files, published, retained.value)
        && (!faulty ==> files == AfterPruning(old(files), published, retained.value))
      ensures !completed && !faulty ==>
        || PointerGeneration(codec, old(files)) != Some(published.generationId)
        || ReadRetained(codec, old(files), RetainedIds(published)).None?
    {
      Enter(codec, CheckPointer(published));
      if PointerGeneration(codec, files) != Some(published.generationId) {
        Advance(codec, Pruned);
        return false;
      }
      Advance(codec, Retain(published, RetainedIds(published), {}));
      var retained := CollectRetained(codec, published, faulty);
      if retained.None? {
        return false;
      }
      DropStale(codec, published, retained.value, faulty);
      return true;
    }
  }

  lemma KeptTwice(before: Files, between: Files, files: Files, published: Published, retained: set<Path>)
    requires Kept(before, between, published, retained) && Kept(between, files, published, retained)
    ensures Kept(before, files, published, retained)
    ensures (forall path :: path in files ==> !Removable(published, retained, path)) ==>
              files == AfterPruning(before, published, retained)
  {
  }

  ghost predicate CollisionAmong(files: Files, snapshot: Snapshot, path: Path) {
    exists i :: 0 <= i < |snapshot| && path == ArtifactPath(snapshot[i]) && CollidesAt(files, snapshot, i)
  }

  lemma NewArtifactsStep(files: Files, before: Files, snapshot: Snapshot, i: nat)
    requires i < |snapshot| && before == WithArtifacts(files, snapshot, i)
    ensures NewArtifacts(files, snapshot, i + 1) ==
            NewArtifacts(files, snapshot, i) + if ArtifactPath(snapshot[i]) in before then []
        else [ArtifactPath(snapshot[i])]
    ensures CollidesAt(files, snapshot, i) <==> Occupied(before, snapshot[i])
    ensures WithArtifacts(files, snapshot, i + 1) == before[ArtifactPath(snapshot[i]) := snapshot[i].serialized]
  {
  }

  lemma {:induction false} ArtifactsOnly(files: Files, snapshot: Snapshot, count: nat, path: Path)
    requires count <= |snapshot| && !path.ArtifactFile?
    ensures path in WithArtifacts(files, snapshot, count) <==> path in files
  {
    if count > 0 {
      ArtifactsOnly(files, snapshot, count - 1, path);
    }
  }

  ghost predicate Kept(before: Files, files: Files, published: Published, retained: set<Path>) {
    && (forall path :: path in files ==> path in before && files[path] == before[path])
    && (forall path :: path in before && !Removable(published, retained, path) ==> path in files)
  }

  lemma {:induction false} UnreadableStays(codec: Codec, files: Files, ids: seq<GenerationId>, i: nat)
    requires i <= |ids|
    ensures ReadRetained(codec, files, ids[..i]).None? ==> ReadRetained(codec, files, ids).None?
    decreases |ids| - i
  {
    if i < |ids| {
      assert ids[..i + 1][..i] == ids[..i];
      UnreadableStays(codec, files, ids, i + 1);
    } else {
      assert ids[..i] == ids;
    }
  }

  lemma GenerationIdsExact(files: Files)
    ensures forall id: GenerationId :: id in GenerationIds(files) <==> GenerationManifest(id) in files
  {
    forall id: GenerationId | GenerationManifest(id) in files ensures id in GenerationIds(files) {
      assert GenerationManifest(id).GenerationManifest?;
    }
  }

  lemma AllocationIsUnique(ids: set<GenerationId>, next: nat)
    requires Allocates(ids, next)
    ensures forall other: nat :: Allocates(ids, other) ==> other == next
    ensures next <= U64_LIMIT && next !in ids
  {
    forall other: nat | Allocates(ids, other) ensures other == next {
      if other > 1 { assert other - 1 in ids; }
      if next > 1 { assert next - 1 in ids; }
    }
  }

  /* ---- the running code is the protocol ---- */

  /** The system once process `pid` has performed the first `n` steps of the trace. */
  ghost function Lift(s: System, pid: nat, trace: seq<Moment>, n: nat): System
    requires n < |trace| && pid in s.processes
    ensures pid in Lift(s, pid, trace, n).processes
  {
    if n == 0 then s
    else
      var before := Lift(s, pid, trace, n - 1);
      var l, l' := trace[n - 1].local, trace[n].local;
      before.(
        files := trace[n].files,
        processes := before.processes[pid := Holding(l')],
        commits := if Commits(l, l') then before.commits + [l.ctx] else before.commits,
        returned := if l'.Returned? then before.returned + {l'.published} else before.returned)
  }

  lemma {:induction false} LiftIsStep(codec: Codec, s: System, pid: nat, trace: seq<Moment>, n: nat)
    requires n < |trace| && Chain(codec, trace)
    requires pid in s.processes && s.processes[pid] == Holding(trace[0].local) && s.files == trace[0].files
    ensures Lift(s, pid, trace, n).processes[pid] == Holding(trace[n].local)
    ensures Lift(s, pid, trace, n).files == trace[n].files
    ensures n > 0 ==> Next(codec, Lift(s, pid, trace, n - 1), Lift(s, pid, trace, n))
  {
    if n > 0 {
      LiftIsStep(codec, s, pid, trace, n - 1);
      var before, after := Lift(s, pid, trace, n - 1), Lift(s, pid, trace, n);
      assert StepAt(codec, trace, n - 1);
      assert RunsTo(codec, before, after, pid, trace[n].local);
      assert NextBy(codec, before, after, Run(pid));
    }
  }

  /**
    A run in which the lock holder performs a traced body next is a run of the protocol,
    so every moment of the body is safe.
   */
  lemma TracedBodyIsSafe(codec: Codec, run: seq<System>, pid: nat, trace: seq<Moment>, n: nat)
    requires Faithful(codec) && IsRun(codec, run) && Chain(codec, trace) && n < |trace|
    requires var s := run[|run| - 1];
             pid in s.processes && s.processes[pid] == Holding(trace[0].local) && s.files == trace[0].files
    ensures var s' := Lift(run[|run| - 1], pid, trace, n);
            s'.files == trace[n].files && PublicationSafety.Safe(codec, s')
  {
    var s := run[|run| - 1];
    var extended := run[..|run| - 1] + seq(n + 1, i requires 0 <= i <= n => Lift(s, pid, trace, i));
    LiftIsStep(codec, s, pid, trace, n);
    forall i | 0 <= i < |extended| - 1 ensures Next(codec, extended[i], extended[i + 1]) {
      if i >= |run| - 1 {
        LiftIsStep(codec, s, pid, trace, i - (|run| - 1) + 1);
      } else {
        assert Next(codec, run[i], run[i + 1]);
        assert extended[i] == run[i] && extended[i + 1] == run[i + 1];
      }
    }
    PublicationSafety.PublicationIsSafe(codec, extended, |extended| - 1);
  }

  /* ---- what one call means for the next ---- */

  lemma ArtifactAdded(files: Files, before: Files, after: Files, snapshot: Snapshot, n: nat, artifact: Artifact)
    requires n < |snapshot| && artifact == snapshot[n] && !Occupied(before, artifact)
    requires after == before[ArtifactPath(artifact) := artifact.serialized]
    requires (forall path :: path in files ==> path in before && before[path] == files[path])
    requires PublicationSafety.ArtifactsStored(before, snapshot, n)
    ensures forall path :: path in files ==> path in after && after[path] == files[path]
    ensures PublicationSafety.ArtifactsStored(after, snapshot, n + 1)
  {
  }

  lemma {:induction false} ArtifactsAdded(files: Files, snapshot: Snapshot, count: nat)
    requires count <= |snapshot| && Clear(files, snapshot, count)
    ensures var after := WithArtifacts(files, snapshot, count);
            && (forall path :: path in files ==> path in after && after[path] == files[path])
            && PublicationSafety.ArtifactsStored(after, snapshot, count)
  {
    if count > 0 {
      ArtifactsAdded(files, snapshot, count - 1);
      ArtifactAdded(files, WithArtifacts(files, snapshot, count - 1), WithArtifacts(files, snapshot, count), snapshot,
                    count - 1, snapshot[count - 1]);
    }
  }

  /** A publication becomes current, is complete, and changes no existing file except the pointer. */
  lemma PublicationOnlyAdds(codec: Codec, files: Files, ctx: Context)
    requires Faithful(codec) && Coherent(codec, ctx.snapshot) && !Collides(files, ctx.snapshot)
    requires GenerationManifest(ctx.generationId) !in files
    ensures var after := AfterPublication(codec, files, ctx);
            && PointerGeneration(codec, after) == Some(ctx.generationId)
            && PublicationSafety.Intact(codec, after, ctx.generationId)
            && forall path :: path in files && path != Pointer ==> path in after && after[path] == files[path]
  {
    NoCollisionIsClear(files, ctx.snapshot, |ctx.snapshot|);
    ArtifactsAdded(files, ctx.snapshot, |ctx.snapshot|);
    ArtifactsOnly(files, ctx.snapshot, |ctx.snapshot|, GenerationManifest(ctx.generationId));
    var after := AfterPublication(codec, files, ctx);
    assert codec.decode(codec.encode(ManifestFor(ctx.snapshot, ctx.generationId))) ==
             Some(ManifestFor(ctx.snapshot, ctx.generationId));
    assert PublicationSafety.GenerationStored(codec, after, ctx);
    PublicationSafety.StoredIsIntact(codec, after, ctx);
  }

  /**
    After any pruning for the current generation `g`, complete or cut short: the
    next id is past `g` and past every id left on disk, one past `g` or the largest
    of those, and it was on disk before exactly when its manifest is among the
    files that the pruning removed.
   */
  lemma PartialPruningFreesIds(files: Files, after: Files, published: Published, retained: set<Path>, next: nat)
    requires GenerationManifest(published.generationId) in files && Kept(files, after, published, retained)
    requires Allocates(KnownIds(after, Some(published.generationId)), next)
    ensures next > published.generationId && forall id: GenerationId :: GenerationManifest(id) in after ==> id < next
    ensures next == published.generationId + 1 || GenerationManifest(next - 1) in after
    ensures next in GenerationIds(files) <==>
              next < U64_LIMIT && GenerationManifest(next) in files && GenerationManifest(next) !in after
  {
    var g := published.generationId;
    GenerationIdsExact(files);
    GenerationIdsExact(after);
    assert g in KnownIds(after, Some(g));
    assert next - 1 in KnownIds(after, Some(g));
    forall id: GenerationId | GenerationManifest(id) in after ensures id < next {
      assert id in KnownIds(after, Some(g));
    }
  }

  /**
    What pruning does to the next id.  Without it the allocated id has no manifest
    on disk.  After a complete pruning for the current generation `g` the next id
    is always `g + 1`: an id that was on disk exactly when the manifest of `g + 1`
    was, and another id than without pruning exactly when some id above `g` was.
   */
  lemma PruningFreesStrandedIds(files: Files, published: Published, retained: set<Path>, unpruned: nat, next: nat)
    requires GenerationManifest(published.generationId) in files
    requires published.predecessor.Some? ==> published.predecessor.value < published.generationId
    requires Allocates(KnownIds(files, Some(published.generationId)), unpruned)
    requires Allocates(KnownIds(AfterPruning(files, published, retained), Some(published.generationId)), next)
    ensures unpruned !in GenerationIds(files)
    ensures next == published.generationId + 1
    ensures next in GenerationIds(files) <==>
              published.generationId + 1 < U64_LIMIT && GenerationManifest(published.generationId + 1) in files
    ensures next != unpruned <==>
              exists id: GenerationId :: id > published.generationId && GenerationManifest(id) in files
  {
    var g := published.generationId;
    var successor: int := published.generationId as int + 1;
    var after := AfterPruning(files, published, retained);
    GenerationIdsExact(files);
    GenerationIdsExact(after);
    assert g in KnownIds(after, Some(g)) && g in KnownIds(files, Some(g));
    assert Allocates(KnownIds(after, Some(g)), successor) by {
      forall id | id in KnownIds(after, Some(g)) ensures id < successor {
        assert id == g || GenerationManifest(id) in after;
        assert id == g || !Prunable(published, GenerationManifest(id));
      }
    }
    AllocationIsUnique(KnownIds(after, Some(g)), next);
    AllocationIsUnique(KnownIds(files, Some(g)), unpruned);
    if unpruned != successor {
      assert unpruned - 1 in KnownIds(files, Some(g));
    }
  }
}
