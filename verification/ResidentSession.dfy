/**
  The daemon's requests on a resident session.  After every answered request the
  session holds what a cold load of the disk gives, or nothing when there is no
  such load.
 */
module ResidentSession {
  import opened DaemonSession
  import opened ProjectDocuments
  import opened WarmAgreement
  import opened Wrappers

  /** A compile answers for the documents it compiled, or replays the last answer. */
  datatype Response = InvalidPath | LoadFailed | Answer(documents: Documents, replayed: bool)

  /** The batch with every path normalized, or nothing when some path leaves the project. */
  function NormalizeAll(raw: seq<Path>): Option<seq<Path>> {
    if raw == [] then Some([])
    else
      match NormalizeAll(raw[..|raw| - 1])
      case None => None
      case Some(before) => match Normalize(raw[|raw| - 1]) case None => None case Some(p) => Some(before + [p])
  }

  lemma {:induction false} OnePathRejects(raw: seq<Path>, n: nat)
    requires n <= |raw| && NormalizeAll(raw[..n]).None?
    ensures NormalizeAll(raw).None?
  {
    if n == |raw| {
      assert raw[..n] == raw;
    } else {
      assert raw[..|raw| - 1][..n] == raw[..n];
      OnePathRejects(raw[..|raw| - 1], n);
    }
  }

  method NormalizeBatch(raw: seq<Path>) returns (paths: Option<seq<Path>>)
    ensures paths == NormalizeAll(raw)
  {
    var normalized: seq<Path> := [];
    for i := 0 to |raw|
      invariant NormalizeAll(raw[..i]) == Some(normalized)
    {
      assert raw[..i + 1][..i] == raw[..i];
      var p := Normalize(raw[i]);
      if p.None? {
        OnePathRejects(raw, i + 1);
        return None;
      }
      normalized := normalized + [p.value];
    }
    assert raw[..|raw|] == raw;
    return Some(normalized);
  }

  class Session {
    const env: Environment
    const excluded: seq<Path>
    var config: Config
    var bowl: Option<Documents>
    var last: Option<Documents>
    var lockHash: Option<string>

    constructor (env: Environment, excluded: seq<Path>, config: Config, lockHash: Option<string>)
      ensures Valid() && bowl == None && this.env == env && this.excluded == excluded
    {
      this.env, this.excluded, this.config, this.lockHash := env, excluded, config, lockHash;
      bowl, last := None, None;
    }

    /** A replayed answer is about the resident documents. */
    ghost predicate Valid()
      reads this
    {
      bowl.Some? && last.Some? ==> last == bowl
    }

    /** The session holds exactly what a cold load of the disk gives. */
    ghost predicate Agrees(disk: Disk)
      reads this
    {
      match bowl
      case Some(documents) => Loads(env, excluded, disk, Loaded(config, documents))
      case None => forall l :: !Loads(env, excluded, disk, l)
    }

    method Reload(disk: Disk) returns (ok: bool)
      requires TreeShaped(disk)
      modifies `config, `bowl
      ensures ok ==> bowl.Some? && Agrees(disk)
      ensures !ok ==> bowl == old(bowl) && config == old(config) && forall l :: !Loads(env, excluded, disk, l)
    {
      var loaded := LoadProject(env, excluded, disk);
      if loaded.None? {
        return false;
      }
      config, bowl := loaded.value.config, Some(loaded.value.documents);
      return true;
    }

    method Apply(plan: Plan, disk: Disk) returns (ok: bool)
      requires !plan.Rejected? && TreeShaped(disk)
      modifies `config, `bowl, `lockHash
      ensures lockHash == if LockOf(plan).Some? then LockOf(plan).value else old(lockHash)
      ensures plan.FullReload? && ok ==> bowl.Some? && Agrees(disk)
      ensures plan.FullReload? && !ok ==> forall l :: !Loads(env, excluded, disk, l)
      ensures !plan.FullReload? && old(bowl).Some? ==>
                ok && config == old(config) && bowl.Some?
                    && Updated(View(env, config, excluded, old(bowl).value, disk), UpsertsOf(plan), bowl.value)
      ensures plan.NoOp? || plan.MatchLockChanged? ==> ok && bowl == old(bowl)
    {
      if LockOf(plan).Some? {
        lockHash := LockOf(plan).value;
      }
      match plan {
        case Incremental(upserts, _) =>
          if bowl.None? {
            return false;
          }
          var after := UpsertAll(View(env, config, excluded, bowl.value, disk), upserts);
          bowl := Some(after);
          return true;
        case FullReload(_) => ok := Reload(disk);
        case _ => ok := true;
      }
    }

    /** A plan applied and compiled; a batch without effect replays the last answer. */
    method Serve(plan: Plan, disk: Disk, published: Option<Option<string>>) returns (r: Response)
      requires Valid() && TreeShaped(disk) && !plan.Rejected? && (bowl.None? ==> plan.FullReload?)
      modifies this
      ensures Valid() && !r.InvalidPath?
      ensures r.LoadFailed? ==> plan.FullReload? && bowl.None? && Agrees(disk)
      ensures r.Answer? ==> bowl == Some(r.documents) && last == bowl
      ensures r.Answer? && plan.FullReload? ==> Agrees(disk)
      ensures !plan.FullReload? ==>
                bowl.Some? && config == old(config)
                    && Updated(View(env, config, excluded, old(bowl).value, disk), UpsertsOf(plan), bowl.value)
      ensures r.Answer? && r.replayed <==> plan.NoOp? && old(last).Some?
    {
      if plan.NoOp? && last.Some? {
        return Answer(last.value, true);
      }
      var ok := Apply(plan, disk);
      if !ok {
        bowl := None;
        return LoadFailed;
      }
      last := bowl;
      if published.Some? {
        lockHash := published.value;
      }
      return Answer(bowl.value, false);
    }

    method Compile(disk: Disk, published: Option<Option<string>>) returns (r: Response)
      requires Valid() && TreeShaped(disk)
      modifies this
      ensures Valid() && Agrees(disk) && !r.InvalidPath?
      ensures r == match bowl case None => LoadFailed case Some(documents) => Answer(documents, false)
    {
      r := Serve(FullReload(None), disk, published);
    }

    /**
      A batch of changed paths.  A rejected batch changes nothing.  Otherwise the
      session agrees with a cold load of the disk, if it agreed before the
      changes and the batch names every change.
     */
    method FilesChanged(raw: seq<Path>, disk: Disk, published: Option<Option<string>>, ghost before: Disk)
      returns (r: Response)
      requires Valid() && TreeShaped(disk)
      modifies this
      ensures Valid()
      ensures r.InvalidPath? <==> old(bowl).Some? && NormalizeAll(raw).None?
      ensures r.InvalidPath? ==>
                bowl == old(bowl) && config == old(config) && last == old(last) && lockHash == old(lockHash)
      ensures r.LoadFailed? ==> bowl.None? && Agrees(disk)
      ensures r.Answer? ==> bowl == Some(r.documents) && last == bowl
      ensures !r.InvalidPath? && old(bowl).None? ==> Agrees(disk)
      ensures !r.InvalidPath? && old(bowl).Some? && old(Agrees(before)) && Named(before, disk, NormalizeAll(raw).value)
              && TwinsApart(env, old(config), excluded)
                 && LockApart(View(env, old(config), excluded, old(bowl).value, disk), before) ==>
                Agrees(disk)
    {
      if bowl.None? {
        r := Serve(FullReload(None), disk, published);
        return;
      }
      var paths := NormalizeBatch(raw);
      if paths.None? {
        return InvalidPath;
      }
      var v := View(env, config, excluded, bowl.value, disk);
      var plan := ClassifyBatch(v, lockHash, paths.value);
      r := Serve(plan, disk, published);
      if !plan.FullReload? && old(Agrees(before)) && Named(before, disk, paths.value)
          && TwinsApart(env, v.config, excluded) && LockApart(v, before) {
        WarmIsCold(v, before, paths.value, UpsertsOf(plan), bowl.value);
      }
    }
  }

  /** Edits that left a disk, and the batch that reports them. */
  datatype Edit = Edit(disk: Disk, raw: seq<Path>, published: Option<Option<string>>)

  /** Any project that loads from the disk keeps its groups and the match lock apart. */
  ghost predicate Tame(env: Environment, excluded: seq<Path>, disk: Disk) {
    && TreeShaped(disk) && LOCK_FILE !in disk.directories
    && forall l :: Loads(env, excluded, disk, l) ==>
         TwinsApart(env, l.config, excluded) && LockUnselected(env, l.config, excluded)
  }

  ghost predicate Reported(env: Environment, excluded: seq<Path>, before: Disk, edit: Edit) {
    && Tame(env, excluded, edit.disk) && NormalizeAll(edit.raw).Some?
       && Named(before, edit.disk, NormalizeAll(edit.raw).value)
  }

  function DiskBefore(first: Disk, edits: seq<Edit>, i: nat): Disk
    requires i <= |edits|
  {
    if i == 0 then first else edits[i - 1].disk
  }

  /** For every run of reported edits, the session ends up with what a cold load gives. */
  method Run(env: Environment, excluded: seq<Path>, config: Config, first: Disk, edits: seq<Edit>)
    returns (session: Session)
    requires Tame(env, excluded, first)
    requires forall i :: 0 <= i < |edits| ==> Reported(env, excluded, DiskBefore(first, edits, i), edits[i])
    ensures fresh(session) && session.env == env && session.excluded == excluded && session.Valid()
    ensures session.Agrees(DiskBefore(first, edits, |edits|))
    ensures forall l :: Loads(env, excluded, DiskBefore(first, edits, |edits|), l) ==>
              session.bowl == Some(l.documents) && session.config == l.config
  {
    session := new Session(env, excluded, config, None);
    var initial := session.Compile(first, None);
    for i := 0 to |edits|
      invariant fresh(session) && session.env == env && session.excluded == excluded && session.Valid()
      invariant session.Agrees(DiskBefore(first, edits, i)) && Tame(env, excluded, DiskBefore(first, edits, i))
    {
      assert Reported(env, excluded, DiskBefore(first, edits, i), edits[i]);
      var answer := session.FilesChanged(edits[i].raw, edits[i].disk, edits[i].published, DiskBefore(first, edits, i));
    }
    forall l | Loads(env, excluded, DiskBefore(first, edits, |edits|), l)
      ensures session.bowl == Some(l.documents) && session.config == l.config
    {
      LoadsUnique(env, excluded, DiskBefore(first, edits, |edits|), l, Loaded(session.config, session.bowl.value));
    }
  }

  /* ---- where the assumptions are needed ---- */

  /** Reporting only the match lock never reloads and never upserts. */
  lemma LockReported(v: View, upserts: map<Path, string>)
    requires BatchUpserts(v, [LOCK_FILE], upserts)
    ensures !AnyTriggers(v, [LOCK_FILE]) && upserts == map[]
  {
    assert [LOCK_FILE][..0] == [];
    forall f ensures f !in upserts {
      assert !AnyUpserts(v, [LOCK_FILE], f);
    }
  }

  /** A match lock that some group selects goes stale with every change of it: created, edited or removed. */
  lemma LockedDocumentStale(v: View, before: Disk, i: nat, upserts: map<Path, string>, after: Documents)
    requires Loads(v.env, v.excluded, before, Loaded(v.config, v.documents))
             && Selected(v.env, v.config, v.excluded, LOCK_FILE, i)
    requires Changed(before, v.disk, LOCK_FILE)
    requires BatchUpserts(v, [LOCK_FILE], upserts) && Updated(v, upserts, after)
    ensures !AnyTriggers(v, [LOCK_FILE]) && !Loads(v.env, v.excluded, v.disk, Loaded(v.config, after))
  {
    LockReported(v, upserts);
    assert EntryAt(after, LOCK_FILE) == EntryAt(v.documents, LOCK_FILE);
    if LOCK_FILE in v.documents {
      assert IsDocument(v.env, v.config, v.excluded, before, |v.config.groups|, LOCK_FILE, v.documents[LOCK_FILE]);
      assert !IsDocument(v.env, v.config, v.excluded, v.disk, |v.config.groups|, LOCK_FILE, after[LOCK_FILE]);
    } else {
      assert LOCK_FILE !in before.files;
      assert LOCK_FILE in v.disk.files && LOCK_FILE !in after;
    }
  }

  /**
    Where two groups select a new path that has one owner, a cold load finds it contested,
    but the session takes it.
   */
  lemma TwinGroupsDiverge(v: View, p: Path, i: nat, j: nat, upserts: map<Path, string>, after: Documents)
    requires i < j && Selected(v.env, v.config, v.excluded, p, i) && Selected(v.env, v.config, v.excluded, p, j)
    requires |Owners(v.env, v.config.groups, p)| < 2 && p in v.disk.files && p !in v.disk.directories
             && p !in v.documents
    requires p != LOCK_FILE && !ConfigPath(p) && BatchUpserts(v, [p], upserts) && Updated(v, upserts, after)
    ensures !AnyTriggers(v, [p]) && p in after && forall documents ::
              !Loads(v.env, v.excluded, v.disk, Loaded(v.config, documents))
  {
    SelectedOwns(v, p, i);
    assert |Owners(v.env, v.config.groups, p)| == 1;
    assert [p][..0] == [];
    assert Upserts(v, p, p);
    assert EntryAt(after, p) == Upserted(v, p, upserts[p]);
  }
}
