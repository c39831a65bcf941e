/**
  The resident daemon session: an incrementally maintained document set, kept
  up to date by batches of changed paths and reloaded when a batch may change
  more than file contents.
 */
module DaemonSession {
  import opened ProjectDocuments
  import opened Wrappers

  const CONFIG_FILE: Path := ["dsql", "dsql.toml"]
  const LOCK_FILE: Path := ["dsql", "dsql.lock"]
  const SCHEMA: Path := ["dsql", "schema"]
  const OVERLAYS: Path := ["dsql", "overlays"]

  type Documents = map<Path, Document>

  /* ---- cold load ---- */

  datatype Loaded = Loaded(config: Config, documents: Documents)

  predicate CatalogPath(path: Path) {
    SCHEMA <= path || OVERLAYS <= path
  }

  function CatalogFiles(disk: Disk): map<Path, string> {
    map p | p in disk.files && CatalogPath(p) :: disk.files[p]
  }

  /** A load from the disk alone. */
  ghost predicate Loads(env: Environment, excluded: seq<Path>, disk: Disk, l: Loaded) {
    && CONFIG_FILE in disk.files && env.parse(disk.files[CONFIG_FILE]) == Some(l.config)
    && ValidRoots(env, l.config, l.config.outputs) && ValidRoots(env, l.config, excluded)
    && env.catalogLoads(l.config, CatalogFiles(disk))
    && AreDocuments(env, l.config, excluded, disk, |l.config.groups|, l.documents)
  }

  method LoadProject(env: Environment, excluded: seq<Path>, disk: Disk) returns (r: Option<Loaded>)
    requires TreeShaped(disk)
    ensures r.Some? ==> Loads(env, excluded, disk, r.value)
    ensures r.None? ==> forall l :: !Loads(env, excluded, disk, l)
  {
    if CONFIG_FILE !in disk.files {
      return None;
    }
    var config := env.parse(disk.files[CONFIG_FILE]);
    if config.None? || !ValidRoots(env, config.value, config.value.outputs) || !ValidRoots(env, config.value, excluded)
       || !env.catalogLoads(config.value, CatalogFiles(disk)) {
      return None;
    }
    var documents := LoadDocuments(env, config.value, excluded, disk);
    if documents.None? {
      return None;
    }
    return Some(Loaded(config.value, documents.value));
  }

  lemma LoadsUnique(env: Environment, excluded: seq<Path>, disk: Disk, a: Loaded, b: Loaded)
    requires Loads(env, excluded, disk, a) && Loads(env, excluded, disk, b)
    ensures a == b
  {
    DocumentsUnique(env, a.config, excluded, disk, |a.config.groups|, a.documents, b.documents);
  }

  /* ---- one changed path ---- */

  /** Drops `.`, resolves `..`, and rejects a path that leaves the project. */
  function Normalize(raw: Path): Option<Path> {
    if raw == [] then Some([])
    else
      match Normalize(raw[..|raw| - 1])
      case None => None
      case Some(before) =>
        var last := raw[|raw| - 1];
        if last == "." then Some(before)
        else if last == ".." then (if before == [] then None else Some(before[..|before| - 1]))
        else Some(before + [last])
  }

  /** What the classification of a path consults: the resident documents and the disk. */
  datatype View = View(env: Environment, config: Config, excluded: seq<Path>, documents: Documents, disk: Disk)

  ghost predicate Relevant(v: View, p: Path) {
    p in v.documents || OwnerOf(v.env, v.config.groups, p).Some?
  }

  predicate AmbiguousAt(v: View, p: Path) {
    p !in v.documents && |Owners(v.env, v.config.groups, p)| >= 2
  }

  /** A relevant file with other text than the resident one, or new. */
  ghost predicate Fresh(v: View, p: Path) {
    p in v.disk.files && Relevant(v, p) && !(p in v.documents && v.documents[p].text == v.disk.files[p])
  }

  predicate Within(v: View, directory: Path, p: Path) {
    p in v.disk.files && directory < p && !Reserved(v.config, v.excluded, p)
  }

  predicate ConfigPath(p: Path) {
    p == CONFIG_FILE || CatalogPath(p) || p == ["dsql"] || p == []
  }

  /** Paths the classification passes over: the match lock, and reserved ones. */
  predicate Ignored(v: View, p: Path) {
    p == LOCK_FILE || Reserved(v.config, v.excluded, p)
  }

  /** A changed path that forces a full reload. */
  ghost predicate Triggers(v: View, p: Path) {
    !Ignored(v, p) &&
    (|| ConfigPath(p)
     || (p in v.disk.directories
         && ((exists q :: q in v.documents && p < q && q !in v.disk.files) || exists f ::
             Within(v, p, f) && AmbiguousAt(v, f)))
     || (p !in v.disk.directories && p in v.disk.files && AmbiguousAt(v, p))
     || (p !in v.disk.directories && p !in v.disk.files && exists q :: q in v.documents && p <= q))
  }

  /** The files a changed path brings up to date. */
  ghost predicate Upserts(v: View, p: Path, f: Path) {
    && !Ignored(v, p) && !ConfigPath(p) && Fresh(v, f)
    && (if p in v.disk.directories then Within(v, p, f) else f == p)
  }

  datatype Relevance = IsRelevant | IsIrrelevant | IsAmbiguous

  method RelevanceOf(v: View, p: Path) returns (r: Relevance)
    ensures r.IsRelevant? <==> Relevant(v, p)
    ensures r.IsAmbiguous? <==> AmbiguousAt(v, p)
  {
    if p in v.documents {
      return IsRelevant;
    }
    var ownership := OwnershipOf(v.env, v.config.groups, p);
    OwnershipMeans(v.env, v.config.groups, p, ownership);
    match ownership {
      case Unique(_) => return IsRelevant;
      case Ambiguous(_) => return IsAmbiguous;
      case ImplicitDefault => return IsIrrelevant;
      case Unmatched => return IsIrrelevant;
    }
  }

  /** Whether a file's text differs from the resident one. */
  method ClassifyFile(v: View, p: Path) returns (differs: bool)
    requires p in v.disk.files && Relevant(v, p)
    ensures differs <==> Fresh(v, p)
  {
    return !(p in v.documents && v.documents[p].text == v.disk.files[p]);
  }

  /* ---- directories ---- */

  function Parent(p: Path): Path
    requires p != []
  {
    p[..|p| - 1]
  }

  function Entries(disk: Disk, directory: Path): set<Path> {
    set p | p in disk.files.Keys + disk.directories && p != [] && Parent(p) == directory
  }

  ghost predicate FreshIn(v: View, directory: Path, f: Path) {
    f != [] && Parent(f) == directory && !Reserved(v.config, v.excluded, f) && Fresh(v, f)
  }

  ghost predicate SubdirectoryOf(v: View, directory: Path, d: Path) {
    d != [] && Parent(d) == directory && d in v.disk.directories && !Reserved(v.config, v.excluded, d)
  }

  datatype EntryKind = Skipped | Subdirectory | FreshFile | AmbiguousFile

  method ScanEntry(v: View, p: Path) returns (kind: EntryKind)
    requires p in v.disk.files || p in v.disk.directories
    requires p in v.disk.files ==> p !in v.disk.directories
    ensures var open_ := !Reserved(v.config, v.excluded, p);
            && (kind.Subdirectory? <==> open_ && p in v.disk.directories)
            && (kind.AmbiguousFile? <==> open_ && p in v.disk.files && AmbiguousAt(v, p))
            && (kind.FreshFile? <==> open_ && Fresh(v, p))
  {
    if Reserved(v.config, v.excluded, p) {
      return Skipped;
    }
    if p in v.disk.directories {
      return Subdirectory;
    }
    var relevance := RelevanceOf(v, p);
    match relevance {
      case IsAmbiguous => return AmbiguousFile;
      case IsIrrelevant => return Skipped;
      case IsRelevant =>
        var differs := ClassifyFile(v, p);
        return if differs then FreshFile else Skipped;
    }
  }

  predicate DistinctPaths(paths: seq<Path>) {
    forall i, j :: 0 <= i < j < |paths| ==> paths[i] != paths[j]
  }

  /** The entries in `done` are sorted into fresh files and directories to scan, none ambiguous. */
  ghost predicate Scanned(v: View, directory: Path, done: set<Path>, found: map<Path, string>,
                          subdirectories: seq<Path>)
  {
    && (forall f :: f in done && f in v.disk.files && !Reserved(v.config, v.excluded, f) ==> !AmbiguousAt(v, f))
    && (forall f :: f in found <==> f in done && FreshIn(v, directory, f))
    && (forall f :: f in found ==> f in v.disk.files && found[f] == v.disk.files[f])
    && (forall d :: d in subdirectories <==> d in done && SubdirectoryOf(v, directory, d))
    && DistinctPaths(subdirectories)
  }

  lemma ScannedNext(v: View, directory: Path, done: set<Path>, found: map<Path, string>, subdirectories: seq<Path>,
                    p: Path, kind: EntryKind)
    requires Scanned(v, directory, done, found, subdirectories) && p !in done && p != [] && Parent(p) == directory
    requires p in v.disk.files || p in v.disk.directories
    requires !kind.AmbiguousFile? && (p in v.disk.files && !Reserved(v.config, v.excluded, p) ==> !AmbiguousAt(v, p))
    requires kind.Subdirectory? <==> SubdirectoryOf(v, directory, p)
    requires kind.FreshFile? <==> FreshIn(v, directory, p)
    ensures kind.FreshFile? ==> Scanned(v, directory, done + {p}, found[p := v.disk.files[p]], subdirectories)
    ensures kind.Subdirectory? ==> Scanned(v, directory, done + {p}, found, subdirectories + [p])
    ensures kind.Skipped? ==> Scanned(v, directory, done + {p}, found, subdirectories)
  {
    assert p !in subdirectories;
  }

  /** One directory's entries: the fresh files and the directories to scan, or an ambiguous file. */
  method ScanDirectory(v: View, directory: Path)
    returns (found: map<Path, string>, subdirectories: seq<Path>, ambiguous: bool)
    requires forall p :: p in v.disk.files ==> p !in v.disk.directories
    ensures ambiguous ==> exists f :: Within(v, directory, f) && AmbiguousAt(v, f)
    ensures !ambiguous ==> Scanned(v, directory, Entries(v.disk, directory), found, subdirectories)
  {
    found, subdirectories, ambiguous := map[], [], false;
    var rest := Entries(v.disk, directory);
    ghost var done: set<Path> := {};
    while rest != {}
      invariant rest !! done && rest + done == Entries(v.disk, directory)
                && Scanned(v, directory, done, found, subdirectories)
      decreases |rest|
    {
      var p :| p in rest;
      assert p in Entries(v.disk, directory);
      var kind := ScanEntry(v, p);
      if kind.AmbiguousFile? {
        assert Within(v, directory, p);
        return map[], [], true;
      }
      ScannedNext(v, directory, done, found, subdirectories, p, kind);
      rest, done := rest - {p}, done + {p};
      match kind {
        case Subdirectory => subdirectories := subdirectories + [p];
        case FreshFile => found := found[p := v.disk.files[p]];
        case Skipped =>
      }
    }
    assert done == Entries(v.disk, directory);
  }

  /* ---- a whole subtree ---- */

  /** Everything below the directory is settled or waits below a directory on the stack. */
  ghost predicate Pending(v: View, directory: Path, stack: seq<Path>, popped: set<Path>) {
    forall f :: Within(v, directory, f) ==> Parent(f) in popped || exists k :: |directory| <= k < |f| && f[..k] in stack
  }

  /** The stack of directories to scan: distinct, open, each below a scanned one. */
  ghost predicate StackValid(v: View, directory: Path, stack: seq<Path>, popped: set<Path>) {
    && DistinctPaths(stack)
    && (forall s :: s in stack ==> s !in popped && s in v.disk.directories && directory <= s)
    && (forall s :: s in stack ==> s == directory || (s != [] && Parent(s) in popped))
    && (forall s :: s in stack && s != directory ==> !Reserved(v.config, v.excluded, s))
    && (forall s :: s in popped ==> s in v.disk.directories && directory <= s)
    && (forall s :: s in popped ==> s == directory || (s != [] && Parent(s) in popped))
  }

  lemma PendingAfterScan(v: View, directory: Path, stack: seq<Path>, popped: set<Path>, subdirectories: seq<Path>)
    requires TreeShaped(v.disk) && stack != []
    requires Pending(v, directory, stack, popped)
    requires forall d :: d in subdirectories <==> SubdirectoryOf(v, stack[|stack| - 1], d)
    ensures var n := |stack| - 1;
            Pending(v, directory, stack[..n] + subdirectories, popped + {stack[n]})
  {
    var n := |stack| - 1;
    var current := stack[n];
    forall f | Within(v, directory, f) && Parent(f) !in popped + {current}
      ensures exists k :: |directory| <= k < |f| && f[..k] in stack[..n] + subdirectories
    {
      var k :| |directory| <= k < |f| && f[..k] in stack;
      if f[..k] == current {
        assert Parent(f) != f[..k];
        var child := f[..k + 1];
        assert Parent(child) == current && child in v.disk.directories;
        if Reserved(v.config, v.excluded, child) {
          ReservedBelow(v.config, v.excluded, child, f);
        }
        assert SubdirectoryOf(v, current, child);
        assert f[..k + 1] in stack[..n] + subdirectories;
      } else {
        assert f[..k] in stack[..n] + subdirectories;
      }
    }
  }

  lemma StackAfterScan(v: View, directory: Path, stack: seq<Path>, popped: set<Path>, subdirectories: seq<Path>)
    requires stack != [] && StackValid(v, directory, stack, popped)
    requires forall d :: d in subdirectories <==> SubdirectoryOf(v, stack[|stack| - 1], d)
    requires DistinctPaths(subdirectories)
    ensures var n := |stack| - 1;
            StackValid(v, directory, stack[..n] + subdirectories, popped + {stack[n]})
  {
    var n := |stack| - 1;
    var current, after := stack[n], stack[..n] + subdirectories;
    assert current in stack;
    forall d | d in subdirectories
      ensures d !in stack && d !in popped && directory <= d && d != current && d != directory && d in v.disk.directories
    {
      assert SubdirectoryOf(v, current, d) && |d| == |current| + 1;
      assert directory <= current && current <= d;
    }
    forall i, j | 0 <= i < j < |after| ensures after[i] != after[j] {
      if i < n {
        assert after[i] in stack && (n <= j ==> after[j] in subdirectories);
      }
    }
    forall s | s in after ensures s !in popped + {current} && s in v.disk.directories && directory <= s {
      if s !in subdirectories {
        var i :| 0 <= i < n && stack[i] == s;
      }
    }
    forall s | s in after && s != directory
      ensures s != [] && Parent(s) in popped + {current} && !Reserved(v.config, v.excluded, s)
    {
      assert s in stack || s in subdirectories;
    }
  }

  lemma ScannedAll(v: View, directory: Path, found: map<Path, string>, subdirectories: seq<Path>)
    requires Scanned(v, directory, Entries(v.disk, directory), found, subdirectories)
    ensures forall f :: f in v.disk.files && f != [] && Parent(f) == directory && !Reserved(v.config, v.excluded, f) ==>
              !AmbiguousAt(v, f)
    ensures forall f :: f in found <==> FreshIn(v, directory, f)
    ensures forall d :: d in subdirectories <==> SubdirectoryOf(v, directory, d)
  {
    forall f | f in v.disk.files && f != [] && Parent(f) == directory ensures f in Entries(v.disk, directory) {
    }
    forall d | SubdirectoryOf(v, directory, d) ensures d in Entries(v.disk, directory) {
    }
  }

  /** Found are exactly the fresh files in the scanned directories, none of them ambiguous. */
  ghost predicate FoundIn(v: View, directory: Path, popped: set<Path>, found: map<Path, string>) {
    && (forall f :: f in found <==> Within(v, directory, f) && Parent(f) in popped && Fresh(v, f))
    && (forall f :: f in found ==> f in v.disk.files && found[f] == v.disk.files[f])
    && (forall f :: Within(v, directory, f) && Parent(f) in popped ==> !AmbiguousAt(v, f))
  }

  lemma FoundAfterScan(v: View, directory: Path, popped: set<Path>, current: Path, found: map<Path, string>,
                       files: map<Path, string>)
    requires directory <= current && FoundIn(v, directory, popped, found)
    requires forall f :: f in v.disk.files && f != [] && Parent(f) == current && !Reserved(v.config, v.excluded, f) ==>
               !AmbiguousAt(v, f)
    requires forall f :: f in files <==> FreshIn(v, current, f)
    requires forall f :: f in files ==> f in v.disk.files && files[f] == v.disk.files[f]
    ensures FoundIn(v, directory, popped + {current}, found + files)
  {
    forall f | f in files ensures Within(v, directory, f) && Parent(f) == current && Fresh(v, f) {
      assert FreshIn(v, current, f) && f[..|directory|] == current[..|directory|] == directory;
    }
    forall f | Within(v, directory, f) && Parent(f) == current && Fresh(v, f) ensures f in files {
      assert FreshIn(v, current, f);
    }
  }

  /** The relevant files below a directory that differ from the resident documents, unless one is ambiguous. */
  method ChangedFilesUnder(v: View, directory: Path) returns (found: map<Path, string>, ambiguous: bool)
    requires TreeShaped(v.disk) && directory in v.disk.directories
    ensures ambiguous <==> exists f :: Within(v, directory, f) && AmbiguousAt(v, f)
    ensures !ambiguous ==> forall f :: f in found <==> Within(v, directory, f) && Fresh(v, f)
    ensures forall f :: f in found ==> f in v.disk.files && found[f] == v.disk.files[f]
  {
    found, ambiguous := map[], false;
    var stack := [directory];
    ghost var popped: set<Path> := {};
    assert forall f :: Within(v, directory, f) ==> f[..|directory|] == directory;
    while stack != []
      invariant StackValid(v, directory, stack, popped) && Pending(v, directory, stack, popped)
                && FoundIn(v, directory, popped, found)
      decreases v.disk.directories - popped
    {
      var current := stack[|stack| - 1];
      assert current in stack;
      var files, subdirectories, conflict := ScanDirectory(v, current);
      if conflict {
        AmbiguousBelow(v, directory, current);
        return map[], true;
      }
      ScannedAll(v, current, files, subdirectories);
      PendingAfterScan(v, directory, stack, popped, subdirectories);
      StackAfterScan(v, directory, stack, popped, subdirectories);
      FoundAfterScan(v, directory, popped, current, found, files);
      stack := stack[..|stack| - 1] + subdirectories;
      popped := popped + {current};
      found := found + files;
    }
  }

  lemma AmbiguousBelow(v: View, directory: Path, current: Path)
    requires directory <= current && exists f :: Within(v, current, f) && AmbiguousAt(v, f)
    ensures exists f :: Within(v, directory, f) && AmbiguousAt(v, f)
  {
    var f :| Within(v, current, f) && AmbiguousAt(v, f);
    assert f[..|directory|] == current[..|directory|] == directory;
    assert Within(v, directory, f);
  }

  /* ---- a batch ---- */

  datatype Plan =
    | NoOp
    | Incremental(upserts: map<Path, string>, lock: Option<Option<string>>)
    | MatchLockChanged(observed: Option<string>)
    | FullReload(lock: Option<Option<string>>)
    | Rejected

  function UpsertsOf(plan: Plan): map<Path, string> {
    if plan.Incremental? then plan.upserts else map[]
  }

  function LockOf(plan: Plan): Option<Option<string>> {
    match plan
    case Incremental(_, lock) => lock
    case MatchLockChanged(observed) => Some(observed)
    case FullReload(lock) => lock
    case _ => None
  }

  function TextAt(disk: Disk, p: Path): Option<string> {
    if p in disk.files then Some(disk.files[p]) else None
  }

  /** Some path of the batch brings the file up to date. */
  ghost predicate AnyUpserts(v: View, paths: seq<Path>, f: Path) {
    paths != [] && (AnyUpserts(v, paths[..|paths| - 1], f) || Upserts(v, paths[|paths| - 1], f))
  }

  lemma {:induction false} UpsertHappens(v: View, paths: seq<Path>, i: nat, f: Path)
    requires i < |paths| && Upserts(v, paths[i], f)
    ensures AnyUpserts(v, paths, f)
  {
    if i < |paths| - 1 {
      UpsertHappens(v, paths[..|paths| - 1], i, f);
    }
  }

  /** The files that a batch brings up to date, with their texts. */
  ghost predicate BatchUpserts(v: View, paths: seq<Path>, upserts: map<Path, string>) {
    && (forall f :: f in upserts <==> AnyUpserts(v, paths, f))
    && forall f :: f in upserts ==> f in v.disk.files && upserts[f] == v.disk.files[f]
  }

  method ClassifyPath(v: View, p: Path) returns (reload: bool, upserts: map<Path, string>)
    requires TreeShaped(v.disk) && !Ignored(v, p)
    ensures reload <==> Triggers(v, p)
    ensures !reload ==> forall f :: f in upserts <==> Upserts(v, p, f)
    ensures forall f :: f in upserts ==> f in v.disk.files && upserts[f] == v.disk.files[f]
  {
    reload, upserts := false, map[];
    if ConfigPath(p) {
      return true, map[];
    }
    if p in v.disk.directories {
      if exists q :: q in v.documents && p < q && q !in v.disk.files {
        return true, map[];
      }
      upserts, reload := ChangedFilesUnder(v, p);
    } else if p in v.disk.files {
      var relevance := RelevanceOf(v, p);
      if relevance.IsAmbiguous? {
        return true, map[];
      }
      if relevance.IsRelevant? {
        var differs := ClassifyFile(v, p);
        if differs {
          upserts := map[p := v.disk.files[p]];
        }
      }
    } else if exists q :: q in v.documents && p <= q {
      return true, map[];
    }
  }

  /** Some path of the batch forces a reload. */
  ghost predicate AnyTriggers(v: View, paths: seq<Path>) {
    paths != [] && (AnyTriggers(v, paths[..|paths| - 1]) || Triggers(v, paths[|paths| - 1]))
  }

  lemma {:induction false} TriggerForces(v: View, paths: seq<Path>, i: nat)
    requires i < |paths| && Triggers(v, paths[i])
    ensures AnyTriggers(v, paths)
  {
    if i < |paths| - 1 {
      TriggerForces(v, paths[..|paths| - 1], i);
    }
  }

  method ClassifyNext(v: View, p: Path) returns (reload: bool, upserts: map<Path, string>)
    requires TreeShaped(v.disk)
    ensures reload <==> Triggers(v, p)
    ensures !reload ==> forall f :: f in upserts <==> Upserts(v, p, f)
    ensures forall f :: f in upserts ==> f in v.disk.files && upserts[f] == v.disk.files[f]
  {
    if p == LOCK_FILE || Reserved(v.config, v.excluded, p) {
      return false, map[];
    }
    reload, upserts := ClassifyPath(v, p);
  }

  /** A lock file that differs from the accepted one. */
  function LockChange(v: View, lockHash: Option<string>, paths: seq<Path>): Option<Option<string>> {
    var observed := TextAt(v.disk, LOCK_FILE);
    if LOCK_FILE in paths && observed != lockHash then Some(observed) else None
  }

  /** The plan for a batch of normalized paths. */
  method ClassifyBatch(v: View, lockHash: Option<string>, paths: seq<Path>) returns (plan: Plan)
    requires TreeShaped(v.disk)
    ensures !plan.Rejected?
    ensures plan.FullReload? <==> AnyTriggers(v, paths)
    ensures !plan.FullReload? ==> BatchUpserts(v, paths, UpsertsOf(plan))
    ensures plan.Incremental? ==> plan.upserts != map[]
    ensures LockOf(plan) == LockChange(v, lockHash, paths)
  {
    var upserts: map<Path, string>, reload: bool, lock: Option<Option<string>> := map[], false, None;
    for i := 0 to |paths|
      invariant reload <==> AnyTriggers(v, paths[..i])
      invariant !reload ==> BatchUpserts(v, paths[..i], upserts)
      invariant lock == LockChange(v, lockHash, paths[..i])
    {
      var p := paths[i];
      assert paths[..i + 1] == paths[..i] + [p];
      if p == LOCK_FILE {
        var observed := TextAt(v.disk, LOCK_FILE);
        if observed != lockHash {
          lock := Some(observed);
        }
      }
      var forced, changed := ClassifyNext(v, p);
      if !reload && !forced {
        BatchStep(v, paths[..i], p, upserts, changed);
      }
      reload, upserts := reload || forced, upserts + changed;
    }
    assert paths[..|paths|] == paths;
    plan := MakePlan(reload, upserts, lock);
  }

  method MakePlan(reload: bool, upserts: map<Path, string>, lock: Option<Option<string>>) returns (plan: Plan)
    ensures !plan.Rejected? && (plan.FullReload? <==> reload) && LockOf(plan) == lock
    ensures !reload ==> UpsertsOf(plan) == upserts && (plan.Incremental? <==> upserts != map[])
  {
    if reload {
      return FullReload(lock);
    }
    if upserts != map[] {
      return Incremental(upserts, lock);
    }
    match lock {
      case Some(observed) => return MatchLockChanged(observed);
      case None => return NoOp;
    }
  }

  lemma BatchStep(v: View, paths: seq<Path>, p: Path, upserts: map<Path, string>, changed: map<Path, string>)
    requires BatchUpserts(v, paths, upserts) && forall f :: f in changed <==> Upserts(v, p, f)
    requires forall f :: f in changed ==> f in v.disk.files && changed[f] == v.disk.files[f]
    ensures BatchUpserts(v, paths + [p], upserts + changed)
  {
    assert (paths + [p])[..|paths|] == paths;
  }

  /* ---- the session ---- */

  function EntryAt(documents: Documents, p: Path): Option<Document> {
    if p in documents then Some(documents[p]) else None
  }

  /** A resident document keeps its assignment, a new one gets the assignment that owns it. */
  ghost function Upserted(v: View, p: Path, text: string): Option<Document> {
    if p in v.documents then Some(Document(v.documents[p].assignment, text))
    else match OwnerOf(v.env, v.config.groups, p) case None => None case Some(a) => Some(Document(a, text))
  }

  ghost predicate Updated(v: View, upserts: map<Path, string>, after: Documents) {
    forall p {:trigger EntryAt(after, p)} :: EntryAt(after, p) ==
        if p in upserts then Upserted(v, p, upserts[p]) else EntryAt(v.documents, p)
  }

  method Upsert(v: View, documents: Documents, p: Path, text: string) returns (after: Documents)
    requires EntryAt(documents, p) == EntryAt(v.documents, p)
    ensures EntryAt(after, p) == Upserted(v, p, text)
    ensures forall q :: q != p ==> EntryAt(after, q) == EntryAt(documents, q)
  {
    if p in documents {
      return documents[p := Document(documents[p].assignment, text)];
    }
    var ownership := OwnershipOf(v.env, v.config.groups, p);
    OwnershipMeans(v.env, v.config.groups, p, ownership);
    match ownership {
      case Unique(assignment) => return documents[p := Document(assignment, text)];
      case _ => return documents;
    }
  }

  method UpsertAll(v: View, upserts: map<Path, string>) returns (after: Documents)
    ensures Updated(v, upserts, after)
  {
    after := v.documents;
    var rest := upserts;
    while rest != map[]
      invariant forall p :: p in rest ==> p in upserts && rest[p] == upserts[p]
      invariant forall p {:trigger EntryAt(after, p)} ::
        EntryAt(after, p) == if p in upserts && p !in rest then Upserted(v, p, upserts[p]) else EntryAt(v.documents, p)
      decreases |rest.Keys|
    {
      var p :| p in rest;
      assert EntryAt(after, p) == EntryAt(v.documents, p);
      after := Upsert(v, after, p, rest[p]);
      assert (rest - {p}).Keys == rest.Keys - {p};
      rest := rest - {p};
    }
  }
}
