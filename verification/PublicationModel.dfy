/**
  The publication protocol of the build directory: publishers and pruners
  contend on one advisory lock, and every file-system effect is one atomic step
  after which the process may fail, crash (the operating system then releases
  its lock) or be overtaken by an outside process that spoils the pointer file.

  The build directory is a map from paths to texts. A path is a datatype: the
  file-name formats of the original are injective and are not spelled out,
  except for the artifact address, whose truncation makes collisions possible.
 */
module PublicationModel {
  import opened Wrappers

  const BUILD_MANIFEST_VERSION: nat := 7
  const U64_LIMIT: nat := 0x1_0000_0000_0000_0000
  const ADDRESS_LENGTH: nat := 16

  type GenerationId = id: nat | id < U64_LIMIT

  type Text = string

  datatype Family = Operation | Fragment

  datatype Path =
    | Pointer
    | GenerationManifest(id: GenerationId)
    | ArtifactFile(family: Family, file: string)
    | Temporary(target: Path, writer: nat, unique: nat)

  type Files = map<Path, Text>

  datatype ManifestEntry = ManifestEntry(name: string, path: Path, hash: string)

  datatype BuildManifest = BuildManifest(
    version: nat,
    generationId: GenerationId,
    operations: seq<ManifestEntry>,
    fragments: seq<ManifestEntry>)

  /** JSON and SHA-256 as the protocol sees them. */
  datatype Codec = Codec(
    encode: BuildManifest -> Text,
    decode: Text -> Option<BuildManifest>,
    sha: Text -> string)

  ghost predicate Faithful(codec: Codec) {
    forall manifest {:trigger codec.encode(manifest)} :: codec.decode(codec.encode(manifest)) == Some(manifest)
  }

  datatype Artifact = Artifact(family: Family, name: string, serialized: Text, hash: string)

  type Snapshot = seq<Artifact>

  /** Every artifact carries the hash of the text it serializes to. */
  ghost predicate Coherent(codec: Codec, snapshot: Snapshot) {
    forall i :: 0 <= i < |snapshot| ==> snapshot[i].hash == codec.sha(snapshot[i].serialized)
  }

  /* ---- layout ---- */

  function StemChar(c: char): char {
    if 'a' <= c <= 'z' || 'A' <= c <= 'Z' || '0' <= c <= '9' || c == '-' || c == '_' then c else '_'
  }

  function FileStem(name: string): string {
    if name == "" then "operation" else seq(|name|, i requires 0 <= i < |name| => StemChar(name[i]))
  }

  function Address(hash: string): string {
    if |hash| <= ADDRESS_LENGTH then hash else hash[..ADDRESS_LENGTH]
  }

  function ArtifactPath(artifact: Artifact): Path {
    ArtifactFile(artifact.family, FileStem(artifact.name) + "." + Address(artifact.hash) + ".json")
  }

  function EntryFor(artifact: Artifact): ManifestEntry {
    ManifestEntry(artifact.name, ArtifactPath(artifact), artifact.hash)
  }

  function EntriesOf(snapshot: Snapshot, family: Family): seq<ManifestEntry> {
    if snapshot == [] then []
    else
      EntriesOf(snapshot[..|snapshot| - 1], family) +
      if snapshot[|snapshot| - 1].family == family then [EntryFor(snapshot[|snapshot| - 1])] else []
  }

  function ManifestFor(snapshot: Snapshot, id: GenerationId): BuildManifest {
    BuildManifest(BUILD_MANIFEST_VERSION, id, EntriesOf(snapshot, Operation), EntriesOf(snapshot, Fragment))
  }

  function Listed(manifest: BuildManifest): seq<ManifestEntry> {
    manifest.operations + manifest.fragments
  }

  function ListedPaths(manifest: BuildManifest): set<Path> {
    set entry | entry in Listed(manifest) :: entry.path
  }

  /* ---- reading the directory ---- */

  function PointerGeneration(codec: Codec, files: Files): Option<GenerationId> {
    if Pointer !in files then None
    else
      match codec.decode(files[Pointer])
      case None => None
      case Some(manifest) =>
        if manifest.version == BUILD_MANIFEST_VERSION then Some(manifest.generationId) else None
  }

  function GenerationIds(files: Files): set<GenerationId> {
    set path | path in files && path.GenerationManifest? :: path.id
  }

  function KnownIds(files: Files, predecessor: Option<GenerationId>): set<GenerationId> {
    GenerationIds(files) + if predecessor.Some? then {predecessor.value} else {}
  }

  /** `next` is one more than the largest id, or 1 when there is none. */
  predicate Allocates(ids: set<GenerationId>, next: nat) {
    && (forall id :: id in ids ==> id < next)
    && (next == 1 || (next > 1 && next - 1 in ids))
  }

  /* ---- one process ---- */

  /** What `publish` hands to the caller, as far as pruning needs it. */
  datatype Published = Published(generationId: GenerationId, manifest: Text, predecessor: Option<GenerationId>)

  /** A publication after its id is allocated. */
  datatype Context = Context(snapshot: Snapshot, predecessor: Option<GenerationId>, generationId: GenerationId)

  /** What an atomic write is writing. */
  datatype Target = ArtifactAt(index: nat) | ManifestCopy | PointerCopy

  /** Program counter and local variables of a process that holds the lock. */
  datatype Local =
    | Reconcile(snapshot: Snapshot)
    | ReadPointer(snapshot: Snapshot)
    | Scan(snapshot: Snapshot, predecessor: Option<GenerationId>)
    | Examine(ctx: Context, index: nat)
    | Store(ctx: Context, target: Target)
    | Filling(ctx: Context, target: Target, temp: Path)
    | Renaming(ctx: Context, target: Target, temp: Path)
    | Syncing(ctx: Context, target: Target)
    | CheckPointer(published: Published)
    | Retain(published: Published, pending: seq<GenerationId>, retained: set<Path>)
    | DropManifests(published: Published, retained: set<Path>)
    | DropArtifacts(published: Published, retained: set<Path>)
    | Returned(published: Published)
    | Failed
    | Pruned

  predicate Ended(local: Local) {
    local.Returned? || local.Failed? || local.Pruned?
  }

  function ManifestText(codec: Codec, ctx: Context): Text {
    codec.encode(ManifestFor(ctx.snapshot, ctx.generationId))
  }

  predicate ValidTarget(ctx: Context, target: Target) {
    target.ArtifactAt? ==> target.index < |ctx.snapshot|
  }

  function TargetPath(ctx: Context, target: Target): Path
    requires ValidTarget(ctx, target)
  {
    match target
    case ArtifactAt(i) => ArtifactPath(ctx.snapshot[i])
    case ManifestCopy => GenerationManifest(ctx.generationId)
    case PointerCopy => Pointer
  }

  function TargetText(codec: Codec, ctx: Context, target: Target): Text
    requires ValidTarget(ctx, target)
  {
    match target
    case ArtifactAt(i) => ctx.snapshot[i].serialized
    case ManifestCopy => ManifestText(codec, ctx)
    case PointerCopy => ManifestText(codec, ctx)
  }

  function PublishedBy(codec: Codec, ctx: Context): Published {
    Published(ctx.generationId, ManifestText(codec, ctx), ctx.predecessor)
  }

  /** Where an atomic write of `target` continues once its rename is on disk. */
  function After(codec: Codec, ctx: Context, target: Target): Local {
    match target
    case ArtifactAt(i) => Examine(ctx, i + 1)
    case ManifestCopy => Store(ctx, PointerCopy)
    case PointerCopy => Returned(PublishedBy(codec, ctx))
  }

  function RetainedIds(published: Published): seq<GenerationId> {
    [published.generationId] + if published.predecessor.Some? then [published.predecessor.value] else []
  }

  /** A failed atomic write tries to remove its temporary file. */
  predicate Abandons(files: Files, files': Files, temp: Path) {
    files' == files || files' == files - {temp}
  }

  /** Opening the temporary sibling of a target; `create_new` refuses an existing one. */
  ghost predicate OpenStep(ctx: Context, target: Target, files: Files, l': Local, files': Files) {
    ValidTarget(ctx, target) &&
    exists writer, unique ::
        OpenedAs(ctx, target, Temporary(TargetPath(ctx, target), writer, unique), files, l', files')
  }

  ghost predicate OpenedAs(ctx: Context, target: Target, temp: Path, files: Files, l': Local, files': Files) {
    || (l' == Failed && Abandons(files, files', temp))
    || (temp !in files && files' == files[temp := ""] && l' == Filling(ctx, target, temp))
  }

  ghost predicate FillStep(codec: Codec, l: Local, files: Files, l': Local, files': Files)
    requires l.Filling?
  {
    && ValidTarget(l.ctx, l.target)
    && (|| (l' == Failed && Abandons(files, files', l.temp))
        || (l' == l && l.temp in files' && files' == files[l.temp := files'[l.temp]])
        || (l' == Renaming(l.ctx, l.target, l.temp) && files' == files[l.temp := TargetText(codec, l.ctx, l.target)]))
  }

  ghost predicate RenameStep(l: Local, files: Files, l': Local, files': Files)
    requires l.Renaming?
  {
    && ValidTarget(l.ctx, l.target)
    && (|| (l' == Failed && Abandons(files, files', l.temp))
        || (&& l.temp in files
            && l' == Syncing(l.ctx, l.target)
            && files' == (files - {l.temp})[TargetPath(l.ctx, l.target) := files[l.temp]]))
  }

  ghost predicate ExamineStep(l: Local, files: Files, l': Local)
    requires l.Examine?
  {
    || l' == Failed
    || (if l.index < |l.ctx.snapshot| then
          var artifact := l.ctx.snapshot[l.index];
          var path := ArtifactPath(artifact);
          if path in files then files[path] == artifact.serialized && l' == Examine(l.ctx, l.index + 1)
          else l' == Store(l.ctx, ArtifactAt(l.index))
        else
          GenerationManifest(l.ctx.generationId) !in files && l' == Store(l.ctx, ManifestCopy))
  }

  ghost predicate RetainStep(codec: Codec, l: Local, files: Files, l': Local)
    requires l.Retain?
  {
    || l' == Pruned
    || (if l.pending == [] then l' == DropManifests(l.published, l.retained)
        else
          && GenerationManifest(l.pending[0]) in files
          && codec.decode(files[GenerationManifest(l.pending[0])]).Some?
          && l' == Retain(l.published, l.pending[1..],
                          l.retained + ListedPaths(codec.decode(files[GenerationManifest(l.pending[0])]).value)))
  }

  predicate Prunable(published: Published, path: Path) {
    path.GenerationManifest? && path.id != published.generationId && Some(path.id) != published.predecessor
  }

  predicate Unretained(retained: set<Path>, path: Path) {
    path.ArtifactFile? && !("." <= path.file) && path !in retained
  }

  /** One step of the process holding the lock; every step may fail instead. */
  ghost predicate BodyStep(codec: Codec, l: Local, files: Files, l': Local, files': Files) {
    match l
    case Reconcile(snapshot) =>
      files' == files && (l' == Failed || l' == ReadPointer(snapshot))
    case ReadPointer(snapshot) =>
      files' == files && l' == Scan(snapshot, PointerGeneration(codec, files))
    case Scan(snapshot, predecessor) =>
      files' == files &&
      (l' == Failed ||
       exists id: GenerationId ::
           Allocates(KnownIds(files, predecessor), id) && l' == Examine(Context(snapshot, predecessor, id), 0))
    case Examine(_, _) => files' == files && ExamineStep(l, files, l')
    case Store(ctx, target) => OpenStep(ctx, target, files, l', files')
    case Filling(_, _, _) => FillStep(codec, l, files, l', files')
    case Renaming(_, _, _) => RenameStep(l, files, l', files')
    case Syncing(ctx, target) => files' == files && (l' == Failed || l' == After(codec, ctx, target))
    case CheckPointer(published) =>
      files' == files &&
      (l' == Pruned ||
       (PointerGeneration(codec, files) == Some(published.generationId)
        && l' == Retain(published, RetainedIds(published), {})))
    case Retain(_, _, _) => files' == files && RetainStep(codec, l, files, l')
    case DropManifests(published, retained) =>
      || (l' == l && exists path :: Prunable(published, path) && files' == files - {path})
      || (files' == files && (l' == Pruned || l' == DropArtifacts(published, retained)))
    case DropArtifacts(published, retained) =>
      || (l' == l && exists path :: Unretained(retained, path) && files' == files - {path})
      || (files' == files && l' == Pruned)
    case _ => false
  }

  /** The step that makes a generation current: the rename over the pointer. */
  predicate Commits(l: Local, l': Local) {
    l.Renaming? && l.target.PointerCopy? && l'.Syncing?
  }

  /* ---- all processes ---- */

  datatype Job = Publish(snapshot: Snapshot) | Prune(published: Published)

  function EntryPoint(job: Job): Local {
    match job
    case Publish(snapshot) => Reconcile(snapshot)
    case Prune(published) => CheckPointer(published)
  }

  datatype Process = Waiting(job: Job) | Holding(local: Local)

  /** `commits` and `returned` are history: every commit so far, and every value a publisher handed back. */
  datatype System = System(
    files: Files,
    processes: map<nat, Process>,
    holder: Option<nat>,
    commits: seq<Context>,
    returned: set<Published>)

  datatype Event =
    | Start(pid: nat, job: Job)
    | TimeOut(pid: nat)
    | Acquire(pid: nat)
    | Run(pid: nat)
    | Release(pid: nat)
    | Crash(pid: nat)
    | SpoilPointer

  /** Any directory without a readable pointer, and nobody at work. */
  ghost predicate Init(codec: Codec, s: System) {
    && PointerGeneration(codec, s.files).None?
    && s.processes == map[] && s.holder.None? && s.commits == [] && s.returned == {}
  }

  ghost predicate NextBy(codec: Codec, s: System, s': System, event: Event) {
    match event
    case Start(pid, job) =>
      && pid !in s.processes
      && (job.Publish? ==> Coherent(codec, job.snapshot))
      && (job.Prune? ==> job.published in s.returned)
      && s' == s.(processes := s.processes[pid := Waiting(job)])
    case TimeOut(pid) =>
      && pid in s.processes && s.processes[pid].Waiting?
      && s' == s.(processes := s.processes - {pid})
    case Acquire(pid) =>
      && pid in s.processes && s.processes[pid].Waiting? && s.holder.None?
      && s' == s.(holder := Some(pid), processes := s.processes[pid := Holding(EntryPoint(s.processes[pid].job))])
    case Run(pid) =>
      && pid in s.processes && s.processes[pid].Holding?
      && exists l' :: RunsTo(codec, s, s', pid, l')
    case Release(pid) =>
      && pid in s.processes && s.processes[pid].Holding? && Ended(s.processes[pid].local)
      && s' == s.(holder := None, processes := s.processes - {pid})
    case Crash(pid) =>
      && pid in s.processes
      && s' == s.(processes := s.processes - {pid}, holder := if s.holder == Some(pid) then None else s.holder)
    case SpoilPointer =>
      && (s'.files == s.files - {Pointer} || (Pointer in s'.files && s'.files == s.files[Pointer := s'.files[Pointer]]))
      && PointerGeneration(codec, s'.files).None?
      && s' == s.(files := s'.files)
  }

  ghost predicate RunsTo(codec: Codec, s: System, s': System, pid: nat, l': Local)
    requires pid in s.processes && s.processes[pid].Holding?
  {
    var l := s.processes[pid].local;
    && BodyStep(codec, l, s.files, l', s'.files)
    && s' == s.(
         files := s'.files,
         processes := s.processes[pid := Holding(l')],
         commits := if Commits(l, l') then s.commits + [l.ctx] else s.commits,
         returned := if l'.Returned? then s.returned + {l'.published} else s.returned)
  }

  ghost predicate Next(codec: Codec, s: System, s': System) {
    exists event :: NextBy(codec, s, s', event)
  }

  ghost predicate IsRun(codec: Codec, run: seq<System>) {
    && |run| > 0
    && Init(codec, run[0])
    && forall i :: 0 <= i < |run| - 1 ==> Next(codec, run[i], run[i + 1])
  }
}
