/**
  The project as a cold load sees it: which document group owns a path, and the
  documents that a configuration selects from the disk.  Paths are components
  below the project base.
 */
module ProjectDocuments {
  import opened Wrappers

  type Path = seq<string>

  /** Files with their texts, and directories. */
  datatype Disk = Disk(files: map<Path, string>, directories: set<Path>)

  /** Everything lies in directories, and nothing is both a file and a directory. */
  ghost predicate TreeShaped(disk: Disk) {
    && (forall p :: p in disk.files ==> p !in disk.directories)
    && (forall p, k :: (p in disk.files || p in disk.directories) && 0 <= k < |p| ==> p[..k] in disk.directories)
  }

  datatype Group = Group(scope: string, resolver: string, patterns: seq<string>)

  datatype Config = Config(groups: seq<Group>, outputs: seq<Path>)

  datatype Assignment = Assignment(scope: string, resolver: string)

  datatype Document = Document(assignment: Assignment, text: string)

  /**
    What this model does not look into: parsing, the static prefix of a pattern, matching
    below it, and the catalog.
   */
  datatype Environment = Environment(
    parse: string -> Option<Config>,
    prefix: string -> Path,
    matches: (string, Path) -> bool,
    catalogLoads: (Config, map<Path, string>) -> bool,
    rootFits: (Config, Path) -> bool)

  /* ---- ownership ---- */

  /** A configured path covers only what lies at or below its static prefix. */
  predicate Matches(env: Environment, pattern: string, path: Path) {
    env.prefix(pattern) <= path && env.matches(pattern, path)
  }

  predicate Covers(env: Environment, group: Group, path: Path) {
    exists i :: 0 <= i < |group.patterns| && Matches(env, group.patterns[i], path)
  }

  function AssignmentOf(group: Group): Assignment {
    Assignment(group.scope, group.resolver)
  }

  function Owners(env: Environment, groups: seq<Group>, path: Path): set<Assignment> {
    set i | 0 <= i < |groups| && Covers(env, groups[i], path) :: AssignmentOf(groups[i])
  }

  datatype Ownership = ImplicitDefault | Unique(assignment: Assignment) | Unmatched
      | Ambiguous(assignments: set<Assignment>)

  /** Ownership is by distinct assignments: unique when exactly one covers the path. */
  ghost predicate IsOwnership(env: Environment, groups: seq<Group>, path: Path, o: Ownership) {
    match o
    case ImplicitDefault => groups == []
    case Unmatched => groups != [] && Owners(env, groups, path) == {}
    case Unique(assignment) => Owners(env, groups, path) == {assignment}
    case Ambiguous(assignments) => assignments == Owners(env, groups, path) && |assignments| >= 2
  }

  method CoversPath(env: Environment, group: Group, path: Path) returns (covers: bool)
    ensures covers == Covers(env, group, path)
  {
    for i := 0 to |group.patterns|
      invariant forall k :: 0 <= k < i ==> !Matches(env, group.patterns[k], path)
    {
      if Matches(env, group.patterns[i], path) {
        return true;
      }
    }
    return false;
  }

  lemma OwnersStep(env: Environment, groups: seq<Group>, i: nat, path: Path)
    requires i < |groups|
    ensures Owners(env, groups[..i + 1], path) == Owners(env, groups[..i], path) + if Covers(env, groups[i], path) then
              {AssignmentOf(groups[i])} else {}
  {
    var before, after := groups[..i], groups[..i + 1];
    forall a | a in Owners(env, after, path)
      ensures a in Owners(env, before, path) + if Covers(env, groups[i], path) then {AssignmentOf(groups[i])} else {}
    {
      var k :| 0 <= k < |after| && Covers(env, after[k], path) && a == AssignmentOf(after[k]);
      assert k < i ==> before[k] == after[k];
    }
    forall a | a in Owners(env, before, path) ensures a in Owners(env, after, path) {
      var k :| 0 <= k < |before| && Covers(env, before[k], path) && a == AssignmentOf(before[k]);
      assert before[k] == after[k];
    }
    assert after[i] == groups[i];
  }

  method OwnershipOf(env: Environment, groups: seq<Group>, path: Path) returns (o: Ownership)
    ensures IsOwnership(env, groups, path, o)
  {
    if groups == [] {
      return ImplicitDefault;
    }
    var matched: set<Assignment> := {};
    for i := 0 to |groups|
      invariant matched == Owners(env, groups[..i], path)
    {
      OwnersStep(env, groups, i, path);
      var covers := CoversPath(env, groups[i], path);
      if covers {
        matched := matched + {AssignmentOf(groups[i])};
      }
    }
    assert groups[..|groups|] == groups;
    if matched == {} {
      return Unmatched;
    }
    var assignment :| assignment in matched;
    if matched == {assignment} {
      return Unique(assignment);
    }
    var other :| other in matched && other != assignment;
    assert |matched - {assignment} - {other}| == |matched| - 2;
    return Ambiguous(matched);
  }

  /** The one assignment that covers the path, if there is exactly one. */
  ghost function OwnerOf(env: Environment, groups: seq<Group>, path: Path): (owner: Option<Assignment>)
    ensures forall a :: owner == Some(a) <==> Owners(env, groups, path) == {a}
    ensures owner.Some? <==> |Owners(env, groups, path)| == 1
  {
    var owners := Owners(env, groups, path);
    if |owners| == 1 then
      var a :| a in owners;
      assert |owners - {a}| == 0;
      assert owners == {a};
      Some(a)
    else
      assert forall a :: owners == {a} ==> |owners| == 1;
      None
  }

  /** Ownership reports exactly that assignment, or how it fails to be one. */
  lemma OwnershipMeans(env: Environment, groups: seq<Group>, path: Path, o: Ownership)
    requires IsOwnership(env, groups, path, o)
    ensures forall a :: o == Unique(a) <==> OwnerOf(env, groups, path) == Some(a)
    ensures o.Ambiguous? <==> |Owners(env, groups, path)| >= 2
  {
    assert groups == [] ==> Owners(env, groups, path) == {};
  }

  /* ---- reserved roots ---- */

  const BUILD: Path := ["dsql", "build"]

  predicate Reserved(config: Config, excluded: seq<Path>, path: Path) {
    BUILD <= path || (exists i :: 0 <= i < |excluded| && excluded[i] <= path) || exists i ::
        0 <= i < |config.outputs| && config.outputs[i] <= path
  }

  /** A reserved root lies beside the project's own directory. */
  predicate ValidRoot(root: Path) {
    root != [] && !(root <= ["dsql"]) && !(["dsql"] <= root)
  }

  predicate ValidRoots(env: Environment, config: Config, roots: seq<Path>) {
    forall i :: 0 <= i < |roots| ==> ValidRoot(roots[i]) && env.rootFits(config, roots[i])
  }

  /* ---- documents ---- */

  predicate Selected(env: Environment, config: Config, excluded: seq<Path>, path: Path, i: nat) {
    i < |config.groups| && Covers(env, config.groups[i], path) && !Reserved(config, excluded, path)
  }

  /** Two groups may not select the same file, even with the same assignment. */
  ghost predicate Contested(env: Environment, config: Config, excluded: seq<Path>, disk: Disk, n: nat) {
    exists p, i: nat, j: nat ::
        p in disk.files && i < j < n && Selected(env, config, excluded, p, i) && Selected(env, config, excluded, p, j)
  }

  /** A document on the disk: its text and the assignment of its group. */
  ghost predicate IsDocument(env: Environment, config: Config, excluded: seq<Path>, disk: Disk, n: nat, path: Path,
                             document: Document)
  {
    && path in disk.files && document.text == disk.files[path]
    && exists i: nat ::
         i < n && Selected(env, config, excluded, path, i) && document.assignment == AssignmentOf(config.groups[i])
  }

  /** The documents are exactly those the first `n` groups select, each file once. */
  ghost predicate AreDocuments(env: Environment, config: Config, excluded: seq<Path>, disk: Disk, n: nat,
                               documents: map<Path, Document>)
  {
    && !Contested(env, config, excluded, disk, n)
    && (forall p :: p in documents ==> IsDocument(env, config, excluded, disk, n, p, documents[p]))
    && forall p, i: nat :: p in disk.files && i < n && Selected(env, config, excluded, p, i) ==> p in documents
  }

  /* ---- the walk below a configured path ---- */

  function Nodes(disk: Disk): set<Path> {
    disk.files.Keys + disk.directories
  }

  function Children(disk: Disk, directory: Path): set<Path> {
    set p | p in Nodes(disk) && directory <= p && |p| == |directory| + 1
  }

  /** Nothing on the stack lies below anything else on it. */
  predicate Incomparable(stack: seq<Path>) {
    forall i, j :: 0 <= i < |stack| && 0 <= j < |stack| && i != j ==> !(stack[i] <= stack[j])
  }

  /** What is still to be visited. */
  function Ahead(disk: Disk, stack: seq<Path>): set<Path> {
    set p | p in Nodes(disk) && exists i :: 0 <= i < |stack| && stack[i] <= p
  }

  /** A set in some order. */
  method Listing(paths: set<Path>) returns (listed: seq<Path>)
    ensures (forall p :: p in listed <==> p in paths) && forall i, j :: 0 <= i < j < |listed| ==> listed[i] != listed[j]
  {
    listed := [];
    var rest := paths;
    while rest != {}
      invariant forall p :: p in paths <==> p in listed || p in rest
      invariant forall p :: p in listed ==> p !in rest
      invariant forall i, j :: 0 <= i < j < |listed| ==> listed[i] != listed[j]
      decreases rest
    {
      var p :| p in rest;
      listed, rest := listed + [p], rest - {p};
    }
  }

  /** Replacing a path on the stack by its children keeps the stack incomparable and leaves less ahead. */
  lemma Descends(disk: Disk, stack: seq<Path>, current: Path, children: seq<Path>)
    requires Incomparable(stack + [current]) && (forall p :: p in children ==> p in Children(disk, current))
    requires forall i, j :: 0 <= i < j < |children| ==> children[i] != children[j]
    ensures Incomparable(stack + children)
    ensures Ahead(disk, stack + children) <= Ahead(disk, stack + [current])
    ensures current in Nodes(disk) ==>
              current !in Ahead(disk, stack + children) && current in Ahead(disk, stack + [current])
  {
    var before, after := stack + [current], stack + children;
    forall i, j | 0 <= i < |after| && 0 <= j < |after| && i != j ensures !(after[i] <= after[j]) {
      Unrelated(disk, stack, current, children, i, j);
    }
    forall i | 0 <= i < |after| ensures !(after[i] <= current) {
      if i < |stack| {
        assert before[i] == stack[i] && before[|stack|] == current;
      } else {
        assert children[i - |stack|] in children;
      }
    }
    forall p | p in Ahead(disk, after) ensures p in Ahead(disk, before) {
      var i :| 0 <= i < |after| && after[i] <= p;
      if i < |stack| {
        assert before[i] <= p;
      } else {
        assert children[i - |stack|] in children && after[i] == children[i - |stack|];
        assert before[|stack|] <= p;
      }
    }
    assert before[|stack|] <= current;
  }

  lemma Unrelated(disk: Disk, stack: seq<Path>, current: Path, children: seq<Path>, i: nat, j: nat)
    requires Incomparable(stack + [current]) && (forall p :: p in children ==> p in Children(disk, current))
    requires forall k, l :: 0 <= k < l < |children| ==> children[k] != children[l]
    requires i < |stack + children| && j < |stack + children| && i != j
    ensures !((stack + children)[i] <= (stack + children)[j])
  {
    var before, n := stack + [current], |stack|;
    assert before[n] == current;
    if i < n && j < n {
      assert before[i] == stack[i] && before[j] == stack[j];
    } else if i < n {
      var child := children[j - n];
      assert child in children && before[i] == stack[i];
    } else if j < n {
      var child := children[i - n];
      assert child in children && before[j] == stack[j];
    } else {
      var child, other := children[i - n], children[j - n];
      assert child in children && other in children;
      assert child <= other ==> child == other;
    }
  }

  /** A file of the walk is collected, or lies ahead. */
  ghost predicate Walking(env: Environment, config: Config, excluded: seq<Path>, disk: Disk, pattern: string,
                          stack: seq<Path>, files: set<Path>)
  {
    && (forall p :: p in files ==> p in disk.files && Matches(env, pattern, p) && !Reserved(config, excluded, p))
    && (forall p :: p in disk.files && Matches(env, pattern, p) && !Reserved(config, excluded, p) ==>
        p in files || p in Ahead(disk, stack))
    && Incomparable(stack) && forall i :: 0 <= i < |stack| ==> env.prefix(pattern) <= stack[i]
  }

  lemma ReservedBelow(config: Config, excluded: seq<Path>, above: Path, below: Path)
    requires above <= below && Reserved(config, excluded, above)
    ensures Reserved(config, excluded, below)
  {
    if i :| 0 <= i < |excluded| && excluded[i] <= above {
      assert excluded[i] <= below;
    } else if i :| 0 <= i < |config.outputs| && config.outputs[i] <= above {
      assert config.outputs[i] <= below;
    }
  }

  /** A file below a path is the path itself, or lies below one of its children, and then the path is a directory. */
  lemma BelowPath(disk: Disk, current: Path, p: Path)
    requires TreeShaped(disk) && p in disk.files && current <= p
    ensures p == current
            || (current in disk.directories && current !in disk.files && exists child ::
                child in Children(disk, current) && child <= p)
  {
    if p != current {
      var child := p[..|current| + 1];
      assert p[..|current|] == current && child[..|current|] == current;
      assert |current| + 1 < |p| ==> child in disk.directories;
      assert |current| + 1 == |p| ==> child == p;
      assert child in Children(disk, current) && child <= p;
    }
  }

  lemma AheadAfter(disk: Disk, stack: seq<Path>, current: Path, children: seq<Path>, p: Path)
    requires p in Ahead(disk, stack + [current]) && (current <= p ==> exists child :: child in children && child <= p)
    ensures p in Ahead(disk, stack + children)
  {
    var before, after := stack + [current], stack + children;
    var i :| 0 <= i < |before| && before[i] <= p;
    if i < |stack| {
      assert after[i] <= p;
    } else {
      var child :| child in children && child <= p;
      var k :| 0 <= k < |children| && children[k] == child;
      assert after[|stack| + k] <= p;
    }
  }

  /** What visiting a path adds, and what it puts on the stack. */
  method Visit(env: Environment, config: Config, excluded: seq<Path>, disk: Disk, pattern: string, current: Path)
    returns (found: set<Path>, children: seq<Path>)
    requires TreeShaped(disk) && env.prefix(pattern) <= current
    ensures forall p :: p in found <==>
              p == current && p in disk.files && Matches(env, pattern, p) && !Reserved(config, excluded, p)
    ensures (forall p :: p in children ==> p in Children(disk, current)) && forall i, j :: 0 <= i < j < |children| ==>
              children[i] != children[j]
    ensures current in disk.directories && !Reserved(config, excluded, current) ==>
              forall p :: p in Children(disk, current) ==> p in children
    ensures current !in disk.directories ==> children == []
  {
    found, children := {}, [];
    if Reserved(config, excluded, current) {
      return;
    }
    if current in disk.files {
      if Matches(env, pattern, current) {
        found := {current};
      }
    } else if current in disk.directories {
      children := Listing(Children(disk, current));
    }
  }

  lemma VisitKeeps(env: Environment, config: Config, excluded: seq<Path>, disk: Disk, pattern: string, stack: seq<Path>,
                   current: Path,
                   files: set<Path>, found: set<Path>, children: seq<Path>)
    requires TreeShaped(disk) && Walking(env, config, excluded, disk, pattern, stack + [current], files)
    requires forall p :: p in found <==>
               p == current && p in disk.files && Matches(env, pattern, p) && !Reserved(config, excluded, p)
    requires (forall p :: p in children ==> p in Children(disk, current)) && forall i, j :: 0 <= i < j < |children| ==>
               children[i] != children[j]
    requires current in disk.directories && !Reserved(config, excluded, current) ==>
               forall p :: p in Children(disk, current) ==> p in children
    ensures Walking(env, config, excluded, disk, pattern, stack + children, files + found)
  {
    var before, after := stack + [current], stack + children;
    Descends(disk, stack, current, children);
    assert before[|stack|] == current;
    forall i | 0 <= i < |after| ensures env.prefix(pattern) <= after[i] {
      if i < |stack| {
        assert before[i] == stack[i];
      } else {
        assert children[i - |stack|] in children && current <= children[i - |stack|];
      }
    }
    forall p | p in disk.files && Matches(env, pattern, p) && !Reserved(config, excluded, p) && p !in files + found
      ensures p in Ahead(disk, after)
    {
      if current <= p {
        BelowPath(disk, current, p);
        if Reserved(config, excluded, current) {
          ReservedBelow(config, excluded, current, p);
        }
        var child :| child in Children(disk, current) && child <= p;
        assert child in children;
      }
      AheadAfter(disk, stack, current, children, p);
    }
  }

  /** The walk from the static prefix down, pruned at reserved roots. */
  method CollectConfiguredPath(env: Environment, config: Config, excluded: seq<Path>, disk: Disk, pattern: string)
    returns (files: set<Path>)
    requires TreeShaped(disk)
    ensures forall p :: p in files <==> p in disk.files && Matches(env, pattern, p) && !Reserved(config, excluded, p)
  {
    var stack := [env.prefix(pattern)];
    files := {};
    assert stack[0] == env.prefix(pattern);
    while stack != []
      invariant Walking(env, config, excluded, disk, pattern, stack, files)
      decreases Ahead(disk, stack), |stack|
    {
      var n := |stack| - 1;
      var current, rest := stack[n], stack[..n];
      assert stack == rest + [current];
      var found, children := Visit(env, config, excluded, disk, pattern, current);
      VisitKeeps(env, config, excluded, disk, pattern, rest, current, files, found, children);
      Descends(disk, rest, current, children);
      files, stack := files + found, rest + children;
    }
  }

  /* ---- the cold load ---- */

  /** One more group without a contested file. */
  lemma GroupAdded(env: Environment, config: Config, excluded: seq<Path>, disk: Disk, n: nat,
                   owned: map<Path, Document>, files: set<Path>, more: map<Path, Document>)
    requires n < |config.groups| && AreDocuments(env, config, excluded, disk, n, owned)
    requires forall p :: p in files <==> p in disk.files && Selected(env, config, excluded, p, n)
    requires forall p :: p in files ==> p !in owned
    requires more == owned + map p | p in files :: Document(AssignmentOf(config.groups[n]), disk.files[p])
    ensures AreDocuments(env, config, excluded, disk, n + 1, more)
  {
    GroupUncontested(env, config, excluded, disk, n, owned, files);
    forall p | p in more ensures IsDocument(env, config, excluded, disk, n + 1, p, more[p]) {
      if p !in files {
        var i: nat :| i < n && Selected(env, config, excluded, p, i)
            && owned[p].assignment == AssignmentOf(config.groups[i]);
      } else {
        assert Selected(env, config, excluded, p, n);
      }
    }
  }

  lemma GroupUncontested(env: Environment, config: Config, excluded: seq<Path>, disk: Disk, n: nat,
                         owned: map<Path, Document>, files: set<Path>)
    requires n < |config.groups| && AreDocuments(env, config, excluded, disk, n, owned)
    requires forall p :: p in files <==> p in disk.files && Selected(env, config, excluded, p, n)
    requires forall p :: p in files ==> p !in owned
    ensures !Contested(env, config, excluded, disk, n + 1)
  {
    forall p, i: nat, j: nat | p in disk.files && i < j < n + 1 && Selected(env, config, excluded, p, i)
      ensures !Selected(env, config, excluded, p, j)
    {
      assert p in owned;
      assert j == n ==> p !in files;
      assert j < n ==> !Contested(env, config, excluded, disk, n);
    }
  }

  /** The cold load's loop over document groups; a contested file is an error. */
  method LoadDocuments(env: Environment, config: Config, excluded: seq<Path>, disk: Disk)
    returns (r: Option<map<Path, Document>>)
    requires TreeShaped(disk)
    ensures r.Some? ==> AreDocuments(env, config, excluded, disk, |config.groups|, r.value)
    ensures r.None? ==> Contested(env, config, excluded, disk, |config.groups|)
  {
    var owned: map<Path, Document> := map[];
    for n := 0 to |config.groups|
      invariant AreDocuments(env, config, excluded, disk, n, owned)
    {
      var files := SelectedFiles(env, config, excluded, disk, n);
      if p :| p in files && p in owned {
        OwnedTwice(env, config, excluded, disk, n, p, owned[p]);
        return None;
      }
      var more := owned + map p | p in files :: Document(AssignmentOf(config.groups[n]), disk.files[p]);
      GroupAdded(env, config, excluded, disk, n, owned, files, more);
      owned := more;
    }
    return Some(owned);
  }

  lemma OwnedTwice(env: Environment, config: Config, excluded: seq<Path>, disk: Disk, n: nat, p: Path,
                   document: Document)
    requires IsDocument(env, config, excluded, disk, n, p, document) && Selected(env, config, excluded, p, n)
    ensures Contested(env, config, excluded, disk, |config.groups|)
  {
    var i: nat :| i < n && Selected(env, config, excluded, p, i)
        && document.assignment == AssignmentOf(config.groups[i]);
  }

  /** One group's files: those below each of its configured paths, without reserved ones. */
  method SelectedFiles(env: Environment, config: Config, excluded: seq<Path>, disk: Disk, n: nat)
    returns (files: set<Path>)
    requires TreeShaped(disk) && n < |config.groups|
    ensures forall p :: p in files <==> p in disk.files && Selected(env, config, excluded, p, n)
  {
    var group := config.groups[n];
    files := {};
    for i := 0 to |group.patterns|
      invariant forall p :: p in files <==>
        p in disk.files && !Reserved(config, excluded, p) && exists k ::
            0 <= k < i && Matches(env, group.patterns[k], p)
    {
      var more := CollectConfiguredPath(env, config, excluded, disk, group.patterns[i]);
      files := files + more;
    }
  }

  /** Documents are determined by the disk. */
  lemma DocumentsUnique(env: Environment, config: Config, excluded: seq<Path>, disk: Disk, n: nat,
                        a: map<Path, Document>, b: map<Path, Document>)
    requires AreDocuments(env, config, excluded, disk, n, a) && AreDocuments(env, config, excluded, disk, n, b)
    ensures a == b
  {
    forall p ensures (p in a <==> p in b) && (p in a ==> a[p] == b[p]) {
      if p in a {
        assert IsDocument(env, config, excluded, disk, n, p, a[p]);
        var i: nat :| i < n && Selected(env, config, excluded, p, i)
            && a[p].assignment == AssignmentOf(config.groups[i]);
        var j: nat :| j < n && Selected(env, config, excluded, p, j)
            && b[p].assignment == AssignmentOf(config.groups[j]);
      }
      if p in b {
        assert IsDocument(env, config, excluded, disk, n, p, b[p]);
      }
    }
  }
}
