/**
  The filter match lock: its canonical form, the nested sets it denotes, and its
  assembly from the resolved policies of every scope.
 */
module MatchLock {
  import opened DerivedOrder
  import opened KeyOrder
  import opened ScopeGraph
  import opened Sorting
  import opened Wrappers

  const LOCK_VERSION: nat := 1

  datatype Reference = Reference(scope: string, name: string)

  datatype Match = Match(target: string, fields: map<string, string>)

  datatype Filter = Filter(scope: string, definedIn: string, name: string, conditions: seq<Reference>,
                           matches: seq<Match>)

  datatype Lock = Lock(version: nat, filters: seq<Filter>)

  /* ---- the derived orders, field by field ---- */

  function ReferenceRank(r: Reference): seq<int> {
    StringRank(r.scope) + StringRank(r.name)
  }

  function MatchRank(m: Match): seq<int> {
    StringRank(m.target) + MapRank(m.fields)
  }

  function ListsRank(f: Filter): seq<int> {
    ListRank(f.conditions, ReferenceRank) + ListRank(f.matches, MatchRank)
  }

  function FilterRank(f: Filter): seq<int> {
    StringRank(f.scope) + (StringRank(f.definedIn) + (StringRank(f.name) + ListsRank(f)))
  }

  lemma ReferencesPrefixFree()
    ensures PrefixFree(ReferenceRank)
  {
    StringsPrefixFree();
    forall x, y | ReferenceRank(x) <= ReferenceRank(y) ensures x == y {
      JoinedPrefix(StringRank(x.scope), StringRank(x.name), StringRank(y.scope), StringRank(y.name));
    }
  }

  lemma MatchesPrefixFree()
    ensures PrefixFree(MatchRank)
  {
    StringsPrefixFree();
    MapsPrefixFree();
    forall x, y | MatchRank(x) <= MatchRank(y) ensures x == y {
      JoinedPrefix(StringRank(x.target), MapRank(x.fields), StringRank(y.target), MapRank(y.fields));
    }
  }

  lemma ListsPrefix(x: Filter, y: Filter)
    requires ListsRank(x) <= ListsRank(y)
    ensures x.conditions == y.conditions && x.matches == y.matches
  {
    ReferencesPrefixFree();
    MatchesPrefixFree();
    var a, b := ListRank(x.conditions, ReferenceRank), ListRank(y.conditions, ReferenceRank);
    JoinedPrefix(a, ListRank(x.matches, MatchRank), b, ListRank(y.matches, MatchRank));
    if a <= b {
      ListPrefixFree(x.conditions, y.conditions, ReferenceRank);
    } else {
      ListPrefixFree(y.conditions, x.conditions, ReferenceRank);
    }
    ListPrefixFree(x.matches, y.matches, MatchRank);
  }

  /** The order of filters tells any two different filters apart. */
  lemma FiltersPrefixFree()
    ensures PrefixFree(FilterRank)
  {
    StringsPrefixFree();
    forall x, y | FilterRank(x) <= FilterRank(y) ensures x == y {
      var xName, yName := StringRank(x.name) + ListsRank(x), StringRank(y.name) + ListsRank(y);
      JoinedPrefix(StringRank(x.scope), StringRank(x.definedIn) + xName, StringRank(y.scope),
                   StringRank(y.definedIn) + yName);
      assert x.scope == y.scope;
      JoinedPrefix(StringRank(x.definedIn), xName, StringRank(y.definedIn), yName);
      assert x.definedIn == y.definedIn;
      JoinedPrefix(StringRank(x.name), ListsRank(x), StringRank(y.name), ListsRank(y));
      assert x.name == y.name;
      ListsPrefix(x, y);
    }
  }

  /* ---- the canonical form ---- */

  function CanonicalFilter(f: Filter): Filter {
    f.(conditions := Canonical(f.conditions, ReferenceRank), matches := Canonical(f.matches, MatchRank))
  }

  function CanonicalFilters(filters: seq<Filter>): (r: seq<Filter>)
    ensures |r| == |filters| && forall i :: 0 <= i < |filters| ==> r[i] == CanonicalFilter(filters[i])
  {
    seq(|filters|, i requires 0 <= i < |filters| => CanonicalFilter(filters[i]))
  }

  function CanonicalLock(lock: Lock): Lock {
    lock.(filters := Canonical(CanonicalFilters(lock.filters), FilterRank))
  }

  /* ---- what a lock denotes ---- */

  datatype Pin = Pin(scope: string, definedIn: string, name: string, conditions: set<Reference>, matches: set<Match>)

  function PinOf(f: Filter): Pin {
    Pin(f.scope, f.definedIn, f.name, Items(f.conditions), Items(f.matches))
  }

  function Denotation(lock: Lock): set<Pin> {
    set f | f in lock.filters :: PinOf(f)
  }

  /** Two filters have one canonical form exactly when they denote the same pin. */
  lemma CanonicalFilterExact(f: Filter, g: Filter)
    ensures CanonicalFilter(f) == CanonicalFilter(g) <==> PinOf(f) == PinOf(g)
    ensures PinOf(CanonicalFilter(f)) == PinOf(f)
  {
    ReferencesPrefixFree();
    MatchesPrefixFree();
    PrefixFreeIsInjective(ReferenceRank);
    PrefixFreeIsInjective(MatchRank);
    CanonicalOfSet(f.conditions, g.conditions, ReferenceRank);
    CanonicalOfSet(f.matches, g.matches, MatchRank);
  }

  lemma PinDenoted(lock: Lock, f: Filter)
    ensures CanonicalFilter(f) in CanonicalFilters(lock.filters) <==> PinOf(f) in Denotation(lock)
  {
    if CanonicalFilter(f) in CanonicalFilters(lock.filters) {
      var i :| 0 <= i < |lock.filters| && CanonicalFilter(lock.filters[i]) == CanonicalFilter(f);
      CanonicalFilterExact(lock.filters[i], f);
    }
    if PinOf(f) in Denotation(lock) {
      var g :| g in lock.filters && PinOf(g) == PinOf(f);
      CanonicalFilterExact(g, f);
      var i :| 0 <= i < |lock.filters| && lock.filters[i] == g;
      assert CanonicalFilters(lock.filters)[i] == CanonicalFilter(f);
    }
  }

  /** Two locks of one version have one canonical form exactly when they denote the same nested sets. */
  lemma CanonicalLockExact(a: Lock, b: Lock)
    requires a.version == b.version
    ensures CanonicalLock(a) == CanonicalLock(b) <==> Denotation(a) == Denotation(b)
  {
    FiltersPrefixFree();
    PrefixFreeIsInjective(FilterRank);
    var ca, cb := CanonicalFilters(a.filters), CanonicalFilters(b.filters);
    CanonicalExact(ca, cb, FilterRank);
    if Denotation(a) == Denotation(b) {
      ContainsAs(a, b);
      ContainsAs(b, a);
    }
    if CanonicalLock(a) == CanonicalLock(b) {
      DenotesAs(a, b);
      DenotesAs(b, a);
    }
  }

  lemma ContainsAs(a: Lock, b: Lock)
    requires Denotation(a) <= Denotation(b)
    ensures forall f :: f in CanonicalFilters(a.filters) ==> f in CanonicalFilters(b.filters)
  {
    forall f | f in CanonicalFilters(a.filters) ensures f in CanonicalFilters(b.filters) {
      var i :| 0 <= i < |a.filters| && CanonicalFilter(a.filters[i]) == f;
      PinDenoted(b, a.filters[i]);
      assert PinOf(a.filters[i]) in Denotation(a);
    }
  }

  lemma DenotesAs(a: Lock, b: Lock)
    requires forall f :: f in CanonicalFilters(a.filters) ==> f in CanonicalFilters(b.filters)
    ensures Denotation(a) <= Denotation(b)
  {
    forall pin | pin in Denotation(a) ensures pin in Denotation(b) {
      var f :| f in a.filters && PinOf(f) == pin;
      PinDenoted(a, f);
      PinDenoted(b, f);
    }
  }

  lemma CanonicalMembers(lock: Lock)
    ensures forall f :: f in CanonicalLock(lock).filters <==> f in CanonicalFilters(lock.filters)
  {
    FiltersPrefixFree();
    PrefixFreeIsInjective(FilterRank);
    CanonicalAscends(CanonicalFilters(lock.filters), FilterRank);
  }

  lemma CanonicalDenotes(lock: Lock, pin: Pin)
    ensures pin in Denotation(CanonicalLock(lock)) <==> pin in Denotation(lock)
  {
    CanonicalMembers(lock);
    if pin in Denotation(lock) {
      var f :| f in lock.filters && PinOf(f) == pin;
      PinDenoted(lock, f);
      CanonicalFilterExact(f, f);
    }
    if pin in Denotation(CanonicalLock(lock)) {
      var f :| f in CanonicalLock(lock).filters && PinOf(f) == pin;
      var i :| 0 <= i < |lock.filters| && CanonicalFilters(lock.filters)[i] == f;
      CanonicalFilterExact(lock.filters[i], lock.filters[i]);
    }
  }

  /** Canonicalizing changes no pin. */
  lemma CanonicalKeepsDenotation(lock: Lock)
    ensures Denotation(CanonicalLock(lock)) == Denotation(lock)
  {
    forall pin ensures pin in Denotation(CanonicalLock(lock)) <==> pin in Denotation(lock) {
      CanonicalDenotes(lock, pin);
    }
  }

  /** Canonicalizing twice is canonicalizing once. */
  lemma CanonicalLockIdempotent(lock: Lock)
    ensures CanonicalLock(CanonicalLock(lock)) == CanonicalLock(lock)
  {
    CanonicalKeepsDenotation(lock);
    CanonicalLockExact(CanonicalLock(lock), lock);
  }

  /* ---- canonicalizing in place ---- */

  class FilterMatchLock {
    var version: nat
    var filters: seq<Filter>

    constructor (lock: Lock)
      ensures Value() == lock
    {
      version, filters := lock.version, lock.filters;
    }

    function Value(): Lock
      reads this
    {
      Lock(version, filters)
    }

    method Canonicalize()
      modifies this
      ensures Value() == CanonicalLock(old(Value()))
    {
      var i := 0;
      ghost var canonical := CanonicalFilters(filters);
      while i < |filters|
        invariant 0 <= i <= |filters| == |canonical| && version == old(version)
        invariant forall k :: 0 <= k < i ==> filters[k] == canonical[k]
        invariant forall k :: i <= k < |filters| ==> filters[k] == old(filters)[k]
      {
        filters := filters[i := CanonicalFilter(filters[i])];
        i := i + 1;
      }
      assert filters == canonical;
      filters := Canonical(filters, FilterRank);
    }
  }

  /* ---- assembly ---- */

  datatype Kind = FilterPolicy | ConditionPolicy

  datatype Resolved = Resolved(entity: nat, scope: string, kind: Kind, targetFields: seq<Entry>)

  datatype Compiled = Compiled(entity: nat, scope: string, name: string, conditions: seq<Reference>, targets: seq<nat>)

  /** Tables that are not in the catalog pin nothing. */
  datatype Project = Project(tables: map<nat, string>, resolution: seq<Resolved>, compiled: seq<Compiled>,
                             imports: Graph)

  function Resolution(resolution: seq<Resolved>, entity: nat): Option<Resolved> {
    if resolution == [] then None
    else if resolution[0].entity == entity then Some(resolution[0])
    else Resolution(resolution[1..], entity)
  }

  function FieldMap(fields: seq<Entry>): map<string, string> {
    if fields == [] then map[]
    else
      var n := |fields| - 1;
      FieldMap(fields[..n])[fields[n].key := fields[n].value]
  }

  function MatchesOf(tables: map<nat, string>, targets: seq<nat>, fields: map<string, string>): seq<Match> {
    if targets == [] then []
    else (if targets[0] in tables then [Match(tables[targets[0]], fields)] else [])
         + MatchesOf(tables, targets[1..], fields)
  }

  predicate PinsFilter(project: Project, entry: Compiled) {
    var resolved := Resolution(project.resolution, entry.entity);
    resolved.Some? && resolved.value.kind == FilterPolicy
  }

  function FilterAt(project: Project, scope: string, entry: Compiled): Filter
    requires PinsFilter(project, entry)
  {
    var fields := FieldMap(Resolution(project.resolution, entry.entity).value.targetFields);
    Filter(scope, entry.scope, entry.name, entry.conditions,
           Canonical(MatchesOf(project.tables, entry.targets, fields), MatchRank))
  }

  function FiltersAt(project: Project, scope: string, visible: set<string>, entries: seq<Compiled>): seq<Filter> {
    if entries == [] then []
    else
      var n := |entries| - 1;
      FiltersAt(project, scope, visible, entries[..n])
      + if entries[n].scope in visible
          && PinsFilter(project, entries[n]) then [FilterAt(project, scope, entries[n])] else []
  }

  function ScopesOf(project: Project): set<string> {
    project.imports.Keys + set r | r in project.resolution :: r.scope
  }

  function FiltersOf(project: Project, scope: string): seq<Filter> {
    FiltersAt(project, scope, Elements(VisibleFrom(project.imports, scope)), project.compiled)
  }

  function FiltersIn(project: Project, scopes: seq<string>): seq<Filter> {
    if scopes == [] then []
    else
      var n := |scopes| - 1;
      FiltersIn(project, scopes[..n]) + FiltersOf(project, scopes[n])
  }

  function Assembled(project: Project): Lock {
    CanonicalLock(Lock(LOCK_VERSION, FiltersIn(project, Sorted(Native, ScopesOf(project)))))
  }

  /** The policy entry is a filter that the scope sees through its imports. */
  ghost predicate Sees(project: Project, scope: string, entry: Compiled) {
    scope in ScopesOf(project) && entry in project.compiled && PinsFilter(project, entry)
        && Reaches(project.imports, scope, entry.scope)
  }

  lemma {:induction false} FilterListedAt(project: Project, scope: string, visible: set<string>, entries: seq<Compiled>,
                                          f: Filter)
    ensures f in FiltersAt(project, scope, visible, entries) <==>
            exists e :: e in entries && e.scope in visible && PinsFilter(project, e) && f == FilterAt(project, scope, e)
  {
    if entries != [] {
      var n := |entries| - 1;
      FilterListedAt(project, scope, visible, entries[..n], f);
      assert entries == entries[..n] + [entries[n]];
    }
  }

  lemma {:induction false} FilterListedIn(project: Project, scopes: seq<string>, f: Filter)
    ensures f in FiltersIn(project, scopes) <==> exists i :: 0 <= i < |scopes| && f in FiltersOf(project, scopes[i])
  {
    if scopes != [] {
      var n := |scopes| - 1;
      FilterListedIn(project, scopes[..n], f);
      assert f in FiltersIn(project, scopes) <==>
               f in FiltersIn(project, scopes[..n]) || f in FiltersOf(project, scopes[n]);
      assert forall i :: 0 <= i < n ==> scopes[..n][i] == scopes[i];
    }
  }

  /** The assembled lock is canonical and pins exactly the filters that each scope sees. */
  lemma AssembledExact(project: Project)
    ensures Assembled(project).version == LOCK_VERSION && CanonicalLock(Assembled(project)) == Assembled(project)
    ensures forall pin :: pin in Denotation(Assembled(project)) <==>
              exists scope, entry :: Sees(project, scope, entry) && pin == PinOf(FilterAt(project, scope, entry))
  {
    var scopes := Sorted(Native, ScopesOf(project));
    var lock := Lock(LOCK_VERSION, FiltersIn(project, scopes));
    CanonicalLockIdempotent(lock);
    CanonicalKeepsDenotation(lock);
    forall pin ensures pin in Denotation(lock) <==>
      exists scope, entry :: Sees(project, scope, entry) && pin == PinOf(FilterAt(project, scope, entry))
    {
      if pin in Denotation(lock) {
        var f :| f in lock.filters && PinOf(f) == pin;
        FilterListedIn(project, scopes, f);
        var i :| 0 <= i < |scopes| && f in FiltersOf(project, scopes[i]);
        var scope := scopes[i];
        FilterListedAt(project, scope, Elements(VisibleFrom(project.imports, scope)), project.compiled, f);
        VisibleIsReachable(project.imports, scope);
      }
      if scope, entry :| Sees(project, scope, entry) && pin == PinOf(FilterAt(project, scope, entry)) {
        var f := FilterAt(project, scope, entry);
        VisibleIsReachable(project.imports, scope);
        FilterListedAt(project, scope, Elements(VisibleFrom(project.imports, scope)), project.compiled, f);
        var i :| 0 <= i < |scopes| && scopes[i] == scope;
        assert f in FiltersOf(project, scopes[i]);
        FilterListedIn(project, scopes, f);
      }
    }
  }

  lemma {:induction false} MatchListed(tables: map<nat, string>, targets: seq<nat>, fields: map<string, string>,
                                       m: Match)
    ensures m in MatchesOf(tables, targets, fields) <==>
            m.fields == fields && exists t :: t in targets && t in tables && tables[t] == m.target
  {
    if targets != [] {
      MatchListed(tables, targets[1..], fields, m);
      assert targets == [targets[0]] + targets[1..];
    }
  }

  /**
    A pin matches exactly the catalog tables among the entry's targets, each with the
    fields of the entry's resolution.
   */
  lemma PinnedMatches(project: Project, scope: string, entry: Compiled, m: Match)
    requires PinsFilter(project, entry)
    ensures m in PinOf(FilterAt(project, scope, entry)).matches <==>
            && m.fields == FieldMap(Resolution(project.resolution, entry.entity).value.targetFields)
            && exists t :: t in entry.targets && t in project.tables && project.tables[t] == m.target
  {
    var fields := FieldMap(Resolution(project.resolution, entry.entity).value.targetFields);
    var matches := MatchesOf(project.tables, entry.targets, fields);
    MatchListed(project.tables, entry.targets, fields, m);
    MatchesPrefixFree();
    PrefixFreeIsInjective(MatchRank);
    CanonicalOfSet(matches, matches, MatchRank);
    assert m in Items(matches) <==> m in matches;
  }

  method AssembleFilters(project: Project, scope: string, visible: set<string>) returns (filters: seq<Filter>)
    ensures filters == FiltersAt(project, scope, visible, project.compiled)
  {
    filters := [];
    var i := 0;
    while i < |project.compiled|
      invariant 0 <= i <= |project.compiled|
      invariant filters == FiltersAt(project, scope, visible, project.compiled[..i])
    {
      var entry := project.compiled[i];
      assert project.compiled[..i + 1][..i] == project.compiled[..i];
      if entry.scope in visible && PinsFilter(project, entry) {
        filters := filters + [FilterAt(project, scope, entry)];
      }
      i := i + 1;
    }
    assert project.compiled[..i] == project.compiled;
  }

  method AssembleFilterMatchLock(project: Project) returns (lock: Lock)
    ensures lock == Assembled(project)
  {
    var scopes := Sorted(Native, ScopesOf(project));
    var filters: seq<Filter> := [];
    var i := 0;
    while i < |scopes|
      invariant 0 <= i <= |scopes|
      invariant filters == FiltersIn(project, scopes[..i])
    {
      var search := new VisibilitySearch(project.imports);
      search.Collect(scopes[i]);
      var found := AssembleFilters(project, scopes[i], Elements(search.visible));
      assert scopes[..i + 1][..i] == scopes[..i];
      filters := filters + found;
      i := i + 1;
    }
    assert scopes[..i] == scopes;
    var document := new FilterMatchLock(Lock(LOCK_VERSION, filters));
    document.Canonicalize();
    lock := document.Value();
  }
}
