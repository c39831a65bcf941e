/**
  The resident documents after a batch are the documents of a cold load of the
  changed disk, when the batch names every changed path or a directory above it.
 */
module WarmAgreement {
  import opened DaemonSession
  import opened ProjectDocuments
  import opened Wrappers

  predicate Changed(before: Disk, after: Disk, p: Path) {
    TextAt(before, p) != TextAt(after, p)
  }

  /** A still disk, no path that switched between file and directory, and every change named. */
  ghost predicate Named(before: Disk, after: Disk, paths: seq<Path>) {
    && TreeShaped(before) && TreeShaped(after)
    && (forall p :: !(p in before.files && p in after.directories) && !(p in before.directories && p in after.files))
    && (forall p :: Changed(before, after, p) ==> exists i :: 0 <= i < |paths| && paths[i] <= p)
  }

  /**
    A path that two groups select has two owners: groups of one scope and resolver
    select no common path.  Configuration and catalog paths reload anyway.
   */
  ghost predicate TwinsApart(env: Environment, config: Config, excluded: seq<Path>) {
    forall p, i: nat, j: nat ::
      !ConfigPath(p) && p != LOCK_FILE && i < j && Selected(env, config, excluded, p, i)
          && Selected(env, config, excluded, p, j) ==>
        |Owners(env, config.groups, p)| >= 2
  }

  /** The match lock is a file at most, and no document group selects it. */
  ghost predicate LockApart(v: View, before: Disk) {
    LOCK_FILE !in v.disk.directories && LOCK_FILE !in before.directories && LockUnselected(v.env, v.config, v.excluded)
  }

  ghost predicate LockUnselected(env: Environment, config: Config, excluded: seq<Path>) {
    forall i: nat :: !Selected(env, config, excluded, LOCK_FILE, i)
  }

  lemma ProjectPathOpen(env: Environment, config: Config, excluded: seq<Path>, p: Path)
    requires ValidRoots(env, config, config.outputs) && ValidRoots(env, config, excluded)
    requires p == [] || p == ["dsql"] || p == CONFIG_FILE || CatalogPath(p)
    ensures !Reserved(config, excluded, p)
  {
    if |p| >= 1 {
      assert p[0] == "dsql";
      assert ["dsql"] <= p;
    }
    forall root ensures !(ValidRoot(root) && root <= p) {
      assert root != [] && root <= p ==> root[0] == p[0];
      assert root != [] && root[0] == "dsql" ==> ["dsql"] <= root;
    }
    if |p| >= 2 {
      assert p[1] != "build";
    }
  }

  lemma AboveProjectPath(above: Path, p: Path)
    requires above <= p && (p == CONFIG_FILE || CatalogPath(p))
    ensures above == [] || above == ["dsql"] || above == CONFIG_FILE || CatalogPath(above)
  {
    if |above| == 1 {
      assert above[0] == p[0] == "dsql";
    } else if |above| >= 2 {
      assert above[0] == p[0] == "dsql" && above[1] == p[1];
      assert above[..2] == p[..2];
    }
  }

  /** Without a reload, configuration and catalog files are unchanged. */
  lemma ProjectUnchanged(v: View, before: Disk, paths: seq<Path>, p: Path)
    requires Named(before, v.disk, paths) && !AnyTriggers(v, paths)
    requires ValidRoots(v.env, v.config, v.config.outputs) && ValidRoots(v.env, v.config, v.excluded)
    requires p == CONFIG_FILE || CatalogPath(p)
    ensures !Changed(before, v.disk, p)
  {
    if Changed(before, v.disk, p) {
      var i :| 0 <= i < |paths| && paths[i] <= p;
      AboveProjectPath(paths[i], p);
      ProjectPathOpen(v.env, v.config, v.excluded, paths[i]);
      assert ["dsql"] <= paths[i] || paths[i] == [];
      assert Triggers(v, paths[i]);
      TriggerForces(v, paths, i);
    }
  }

  /** What stays the same: an unchanged path is not upserted. */
  lemma UnchangedKept(v: View, before: Disk, paths: seq<Path>, upserts: map<Path, string>, p: Path)
    requires AreDocuments(v.env, v.config, v.excluded, before, |v.config.groups|, v.documents)
    requires BatchUpserts(v, paths, upserts) && !Changed(before, v.disk, p)
    ensures p !in upserts
  {
    if p in upserts {
      UpsertFresh(v, paths, p);
      if p !in v.documents {
        var a := OwnerOf(v.env, v.config.groups, p).value;
        assert a in Owners(v.env, v.config.groups, p);
        var i: nat :| i < |v.config.groups| && Covers(v.env, v.config.groups[i], p);
        assert Selected(v.env, v.config, v.excluded, p, i);
      }
    }
  }

  lemma {:induction false} UpsertFresh(v: View, paths: seq<Path>, f: Path)
    requires AnyUpserts(v, paths, f)
    ensures Fresh(v, f) && !Reserved(v.config, v.excluded, f)
  {
    var n := |paths| - 1;
    if !Upserts(v, paths[n], f) {
      UpsertFresh(v, paths[..n], f);
    }
  }

  lemma PrefixCases(above: Path, p: Path)
    requires above <= p
    ensures above == p || (above < p && |above| < |p| && p[..|above|] == above)
  {
    if |above| == |p| {
      assert above == p[..|above|] == p;
    }
  }

  /** A changed path below the batch, as the classification of its batch path sees it. */
  lemma ChangedSeen(v: View, before: Disk, paths: seq<Path>, p: Path) returns (i: nat)
    requires Named(before, v.disk, paths) && !AnyTriggers(v, paths) && LockApart(v, before)
    requires Changed(before, v.disk, p) && !Reserved(v.config, v.excluded, p)
    ensures i < |paths| && paths[i] <= p && !Triggers(v, paths[i])
    ensures p == LOCK_FILE || (!Ignored(v, paths[i]) && !ConfigPath(paths[i]))
  {
    i :| 0 <= i < |paths| && paths[i] <= p;
    if Triggers(v, paths[i]) {
      TriggerForces(v, paths, i);
    }
    if Reserved(v.config, v.excluded, paths[i]) {
      ReservedBelow(v.config, v.excluded, paths[i], p);
    }
    PrefixCases(paths[i], p);
    assert p in v.disk.files || p in before.files;
  }

  lemma LockUnowned(v: View, before: Disk, p: Path)
    requires LockApart(v, before) && !Reserved(v.config, v.excluded, p) && Owners(v.env, v.config.groups, p) != {}
    ensures p != LOCK_FILE
  {
    var a :| a in Owners(v.env, v.config.groups, p);
    var i: nat :| i < |v.config.groups| && Covers(v.env, v.config.groups[i], p)
        && a == AssignmentOf(v.config.groups[i]);
    assert Selected(v.env, v.config, v.excluded, p, i);
  }

  /** A changed file that some group owns alone has been upserted. */
  lemma ChangedUpserted(v: View, before: Disk, paths: seq<Path>, upserts: map<Path, string>, p: Path)
    requires Named(before, v.disk, paths) && !AnyTriggers(v, paths) && LockApart(v, before)
             && BatchUpserts(v, paths, upserts)
    requires AreDocuments(v.env, v.config, v.excluded, before, |v.config.groups|, v.documents)
    requires Changed(before, v.disk, p) && !Reserved(v.config, v.excluded, p) && p in v.disk.files
             && Owners(v.env, v.config.groups, p) != {}
    ensures p in upserts && Relevant(v, p)
  {
    LockUnowned(v, before, p);
    var i := ChangedSeen(v, before, paths, p);
    var above := paths[i];
    PrefixCases(above, p);
    assert above != p ==> p[..|above|] in v.disk.directories;
    assert !AmbiguousAt(v, p) by {
      if AmbiguousAt(v, p) && above in v.disk.directories {
        assert Within(v, above, p);
      }
    }
    assert |Owners(v.env, v.config.groups, p)| != 0;
    assert Relevant(v, p);
    assert p in v.documents ==> IsDocument(v.env, v.config, v.excluded, before, |v.config.groups|, p, v.documents[p]);
    assert Upserts(v, above, p);
    UpsertHappens(v, paths, i, p);
  }

  /** A file that is gone was not a resident document. */
  lemma RemovedUnknown(v: View, before: Disk, paths: seq<Path>, p: Path)
    requires Named(before, v.disk, paths) && !AnyTriggers(v, paths) && LockApart(v, before)
    requires AreDocuments(v.env, v.config, v.excluded, before, |v.config.groups|, v.documents)
    requires p in before.files && p !in v.disk.files
    ensures p !in v.documents
  {
    assert forall k :: 0 <= k < |p| ==> p[..k] in before.directories;
    if p in v.documents {
      var document := v.documents[p];
      assert IsDocument(v.env, v.config, v.excluded, before, |v.config.groups|, p, document);
      var k: nat :| k < |v.config.groups| && Selected(v.env, v.config, v.excluded, p, k);
      assert AssignmentOf(v.config.groups[k]) in Owners(v.env, v.config.groups, p);
      var i := ChangedSeen(v, before, paths, p);
      var above := paths[i];
      PrefixCases(above, p);
    }
  }

  lemma SelectedOwns(v: View, p: Path, i: nat)
    requires Selected(v.env, v.config, v.excluded, p, i)
    ensures AssignmentOf(v.config.groups[i]) in Owners(v.env, v.config.groups, p)
  {
  }

  /** Everything a proof about one batch assumes. */
  ghost predicate Situation(v: View, before: Disk, paths: seq<Path>, upserts: map<Path, string>, after: Documents) {
    && Named(before, v.disk, paths) && !AnyTriggers(v, paths) && LockApart(v, before)
       && TwinsApart(v.env, v.config, v.excluded)
    && AreDocuments(v.env, v.config, v.excluded, before, |v.config.groups|, v.documents)
    && BatchUpserts(v, paths, upserts) && Updated(v, upserts, after)
  }

  /** Whatever a group selects now is resident with the text on the disk. */
  lemma SelectedResident(v: View, before: Disk, paths: seq<Path>, upserts: map<Path, string>, after: Documents, p: Path,
                         i: nat)
    requires Situation(v, before, paths, upserts, after) && p in v.disk.files
             && Selected(v.env, v.config, v.excluded, p, i)
    ensures p in after && after[p].text == v.disk.files[p]
  {
    SelectedOwns(v, p, i);
    assert EntryAt(after, p) == if p in upserts then Upserted(v, p, upserts[p]) else EntryAt(v.documents, p);
    if Changed(before, v.disk, p) {
      ChangedUpserted(v, before, paths, upserts, p);
    } else {
      UnchangedKept(v, before, paths, upserts, p);
      assert p in v.documents;
      assert IsDocument(v.env, v.config, v.excluded, before, |v.config.groups|, p, v.documents[p]);
    }
  }

  /** Whatever is resident is on the disk with its text, and owned by its assignment. */
  lemma ResidentSelected(v: View, before: Disk, paths: seq<Path>, upserts: map<Path, string>, after: Documents, p: Path)
    requires Situation(v, before, paths, upserts, after) && p in after
    ensures IsDocument(v.env, v.config, v.excluded, v.disk, |v.config.groups|, p, after[p])
  {
    assert EntryAt(after, p) == if p in upserts then Upserted(v, p, upserts[p]) else EntryAt(v.documents, p);
    if p in upserts {
      UpsertFresh(v, paths, p);
    }
    if p in v.documents {
      assert IsDocument(v.env, v.config, v.excluded, before, |v.config.groups|, p, v.documents[p]);
      if p !in v.disk.files {
        RemovedUnknown(v, before, paths, p);
      } else if p !in upserts && Changed(before, v.disk, p) {
        var i: nat :| i < |v.config.groups| && Selected(v.env, v.config, v.excluded, p, i);
        SelectedOwns(v, p, i);
        ChangedUpserted(v, before, paths, upserts, p);
      }
    } else {
      var a := OwnerOf(v.env, v.config.groups, p).value;
      assert a in Owners(v.env, v.config.groups, p);
      var i: nat :| i < |v.config.groups| && Covers(v.env, v.config.groups[i], p)
          && a == AssignmentOf(v.config.groups[i]);
      assert Selected(v.env, v.config, v.excluded, p, i);
    }
  }

  /** A resident path without a single owner was a document before. */
  lemma NewHasOwner(v: View, before: Disk, upserts: map<Path, string>, after: Documents, p: Path)
    requires AreDocuments(v.env, v.config, v.excluded, before, |v.config.groups|, v.documents)
             && Updated(v, upserts, after)
    requires p in after && |Owners(v.env, v.config.groups, p)| != 1
    ensures p in v.documents && p in before.files
  {
    assert EntryAt(after, p) == if p in upserts then Upserted(v, p, upserts[p]) else EntryAt(v.documents, p);
    assert IsDocument(v.env, v.config, v.excluded, before, |v.config.groups|, p, v.documents[p]);
  }

  /** A configuration or catalog path is not newly contested. */
  lemma ConfigUncontested(v: View, before: Disk, paths: seq<Path>, p: Path, i: nat, j: nat)
    requires Loads(v.env, v.excluded, before, Loaded(v.config, v.documents)) && Named(before, v.disk, paths)
             && !AnyTriggers(v, paths)
    requires p in v.disk.files && ConfigPath(p) && i < j
    requires Selected(v.env, v.config, v.excluded, p, i)
    ensures !Selected(v.env, v.config, v.excluded, p, j)
  {
    ProjectUnchanged(v, before, paths, CONFIG_FILE);
    assert CONFIG_FILE in v.disk.files;
    assert CONFIG_FILE[..0] == [] && CONFIG_FILE[..1] == ["dsql"];
    assert [] in v.disk.directories && ["dsql"] in v.disk.directories;
    assert p == CONFIG_FILE || CatalogPath(p);
    ProjectUnchanged(v, before, paths, p);
    assert p in before.files;
  }

  /** No file is contested after the batch. */
  lemma StillUncontested(v: View, before: Disk, paths: seq<Path>, upserts: map<Path, string>, after: Documents)
    requires Loads(v.env, v.excluded, before, Loaded(v.config, v.documents))
             && Situation(v, before, paths, upserts, after)
    ensures !Contested(v.env, v.config, v.excluded, v.disk, |v.config.groups|)
  {
    if Contested(v.env, v.config, v.excluded, v.disk, |v.config.groups|) {
      var p, i: nat, j: nat :| p in v.disk.files && i < j < |v.config.groups|
        && Selected(v.env, v.config, v.excluded, p, i) && Selected(v.env, v.config, v.excluded, p, j);
      assert p != LOCK_FILE;
      if ConfigPath(p) {
        ConfigUncontested(v, before, paths, p, i, j);
      } else {
        assert |Owners(v.env, v.config.groups, p)| >= 2;
        SelectedResident(v, before, paths, upserts, after, p, i);
        NewHasOwner(v, before, upserts, after, p);
      }
    }
  }

  /** The resident documents after an incremental batch are those of a cold load. */
  lemma WarmIsCold(v: View, before: Disk, paths: seq<Path>, upserts: map<Path, string>, after: Documents)
    requires Loads(v.env, v.excluded, before, Loaded(v.config, v.documents))
             && Situation(v, before, paths, upserts, after)
    ensures Loads(v.env, v.excluded, v.disk, Loaded(v.config, after))
  {
    ProjectUnchanged(v, before, paths, CONFIG_FILE);
    forall p | CatalogPath(p) ensures TextAt(before, p) == TextAt(v.disk, p) {
      ProjectUnchanged(v, before, paths, p);
    }
    forall p
      ensures (p in CatalogFiles(before) <==> p in CatalogFiles(v.disk))
              && (p in CatalogFiles(before) ==> CatalogFiles(before)[p] == CatalogFiles(v.disk)[p])
    {
      assert CatalogPath(p) ==> TextAt(before, p) == TextAt(v.disk, p);
    }
    assert CatalogFiles(before) == CatalogFiles(v.disk);
    StillUncontested(v, before, paths, upserts, after);
    forall p | p in after {
      ResidentSelected(v, before, paths, upserts, after, p);
    }
    forall p, i: nat | p in v.disk.files && i < |v.config.groups| && Selected(v.env, v.config, v.excluded, p, i)
      ensures p in after
    {
      SelectedResident(v, before, paths, upserts, after, p, i);
    }
  }
}
