/**
  Replacement of the generated schema directory: stage a complete new directory,
  move the live one aside, promote the staged one, and recover after a stop at
  any point.  Every method appends each moment between file-system effects to a
  ghost record, so what holds of the record holds wherever a run may be cut off.
  One writer; any effect may fail.
 */
module SchemaStore {
  import opened Wrappers

  /* ---- directories ---- */

  type Path = seq<string>

  datatype Node = Directory | File(text: string)

  type Tree = map<Path, Node>

  datatype Slot = Live | Backup | Staging(publication: nat)

  /** The siblings under the project directory. */
  type Disk = map<Slot, Tree>

  /** What recovery leaves live: the live directory, else the backup. */
  function Recovered(disk: Disk): Option<Tree> {
    if Live in disk then Some(disk[Live]) else if Backup in disk then Some(disk[Backup]) else None
  }

  predicate SameAt(disk: Disk, other: Disk, slot: Slot) {
    (slot in disk <==> slot in other) && (slot in disk ==> disk[slot] == other[slot])
  }

  /** The disks differ in one slot at most. */
  predicate SameBeside(disk: Disk, other: Disk, slot: Slot) {
    && disk - {slot} == other - {slot}
    && (slot != Live ==> SameAt(disk, other, Live)) && (slot != Backup ==> SameAt(disk, other, Backup))
  }

  /* ---- what is stored ---- */

  /** A table without text is one the encoder rejects. */
  datatype Table = Table(name: string, yaml: Option<string>)

  datatype Schema = Schema(name: string, tables: seq<Table>)

  datatype Metadata = Metadata(schemas: seq<Schema>, types: Option<string>)

  function TablePath(schema: Schema, table: Table): Path {
    [schema.name, table.name + ".yaml"]
  }

  const TYPE_MAP: Path := ["type_map.yaml"]

  predicate TablesEncode(tables: seq<Table>) {
    forall i :: 0 <= i < |tables| ==> tables[i].yaml.Some?
  }

  predicate Encodes(metadata: Metadata) {
    metadata.types.Some? && forall i :: 0 <= i < |metadata.schemas| ==> TablesEncode(metadata.schemas[i].tables)
  }

  function WithTables(tree: Tree, schema: Schema, tables: seq<Table>): Tree
    requires TablesEncode(tables)
  {
    if tables == [] then tree
    else
      var n := |tables| - 1;
      WithTables(tree, schema, tables[..n])[TablePath(schema, tables[n]) := File(tables[n].yaml.value)]
  }

  function WithSchemas(tree: Tree, schemas: seq<Schema>): Tree
    requires forall i :: 0 <= i < |schemas| ==> TablesEncode(schemas[i].tables)
  {
    if schemas == [] then tree
    else
      var n := |schemas| - 1;
      WithTables(WithSchemas(tree, schemas[..n])[[schemas[n].name] := Directory], schemas[n], schemas[n].tables)
  }

  /** The complete directory for a catalog. */
  function TreeOf(metadata: Metadata): Tree
    requires Encodes(metadata)
  {
    WithSchemas(map[[] := Directory], metadata.schemas)[TYPE_MAP := File(metadata.types.value)]
  }

  /* ---- the store ---- */

  datatype StoreError = Read | Write | Encode

  class SchemaStore {
    var disk: Disk
    /** The disk after every file-system effect so far. */
    ghost var moments: seq<Disk>

    constructor (disk: Disk)
      ensures this.disk == disk && moments == []
    {
      this.disk, moments := disk, [];
    }

    /** From moment `k` on, and now, a stop is recovered to the same directory. */
    ghost predicate KeepsFrom(k: nat, tree: Option<Tree>)
      reads this
    {
      k <= |moments| && Recovered(disk) == tree && forall i :: k <= i < |moments| ==> Recovered(moments[i]) == tree
    }

    /** One effect on a slot other than the live one; a backup is touched only beside a live directory. */
    method Put(slot: Slot, tree: Tree)
      requires slot.Staging? || (slot == Backup && Live in disk)
      modifies this
      ensures disk == old(disk)[slot := tree] && moments == old(moments) + [disk]
      ensures Recovered(disk) == old(Recovered(disk))
    {
      disk := disk[slot := tree];
      moments := moments + [disk];
    }

    method Exists(slot: Slot, faulty: bool) returns (r: Result<bool, StoreError>)
      ensures r.Ok? ==> r.value == (slot in disk)
      ensures r.Err? ==> faulty && r.error == Read
    {
      var fault: bool := *;
      if faulty && fault {
        return Err(Read);
      }
      return Ok(slot in disk);
    }

    /** Atomic; fails when the source is missing or the target is in the way. */
    method Rename(from: Slot, to: Slot, faulty: bool) returns (r: Result<(), StoreError>)
      modifies this
      ensures r.Ok? ==>
                from in old(disk) && to !in old(disk) && disk == (old(disk) - {from})[to := old(disk)[from]]
                    && moments == old(moments) + [disk]
      ensures r.Err? ==> disk == old(disk) && moments == old(moments) && (faulty || from !in disk || to in disk)
    {
      var fault: bool := *;
      if (faulty && fault) || from !in disk || to in disk {
        return Err(Write);
      }
      disk := (disk - {from})[to := disk[from]];
      moments := moments + [disk];
      return Ok(());
    }

    method RemoveEntries(slot: Slot, faulty: bool) returns (r: Result<(), StoreError>)
      requires slot in disk && (slot.Staging? || (slot == Backup && Live in disk))
      modifies this
      ensures SameBeside(disk, old(disk), slot) && KeepsFrom(|old(moments)|, old(Recovered(disk)))
              && old(moments) <= moments
      ensures slot in disk && (r.Ok? ==> disk[slot] == map[]) && (r.Err? ==> faulty)
    {
      while disk[slot] != map[]
        invariant slot in disk && SameBeside(disk, old(disk), slot)
        invariant KeepsFrom(|old(moments)|, old(Recovered(disk))) && old(moments) <= moments
        decreases |disk[slot]|
      {
        var fault: bool := *;
        if faulty && fault {
          return Err(Write);
        }
        var path :| path in disk[slot];
        Shrinks(disk[slot], path);
        Put(slot, disk[slot] - {path});
      }
      return Ok(());
    }

    /** Removes entry by entry, so a failure or a stop may leave any part of the directory. */
    method RemoveAll(slot: Slot, faulty: bool) returns (r: Result<(), StoreError>)
      requires slot.Staging? || (slot == Backup && Live in disk)
      modifies this
      ensures SameBeside(disk, old(disk), slot) && KeepsFrom(|old(moments)|, old(Recovered(disk)))
              && old(moments) <= moments
      ensures r.Ok? ==> slot !in disk
      ensures r.Err? ==> faulty || slot !in old(disk)
    {
      if slot !in disk {
        return Err(Write);
      }
      r := RemoveEntries(slot, faulty);
      if r.Err? {
        return;
      }
      disk := disk - {slot};
      moments := moments + [disk];
    }

    method CreateDirectory(slot: Slot, path: Path, faulty: bool) returns (r: Result<(), StoreError>)
      requires slot.Staging?
      modifies this
      ensures SameBeside(disk, old(disk), slot) && KeepsFrom(|old(moments)|, old(Recovered(disk)))
              && old(moments) <= moments
      ensures r.Ok? ==>
                slot in disk && disk[slot] == (if slot in old(disk) then old(disk)[slot] else map[])[path := Directory]
      ensures r.Err? ==> faulty
    {
      var fault: bool := *;
      if faulty && fault {
        return Err(Write);
      }
      Put(slot, (if slot in disk then disk[slot] else map[])[path := Directory]);
      return Ok(());
    }

    /** A stop or a failure may leave the file with any text. */
    method WriteFile(slot: Slot, path: Path, text: string, faulty: bool) returns (r: Result<(), StoreError>)
      requires slot.Staging? && slot in disk
      modifies this
      ensures SameBeside(disk, old(disk), slot) && KeepsFrom(|old(moments)|, old(Recovered(disk)))
              && old(moments) <= moments
      ensures slot in disk && (r.Ok? ==> disk[slot] == old(disk)[slot][path := File(text)])
      ensures r.Err? ==> faulty
    {
      var torn: string := *;
      Put(slot, disk[slot][path := File(torn)]);
      var fault: bool := *;
      if faulty && fault {
        return Err(Write);
      }
      Put(slot, disk[slot][path := File(text)]);
      return Ok(());
    }

    method WriteTables(slot: Slot, schema: Schema, faulty: bool) returns (r: Result<(), StoreError>)
      requires slot.Staging? && slot in disk
      modifies this
      ensures SameBeside(disk, old(disk), slot) && KeepsFrom(|old(moments)|, old(Recovered(disk)))
              && old(moments) <= moments && slot in disk
      ensures r.Ok? ==> TablesEncode(schema.tables) && disk[slot] == WithTables(old(disk)[slot], schema, schema.tables)
      ensures r.Err? ==> faulty || !TablesEncode(schema.tables)
    {
      for i := 0 to |schema.tables|
        invariant SameBeside(disk, old(disk), slot) && KeepsFrom(|old(moments)|, old(Recovered(disk)))
                  && old(moments) <= moments && slot in disk
        invariant TablesEncode(schema.tables[..i])
                  && disk[slot] == WithTables(old(disk)[slot], schema, schema.tables[..i])
      {
        var table := schema.tables[i];
        assert schema.tables[..i + 1][..i] == schema.tables[..i];
        if table.yaml.None? {
          return Err(Encode);
        }
        var written := WriteFile(slot, TablePath(schema, table), table.yaml.value, faulty);
        if written.Err? {
          return written;
        }
      }
      assert schema.tables[..|schema.tables|] == schema.tables;
      return Ok(());
    }

    method WriteContents(slot: Slot, metadata: Metadata, faulty: bool) returns (r: Result<(), StoreError>)
      requires slot.Staging? && slot !in disk
      modifies this
      ensures SameBeside(disk, old(disk), slot) && KeepsFrom(|old(moments)|, old(Recovered(disk)))
              && old(moments) <= moments
      ensures r.Ok? ==> Encodes(metadata) && slot in disk && disk[slot] == TreeOf(metadata)
      ensures r.Err? ==> faulty || !Encodes(metadata)
    {
      var root := CreateDirectory(slot, [], faulty);
      if root.Err? {
        return root;
      }
      for i := 0 to |metadata.schemas|
        invariant SameBeside(disk, old(disk), slot) && KeepsFrom(|old(moments)|, old(Recovered(disk)))
                  && old(moments) <= moments && slot in disk
        invariant forall k :: 0 <= k < i ==> TablesEncode(metadata.schemas[..i][k].tables)
        invariant disk[slot] == WithSchemas(map[[] := Directory], metadata.schemas[..i])
      {
        var schema := metadata.schemas[i];
        assert metadata.schemas[..i + 1][..i] == metadata.schemas[..i];
        var made := CreateDirectory(slot, [schema.name], faulty);
        if made.Err? {
          return made;
        }
        var written := WriteTables(slot, schema, faulty);
        if written.Err? {
          return written;
        }
      }
      assert metadata.schemas[..|metadata.schemas|] == metadata.schemas;
      if metadata.types.None? {
        return Err(Encode);
      }
      r := WriteFile(slot, TYPE_MAP, metadata.types.value, faulty);
    }

    /** Restores the last complete directory after a stop between the two renames. */
    method Recover(faulty: bool) returns (r: Result<(), StoreError>)
      modifies this
      ensures KeepsFrom(|old(moments)|, old(Recovered(disk))) && old(moments) <= moments
      ensures r.Ok? ==>
                (if Recovered(disk).Some? then Live in disk && disk[Live] == Recovered(disk).value
                 else Live !in disk && Backup !in disk)
      ensures r.Err? ==> faulty
    {
      var live := Exists(Live, faulty);
      if live.Err? {
        return Err(live.error);
      }
      if live.value {
        return Ok(());
      }
      var backup := Exists(Backup, faulty);
      if backup.Err? {
        return Err(backup.error);
      }
      if backup.value {
        r := Rename(Backup, Live, faulty);
      } else {
        return Ok(());
      }
    }

    /** Clears what earlier runs left beside the live directory. */
    method Clear(slot: Slot, faulty: bool) returns (r: Result<(), StoreError>)
      requires slot.Staging? || (slot == Backup && (Live in disk || Backup !in disk))
      modifies this
      ensures SameBeside(disk, old(disk), slot) && KeepsFrom(|old(moments)|, old(Recovered(disk)))
              && old(moments) <= moments
      ensures r.Ok? ==> slot !in disk
      ensures r.Err? ==> faulty
    {
      var found := Exists(slot, faulty);
      if found.Err? {
        return Err(found.error);
      }
      if found.value {
        r := RemoveAll(slot, faulty);
      } else {
        return Ok(());
      }
    }

    /** Recovery, then a complete staged directory beside an untouched live one. */
    method Stage(slot: Slot, metadata: Metadata, faulty: bool) returns (r: Result<(), StoreError>)
      requires slot.Staging?
      modifies this
      ensures KeepsFrom(|old(moments)|, old(Recovered(disk))) && old(moments) <= moments
      ensures r.Ok? ==> Encodes(metadata) && slot in disk && disk[slot] == TreeOf(metadata) && Backup !in disk
      ensures r.Err? ==> faulty || !Encodes(metadata)
    {
      r := Recover(faulty);
      if r.Err? {
        return;
      }
      r := Clear(Backup, faulty);
      if r.Err? {
        return;
      }
      r := Clear(slot, faulty);
      if r.Err? {
        return;
      }
      r := WriteContents(slot, metadata, faulty);
      if r.Err? {
        var ignored := RemoveAll(slot, faulty);
      }
    }

    /**
      Replaces the live directory.  Every moment up to the promotion is recovered
      to the old directory and every later one to the complete new one; an error
      means that nothing was promoted.
     */
    method Store(publication: nat, metadata: Metadata, faulty: bool, failPromotion: bool)
      returns (r: Result<(), StoreError>, ghost promotion: nat)
      modifies this
      ensures |old(moments)| <= promotion <= |moments| && old(moments) <= moments
      ensures forall i :: |old(moments)| <= i < promotion ==> Recovered(moments[i]) == old(Recovered(disk))
      ensures forall i :: promotion <= i < |moments| ==>
                Encodes(metadata) && Recovered(moments[i]) == Some(TreeOf(metadata))
      ensures r.Ok? ==> promotion < |moments| && Encodes(metadata) && Live in disk && disk[Live] == TreeOf(metadata)
      ensures r.Err? ==> promotion == |moments| && Recovered(disk) == old(Recovered(disk))
      ensures !faulty && !failPromotion && Encodes(metadata) ==> r.Ok?
    {
      var slot := Staging(publication);
      r := Stage(slot, metadata, faulty);
      promotion := |moments|;
      if r.Err? {
        return;
      }
      r, promotion := Promote(slot, faulty, failPromotion);
    }

    /** The live directory is moved aside and the staged one renamed into its place. */
    method Promote(slot: Slot, faulty: bool, failPromotion: bool)
      returns (r: Result<(), StoreError>, ghost promotion: nat)
      requires slot.Staging? && slot in disk && Backup !in disk
      modifies this
      ensures |old(moments)| <= promotion <= |moments| && old(moments) <= moments
      ensures forall i :: |old(moments)| <= i < promotion ==> Recovered(moments[i]) == old(Recovered(disk))
      ensures forall i :: promotion <= i < |moments| ==> Recovered(moments[i]) == Some(old(disk)[slot])
      ensures r.Ok? ==> promotion < |moments| && Live in disk && disk[Live] == old(disk)[slot]
      ensures r.Err? ==> promotion == |moments| && Recovered(disk) == old(Recovered(disk))
      ensures !faulty && !failPromotion ==> r.Ok?
    {
      promotion := |moments|;
      var live := Exists(Live, faulty);
      if live.Err? {
        return Err(live.error), promotion;
      }
      if live.value {
        r := Rename(Live, Backup, faulty);
        if r.Err? {
          var ignored := RemoveAll(slot, faulty);
          return r, |moments|;
        }
      }
      promotion := |moments|;
      if live.value && failPromotion {
        r := Err(Write);
      } else {
        r := Rename(slot, Live, faulty);
      }
      if r.Err? {
        if live.value {
          var restored := Rename(Backup, Live, faulty);
        }
        var ignored := RemoveAll(slot, faulty);
        return r, |moments|;
      }
      if live.value {
        var ignored := RemoveAll(Backup, faulty);
      }
    }
  }

  lemma Shrinks(tree: Tree, path: Path)
    requires path in tree
    ensures |tree - {path}| < |tree|
  {
    assert (tree - {path}).Keys == tree.Keys - {path};
    assert |tree.Keys - {path}| == |tree.Keys| - 1;
    assert |(tree - {path}).Keys| == |tree - {path}| && |tree.Keys| == |tree|;
  }

  /* ---- stores and stops one after another ---- */

  /** A run that starts on one disk and stops, finished or not, on another. */
  ghost predicate MayLeave(disk: Disk, metadata: Metadata, stopped: Disk) {
    Recovered(stopped) == Recovered(disk) || (Encodes(metadata) && Recovered(stopped) == Some(TreeOf(metadata)))
  }

  /** Wherever a store is stopped, it leaves what recovery turns into the old or the complete new directory. */
  method StoreOnce(disk: Disk, publication: nat, metadata: Metadata, faulty: bool)
    returns (final: Disk, ghost moments: seq<Disk>)
    ensures MayLeave(disk, metadata, final)
    ensures forall i :: 0 <= i < |moments| ==> MayLeave(disk, metadata, moments[i])
  {
    var store := new SchemaStore(disk);
    var r;
    ghost var promotion;
    r, promotion := store.Store(publication, metadata, faulty, false);
    final, moments := store.disk, store.moments;
  }

  /** After any number of interrupted stores, recovery finds one of the complete directories, never a mixture. */
  lemma {:induction false} NeverAMixture(disks: seq<Disk>, stored: seq<Metadata>)
    requires |disks| == |stored| + 1 && forall k :: 0 <= k < |stored| ==> MayLeave(disks[k], stored[k], disks[k + 1])
    ensures var last := Recovered(disks[|disks| - 1]);
            last == Recovered(disks[0]) || exists k ::
                0 <= k < |stored| && Encodes(stored[k]) && last == Some(TreeOf(stored[k]))
  {
    if stored != [] {
      var n := |stored| - 1;
      assert MayLeave(disks[n], stored[n], disks[n + 1]);
      forall k | 0 <= k < n ensures MayLeave(disks[..n + 1][k], stored[..n][k], disks[..n + 1][k + 1]) {
        assert MayLeave(disks[k], stored[k], disks[k + 1]);
      }
      NeverAMixture(disks[..n + 1], stored[..n]);
      if Recovered(disks[n]) == Recovered(disks[n + 1]) && Recovered(disks[n]) != Recovered(disks[0]) {
        var k :| 0 <= k < n && Encodes(stored[..n][k]) && Recovered(disks[n]) == Some(TreeOf(stored[..n][k]));
        assert stored[..n][k] == stored[k];
      }
    }
  }
}
