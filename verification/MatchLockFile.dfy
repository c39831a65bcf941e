/**
  Reconciling the lock file with the lock that a build wants: `Update` rewrites
  it, `Locked` accepts or refuses it.  The codec is a parameter.
 */
module MatchLockFile {
  import opened DerivedOrder
  import opened KeyOrder
  import opened MatchLock
  import opened Sorting
  import opened Wrappers

  type Bytes = seq<bv8>

  /** `version` reads only the version of a document; `text` says whether bytes are UTF-8. */
  datatype Codec = Codec(encode: Lock -> Option<Bytes>, text: Bytes -> bool, parse: Bytes -> Option<Lock>,
                         version: Bytes -> Option<nat>)

  /** Canonical locks of the supported version encode, and read back as themselves. */
  ghost predicate Faithful(codec: Codec) {
    forall lock: Lock :: lock.version == LOCK_VERSION && CanonicalLock(lock) == lock ==> ReadsBack(codec, lock)
  }

  predicate ReadsBack(codec: Codec, lock: Lock) {
    codec.encode(lock).Some?
    && var bytes := codec.encode(lock).value;
       codec.text(bytes) && codec.parse(bytes) == Some(lock) && codec.version(bytes) == Some(lock.version)
  }

  function ToYaml(codec: Codec, lock: Lock): Option<Bytes> {
    codec.encode(CanonicalLock(lock))
  }

  function FromYaml(codec: Codec, bytes: Bytes): Option<Lock> {
    match codec.parse(bytes)
    case None => None
    case Some(lock) => Some(CanonicalLock(lock))
  }

  /** A version that can be read and is newer than the supported one. */
  function NewerVersion(codec: Codec, content: Option<Bytes>): Option<nat> {
    if content.None? || !codec.text(content.value) then None
    else match codec.version(content.value)
      case None => None
      case Some(version) => if version > LOCK_VERSION then Some(version) else None
  }

  datatype Mode = Update | Locked

  /** The file-system operation that fails, if one does; after `Sync` the file is already replaced or removed. */
  datatype Fault = NoFault | ReadFault | WriteFault | SyncFault

  datatype LockError =
    | Unsupported(version: nat) | Newer(version: nat)
    | ShouldBeAbsent | Missing | NotText | Malformed | Stale
    | Unprintable | ReadFailed | WriteFailed

  /** The hash of a content is kept as the content. */
  datatype Status = Status(changed: bool, contentHash: Option<Bytes>)

  /** The content that `Update` leaves. */
  function Written(codec: Codec, desired: Lock): Option<Bytes> {
    if desired.filters == [] then None else ToYaml(codec, desired)
  }

  /** What `Locked` finds wrong, given that the versions are in order. */
  function Complaint(codec: Codec, content: Option<Bytes>, desired: Lock): Option<LockError> {
    if desired.filters == [] then
      if content.None? then None else Some(ShouldBeAbsent)
    else if content.None? then Some(Missing)
    else if !codec.text(content.value) then Some(NotText)
    else match FromYaml(codec, content.value)
      case None => Some(Malformed)
      case Some(current) => if current == desired then None else Some(Stale)
  }

  /** `Locked` accepts the content for the desired lock. */
  predicate Accepts(codec: Codec, content: Option<Bytes>, desired: Lock) {
    && desired.version == LOCK_VERSION && NewerVersion(codec, content).None?
    && (desired.filters == [] ==> content.None?)
    && (desired.filters != [] ==>
        content.Some? && codec.text(content.value) && FromYaml(codec, content.value) == Some(desired))
  }

  class MatchLockFile {
    const codec: Codec
    var content: Option<Bytes>

    constructor (codec: Codec, content: Option<Bytes>)
      ensures this.codec == codec && this.content == content
    {
      this.codec, this.content := codec, content;
    }

    method Read(fault: Fault) returns (r: Result<Option<Bytes>, LockError>)
      ensures r == if fault == ReadFault then Err(ReadFailed) else Ok(content)
    {
      r := if fault == ReadFault then Err(ReadFailed) else Ok(content);
    }

    /** Replaces or removes the file; a failed write leaves the old content, a failed sync the new one. */
    method Put(next: Option<Bytes>, fault: Fault) returns (written: bool)
      modifies this
      ensures written <==> fault != WriteFault && fault != SyncFault
      ensures content == if fault == WriteFault then old(content) else next
    {
      if fault == WriteFault {
        return false;
      }
      content := next;
      written := fault != SyncFault;
    }

    method UpdateEmpty(existing: Option<Bytes>, fault: Fault) returns (r: Result<Status, LockError>)
      requires existing == content
      modifies this
      ensures r.Ok? ==> content.None? && r.value == Status(old(content).Some?, None)
      ensures r.Err? ==>
                r.error == WriteFailed && fault in {WriteFault, SyncFault} && (content == old(content) || content.None?)
      ensures fault == NoFault || old(content).None? ==> r.Ok?
    {
      if existing.None? {
        return Ok(Status(false, None));
      }
      var written := Put(None, fault);
      r := if written then Ok(Status(true, None)) else Err(WriteFailed);
    }

    method UpdateFilters(desired: Lock, existing: Option<Bytes>, fault: Fault) returns (r: Result<Status, LockError>)
      requires existing == content
      modifies this
      ensures r.Ok? ==>
                content.Some? && content == ToYaml(codec, desired)
                    && r.value == Status(content != old(content), content)
      ensures r.Err? && r.error == WriteFailed ==>
        fault in {WriteFault, SyncFault} && (content == old(content) || content == ToYaml(codec, desired))
      ensures r.Err? && r.error != WriteFailed ==> r.error == Unprintable && content == old(content)
      ensures ToYaml(codec, desired).Some? && (fault == NoFault || old(content) == ToYaml(codec, desired)) ==> r.Ok?
      ensures ToYaml(codec, desired).None? <==> r == Err(Unprintable)
    {
      var serialized := ToYaml(codec, desired);
      if serialized.None? {
        return Err(Unprintable);
      }
      var changed := existing != serialized;
      if changed {
        var written := Put(serialized, fault);
        if !written {
          return Err(WriteFailed);
        }
      }
      r := Ok(Status(changed, serialized));
    }

    method CheckLocked(desired: Lock, existing: Option<Bytes>) returns (r: Result<Status, LockError>)
      requires existing == content
      ensures r == match Complaint(codec, content, desired) case None => Ok(Status(false, content))
              case Some(e) => Err(e)
      ensures desired.version == LOCK_VERSION && NewerVersion(codec, content).None? ==>
                (r.Ok? <==> Accepts(codec, content, desired))
    {
      if desired.filters == [] {
        return if existing.None? then Ok(Status(false, None)) else Err(ShouldBeAbsent);
      }
      if existing.None? {
        return Err(Missing);
      }
      if !codec.text(existing.value) {
        return Err(NotText);
      }
      var current := FromYaml(codec, existing.value);
      if current.None? {
        return Err(Malformed);
      }
      r := if current.value != desired then Err(Stale) else Ok(Status(false, existing));
    }

    method Reconcile(desired: Lock, mode: Mode, fault: Fault) returns (r: Result<Status, LockError>)
      modifies this
      // Locked decides and changes nothing
      ensures mode == Locked ==> content == old(content)
      ensures mode == Locked ==> (r.Ok? <==> fault != ReadFault && Accepts(codec, content, desired))
      ensures mode == Locked && r.Ok? ==> r.value == Status(false, content)
      // Update leaves the wanted content, or the old one beside a failure
      ensures mode == Update && r.Ok? ==> desired.version == LOCK_VERSION && content == Written(codec, desired)
      ensures mode == Update && r.Ok? ==> r.value == Status(content != old(content), content)
      ensures r.Err? && content != old(content) ==>
                mode == Update && r.error == WriteFailed && content == Written(codec, desired)
      ensures mode == Locked && fault != ReadFault && desired.version == LOCK_VERSION
              && NewerVersion(codec, content).None? && r.Err? ==>
        Complaint(codec, content, desired) == Some(r.error)
      // an unsupported request or a newer document changes nothing
      ensures desired.version != LOCK_VERSION ==> r == Err(Unsupported(desired.version))
      ensures desired.version == LOCK_VERSION && fault != ReadFault && NewerVersion(codec, old(content)).Some? ==>
        r == Err(Newer(NewerVersion(codec, old(content)).value))
      ensures NewerVersion(codec, old(content)).Some? ==> r.Err? && content == old(content)
      ensures mode == Update && fault == NoFault ==>
        (r.Ok? <==>
         desired.version == LOCK_VERSION && NewerVersion(codec, old(content)).None?
             && (desired.filters != [] ==> ToYaml(codec, desired).Some?))
    {
      if desired.version != LOCK_VERSION {
        return Err(Unsupported(desired.version));
      }
      var existing := Read(fault);
      if existing.Err? {
        return Err(existing.error);
      }
      var newer := NewerVersion(codec, existing.value);
      if newer.Some? {
        return Err(Newer(newer.value));
      }
      if mode == Update {
        if desired.filters == [] {
          r := UpdateEmpty(existing.value, fault);
        } else {
          r := UpdateFilters(desired, existing.value, fault);
        }
      } else {
        r := CheckLocked(desired, existing.value);
      }
    }
  }

  lemma CanonicalEmpty(lock: Lock)
    ensures CanonicalLock(lock).filters == [] <==> lock.filters == []
  {
    if lock.filters != [] {
      PinDenoted(lock, lock.filters[0]);
      assert PinOf(lock.filters[0]) in Denotation(lock);
      FiltersPrefixFree();
      PrefixFreeIsInjective(FilterRank);
      CanonicalAscends(CanonicalFilters(lock.filters), FilterRank);
      assert CanonicalFilters(lock.filters)[0] in CanonicalLock(lock).filters;
    }
  }

  /** After a successful update with one lock, a locked run accepts exactly its canonical form. */
  lemma LockedAfterUpdate(codec: Codec, updated: Lock, desired: Lock)
    requires Faithful(codec) && updated.version == LOCK_VERSION
    ensures Accepts(codec, Written(codec, updated), desired) <==> desired == CanonicalLock(updated)
  {
    CanonicalLockIdempotent(updated);
    CanonicalEmpty(updated);
    assert ReadsBack(codec, CanonicalLock(updated));
    if updated.filters == [] {
      assert CanonicalLock(updated) == Lock(LOCK_VERSION, []);
    }
  }

  /** Updating again rewrites the file exactly when the pins differ. */
  lemma RewrittenWhenPinsDiffer(codec: Codec, a: Lock, b: Lock)
    requires Faithful(codec) && a.version == b.version == LOCK_VERSION
    ensures Written(codec, a) == Written(codec, b) <==> Denotation(a) == Denotation(b)
  {
    CanonicalLockExact(a, b);
    CanonicalLockIdempotent(a);
    CanonicalLockIdempotent(b);
    CanonicalEmpty(a);
    CanonicalEmpty(b);
    assert ReadsBack(codec, CanonicalLock(a)) && ReadsBack(codec, CanonicalLock(b));
  }

  /**
    A build is accepted against the lock of another one exactly when every scope sees the
    same filters with the same matches.
   */
  lemma BuildAccepted(codec: Codec, locked: Project, built: Project)
    requires Faithful(codec)
    ensures Accepts(codec, Written(codec, Assembled(locked)), Assembled(built)) <==>
            Denotation(Assembled(locked)) == Denotation(Assembled(built))
  {
    AssembledExact(locked);
    AssembledExact(built);
    LockedAfterUpdate(codec, Assembled(locked), Assembled(built));
    CanonicalLockExact(Assembled(locked), Assembled(built));
  }
}
