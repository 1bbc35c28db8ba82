/** Writing a file's bytes through a temporary file, and the facts reported about it. */
module ByteWriter {
  import opened Wrappers
  import opened Text

  type Path = seq<string>

  datatype Entry = File(bytes: seq<byte>) | Dir

  type Disk = map<Path, Entry>

  function Get(d: Disk, p: Path): Option<Entry> {
    if p in d then Some(d[p]) else None
  }

  datatype Effect = NoEffect | Unknown

  datatype ErrorKind = HashMismatch | Permission | Io

  datatype WriteError = WriteError(
    kind: ErrorKind,
    expectedHash: Option<string>,
    actualHash: Option<string>,
    effect: Option<Effect>,
    intentHash: Option<string>,
    intentLength: Option<nat>,
    oldHash: Option<string>)

  datatype Ack = Ack(oldHash: Option<string>, writtenHash: string, writtenLength: nat)

  function Bare(kind: ErrorKind): WriteError {
    WriteError(kind, None, None, None, None, None, None)
  }

  /** A blank precondition is no precondition. */
  function Precondition(expected: Option<string>): Option<string> {
    if expected.Some? && Trim(expected.value) != "" then Some(Trim(expected.value)) else None
  }

  function TemporaryName(unique: string): string {
    ".taomni-write-" + unique
  }

  /** Only missing ancestor directories of the target may appear, and only the temporary file may change. */
  ghost predicate OnlyTouches(before: Disk, after: Disk, target: Path, tmp: Path) {
    forall p :: p != target && p != tmp && Get(after, p) != Get(before, p) ==>
      p < target && Get(before, p) == None && Get(after, p) == Some(Dir)
  }

  /** Where a write ended: at the call that failed, or finished. */
  datatype Stage = Reading | Checking | NoParent | Directories | Staging | Replacing | Finished

  function Parent(p: Path): Path
    requires p != []
  {
    p[..|p| - 1]
  }

  class Writer {
    var disk: Disk
    /** The files whose bytes are known to have reached the disk. */
    ghost var synced: set<Path>
    const hash: seq<byte> -> string
    /** Whether replacing a file deletes the target before renaming. */
    const deletesFirst: bool
    /** Directories whose entries cannot be created, renamed or removed. */
    const readOnly: set<Path>
    /** Whether calls may also fail for reasons that the disk does not show. */
    const faulty: bool

    constructor (disk: Disk, hash: seq<byte> -> string, deletesFirst: bool, readOnly: set<Path>, faulty: bool)
      ensures this.disk == disk && this.hash == hash && this.deletesFirst == deletesFirst
      ensures this.readOnly == readOnly && this.faulty == faulty
    {
      this.disk, this.hash, this.deletesFirst := disk, hash, deletesFirst;
      this.readOnly, this.faulty, this.synced := readOnly, faulty, {};
    }

    /** The hash of the target's bytes, if it is a file. */
    ghost function HashAt(d: Disk, p: Path): Option<string> {
      if p in d && d[p].File? then Some(hash(d[p].bytes)) else None
    }

    predicate Changeable(p: Path) {
      p != [] && Parent(p) !in readOnly
    }

    // -------------------------------------------------------------------
    // Calls of the operating system.

    method Fault() returns (fails: bool)
      ensures fails ==> faulty
    {
      fails := *;
      fails := fails && faulty;
    }

    method SomeFailure() returns (kind: ErrorKind)
      ensures kind != HashMismatch
    {
      var denied: bool := *;
      kind := if denied then Permission else Io;
    }

    method Read(p: Path) returns (r: Result<Option<seq<byte>>, ErrorKind>)
      ensures r.Ok? && r.value.Some? ==> Get(disk, p) == Some(File(r.value.value))
      ensures r.Ok? && r.value.None? ==> Get(disk, p) == None
      ensures r.Err? ==> r.error != HashMismatch && (faulty || Get(disk, p) == Some(Dir))
    {
      var kind := SomeFailure();
      var fails := Fault();
      if fails || (p in disk && disk[p].Dir?) { return Err(kind); }
      r := if p in disk then Ok(Some(disk[p].bytes)) else Ok(None);
    }

    /** The directory is there, or nothing is there and it can be created. */
    predicate Passable(d: Disk, p: Path) {
      if p in d then d[p].Dir? else p == [] || Changeable(p)
    }

    ghost predicate AllPassable(d: Disk, p: Path) {
      forall n :: 0 <= n <= |p| ==> Passable(d, p[..n])
    }

    /** Creates the missing directories from the root down; a failure may leave some of them. */
    method CreateDirectories(p: Path) returns (ok: bool)
      modifies this`disk
      ensures forall q :: Get(disk, q) != Get(old(disk), q) ==>
        q <= p && Get(old(disk), q) == None && Get(disk, q) == Some(Dir)
      ensures ok ==> AllPassable(old(disk), p) && forall n :: 0 <= n <= |p| ==> Get(disk, p[..n]) == Some(Dir)
      ensures !ok ==> faulty || !AllPassable(old(disk), p)
    {
      ok := true;
      for n := 0 to |p| + 1
        invariant forall q :: Get(disk, q) != Get(old(disk), q) ==>
          q <= p && |q| < n && Get(old(disk), q) == None && Get(disk, q) == Some(Dir)
        invariant forall m :: 0 <= m < n ==> Passable(old(disk), p[..m]) && Get(disk, p[..m]) == Some(Dir)
      {
        var fails := Fault();
        assert Get(disk, p[..n]) == Get(old(disk), p[..n]);
        assert forall m :: 0 <= m < n ==> |p[..m]| < |p[..n]|;
        if fails || !Passable(disk, p[..n]) { return false; }
        if p[..n] !in disk { disk := disk[p[..n] := Dir]; }
      }
    }

    /** Creates a file that must not exist yet. */
    method CreateNew(p: Path) returns (ok: bool)
      modifies this`disk
      ensures ok ==> p !in old(disk) && Changeable(p) && disk == old(disk)[p := File([])]
      ensures !ok ==> disk == old(disk) && (faulty || p in disk || !Changeable(p))
    {
      var fails := Fault();
      ok := !fails && p !in disk && Changeable(p);
      if ok { disk := disk[p := File([])]; }
    }

    /** Writes all bytes; a failure may leave any bytes in the file. */
    method WriteAll(p: Path, bytes: seq<byte>) returns (ok: bool, ghost left: seq<byte>)
      requires p in disk
      modifies this`disk, this`synced
      ensures disk == old(disk)[p := File(left)] && (ok ==> left == bytes) && (!ok ==> faulty)
      ensures synced == old(synced) - {p}
    {
      var fails := Fault();
      ok := !fails;
      var written: seq<byte> := *;
      if ok { written := bytes; }
      left := written;
      disk, synced := disk[p := File(written)], synced - {p};
    }

    /** Forces a file's bytes to the disk. */
    method Sync(p: Path) returns (ok: bool)
      modifies this`synced
      ensures if ok then synced == old(synced) + {p} else faulty && synced == old(synced)
    {
      var fails := Fault();
      ok := !fails;
      if ok { synced := synced + {p}; }
    }

    method RemoveFile(p: Path) returns (ok: bool)
      modifies this`disk, this`synced
      ensures ok ==> Get(old(disk), p).Some? && disk == old(disk) - {p} && synced == old(synced) - {p}
      ensures !ok ==> disk == old(disk) && synced == old(synced) && (faulty || p !in disk || disk[p].Dir? || !Changeable(p))
    {
      var fails := Fault();
      ok := !fails && p in disk && disk[p].File? && Changeable(p);
      if ok { disk, synced := disk - {p}, synced - {p}; }
    }

    /** Renames a file; its bytes stay on the disk if they were there. */
    method Rename(from: Path, to: Path) returns (ok: bool)
      modifies this`disk, this`synced
      ensures ok ==> synced == old(synced) - {from, to} + if from in old(synced) then {to} else {}
      ensures ok ==> Get(old(disk), from).Some?
      ensures ok ==> disk == (old(disk) - {from})[to := old(disk)[from]]
      ensures !ok ==>
        && disk == old(disk) && synced == old(synced)
        && (faulty || from !in disk || disk[from].Dir? || (to in disk && disk[to].Dir?)
            || !Changeable(from) || !Changeable(to))
    {
      var fails := Fault();
      ok := !fails && from in disk && disk[from].File? && (to in disk ==> disk[to].File?)
            && Changeable(from) && Changeable(to);
      if ok {
        disk := (disk - {from})[to := disk[from]];
        synced := synced - {from, to} + if from in synced then {to} else {};
      }
    }

    /** Whether something is there; a failing inspection counts as absence. */
    method Exists(p: Path) returns (found: bool)
      ensures found ==> p in disk
      ensures !found ==> faulty || p !in disk
    {
      var fails := Fault();
      found := !fails && p in disk;
    }

    // -------------------------------------------------------------------

    method ReplaceFile(tmp: Path, target: Path) returns (ok: bool)
      modifies this`disk, this`synced
      ensures ok && tmp != target && tmp in old(synced) ==> target in synced
      ensures !ok && !deletesFirst ==> disk == old(disk)
      ensures ok ==> Get(old(disk), tmp).Some? && Get(disk, target) == Get(old(disk), tmp)
      ensures ok ==> tmp != target ==> tmp !in disk
      ensures !ok ==> disk == old(disk) || disk == old(disk) - {target}
      ensures !ok ==>
        || faulty || tmp == target || Get(old(disk), tmp) == None || Get(old(disk), tmp) == Some(Dir)
        || Get(old(disk), target) == Some(Dir) || !Changeable(tmp) || !Changeable(target)
      ensures forall p :: p != tmp && p != target ==> Get(disk, p) == Get(old(disk), p)
    {
      if deletesFirst {
        var present := Exists(target);
        if present {
          var removed := RemoveFile(target);
          if !removed { return false; }
        }
      }
      ok := Rename(tmp, target);
    }

    /** What a finished write reports, and what must then be true of the disk. */
    ghost predicate TrueFacts(before: Disk, after: Disk, target: Path, tmp: Path, bytes: seq<byte>,
                              expected: Option<string>, r: Result<Ack, WriteError>)
    {
      match r
      case Ok(ack) =>
        && Get(after, target) == Some(File(bytes))
        && (tmp != target ==> Get(after, tmp) == None)
        && ack == Ack(HashAt(before, target), hash(bytes), |bytes|)
        && (Precondition(expected).Some? ==>
              ack.oldHash.Some? && EqualIgnoringCase(ack.oldHash.value, Precondition(expected).value))
      case Err(e) =>
        && (e.effect == Some(NoEffect) ==> Get(after, target) == Get(before, target))
        && (e.effect == Some(Unknown) ==>
              e.intentHash == Some(hash(bytes)) && e.intentLength == Some(|bytes|)
              && e.oldHash == HashAt(before, target))
        && (e.effect == None && tmp != target ==> Get(after, target) == Get(before, target))
        && (e.kind == HashMismatch ==>
              && after == before
              && HashAt(before, target).Some? && e.actualHash == HashAt(before, target)
              && Precondition(expected).Some? && e.expectedHash == Precondition(expected)
              && !EqualIgnoringCase(e.actualHash.value, e.expectedHash.value))
    }

    /** The read target fails the requested comparison. */
    ghost predicate Mismatch(before: Disk, target: Path, expected: Option<string>) {
      && Precondition(expected).Some? && HashAt(before, target).Some?
      && !EqualIgnoringCase(HashAt(before, target).value, Precondition(expected).value)
    }

    /** Exactly the errors between the checks and the replacement carry no effect. */
    ghost predicate TrueStage(before: Disk, target: Path, expected: Option<string>, r: Result<Ack, WriteError>,
                              stage: Stage)
    {
      && (r.Ok? <==> stage == Finished)
      && (r.Err? ==>
            && (r.error.effect.None? <==> stage in {NoParent, Directories, Staging})
            && (stage in {Reading, Checking} ==> r.error.effect == Some(NoEffect)))
      && (stage == Reading ==> faulty || Get(before, target) == Some(Dir))
      && (stage != Reading ==>
            && (Mismatch(before, target, expected) <==> r.Err? && r.error.kind == HashMismatch)
            && (stage == Checking <==>
                  Mismatch(before, target, expected)
                  || (Precondition(expected).Some? && HashAt(before, target).None?)))
      && (stage == NoParent ==> target == [])
      && (stage in {Replacing, Finished} ==> Changeable(target))
    }

    /** Nothing that the disk shows stands in the way of replacing the target. */
    ghost predicate Unobstructed(before: Disk, target: Path, tmp: Path) {
      && Changeable(target) && Get(before, target) != Some(Dir)
      && tmp != target && tmp !in before
      && AllPassable(before, Parent(target))
    }

    /** The target is no directory and passes the comparison. */
    ghost predicate Compared(before: Disk, target: Path, expected: Option<string>) {
      && Get(before, target) != Some(Dir)
      && (Precondition(expected).Some? ==> HashAt(before, target).Some? && !Mismatch(before, target, expected))
    }

    /** No temporary file can be made for the target. */
    ghost predicate Unpreparable(before: Disk, target: Path, tmp: Path) {
      target == [] || tmp in before || !Changeable(tmp) || !AllPassable(before, Parent(target))
    }

    /**
     * `tmp` is the temporary path that the call used, or would have used, and `stage` is where it
     * ended. What is acknowledged has reached the disk. Without faults, a write that nothing stands in
     * the way of succeeds, and the error carries no effect exactly if the comparison passes and no
     * temporary file can be made.
     */
    method WriteBytes(target: Path, bytes: seq<byte>, expected: Option<string>, unique: string)
      returns (r: Result<Ack, WriteError>, ghost tmp: Path, ghost stage: Stage)
      modifies this`disk, this`synced
      ensures r.Ok? ==> target != [] && (tmp != target ==> target in synced && Get(disk, Parent(target)) == Some(Dir))
      ensures r.Err? && !deletesFirst && tmp != target ==> Get(disk, target) == Get(old(disk), target)
      ensures target != [] ==> tmp == Parent(target) + [TemporaryName(unique)]
      ensures TrueFacts(old(disk), disk, target, tmp, bytes, expected, r)
      ensures TrueStage(old(disk), target, expected, r, stage)
      ensures OnlyTouches(old(disk), disk, target, tmp)
      ensures !faulty && Compared(old(disk), target, expected) && Unobstructed(old(disk), target, tmp) ==> r.Ok?
      ensures !faulty ==>
        (r.Err? && r.error.effect.None? <==> Compared(old(disk), target, expected) && Unpreparable(old(disk), target, tmp))
    {
      tmp := if target == [] then [] else Parent(target) + [TemporaryName(unique)];
      var current := Read(target);
      if current.Err? {
        r, stage := Err(Bare(current.error).(effect := Some(NoEffect))), Reading;
        return;
      }
      var oldHash := if current.value.Some? then Some(hash(current.value.value)) else None;
      var wanted := Precondition(expected);
      if wanted.Some? && oldHash.None? {
        r, stage := Err(Bare(Io).(effect := Some(NoEffect))), Checking;
        return;
      }
      if wanted.Some? && !EqualIgnoringCase(oldHash.value, wanted.value) {
        r := Err(WriteError(HashMismatch, wanted, oldHash, Some(NoEffect),
                            Some(hash(bytes)), Some(|bytes|), oldHash));
        stage := Checking;
        return;
      }
      if target == [] {
        r, stage := Err(Bare(Io)), NoParent;
        return;
      }
      r, stage := Commit(target, bytes, oldHash, unique);
    }

    /** Creates the temporary file, writes the bytes and forces them to the disk. */
    method StageBytes(tmp: Path, bytes: seq<byte>) returns (ok: bool)
      modifies this`disk, this`synced
      ensures ok ==> tmp !in old(disk) && Changeable(tmp) && Get(disk, tmp) == Some(File(bytes)) && tmp in synced
      ensures !ok ==> faulty || tmp in old(disk) || !Changeable(tmp)
      ensures forall p :: p != tmp ==> Get(disk, p) == Get(old(disk), p)
    {
      ok := CreateNew(tmp);
      if !ok { return; }
      ghost var left;
      ok, left := WriteAll(tmp, bytes);
      if !ok { return; }
      ok := Sync(tmp);
    }

    /** Makes the missing directories and the temporary file. */
    method Prepare(target: Path, tmp: Path, bytes: seq<byte>) returns (ok: bool, ghost stage: Stage)
      requires target != [] && tmp != [] && Parent(tmp) == Parent(target)
      modifies this`disk, this`synced
      ensures stage in {Directories, Staging, Replacing} && (ok <==> stage == Replacing)
      ensures OnlyTouches(old(disk), disk, target, tmp)
      ensures tmp != target ==> Get(disk, target) == Get(old(disk), target)
      ensures ok ==>
        && tmp !in old(disk) && Get(disk, tmp) == Some(File(bytes)) && tmp in synced
        && Changeable(target) && Get(disk, Parent(target)) == Some(Dir)
      ensures !faulty ==> (!ok <==> Unpreparable(old(disk), target, tmp))
    {
      var parent := Parent(target);
      stage := Directories;
      ok := CreateDirectories(parent);
      assert parent[..|parent|] == parent && |parent| < |tmp| && |parent| < |target|;
      assert target !in old(disk) ==> !(target <= parent);
      assert !(tmp <= parent) && Get(disk, tmp) == Get(old(disk), tmp) && Get(disk, target) == Get(old(disk), target);
      if ok {
        ok := StageBytes(tmp, bytes);
        stage := if ok then Replacing else Staging;
      }
    }

    /** The part of the write that touches the disk. */
    method Commit(target: Path, bytes: seq<byte>, oldHash: Option<string>, unique: string)
      returns (r: Result<Ack, WriteError>, ghost stage: Stage)
      requires target != [] && oldHash == HashAt(disk, target)
      modifies this`disk, this`synced
      ensures stage in {Directories, Staging, Replacing, Finished}
      ensures r.Ok? <==> stage == Finished
      ensures stage in {Replacing, Finished} ==> Changeable(target)
      ensures var tmp := Parent(target) + [TemporaryName(unique)];
        && OnlyTouches(old(disk), disk, target, tmp)
        && (r.Ok? && tmp != target ==> target in synced && Get(disk, Parent(target)) == Some(Dir))
        && (r.Err? && !deletesFirst && tmp != target ==> Get(disk, target) == Get(old(disk), target))
        && match r
           case Ok(ack) =>
             && Get(disk, target) == Some(File(bytes))
             && (tmp != target ==> Get(disk, tmp) == None)
             && ack == Ack(oldHash, hash(bytes), |bytes|)
           case Err(e) =>
             && e.kind != HashMismatch
             && (e.effect.None? <==> stage != Replacing)
             && (e.effect == Some(NoEffect) ==> Get(disk, target) == Get(old(disk), target))
             && (stage == Replacing && tmp != target ==>
                   && (e.effect == Some(NoEffect) ==> tmp !in disk && target in disk)
                   && (!faulty ==> tmp !in disk && (e.effect == Some(NoEffect) <==> target in disk)))
             && (e.effect == Some(Unknown) ==>
                   e.intentHash == Some(hash(bytes)) && e.intentLength == Some(|bytes|) && e.oldHash == oldHash)
             && (e.effect == None && tmp != target ==> Get(disk, target) == Get(old(disk), target))
      ensures !faulty && Unobstructed(old(disk), target, Parent(target) + [TemporaryName(unique)]) ==> r.Ok?
      ensures !faulty ==>
        (stage in {Directories, Staging} <==> Unpreparable(old(disk), target, Parent(target) + [TemporaryName(unique)]))
    {
      var tmp := Parent(target) + [TemporaryName(unique)];
      assert Parent(tmp) == Parent(target);
      var kind := SomeFailure();
      var ok;
      ok, stage := Prepare(target, tmp, bytes);
      if !ok { return Err(Bare(kind)), stage; }
      ok := ReplaceFile(tmp, target);
      if !ok {
        var removed := RemoveFile(tmp);
        var present := Exists(target);
        var effect := if present && removed then NoEffect else Unknown;
        r := Err(Bare(kind).(
          effect := Some(effect), intentHash := Some(hash(bytes)), intentLength := Some(|bytes|),
          oldHash := oldHash));
        return r, Replacing;
      }
      r, stage := Ok(Ack(oldHash, hash(bytes), |bytes|)), Finished;
    }
  }

  /** Creating a file in a directory that refuses new entries ends in an error without an effect. */
  method WriteIntoReadOnlyDirectory(writer: Writer, target: Path, bytes: seq<byte>, unique: string)
    returns (r: Result<Ack, WriteError>)
    requires target != [] && Parent(target) in writer.readOnly && target !in writer.disk && !writer.faulty
    requires target != Parent(target) + [TemporaryName(unique)]
    modifies writer`disk, writer`synced
    ensures r.Err? && r.error.effect.None? && target !in writer.disk
  {
    ghost var tmp, stage;
    r, tmp, stage := writer.WriteBytes(target, bytes, None, unique);
  }

  /** Such a writer exists: nothing may be created at the root, and a file there is refused. */
  method EffectlessErrorOccurs() returns (r: Result<Ack, WriteError>)
    ensures r.Err? && r.error.effect.None?
  {
    var writer := new Writer(map[[] := Dir], (bytes: seq<byte>) => "", false, {[]}, false);
    assert ["f"] != Parent(["f"]) + [TemporaryName("0")] by { assert |TemporaryName("0")| > |"f"|; }
    r := WriteIntoReadOnlyDirectory(writer, ["f"], [1], "0");
  }
}
