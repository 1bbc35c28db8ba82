/** Moving a file or directory, replacing what is there, when every step may fail. */
module ResourceMove {
  import opened Wrappers
  import opened Text
  import opened FileTree

  /** The mode a new directory gets before its permissions are set. */
  const NEW_DIRECTORY_MODE: nat := 0x1ED

  const BACKUP_ATTEMPTS: nat := 1000

  function BackupName(name: string, process: nat, sequence: nat): string {
    "." + name + ".taomni-workspace-edit-backup-" + Decimal(process) + "-" + Decimal(sequence)
  }

  /** `backup` is a sibling of `target` under a generated name. */
  ghost predicate IsBackupOf(backup: Path, target: Path) {
    && target != [] && backup != []
    && Parent(backup) == Parent(target)
    && StartsWith(backup[|backup| - 1], "." + target[|target| - 1] + ".taomni-workspace-edit-backup-")
  }

  /** `to` holds what `from` held, `from` is gone, and nothing else changed. */
  ghost predicate MovedCleanly(before: Tree, from: Path, after: Tree, to: Path) {
    && from in before && Apart(from, to)
    && SameSubtree(before, from, after, to)
    && NothingAt(after, from)
    && SameOutside(before, after, {from, to})
  }

  /** The entries at and below `p` are some of those at and below `q`. */
  ghost predicate PartOf(a: Tree, p: Path, b: Tree, q: Path) {
    forall s: Path :: Get(a, p + s).Some? ==> Get(a, p + s) == Get(b, q + s)
  }

  /** Nothing lies below: a file, a link, an empty directory or no entry at all. */
  ghost predicate Single(t: Tree, p: Path) {
    Below(t, p) <= {p}
  }

  /** The parent of the path is a directory. */
  predicate HasPlace(t: Tree, p: Path) {
    p != [] && Parent(p) in t && t[Parent(p)].Dir?
  }

  /** What a recursive removal leaves that stops before the entries in `kept`. */
  function Remnant(t: Tree, target: Path, kept: set<Path>): Tree {
    map p | p in t && (!Under(p, target) || p == target || exists q :: q in kept && Under(q, p)) :: t[p]
  }

  /** Every name that `BackupPath` would try is taken. */
  ghost predicate AllTaken(t: Tree, target: Path, process: nat, sequence: nat) {
    target != [] && forall n: nat :: sequence <= n < sequence + BACKUP_ATTEMPTS ==> Candidate(target, process, n) in t
  }

  function Candidate(target: Path, process: nat, sequence: nat): Path
    requires target != []
  {
    Parent(target) + [BackupName(target[|target| - 1], process, sequence)]
  }

  class FileSystem {
    var tree: Tree
    var sequence: nat
    const process: nat
    /** How many more calls may fail for reasons that the tree does not show. */
    var faults: nat
    /** Whether a recursive removal that fails may have removed a part. */
    const halfway: bool

    // -------------------------------------------------------------------
    // Calls of the operating system.

    method Fault() returns (fails: bool)
      modifies this`faults
      ensures if fails then old(faults) > 0 && faults == old(faults) - 1 else faults == old(faults)
    {
      fails := *;
      fails := fails && faults > 0;
      if fails { faults := faults - 1; }
    }

    method Rename(from: Path, to: Path) returns (ok: bool)
      requires WellFormed(tree)
      modifies this`tree, this`faults
      ensures WellFormed(tree) && faults <= old(faults)
      ensures ok ==> CanRename(old(tree), from, to) && tree == Moved(old(tree), from, to)
      ensures !ok ==> tree == old(tree) && (faults < old(faults) || !CanRename(tree, from, to))
    {
      var fails := Fault();
      ghost var possible := CanRename(tree, from, to);
      ok := from in tree && to != [] && Parent(to) in tree && tree[Parent(to)].Dir? && Apart(from, to)
            && (to in tree && tree[from].Dir? ==> tree[to].Dir? && Below(tree, to) == {to})
            && (to in tree && !tree[from].Dir? ==> !tree[to].Dir?);
      assert ok == possible;
      ok := ok && !fails;
      if ok {
        MovedIsWellFormed(tree, from, to);
        tree := Moved(tree, from, to);
      }
    }

    /** The entry at a path, unless the inspection itself fails. */
    method Stat(p: Path) returns (r: Result<Option<Node>, ()>)
      modifies this`faults
      ensures faults <= old(faults)
      ensures r.Ok? ==> r.value == Get(tree, p)
      ensures r.Err? ==> faults < old(faults)
    {
      var fails := Fault();
      r := if fails then Err(()) else Ok(Get(tree, p));
    }

    /** Removes an entry and, when recursive, everything below it; `kept` is where a failed removal stopped. */
    method Remove(target: Path, recursive: bool) returns (ok: bool, ghost kept: set<Path>)
      requires WellFormed(tree)
      modifies this`tree, this`faults
      ensures WellFormed(tree) && faults <= old(faults)
      ensures ok ==> tree == Without(old(tree), target)
      ensures ok ==> NothingAt(tree, target)
      ensures ok && !recursive ==> Below(old(tree), target) == {target}
      ensures SameOutside(old(tree), tree, {target}) && PartOf(tree, target, old(tree), target)
      ensures !ok ==> tree == old(tree) || (halfway && tree == Remnant(old(tree), target, kept))
      ensures !ok && Single(old(tree), target) ==> tree == old(tree)
      ensures target !in old(tree) ==> !ok && tree == old(tree)
      ensures !ok && recursive ==> faults < old(faults) || target !in old(tree)
    {
      kept := {};
      var fails := Fault();
      var possible := target in tree && (recursive || !tree[target].Dir? || Below(tree, target) == {target});
      ok := possible && !fails;
      if ok {
        if !tree[target].Dir? {
          NothingBelowLeaf(tree, target);
        }
        WithoutIsWellFormed(tree, target);
        tree := Without(tree, target);
      } else if possible && recursive && halfway {
        var spared: set<Path> := *;
        kept := spared;
        RemnantIsWellFormed(tree, target, spared);
        tree := Remnant(tree, target, spared);
      }
    }

    /** Creates a directory or a symbolic link where nothing is. */
    method Create(p: Path, node: Node) returns (ok: bool)
      requires WellFormed(tree)
      modifies this`tree, this`faults
      ensures WellFormed(tree) && faults <= old(faults)
      ensures ok ==> p !in old(tree) && tree == old(tree)[p := node] && SameOutside(old(tree), tree, {p})
      ensures ok ==> HasPlace(old(tree), p)
      ensures !ok ==> tree == old(tree) && (faults < old(faults) || p in tree || !HasPlace(tree, p))
    {
      var fails := Fault();
      ok := !fails && p !in tree && HasPlace(tree, p);
      if ok {
        AbsentMeansNothing(tree, p);
        PlacedIsWellFormed(tree, p, node);
        tree := tree[p := node];
      }
    }

    /** Copies a file's bytes and permissions. A failure may leave a file with anything in it. */
    method CopyFile(node: Node, to: Path) returns (ok: bool)
      requires WellFormed(tree) && node.File?
      modifies this`tree, this`faults
      ensures WellFormed(tree) && faults <= old(faults)
      ensures SameOutside(old(tree), tree, {to})
      ensures ok ==> Get(tree, to) == Some(node) && HasPlace(old(tree), to)
      ensures NothingAt(old(tree), to) ==> Below(tree, to) <= {to}
      ensures !HasPlace(old(tree), to) ==> tree == old(tree)
      ensures !ok && to !in old(tree) && HasPlace(old(tree), to) ==> faults < old(faults)
    {
      var fails := Fault();
      var possible := HasPlace(tree, to) && (to in tree ==> tree[to].File?);
      var started: bool := *;
      ok := possible && !fails;
      if ok || (possible && started) {
        var partial: string := *;
        var written := if ok then node else File(partial, node.mode);
        if to !in tree {
          AbsentMeansNothing(tree, to);
        }
        PlacedIsWellFormed(tree, to, written);
        tree := tree[to := written];
      }
    }

    method SetMode(p: Path, mode: nat) returns (ok: bool)
      requires WellFormed(tree) && p in tree && tree[p].Dir? && p != []
      modifies this`tree, this`faults
      ensures WellFormed(tree) && SameOutside(old(tree), tree, {p}) && faults <= old(faults)
      ensures ok ==> tree == old(tree)[p := Dir(mode)]
      ensures !ok ==> tree == old(tree) && faults < old(faults)
    {
      var fails := Fault();
      ok := !fails;
      if ok {
        assert InDirectory(tree, p);
        PlacedIsWellFormed(tree, p, Dir(mode));
        tree := tree[p := Dir(mode)];
      }
    }

    method ListNames(p: Path) returns (names: Option<set<string>>)
      modifies this`faults
      ensures faults <= old(faults) && (names.None? ==> faults < old(faults))
      ensures names.Some? ==> forall n :: n in names.value <==> p + [n] in tree
    {
      var fails := Fault();
      if fails { return None; }
      var entries := set q | q in tree && q != [] && Parent(q) == p :: q[|q| - 1];
      forall n ensures n in entries <==> p + [n] in tree {
        assert Parent(p + [n]) == p && (p + [n])[|p|] == n;
        forall q | q in tree && q != [] && Parent(q) == p && q[|q| - 1] == n ensures q == p + [n] {}
      }
      names := Some(entries);
    }

    // -------------------------------------------------------------------
    // The recursive copy.

    /**
     * Copies `from` to `to`, where nothing is yet. Success means an identical subtree; a failure may
     * leave part of one; nothing outside `to` changes either way. A copy fails without a fault only
     * where a renaming would be impossible, too, and then it changes nothing.
     */
    method Copy(from: Path, to: Path) returns (ok: bool)
      requires WellFormed(tree) && NothingAt(tree, to) && !Under(to, from)
      modifies this`tree, this`faults
      decreases Below(tree, from), 2
      ensures WellFormed(tree) && faults <= old(faults)
      ensures SameOutside(old(tree), tree, {to})
      ensures ok ==> from in old(tree) && SameSubtree(old(tree), from, tree, to)
      ensures !(from in old(tree) && HasPlace(old(tree), to)) ==> !ok && tree == old(tree)
      ensures !ok && from in old(tree) && HasPlace(old(tree), to) ==> faults < old(faults)
    {
      assert to !in tree by { assert Under(to, to); }
      var metadata := Stat(from);
      if metadata.Err? || metadata.value.None? { return false; }
      match metadata.value.value {
        case Symlink(target) =>
          ok := Create(to, Symlink(target));
          if ok { LeafCopied(old(tree), from, tree, to); }
        case File(_, _) =>
          ok := CopyFile(metadata.value.value, to);
          if ok { LeafCopied(old(tree), from, tree, to); }
        case Dir(mode) =>
          ok := CopyDirectory(from, to, mode);
      }
    }

    method CopyDirectory(from: Path, to: Path, mode: nat) returns (ok: bool)
      requires WellFormed(tree) && NothingAt(tree, to) && !Under(to, from)
      requires Get(tree, from) == Some(Dir(mode))
      modifies this`tree, this`faults
      decreases Below(tree, from), 1
      ensures WellFormed(tree) && faults <= old(faults)
      ensures SameOutside(old(tree), tree, {to})
      ensures ok ==> from in old(tree) && SameSubtree(old(tree), from, tree, to)
      ensures !HasPlace(old(tree), to) ==> !ok && tree == old(tree)
      ensures !ok && HasPlace(old(tree), to) ==> faults < old(faults)
    {
      ghost var start := tree;
      assert to !in tree by { assert Under(to, to); }
      ok := Create(to, Dir(NEW_DIRECTORY_MODE));
      if !ok { return false; }
      DirectoryStarted(start, tree, from, to);
      var listing := ListNames(from);
      if listing.None? { return false; }
      SourceUnchanged(start, tree, from, to);
      ok := CopyChildren(start, from, to, listing.value);
      if !ok { return false; }
      ghost var filled := tree;
      ok := SetMode(to, mode);
      SameOutsideTrans(start, filled, tree, {to}, {to});
      if ok { DirectoryCopied(start, filled, from, to, listing.value, mode); }
    }

    /** Copies the named children, in any order, into the fresh directory at `to`. */
    method CopyChildren(ghost start: Tree, from: Path, to: Path, names: set<string>) returns (ok: bool)
      requires WellFormed(start) && NothingAt(start, to) && from in start && !Under(to, from)
      requires WellFormed(tree) && CopyProgress(start, tree, from, to, {})
      requires Below(start, from) == Below(tree, from) && forall n :: n in names ==> from + [n] in start
      modifies this`tree, this`faults
      decreases Below(tree, from), 0
      ensures WellFormed(tree) && SameOutside(start, tree, {to}) && faults <= old(faults)
      ensures ok ==> CopyProgress(start, tree, from, to, names)
      ensures !ok ==> faults < old(faults)
    {
      var done := {};
      while names - done != {}
        invariant WellFormed(tree) && done <= names
        invariant CopyProgress(start, tree, from, to, done) && faults <= old(faults)
        decreases names - done
      {
        var name :| name in names - done;
        ghost var before := tree;
        ChildReady(start, tree, from, to, done, name);
        ok := Copy(from + [name], to + [name]);
        if !ok {
          ChildStaysInside(start, before, tree, to, name);
          return false;
        }
        ChildCopied(start, before, tree, from, to, done, name);
        done := done + {name};
      }
      assert done == names;
      ok := true;
    }

    // -------------------------------------------------------------------
    // The moves.

    /** A path next to `target` at which nothing exists, from a bounded number of attempts. */
    method BackupPath(target: Path) returns (backup: Option<Path>)
      requires WellFormed(tree)
      modifies this`sequence, this`faults
      ensures faults <= old(faults)
      ensures backup.Some? ==> IsBackupOf(backup.value, target) && NothingAt(tree, backup.value)
      ensures backup.None? ==>
        faults < old(faults) || target == [] || AllTaken(tree, target, process, old(sequence))
    {
      if target == [] { return None; }
      var attempt := 0;
      while attempt < BACKUP_ATTEMPTS
        invariant 0 <= attempt <= BACKUP_ATTEMPTS && sequence == old(sequence) + attempt && faults <= old(faults)
        invariant forall n: nat :: old(sequence) <= n < sequence ==> Candidate(target, process, n) in tree
      {
        var candidate := Candidate(target, process, sequence);
        sequence := sequence + 1;
        var found := Stat(candidate);
        if found.Err? { return None; }
        if found.value.None? {
          AbsentMeansNothing(tree, candidate);
          return Some(candidate);
        }
        attempt := attempt + 1;
      }
      return None;
    }

    /** Removes whatever a failed attempt left at `to`; failures of the removal are only reported. */
    method CleanUp(to: Path)
      requires WellFormed(tree)
      modifies this`tree, this`faults
      ensures WellFormed(tree) && SameOutside(old(tree), tree, {to}) && faults <= old(faults)
      ensures to !in old(tree) ==> tree == old(tree)
      ensures NothingAt(tree, to) || faults < old(faults)
    {
      if to !in tree { AbsentMeansNothing(tree, to); }
      var found := Stat(to);
      if found.Ok? && found.value.Some? {
        var _, _ := Remove(to, true);
      }
    }

    /**
     * Moves to a place where nothing is: by renaming, or by copying and then removing the source. A
     * possible move fails only after two faults. Up to two faults, a failure leaves the tree as it was,
     * unless the removal of the source stopped halfway; then exactly what it had reached is missing,
     * and `kept` is where it stopped.
     */
    method MoveAcrossRoots(from: Path, to: Path) returns (ok: bool, ghost kept: set<Path>)
      requires WellFormed(tree) && NothingAt(tree, to) && !Under(to, from)
      modifies this`tree, this`faults
      ensures WellFormed(tree) && faults <= old(faults)
      ensures ok ==> MovedCleanly(old(tree), from, tree, to)
      ensures !ok ==> SameOutside(old(tree), tree, {from, to})
      ensures !ok && !Under(from, to) ==> PartOf(tree, from, old(tree), from)
      ensures !ok && (!halfway || Single(old(tree), from)) ==> SameOutside(old(tree), tree, {to})
      ensures from !in old(tree) ==> !ok && tree == old(tree)
      ensures !ok && CanRename(old(tree), from, to) ==> old(faults) - faults >= 2
      ensures !ok && !CanRename(old(tree), from, to) ==> tree == old(tree)
      ensures !ok && old(faults) - faults <= 2 ==>
        tree == old(tree) || (halfway && !Single(old(tree), from) && tree == Remnant(old(tree), from, kept))
    {
      ghost var start := tree;
      kept := {};
      ok := Rename(from, to);
      if ok {
        RenamedCleanly(start, from, to);
        return;
      }
      assert to !in tree && Apart(from, to) == !Under(from, to) by { assert Under(to, to); }
      SourceIsElsewhere(start, from, to);
      ok := Copy(from, to);
      ghost var copied := tree;
      if !ok {
        CleanUp(to);
        CopyFailed(start, copied, tree, from, to);
        if NothingAt(tree, to) { CleanedUp(start, tree, to); }
        return;
      }
      SourceUnchanged(start, copied, from, to);
      ok, kept := Remove(from, true);
      ghost var removed := tree;
      if !ok {
        var undone, _ := Remove(to, true);
        RemovalFailed(start, copied, removed, tree, from, to);
        CopyIsThere(start, copied, removed, from, to);
        if undone { CopyUndone(start, copied, removed, tree, from, to, kept); }
        return;
      }
      CopiedThenRemoved(start, copied, tree, from, to);
    }

    /**
     * Moves `from` over `to`. Success leaves exactly the old source at `to`; any failure leaves the
     * old destination at `to` or at the backup path, and of the source what `MoveAcrossRoots` leaves,
     * unless it lay inside the destination. Nothing else changes. Without a fault, a failure changes
     * nothing at all, and an existing source outside the destination is moved unless every backup name
     * is taken; it takes three faults to leave the destination at the backup path, and four to leave a
     * copy behind. All this holds for a missing source, too, except where it would lie at or below the
     * backup path: then a part of the old destination is taken for the source.
     */
    method MoveReplacing(from: Path, to: Path)
      returns (ok: bool, ghost backup: Option<Path>, ghost kept: set<Path>)
      requires WellFormed(tree) && !Under(to, from)
      modifies this`tree, this`sequence, this`faults
      ensures WellFormed(tree) && faults <= old(faults)
      ensures backup.Some? ==> IsBackupOf(backup.value, to) && NothingAt(old(tree), backup.value)
      ensures SameOutside(old(tree), tree, Touched(from, to, backup))
      ensures from in old(tree) ==> Clear(from, backup)
      ensures ok && Clear(from, backup) ==>
        && from in old(tree) && !Under(from, to)
        && SameSubtree(old(tree), from, tree, to)
        && NothingAt(tree, from)
      ensures ok && Clear(from, backup) && backup.Some? ==>
        && PartOf(tree, backup.value, old(tree), to)
        && (!halfway ==> NothingAt(tree, backup.value) || SameSubtree(old(tree), to, tree, backup.value))
        && (NothingAt(tree, backup.value) || faults < old(faults))
      ensures !ok && (Clear(from, backup) || !halfway) ==>
        || SameSubtree(old(tree), to, tree, to)
        || (backup.Some? && SameSubtree(old(tree), to, tree, backup.value))
      ensures !ok && Clear(from, backup) && !Under(from, to) ==>
        && PartOf(tree, from, old(tree), from)
        && (!halfway || Single(old(tree), from) ==> SameSubtree(old(tree), from, tree, from))
      ensures ok && !Clear(from, backup) ==>
        && from !in old(tree) && Under(from, backup.value)
        && SameSubtree(old(tree), to + from[|backup.value|..], tree, to)
      ensures !ok && tree != old(tree) ==> faults < old(faults)
      ensures !ok && from in old(tree) && !Under(from, to) && old(faults) - faults <= 2 ==>
        tree == old(tree) || (halfway && !Single(old(tree), from) && tree == Remnant(old(tree), from, kept))
      ensures !ok && from in old(tree) && !Under(from, to) && (!halfway || Single(old(tree), from))
              && old(faults) - faults <= 3 ==>
        tree == old(tree) || (backup.Some? && tree == Moved(old(tree), to, backup.value))
      ensures !ok && from in old(tree) && to in old(tree) && to != [] && !Under(from, to) ==>
        faults < old(faults) || AllTaken(old(tree), to, process, old(sequence))
    {
      hide WellFormed, Under, NothingAt, SameSubtree, SameOutside, PartOf, Single, CanRename, Moved, AllTaken,
           Remnant, IsBackupOf;
      ghost var start := tree;
      backup, kept := None, {};
      NothingMoved(start, from, to);
      ok := Rename(from, to);
      if ok {
        RenamedCleanly(start, from, to);
        assert Touched(from, to, None) == {from, to};
        return;
      }
      var place := BackupPath(to);
      if place.None? { return; }
      BackupIsApart(start, from, to, place.value);
      if to in tree && to != [] { ParkingIsPossible(start, to, place.value); }
      ok := Rename(to, place.value);
      if !ok { return; }
      backup := place;
      ghost var parked := tree;
      RenamedCleanly(start, to, place.value);
      AfterParking(start, from, to, place.value);
      ok, kept := MoveAcrossRoots(from, to);
      ghost var moved := tree;
      if ok {
        if place.value !in moved { AbsentMeansNothing(moved, place.value); }
        var _, _ := Remove(place.value, true);
        MoveSucceeded(start, parked, moved, tree, from, to, place.value);
      } else {
        CleanUp(to);
        ghost var cleaned := tree;
        if NothingAt(cleaned, to) { CleanedBeforeRestore(parked, moved, cleaned, to); }
        var restored := Rename(place.value, to);
        if restored { RenamedCleanly(cleaned, place.value, to); }
        MoveFailed(start, parked, moved, cleaned, tree, restored, from, to, place.value);
        if from in start && !Under(from, to) { PutBackWithout(start, from, to, place.value, kept); }
      }
    }
  }

  /** A copied file or link is a whole subtree. */
  lemma LeafCopied(a: Tree, from: Path, b: Tree, to: Path)
    requires WellFormed(a) && from in a && !a[from].Dir?
    requires Get(b, to) == Get(a, from) && Below(b, to) <= {to}
    ensures SameSubtree(a, from, b, to)
  {
    forall s: Path ensures Get(a, from + s) == Get(b, to + s) {
      if s == [] {
        assert from + s == from && to + s == to;
      } else {
        NothingBelowLeaf(a, from);
        assert Under(from + s, from) && |from + s| != |from|;
        assert from + s !in Below(a, from);
        assert Under(to + s, to) && |to + s| != |to|;
        assert to + s !in Below(b, to);
      }
    }
  }

  // ---------------------------------------------------------------------
  // Proof of the recursive copy.

  /** The children in `done` are copied; every other place below `to` is still empty. */
  ghost predicate CopyProgress(start: Tree, t: Tree, from: Path, to: Path, done: set<string>) {
    && SameOutside(start, t, {to})
    && Get(t, to) == Some(Dir(NEW_DIRECTORY_MODE))
    && (forall n :: n !in done ==> NothingAt(t, to + [n]))
    && (forall n :: n in done ==> SameSubtree(start, from + [n], t, to + [n]))
  }

  lemma DirectoryStarted(start: Tree, t: Tree, from: Path, to: Path)
    requires WellFormed(start) && NothingAt(start, to) && SameOutside(start, t, {to})
    requires t == start[to := Dir(NEW_DIRECTORY_MODE)]
    ensures CopyProgress(start, t, from, to, {})
    ensures from in start && !Under(to, from) ==> forall n :: from + [n] in t <==> from + [n] in start
  {
    forall n, p | p in t && Under(p, to + [n]) ensures false {
      UnderSplit(p, to + [n]);
      assert Under(p, to) && |p| > |to|;
    }
    if from in start && !Under(to, from) {
      forall n ensures from + [n] in t <==> from + [n] in start {
        assert from + [n] == to ==> Under(to, from);
      }
    }
  }

  lemma ApartChildren(root: Path, m: string, n: string)
    requires m != n
    ensures Apart(root + [m], root + [n])
  {
    assert (root + [m])[|root|] == m && (root + [n])[|root|] == n;
  }

  /** Below a source that is apart from the destination nothing has changed yet. */
  lemma SourceUnchanged(start: Tree, t: Tree, from: Path, to: Path)
    requires NothingAt(start, to) && from in start && !Under(to, from)
    requires SameOutside(start, t, {to})
    ensures Apart(from, to) && from in t
    ensures SameSubtree(start, from, t, from)
    ensures Below(t, from) == Below(start, from)
  {
    assert from + [] == from;
    ApartIsUnchanged(start, t, {to}, from);
    forall p | Under(p, from) ensures Get(start, p) == Get(t, p) {
      UnderSplit(p, from);
    }
  }

  lemma ChildReady(start: Tree, t: Tree, from: Path, to: Path, done: set<string>, name: string)
    requires WellFormed(start) && WellFormed(t)
    requires NothingAt(start, to) && from in start && !Under(to, from)
    requires CopyProgress(start, t, from, to, done) && name !in done
    ensures NothingAt(t, to + [name]) && !Under(to + [name], from + [name])
    ensures HasPlace(t, to + [name]) && (from + [name] in start ==> from + [name] in t)
    ensures Below(t, from + [name]) < Below(start, from)
  {
    SourceUnchanged(start, t, from, to);
    assert Get(start, from + [name]) == Get(t, from + [name]) && Parent(to + [name]) == to;
    UnderConcat(to, [name], from + [name]);
    assert Under(from + [name], from);
    UnderConcat(to, [name], from);
    forall p | p in Below(t, from + [name]) ensures p in Below(start, from) && p != from {
      assert Under(p, from) && |p| > |from|;
      assert p in Below(t, from);
    }
    assert from in Below(start, from);
  }

  lemma ChildStaysInside(start: Tree, before: Tree, after: Tree, to: Path, name: string)
    requires SameOutside(start, before, {to}) && SameOutside(before, after, {to + [name]})
    ensures SameOutside(start, after, {to})
  {
    assert Under(to + [name], to) && to in {to};
    SameOutsideTrans(start, before, after, {to + [name]}, {to});
  }

  lemma ChildCopied(start: Tree, before: Tree, after: Tree, from: Path, to: Path, done: set<string>, name: string)
    requires WellFormed(start) && NothingAt(start, to) && from in start && !Under(to, from)
    requires CopyProgress(start, before, from, to, done) && name !in done
    requires SameOutside(before, after, {to + [name]})
    requires SameSubtree(before, from + [name], after, to + [name])
    ensures CopyProgress(start, after, from, to, done + {name})
  {
    ChildStaysInside(start, before, after, to, name);
    assert !Under(to, to + [name]);
    assert Get(after, to) == Get(before, to);
    forall n | n != name
      ensures n !in done ==> NothingAt(after, to + [n])
      ensures n in done ==> SameSubtree(start, from + [n], after, to + [n])
    {
      ApartChildren(to, n, name);
      ApartIsUnchanged(before, after, {to + [name]}, to + [n]);
      if n !in done { NothingStays(before, after, to + [n]); }
    }
    SourceUnchanged(start, before, from, to);
    forall s: Path ensures Get(start, (from + [name]) + s) == Get(after, (to + [name]) + s) {
      assert from + [name] + s == from + ([name] + s);
    }
  }

  lemma NothingStays(a: Tree, b: Tree, p: Path)
    requires NothingAt(a, p) && SameSubtree(a, p, b, p)
    ensures NothingAt(b, p)
  {
    forall q | Under(q, p) ensures q !in b {
      UnderSplit(q, p);
      assert Get(a, p + q[|p|..]) == Get(b, p + q[|p|..]);
    }
  }

  lemma DirectoryCopied(start: Tree, t: Tree, from: Path, to: Path, names: set<string>, mode: nat)
    requires WellFormed(start) && Get(start, from) == Some(Dir(mode))
    requires CopyProgress(start, t, from, to, names)
    requires forall n :: n in names <==> from + [n] in start
    ensures SameSubtree(start, from, t[to := Dir(mode)], to)
  {
    var r := t[to := Dir(mode)];
    forall s: Path ensures Get(start, from + s) == Get(r, to + s) {
      if s == [] {
        assert from + s == from && to + s == to;
      } else {
        var n := s[0];
        assert from + s == from + [n] + s[1..] && to + s == to + [n] + s[1..];
        assert |to + s| != |to|;
        if n !in names {
          AbsentMeansNothing(start, from + [n]);
          assert Under(from + s, from + [n]) && Under(to + s, to + [n]);
        }
      }
    }
  }

  // ---------------------------------------------------------------------
  // Proof of the moves.

  lemma RenamedCleanly(t: Tree, from: Path, to: Path)
    requires CanRename(t, from, to)
    ensures MovedCleanly(t, from, Moved(t, from, to), to)
  {
    var r := Moved(t, from, to);
    forall s: Path ensures Get(t, from + s) == Get(r, to + s) {
      assert Get(r, to + s) == MovedAt(t, from, to, to + s);
      assert Under(to + s, to) && (to + s)[|to|..] == s;
    }
    forall p | Under(p, from) ensures p !in r {
      assert Get(r, p) == MovedAt(t, from, to, p);
      UnderSplit(p, from);
      UnderConcat(from, p[|from|..], to);
    }
    forall p | !Under(p, from) && !Under(p, to) ensures Get(t, p) == Get(r, p) {
      assert Get(r, p) == MovedAt(t, from, to, p);
    }
    assert from in {from, to} && to in {from, to};
  }

  lemma CopiedThenRemoved(start: Tree, copied: Tree, end: Tree, from: Path, to: Path)
    requires NothingAt(start, to) && from in start && !Under(to, from)
    requires SameOutside(start, copied, {to}) && SameSubtree(start, from, copied, to)
    requires NothingAt(end, from) && SameOutside(copied, end, {from})
    ensures MovedCleanly(start, from, end, to)
  {
    assert Apart(from, to);
    ApartIsUnchanged(copied, end, {from}, to);
    forall s: Path ensures Get(start, from + s) == Get(end, to + s) {
      assert Get(copied, to + s) == Get(end, to + s);
    }
    forall p | forall r :: r in {from, to} ==> !Under(p, r) ensures Get(start, p) == Get(end, p) {
      assert from in {from, to} && to in {from, to};
    }
  }

  ghost function Touched(from: Path, to: Path, backup: Option<Path>): set<Path> {
    {from, to} + if backup.Some? then {backup.value} else {}
  }

  /** The source does not lie at or below the backup path. */
  ghost predicate Clear(from: Path, backup: Option<Path>) {
    backup.Some? ==> Apart(from, backup.value)
  }

  lemma RemnantIsWellFormed(t: Tree, target: Path, kept: set<Path>)
    requires WellFormed(t)
    ensures WellFormed(Remnant(t, target, kept))
    ensures SameOutside(t, Remnant(t, target, kept), {target}) && PartOf(Remnant(t, target, kept), target, t, target)
    ensures Single(t, target) ==> Remnant(t, target, kept) == t
  {
    var r := Remnant(t, target, kept);
    forall p | p in r ensures InDirectory(r, p) {
      assert InDirectory(t, p);
      if p != [] && Under(p, target) && p != target {
        ParentUnder(p, target);
        var q :| q in kept && Under(q, p);
        assert Under(q, Parent(p));
      }
    }
    assert target in {target};
    if Single(t, target) {
      forall p | p in t && Under(p, target)
        ensures p == target
      {
        assert p in Below(t, target);
      }
    }
  }

  /** A failed copy, cleaned up or not, has touched nothing but the destination. */
  lemma CopyFailed(start: Tree, copied: Tree, end: Tree, from: Path, to: Path)
    requires NothingAt(start, to) && !Under(to, from)
    requires SameOutside(start, copied, {to}) && SameOutside(copied, end, {to})
    ensures SameOutside(start, end, {to}) && SameOutside(start, end, {from, to})
    ensures !Under(from, to) ==> PartOf(end, from, start, from)
  {
    SameOutsideWithin(start, copied, end, {to}, {to});
    WidenRoots(start, end, {to}, {from, to});
    if !Under(from, to) { ApartIsUnchanged(start, end, {to}, from); }
  }

  /** After a removal of the source that failed, all that is left of it is as it was. */
  lemma RemovalFailed(start: Tree, copied: Tree, removed: Tree, end: Tree, from: Path, to: Path)
    requires Apart(from, to) && SameOutside(start, copied, {to}) && SameSubtree(start, from, copied, from)
    requires SameOutside(copied, removed, {from}) && PartOf(removed, from, copied, from)
    requires SameOutside(removed, end, {to})
    ensures SameOutside(start, end, {from, to}) && PartOf(end, from, start, from)
    ensures removed == copied ==> SameOutside(start, end, {to})
  {
    ApartIsUnchanged(removed, end, {to}, from);
    WidenRoots(start, copied, {to}, {from, to});
    SameOutsideWithin(start, copied, removed, {from}, {from, to});
    SameOutsideWithin(start, removed, end, {to}, {from, to});
    if removed == copied { SameOutsideWithin(start, copied, end, {to}, {to}); }
    forall s: Path | Get(end, from + s).Some?
      ensures Get(end, from + s) == Get(start, from + s)
    {
      assert Get(removed, from + s) == Get(end, from + s);
      assert Get(copied, from + s) == Get(start, from + s);
    }
  }

  /** Where nothing is yet, exactly what can be copied can be renamed. */
  lemma SourceIsElsewhere(start: Tree, from: Path, to: Path)
    requires NothingAt(start, to) && !Under(to, from)
    ensures CanRename(start, from, to) <==> from in start && HasPlace(start, to)
  {
    assert Under(to, to);
  }

  /** Once nothing is left at the destination, the tree is as it was. */
  lemma CleanedUp(start: Tree, end: Tree, to: Path)
    requires NothingAt(start, to) && NothingAt(end, to) && SameOutside(start, end, {to})
    ensures start == end
  {
    SameEverywhere(start, end, to);
  }

  lemma SameEverywhere(a: Tree, b: Tree, root: Path)
    requires forall p :: !Under(p, root) ==> Get(a, p) == Get(b, p)
    requires forall p :: Under(p, root) ==> Get(a, p) == Get(b, p)
    ensures a == b
  {
    assert forall p :: Get(a, p) == Get(b, p);
    assert forall p :: p in a <==> p in b by {
      forall p ensures p in a <==> p in b { assert Get(a, p) == Get(b, p); }
    }
    forall p | p in a ensures a[p] == b[p] {
      assert Get(a, p) == Get(b, p);
    }
  }

  lemma CleanedBeforeRestore(parked: Tree, moved: Tree, cleaned: Tree, to: Path)
    requires NothingAt(parked, to) && NothingAt(cleaned, to) && SameOutside(moved, cleaned, {to})
    ensures SameOutside(parked, moved, {to}) ==> parked == cleaned
  {
    if SameOutside(parked, moved, {to}) {
      SameOutsideWithin(parked, moved, cleaned, {to}, {to});
      CleanedUp(parked, cleaned, to);
    }
  }

  /** The removal of the source leaves the copy in place. */
  lemma CopyIsThere(start: Tree, copied: Tree, removed: Tree, from: Path, to: Path)
    requires from in start && Apart(from, to)
    requires SameSubtree(start, from, copied, to) && SameOutside(copied, removed, {from})
    ensures to in removed
  {
    assert from + [] == from && to + [] == to;
    assert Get(start, from + []) == Get(copied, to + []);
    assert Get(copied, to) == Get(removed, to);
  }

  /** With the copy removed again, all that is missing is what the removal of the source had reached. */
  lemma CopyUndone(start: Tree, copied: Tree, removed: Tree, end: Tree, from: Path, to: Path, kept: set<Path>)
    requires NothingAt(start, to) && Apart(from, to) && SameOutside(start, copied, {to})
    requires removed == copied || removed == Remnant(copied, from, kept)
    requires end == Without(removed, to)
    ensures end == if removed == copied then start else Remnant(start, from, kept)
  {
    var expected := if removed == copied then start else Remnant(start, from, kept);
    forall p ensures Get(end, p) == Get(expected, p) {
      if !Under(p, to) { assert Get(start, p) == Get(copied, p); }
    }
    SameEverywhere(end, expected, to);
  }

  /**
   * A removal of the source that stops halfway loses what it removed: the complete copy is removed
   * after it, and what is left is what the removal left. For every source directory that is not empty
   * an entry can be lost in this way.
   */
  lemma HalfwayRemovalLosesSource(start: Tree, copied: Tree, from: Path, to: Path, entry: Path)
    requires WellFormed(copied) && SameOutside(start, copied, {to}) && SameSubtree(start, from, copied, to)
    requires Apart(from, to) && entry in start && Under(entry, from) && entry != from
    requires NothingAt(start, to)
    ensures var end := Without(Remnant(copied, from, {}), to);
      WellFormed(end) && !Single(start, from) && NothingAt(end, to) && entry !in end && end == Remnant(start, from, {})
  {
    CopyUndone(start, copied, Remnant(copied, from, {}), Without(Remnant(copied, from, {}), to), from, to, {});
    RemnantIsWellFormed(copied, from, {});
    WithoutIsWellFormed(Remnant(copied, from, {}), to);
    assert entry in Below(start, from);
  }

  lemma BackupIsApart(start: Tree, from: Path, to: Path, backup: Path)
    requires !Under(to, from) && IsBackupOf(backup, to) && NothingAt(start, backup)
    ensures Apart(to, backup)
    ensures Apart(from, backup) || Under(from, backup)
    ensures from in start ==> Apart(from, backup)
  {
    ParentUnder(backup, from);
    ParentUnder(to, from);
    assert |backup[|backup| - 1]| > |to[|to| - 1]|;
  }

  lemma NothingMoved(t: Tree, from: Path, to: Path)
    ensures SameOutside(t, t, Touched(from, to, None))
    ensures SameSubtree(t, from, t, from) && SameSubtree(t, to, t, to) && PartOf(t, from, t, from)
  {
  }

  /** An existing destination can be put aside. */
  lemma ParkingIsPossible(start: Tree, to: Path, backup: Path)
    requires WellFormed(start) && to in start && to != []
    requires IsBackupOf(backup, to) && NothingAt(start, backup) && Apart(to, backup)
    ensures CanRename(start, to, backup)
  {
    assert InDirectory(start, to) && Under(backup, backup);
  }

  /** With the destination put aside, every source that is there can be renamed, and the destination put back. */
  lemma AfterParking(start: Tree, from: Path, to: Path, backup: Path)
    requires CanRename(start, to, backup) && WellFormed(start) && NothingAt(start, backup)
    requires IsBackupOf(backup, to) && !Under(to, from)
    ensures var parked := Moved(start, to, backup);
      && to !in parked && (from in start && !Under(from, to) ==> from in parked)
      && (from in parked ==> CanRename(parked, from, to))
      && CanRename(parked, backup, to) && Moved(parked, backup, to) == start
  {
    var parked := Moved(start, to, backup);
    assert InDirectory(start, to);
    assert |Parent(to)| < |to| && |Parent(to)| < |backup|;
    assert !Under(Parent(to), to) && !Under(Parent(to), backup);
    assert Get(parked, Parent(to)) == MovedAt(start, to, backup, Parent(to));
    assert Get(parked, to) == MovedAt(start, to, backup, to);
    assert Get(parked, from) == MovedAt(start, to, backup, from);
    assert Get(parked, backup) == MovedAt(start, to, backup, backup);
    assert to + [] == to;
    var back := Moved(parked, backup, to);
    forall p
      ensures Get(back, p) == Get(start, p)
    {
      PutBack(start, to, backup, p);
    }
    assert forall p :: p in back <==> p in start by {
      forall p ensures p in back <==> p in start { assert Get(back, p) == Get(start, p); }
    }
    assert forall p :: p in back ==> back[p] == start[p] by {
      forall p | p in back ensures back[p] == start[p] { assert Get(back, p) == Get(start, p); }
    }
  }

  /** The removal that stopped before `kept` has removed what is at `p`. */
  ghost predicate Dropped(target: Path, kept: set<Path>, p: Path) {
    Under(p, target) && p != target && !exists q :: q in kept && Under(q, p)
  }

  lemma RemnantAt(t: Tree, target: Path, kept: set<Path>, p: Path)
    ensures Get(Remnant(t, target, kept), p) == if Dropped(target, kept, p) then None else Get(t, p)
  {
  }

  /** Putting the destination back gives the same tree whether or not a part of the source is lost. */
  lemma PutBackWithout(start: Tree, from: Path, to: Path, backup: Path, kept: set<Path>)
    requires CanRename(start, to, backup) && WellFormed(start) && NothingAt(start, backup)
    requires IsBackupOf(backup, to) && Apart(from, to) && Apart(from, backup)
    ensures var parked := Moved(start, to, backup);
      var lost := Remnant(parked, from, kept);
      && CanRename(lost, backup, to) && Moved(lost, backup, to) == Remnant(start, from, kept)
      && (Single(start, from) <==> Single(parked, from)) && to !in lost
  {
    var parked := Moved(start, to, backup);
    var lost := Remnant(parked, from, kept);
    hide Moved, Remnant;
    AfterParking(start, from, to, backup);
    RemnantAt(parked, from, kept, Parent(to));
    RemnantAt(parked, from, kept, backup);
    RemnantAt(parked, from, kept, to);
    ParentUnder(to, from);
    NothingWhereMoved(start, to, backup);
    forall p
      ensures Get(Moved(lost, backup, to), p) == Get(Remnant(start, from, kept), p)
    {
      PutBackWithoutAt(start, from, to, backup, kept, p);
    }
    SameEverywhere(Moved(lost, backup, to), Remnant(start, from, kept), []);
    forall p | Under(p, from)
      ensures p in start <==> p in parked
    {
      UnderSplit(p, from);
      UnderConcat(from, p[|from|..], to);
      UnderConcat(from, p[|from|..], backup);
      assert Get(parked, p) == MovedAt(start, to, backup, p);
    }
    assert Below(start, from) == Below(parked, from);
  }

  lemma NothingWhereMoved(start: Tree, to: Path, backup: Path)
    requires CanRename(start, to, backup)
    ensures backup in Moved(start, to, backup) && to !in Moved(start, to, backup)
  {
    var parked := Moved(start, to, backup);
    assert Get(parked, backup) == MovedAt(start, to, backup, backup) && backup[|backup|..] == [] && to + [] == to;
    assert Get(parked, to) == MovedAt(start, to, backup, to);
  }

  lemma PutBackWithoutAt(start: Tree, from: Path, to: Path, backup: Path, kept: set<Path>, p: Path)
    requires NothingAt(start, backup) && Apart(to, backup) && Apart(from, to) && Apart(from, backup)
    ensures Get(Moved(Remnant(Moved(start, to, backup), from, kept), backup, to), p) == Get(Remnant(start, from, kept), p)
  {
    hide Moved, Remnant;
    var parked := Moved(start, to, backup);
    var lost := Remnant(parked, from, kept);
    RemnantAt(start, from, kept, p);
    assert Get(Moved(lost, backup, to), p) == MovedAt(lost, backup, to, p);
    if Under(p, to) {
      var q := backup + p[|to|..];
      UnderSplit(p, to);
      RemnantAt(parked, from, kept, q);
      assert q[|backup|..] == p[|to|..] && Under(q, backup);
      assert Get(parked, q) == MovedAt(start, to, backup, q);
      UnderConcat(backup, p[|to|..], from);
      UnderConcat(to, p[|to|..], from);
    } else {
      RemnantAt(parked, from, kept, p);
      assert Get(parked, p) == MovedAt(start, to, backup, p);
    }
  }

  lemma PutBack(start: Tree, to: Path, backup: Path, p: Path)
    requires Apart(to, backup) && NothingAt(start, backup)
    ensures Get(Moved(Moved(start, to, backup), backup, to), p) == Get(start, p)
  {
    var parked := Moved(start, to, backup);
    assert Get(Moved(parked, backup, to), p) == MovedAt(parked, backup, to, p);
    if Under(p, to) {
      var q := backup + p[|to|..];
      UnderSplit(p, to);
      assert q[|backup|..] == p[|to|..];
      assert Get(parked, q) == MovedAt(start, to, backup, q);
    } else {
      assert Get(parked, p) == MovedAt(start, to, backup, p);
    }
  }

  lemma MoveSucceeded(start: Tree, parked: Tree, moved: Tree, end: Tree, from: Path, to: Path, backup: Path)
    requires Apart(to, backup) && NothingAt(start, backup) && (Apart(from, backup) || Under(from, backup))
    requires MovedCleanly(start, to, parked, backup)
    requires MovedCleanly(parked, from, moved, to)
    requires SameOutside(moved, end, {backup}) && PartOf(end, backup, moved, backup)
    ensures SameOutside(start, end, Touched(from, to, Some(backup)))
    ensures Apart(from, backup) ==>
      && from in start && !Under(from, to)
      && SameSubtree(start, from, end, to) && NothingAt(end, from)
      && PartOf(end, backup, start, to)
      && (end == moved ==> SameSubtree(start, to, end, backup))
    ensures Under(from, backup) ==>
      from !in start && SameSubtree(start, to + from[|backup|..], end, to)
  {
    ApartIsUnchanged(moved, end, {backup}, to);
    SameThrough(parked, from, moved, to, end, to);
    var all := Touched(from, to, Some(backup));
    WidenRoots(start, parked, {to, backup}, all);
    SameOutsideWithin(start, parked, moved, {from, to}, all);
    SameOutsideWithin(start, moved, end, {backup}, all);
    if Apart(from, backup) {
      SourceMoved(start, parked, moved, end, from, to, backup);
    } else {
      PartMoved(start, parked, end, from, to, backup);
    }
  }

  lemma SourceMoved(start: Tree, parked: Tree, moved: Tree, end: Tree, from: Path, to: Path, backup: Path)
    requires Apart(to, backup) && Apart(from, backup)
    requires MovedCleanly(start, to, parked, backup) && MovedCleanly(parked, from, moved, to)
    requires SameOutside(moved, end, {backup}) && PartOf(end, backup, moved, backup)
    requires SameSubtree(parked, from, end, to)
    ensures from in start && !Under(from, to)
    ensures SameSubtree(start, from, end, to) && NothingAt(end, from)
    ensures PartOf(end, backup, start, to)
    ensures end == moved ==> SameSubtree(start, to, end, backup)
  {
    ApartIsUnchanged(start, parked, {to, backup}, from);
    assert from + [] == from && Get(start, from + []) == Get(parked, from + []);
    ApartIsUnchanged(parked, moved, {from, to}, backup);
    ApartIsUnchanged(moved, end, {backup}, from);
    SameThrough(start, from, parked, from, end, to);
    SameThrough(start, to, parked, backup, moved, backup);
    NothingStays(moved, end, from);
    forall s: Path | Get(end, backup + s).Some?
      ensures Get(end, backup + s) == Get(start, to + s)
    {
      assert Get(end, backup + s) == Get(moved, backup + s);
    }
  }

  /** A missing source at or below the backup path is a part of the old destination once that is put aside. */
  lemma PartMoved(start: Tree, parked: Tree, end: Tree, from: Path, to: Path, backup: Path)
    requires NothingAt(start, backup) && Under(from, backup)
    requires SameSubtree(start, to, parked, backup) && SameSubtree(parked, from, end, to)
    ensures from !in start && SameSubtree(start, to + from[|backup|..], end, to)
  {
    var part := from[|backup|..];
    UnderSplit(from, backup);
    forall s: Path ensures Get(start, to + part + s) == Get(end, to + s) {
      assert to + part + s == to + (part + s) && backup + (part + s) == from + s;
      assert Get(parked, from + s) == Get(end, to + s);
    }
  }

  lemma MoveFailed(start: Tree, parked: Tree, moved: Tree, cleaned: Tree, end: Tree, restored: bool,
                   from: Path, to: Path, backup: Path)
    requires Apart(to, backup) && !Under(to, from)
    requires MovedCleanly(start, to, parked, backup)
    requires SameOutside(parked, moved, {from, to}) && SameOutside(moved, cleaned, {to})
    requires if restored then MovedCleanly(cleaned, backup, end, to) else end == cleaned
    ensures SameOutside(start, end, Touched(from, to, Some(backup)))
    ensures Apart(from, backup) || SameOutside(parked, moved, {to}) ==>
      SameSubtree(start, to, end, to) || SameSubtree(start, to, end, backup)
    ensures Apart(from, backup) && !Under(from, to) ==>
      && (Single(start, from) <==> Single(parked, from))
      && (PartOf(moved, from, parked, from) ==> PartOf(end, from, start, from))
      && (SameOutside(parked, moved, {to}) ==> SameSubtree(start, from, end, from))
  {
    var all := Touched(from, to, Some(backup));
    assert SameOutside(cleaned, end, {to, backup});
    WidenRoots(start, parked, {to, backup}, all);
    SameOutsideWithin(start, parked, moved, {from, to}, all);
    SameOutsideWithin(start, moved, cleaned, {to}, all);
    SameOutsideWithin(start, cleaned, end, {to, backup}, all);
    ApartIsUnchanged(moved, cleaned, {to}, backup);
    if Apart(from, backup) || SameOutside(parked, moved, {to}) {
      if Apart(from, backup) { ApartIsUnchanged(parked, moved, {from, to}, backup); }
      else { ApartIsUnchanged(parked, moved, {to}, backup); }
      SameThrough(start, to, parked, backup, moved, backup);
      SameThrough(start, to, moved, backup, cleaned, backup);
      if restored { SameThrough(start, to, cleaned, backup, end, to); }
    }
    if Apart(from, backup) && !Under(from, to) {
      ApartIsUnchanged(start, parked, {to, backup}, from);
      ApartIsUnchanged(moved, cleaned, {to}, from);
      ApartIsUnchanged(cleaned, end, {to, backup}, from);
      SameThrough(moved, from, cleaned, from, end, from);
      SourceLeft(start, parked, moved, end, from, to);
    }
  }

  lemma SourceLeft(start: Tree, parked: Tree, moved: Tree, end: Tree, from: Path, to: Path)
    requires Apart(from, to) && SameSubtree(start, from, parked, from) && SameSubtree(moved, from, end, from)
    ensures Below(start, from) == Below(parked, from)
    ensures PartOf(moved, from, parked, from) ==> PartOf(end, from, start, from)
    ensures SameOutside(parked, moved, {to}) ==> SameSubtree(start, from, end, from)
  {
    forall p | Under(p, from) ensures Get(start, p) == Get(parked, p) {
      UnderSplit(p, from);
      assert Get(start, from + p[|from|..]) == Get(parked, from + p[|from|..]);
    }
    if SameOutside(parked, moved, {to}) {
      ApartIsUnchanged(parked, moved, {to}, from);
      SameThrough(start, from, parked, from, moved, from);
      SameThrough(start, from, moved, from, end, from);
    }
    forall s: Path | PartOf(moved, from, parked, from) && Get(end, from + s).Some?
      ensures Get(end, from + s) == Get(start, from + s)
    {
      assert Get(moved, from + s) == Get(end, from + s) && Get(start, from + s) == Get(parked, from + s);
    }
  }

  lemma SameThrough(a: Tree, p: Path, b: Tree, q: Path, c: Tree, r: Path)
    requires SameSubtree(a, p, b, q) && SameSubtree(b, q, c, r)
    ensures SameSubtree(a, p, c, r)
  {
    forall s: Path ensures Get(a, p + s) == Get(c, r + s) {
      assert Get(a, p + s) == Get(b, q + s);
    }
  }

  lemma WidenRoots(a: Tree, b: Tree, small: set<Path>, large: set<Path>)
    requires SameOutside(a, b, small) && small <= large
    ensures SameOutside(a, b, large)
  {
  }

  lemma SameOutsideWithin(a: Tree, b: Tree, c: Tree, small: set<Path>, large: set<Path>)
    requires SameOutside(a, b, large) && SameOutside(b, c, small) && small <= large
    ensures SameOutside(a, c, large)
  {
    WidenRoots(b, c, small, large);
  }
}
