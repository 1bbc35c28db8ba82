/** The local history store: rows in a database, contents in content-addressed blob files. */
module LocalHistory {
  import opened Wrappers
  import opened Text
  import opened Unicode
  import opened HistoryRows

  const MAX_SNAPSHOT_BYTES: nat := 2 * 1024 * 1024

  /** What survives a crash: the rows and the committed blob files. */
  datatype Disk = Disk(rows: seq<Row>, blobs: map<string, string>)

  /** Every row's blob exists and holds a text with that row's hash. */
  ghost predicate Covered(hash: string -> string, d: Disk) {
    forall r :: r in d.rows ==> r.hash in d.blobs && hash(d.blobs[r.hash]) == r.hash
  }

  function NormalizePath(path: string): (r: Result<string, string>)
    ensures r.Ok? <==> Trim(path) != ""
    ensures r.Ok? ==> |r.value| == |Trim(path)|
    ensures r.Ok? ==> forall i :: 0 <= i < |r.value| ==> r.value[i] == if Trim(path)[i] == '\\' then '/' else Trim(path)[i]
  {
    if Trim(path) == "" then Err("Local history path is required")
    else Ok(ReplaceChar(Trim(path), '\\', '/'))
  }

  function ReplaceChar(s: string, from: char, to: char): (r: string)
    ensures |r| == |s| && forall i :: 0 <= i < |s| ==> r[i] == if s[i] == from then to else s[i]
  {
    if s == "" then "" else [if s[0] == from then to else s[0]] + ReplaceChar(s[1..], from, to)
  }

  /** There is a path, and the text is not too long. */
  predicate Acceptable(path: string, text: string) {
    NormalizePath(path).Ok? && |Encode8(text)| <= MAX_SNAPSHOT_BYTES
  }

  /** Every blob belongs to some row. */
  ghost predicate NoOrphans(d: Disk) {
    forall h :: h in d.blobs ==> exists r :: r in d.rows && r.hash == h
  }

  class Store {
    var rows: seq<Row>
    var blobs: map<string, string>
    var temps: map<string, string>
    var nextId: nat
    const hash: string -> string
    /** Whether single steps may fail. */
    const faulty: bool
    /** Every row ever inserted. */
    ghost var accepted: seq<Row>
    /** Whether the disk was covered after every single step so far: each is a point a crash may leave. */
    ghost var alwaysCovered: bool

    ghost predicate Valid()
      reads this
    {
      && ById(rows) && (forall r :: r in rows ==> r.id < nextId)
      && (forall h :: h in blobs ==> hash(blobs[h]) == h)
      && Covered(hash, Disk(rows, blobs))
      && alwaysCovered
    }

    constructor (hash: string -> string, faulty: bool)
      ensures Valid() && this.hash == hash && this.faulty == faulty && rows == [] && accepted == []
      ensures Healthy(rows, accepted)
    {
      this.hash, this.faulty := hash, faulty;
      rows, blobs, temps, nextId, accepted := [], map[], map[], 1, [];
      alwaysCovered := true;
    }

    // -------------------------------------------------------------------
    // Single steps. On a faulty store each may fail without an effect, except that a failed write may
    // leave a temporary file with anything in it.

    method Fault() returns (fails: bool)
      ensures fails ==> faulty
    {
      fails := *;
      fails := fails && faulty;
    }

    method WriteTemp(h: string, text: string) returns (ok: bool)
      requires Valid()
      modifies this`temps, this`alwaysCovered
      ensures Valid()
      ensures ok ==> h in temps && temps[h] == text
      ensures !ok ==> faulty
    {
      var fails := Fault();
      ok := !fails;
      var written: string := *;
      if ok { written := text; }
      temps := temps[h := written];
      alwaysCovered := alwaysCovered && Covered(hash, Disk(rows, blobs));
    }

    method CommitTemp(h: string) returns (ok: bool)
      requires Valid() && h in temps && hash(temps[h]) == h
      modifies this`temps, this`blobs, this`alwaysCovered
      ensures Valid()
      ensures ok ==> h in blobs && temps == old(temps) - {h}
      ensures !ok ==> faulty
      ensures old(blobs).Keys <= blobs.Keys
    {
      var fails := Fault();
      ok := !fails;
      if ok {
        blobs := blobs[h := temps[h]];
        temps := temps - {h};
      }
      alwaysCovered := alwaysCovered && Covered(hash, Disk(rows, blobs));
    }

    method InsertRow(path: string, h: string, createdAt: int, reason: string, byteLen: nat)
      returns (row: Option<Row>)
      requires Valid() && h in blobs
      modifies this`rows, this`nextId, this`accepted, this`alwaysCovered
      ensures Valid()
      ensures row.None? ==> faulty && rows == old(rows) && accepted == old(accepted)
      ensures row.Some? ==>
        && row.value == Row(old(nextId), path, h, createdAt, reason, byteLen)
        && rows == old(rows) + [row.value] && accepted == old(accepted) + [row.value]
    {
      var fails := Fault();
      row := None;
      if !fails {
        var inserted := Row(nextId, path, h, createdAt, reason, byteLen);
        rows, accepted, nextId := rows + [inserted], accepted + [inserted], nextId + 1;
        row := Some(inserted);
      }
      alwaysCovered := alwaysCovered && Covered(hash, Disk(rows, blobs));
    }

    /** One `DELETE` statement. */
    method DeleteRows(keep: Row -> bool) returns (ok: bool)
      requires Valid()
      modifies this`rows, this`alwaysCovered
      ensures Valid()
      ensures ok ==> rows == Filter(old(rows), keep)
      ensures !ok ==> faulty && rows == old(rows)
    {
      var fails := Fault();
      ok := !fails;
      if ok {
        FilterKeepsOrder(rows, keep);
        FilterMembers(rows, keep);
        rows := Filter(rows, keep);
      }
      alwaysCovered := alwaysCovered && Covered(hash, Disk(rows, blobs));
    }

    method RemoveBlob(h: string) returns (ok: bool)
      requires Valid() && forall r :: r in rows ==> r.hash != h
      modifies this`blobs, this`alwaysCovered
      ensures Valid()
      ensures blobs == if ok then old(blobs) - {h} else old(blobs)
      ensures !ok ==> faulty
    {
      var fails := Fault();
      ok := !fails;
      if ok { blobs := blobs - {h}; }
      alwaysCovered := alwaysCovered && Covered(hash, Disk(rows, blobs));
    }

    // -------------------------------------------------------------------
    // Operations.

    /** The blob is written aside and renamed into place before any row refers to it. */
    method WriteBlob(h: string, text: string) returns (ok: bool)
      requires Valid() && hash(text) == h
      modifies this`temps, this`blobs, this`alwaysCovered
      ensures Valid()
      ensures ok ==> h in blobs && (h in old(blobs) || h !in temps)
      ensures !ok ==> faulty
    {
      if h in blobs { return true; }
      ok := WriteTemp(h, text);
      if !ok { return false; }
      ok := CommitTemp(h);
    }

    /**
     * Removes leftover temporary files and the blobs that no row refers to. Single removals may fail,
     * and reading a directory may end the collection early; no blob that a row needs is touched, and
     * when the collection gets through, an orphan is left only where its removal failed.
     */
    method CollectOrphans() returns (ok: bool, ghost failed: set<string>)
      requires Valid()
      modifies this`temps, this`blobs, this`alwaysCovered
      ensures Valid()
      ensures temps.Keys <= old(temps).Keys
      ensures forall h :: h in blobs ==> h in old(blobs) && blobs[h] == old(blobs)[h]
      ensures forall r :: r in rows && r.hash in old(blobs) ==> r.hash in blobs
      ensures ok ==> forall h :: h in blobs ==> h in failed || exists r :: r in rows && r.hash == h
      ensures !faulty ==> ok && NoOrphans(Disk(rows, blobs)) && temps == map[]
    {
      var live := set r | r in rows :: r.hash;
      var unread := blobs.Keys + temps.Keys;
      failed := {};
      while unread != {}
        invariant Valid()
        invariant temps.Keys <= old(temps).Keys
        invariant forall h :: h in blobs ==> h in old(blobs) && blobs[h] == old(blobs)[h]
        invariant forall h :: h in blobs ==> h in unread || h in failed || h in live
        invariant !faulty ==> failed == {} && temps.Keys <= unread
      {
        var fails := Fault();
        if fails { return false, failed; }
        var h :| h in unread;
        unread := unread - {h};
        fails := Fault();
        if h in temps && !fails { temps := temps - {h}; }
        if h in blobs && h !in live {
          var removed := RemoveBlob(h);
          if !removed { failed := failed + {h}; }
        }
      }
      return true, failed;
    }

    /** The two deletions of a prune: what is too old for the path, then everything beyond the newest rows. */
    method DeleteOldAndExcess(path: string, cutoff: int) returns (ok: bool)
      requires Valid()
      modifies this`rows, this`alwaysCovered
      ensures Valid()
      ensures ok ==> rows == AfterDeletions(old(rows), path, cutoff)
      ensures !ok ==> faulty
    {
      ok := DeleteRows(YoungOrElsewhere(path, cutoff));
      if !ok { return false; }
      var fails := Fault();
      if fails { return false; }
      var order := NewestFirst(PathRows(rows, path));
      if |order| > MAX_VERSIONS {
        ok := DeleteExcess(order);
      }
    }

    /** Deletes every listed row after the first `MAX_VERSIONS`, one statement each. */
    method DeleteExcess(order: seq<Row>) returns (ok: bool)
      requires Valid() && |order| > MAX_VERSIONS
      modifies this`rows, this`alwaysCovered
      ensures Valid()
      ensures ok ==> rows == Filter(old(rows), NotIds(ExcessIds(order, |order|)))
      ensures !ok ==> faulty
    {
      hide *;
      NoExcessYet(rows, order);
      ok := true;
      var k := MAX_VERSIONS;
      while ok && k < |order|
        invariant MAX_VERSIONS <= k <= |order|
        invariant Valid()
        invariant ok ==> rows == Filter(old(rows), NotIds(ExcessIds(order, k)))
        invariant !ok ==> faulty
      {
        ok := DeleteRows(NotIds({order[k].id}));
        OneMoreExcess(old(rows), order, k);
        k := k + 1;
      }
    }

    /** Prunes one path and collects the orphaned blobs. */
    method PrunePath(path: string, now: int) returns (ok: bool)
      requires Valid()
      modifies this`rows, this`blobs, this`temps, this`alwaysCovered
      ensures Valid()
      ensures ok ==> PruneStep(old(rows), rows, path, now - MAX_AGE)
      ensures !faulty ==> ok && NoOrphans(Disk(rows, blobs))
    {
      assert ById(rows);
      hide *;
      ok := DeleteOldAndExcess(path, now - MAX_AGE);
      if ok {
        DeletionsAreStep(old(rows), path, now - MAX_AGE);
        ghost var failed;
        ok, failed := CollectOrphans();
      }
    }

    /** Records the content unless the newest row of the path has it already. */
    method Accept(p: string, text: string, reason: string, createdAt: int)
      returns (r: Result<Option<Row>, string>)
      requires Valid()
      modifies this
      ensures Valid()
      ensures !(r.Ok? && r.value.Some?) ==> rows == old(rows) && accepted == old(accepted)
      ensures r.Ok? && r.value.Some? ==>
        && rows == old(rows) + [r.value.value] && accepted == old(accepted) + [r.value.value]
        && r.value.value == Row(old(nextId), p, hash(text), createdAt, reason, |Encode8(text)|)
      ensures r.Ok? ==> (r.value.None? <==> LatestHas(old(rows), p, hash(text)))
      ensures r.Err? ==> faulty
    {
      var fails := Fault();
      if fails { return Err("read latest hash"); }
      var newest := NewestFirst(PathRows(rows, p));
      LatestIsFirst(rows, p, hash(text));
      var h := hash(text);
      if newest != [] && newest[0].hash == h { return Ok(None); }
      var ok := WriteBlob(h, text);
      if !ok { return Err("write blob"); }
      var row := InsertRow(p, h, createdAt, reason, |Encode8(text)|);
      r := if row.None? then Err("insert local history") else Ok(row);
    }

    /**
     * Takes a snapshot. `createdAt` and `pruneNow` are the two readings of the clock. At every step
     * the disk is covered, whether or not the call succeeds. Nothing is recorded exactly if the newest
     * row of the path has the content already. A successful call leaves the other paths alone and every
     * path bounded, and the new row survives its own prune exactly if no more than the maximal age
     * passed between the readings and fewer than fifty rows of the path are dated later; with a clock
     * that does not go back it keeps the history healthy.
     */
    method Snapshot(path: string, text: string, reason: string, createdAt: int, pruneNow: int)
      returns (r: Result<Option<Row>, string>)
      requires Valid()
      modifies this
      ensures Valid()
      ensures r.Ok? ==> Acceptable(path, text)
      ensures !faulty && Acceptable(path, text) ==> r.Ok?
      ensures r.Ok? ==> (r.value.None? <==> LatestHas(old(rows), NormalizePath(path).value, hash(text)))
      ensures r.Ok? && r.value.None? ==> rows == old(rows) && accepted == old(accepted)
      ensures r.Ok? && r.value.Some? ==>
        && r.value.value
           == Row(old(nextId), NormalizePath(path).value, hash(text), createdAt, reason, |Encode8(text)|)
        && accepted == old(accepted) + [r.value.value]
        && SnapshotKeeps(old(rows), old(accepted), rows, r.value.value, pruneNow - MAX_AGE)
        && (!faulty ==> NoOrphans(Disk(rows, blobs)))
    {
      hide NormalizePath, Encode8, LatestHas, SnapshotKeeps, PruneStep, Healthy, ById, Covered, NoOrphans, NewestFirst;
      var normalized := NormalizePath(path);
      if normalized.Err? {
        r := Err(normalized.error);
      } else if |Encode8(text)| > MAX_SNAPSHOT_BYTES {
        r := Err("Local history snapshot exceeds the limit");
      } else {
        r := Accept(normalized.value, text, reason, createdAt);
        if r.Ok? && r.value.Some? {
          var row := r.value.value;
          var ok := PrunePath(row.path, pruneNow);
          if !ok { r := Err("prune"); }
          if ok { SnapshotIsHealthy(old(rows), old(accepted), rows, row, pruneNow - MAX_AGE); }
        }
      }
    }

    /** Reads an entry. Whatever is returned has the row's hash. */
    method Read(id: nat) returns (r: Result<string, string>)
      requires Valid()
      ensures r.Ok? ==> exists row :: row in rows && row.id == id && hash(r.value) == row.hash
      ensures (forall row :: row in rows ==> row.id != id) ==> r.Err?
      ensures !faulty && (exists row :: row in rows && row.id == id) ==> r.Ok?
    {
      var matching := (row: Row) => row.id == id;
      var found := Filter(rows, matching);
      FilterMembers(rows, matching);
      var fails := Fault();
      if found == [] || fails { return Err("Local history entry not found"); }
      var row := found[0];
      assert row in found;
      r := Ok(blobs[row.hash]);
    }

    /**
     * Deletes everything too old, then prunes every path that is left. The clock is read once at the
     * start, as `now`, and once for each path, as `clock(i)`; `readings` tells which reading each path
     * got. Exactly the rows survive that are not older than either cutoff and among the fifty newest
     * of their path. If no row is left for the paths to be pruned, orphaned blobs stay.
     */
    method Prune(now: int, clock: nat -> int) returns (ok: bool, deleted: nat, ghost readings: map<string, int>)
      requires Valid()
      modifies this`rows, this`blobs, this`temps, this`alwaysCovered
      ensures Valid()
      ensures !faulty ==> ok
      ensures ok ==> deleted == |Filter(old(rows), TooOld(now - MAX_AGE))|
      ensures ok ==> PruneExactly(old(rows), rows, now, readings)
      ensures ok ==> forall p :: p in readings ==> exists i: nat :: readings[p] == clock(i)
      ensures ok && (forall i: nat :: clock(i) == now) ==>
        forall r :: r in rows <==> r in old(rows) && Survives(old(rows), r, now - MAX_AGE)
      ensures ok && (forall i :: clock(i) >= now) ==> PruneKeeps(old(rows), accepted, rows, now - MAX_AGE)
      ensures !faulty ==>
        if readings == map[] then blobs == old(blobs) else NoOrphans(Disk(rows, blobs))
    {
      var cutoff, count := now - MAX_AGE, |rows|;
      ghost var start, forward := rows, forall i :: clock(i) >= now;
      deleted, readings := 0, map[];
      ok := DeleteRows(Young(cutoff));
      if ok {
        YoungOrTooOld(start, cutoff);
        deleted := count - |rows|;
        var paths := DistinctPaths(rows);
        AgedProgress(start, accepted, cutoff);
        DistinctPathsAreDistinct(rows);
        ok, readings := PruneListed(paths, clock, start, rows, cutoff);
        if ok {
          ListedExactly(start, rows, paths, now, readings);
          if forall i: nat :: clock(i) == now { SameReading(start, rows, now, readings); }
        }
        if ok && forward { EveryPathPruned(start, accepted, rows, paths, cutoff); }
      }
    }

    /** Prunes the listed paths in turn. */
    method PruneListed(paths: seq<string>, clock: nat -> int, ghost start: seq<Row>, ghost aged: seq<Row>,
                       ghost cutoff: int)
      returns (ok: bool, ghost readings: map<string, int>)
      requires Valid() && PruneProgress(start, accepted, rows, paths, 0, cutoff)
      requires Distinct(paths) && rows == aged
      modifies this`rows, this`blobs, this`temps, this`alwaysCovered
      ensures Valid()
      ensures !faulty ==> ok
      ensures ok && (forall i :: clock(i) - MAX_AGE >= cutoff) ==>
        PruneProgress(start, accepted, rows, paths, |paths|, cutoff)
      ensures ok ==> ListProgress(aged, rows, paths, |paths|, readings)
      ensures ok ==> forall p :: p in readings ==> exists i: nat :: readings[p] == clock(i)
      ensures !faulty ==> if paths == [] then blobs == old(blobs) else NoOrphans(Disk(rows, blobs))
    {
      hide Filter, NewestFirst, PruneStep, ListProgress, Distinct, NoOrphans;
      ghost var forward := forall i :: clock(i) - MAX_AGE >= cutoff;
      ok, readings := true, map[];
      NothingPrunedYet(aged, paths);
      var i := 0;
      while ok && i < |paths|
        invariant 0 <= i <= |paths|
        invariant Valid()
        invariant !faulty ==> ok
        invariant ok && forward ==> PruneProgress(start, accepted, rows, paths, i, cutoff)
        invariant ok ==> ListProgress(aged, rows, paths, i, readings)
        invariant forall p :: p in readings ==> exists j: nat :: readings[p] == clock(j)
        invariant !faulty ==> if i == 0 then blobs == old(blobs) else NoOrphans(Disk(rows, blobs))
      {
        ghost var before := rows;
        ok := PrunePath(paths[i], clock(i));
        if ok {
          OneListedMore(aged, before, rows, paths, i, readings, clock(i));
          readings := readings[paths[i] := clock(i)];
        }
        if ok && forward {
          OnePathMore(start, before, rows, accepted, paths, i, clock(i) - MAX_AGE, cutoff);
        }
        i := i + 1;
      }
    }
  }

  /**
   * Exactly those rows are left that are not older than the first cutoff and survive the prune of
   * their path. A path gets a reading of the clock exactly if it has a row that is not too old.
   */
  ghost predicate PruneExactly(before: seq<Row>, after: seq<Row>, now: int, readings: map<string, int>) {
    && (forall p :: p in readings <==> exists r :: r in before && r.path == p && r.createdAt >= now - MAX_AGE)
    && forall r :: r in after <==>
         && r in before && r.createdAt >= now - MAX_AGE
         && r.path in readings && Survives(before, r, readings[r.path] - MAX_AGE)
  }

  /** The first `n` listed paths are pruned, each with its reading of the clock; the others are as they were. */
  ghost predicate ListProgress(aged: seq<Row>, now: seq<Row>, paths: seq<string>, n: nat, readings: map<string, int>)
    requires n <= |paths|
  {
    && (forall r :: r in now ==> r in aged)
    && (forall p :: p in readings <==> p in paths[..n])
    && (forall p :: p !in readings ==> PathRows(now, p) == PathRows(aged, p))
    && (forall r :: r in aged && r.path in readings ==>
          (r in now <==> Survives(aged, r, readings[r.path] - MAX_AGE)))
  }

  predicate Distinct(paths: seq<string>) {
    forall i, j :: 0 <= i < j < |paths| ==> paths[i] != paths[j]
  }

  lemma NothingPrunedYet(aged: seq<Row>, paths: seq<string>)
    ensures ListProgress(aged, aged, paths, 0, map[])
  {
  }

  lemma InPathRows(rows: seq<Row>, r: Row)
    ensures r in PathRows(rows, r.path) <==> r in rows
  {
    FilterMembers(rows, InPath(r.path));
  }

  lemma OneListedMore(aged: seq<Row>, before: seq<Row>, after: seq<Row>, paths: seq<string>, i: nat,
                      readings: map<string, int>, reading: int)
    requires i < |paths| && Distinct(paths)
    requires ListProgress(aged, before, paths, i, readings)
    requires PruneStep(before, after, paths[i], reading - MAX_AGE)
    ensures ListProgress(aged, after, paths, i + 1, readings[paths[i] := reading])
  {
    hide PathRows;
    var path, more := paths[i], readings[paths[i] := reading];
    assert paths[..i + 1] == paths[..i] + [path];
    assert path !in paths[..i];
    forall r | r in aged && r.path in more
      ensures r in after <==> Survives(aged, r, more[r.path] - MAX_AGE)
    {
      InPathRows(aged, r);
      InPathRows(before, r);
      InPathRows(after, r);
      if r.path != path { assert PathRows(after, r.path) == PathRows(before, r.path); }
    }
  }

  lemma DistinctPathsAreDistinct(rows: seq<Row>)
    ensures Distinct(DistinctPaths(rows))
    ensures forall p :: p in DistinctPaths(rows) <==> exists r :: r in rows && r.path == p
  {
    if rows != [] {
      var rest := rows[1..];
      DistinctPathsAreDistinct(rest);
      assert rows == [rows[0]] + rest;
      assert forall r :: r in rows <==> r == rows[0] || r in rest;
    }
  }

  /** What survives of the young rows, in terms of all rows. */
  lemma ListedExactly(start: seq<Row>, after: seq<Row>, paths: seq<string>, now: int, readings: map<string, int>)
    requires paths == DistinctPaths(Filter(start, Young(now - MAX_AGE)))
    requires ListProgress(Filter(start, Young(now - MAX_AGE)), after, paths, |paths|, readings)
    ensures PruneExactly(start, after, now, readings)
    ensures readings == map[] <==> paths == []
  {
    hide PathRows, Filter, Survives, DistinctPaths;
    var aged := Filter(start, Young(now - MAX_AGE));
    FilterMembers(start, Young(now - MAX_AGE));
    DistinctPathsAreDistinct(aged);
    assert paths[..|paths|] == paths;
    forall r
      ensures r in after <==>
        r in aged && r.path in readings && Survives(start, r, readings[r.path] - MAX_AGE)
    {
      if r in aged { AgedSurvives(start, r, now - MAX_AGE, readings[r.path] - MAX_AGE); }
    }
    if paths != [] { assert paths[0] in paths; }
  }

  lemma AgedSurvives(start: seq<Row>, r: Row, aged: int, cutoff: int)
    requires r.createdAt >= aged
    ensures Survives(Filter(start, Young(aged)), r, cutoff) <==> Survives(start, r, cutoff)
  {
    hide Filter, PathRows;
    CountYoung(start, r, aged);
  }

  /** Whether a young row survives does not depend on rows that are too old. */
  lemma CountYoung(start: seq<Row>, r: Row, cutoff: int)
    requires r.createdAt >= cutoff
    ensures |Filter(PathRows(Filter(start, Young(cutoff)), r.path), NewerThan(r))| == |Filter(PathRows(start, r.path), NewerThan(r))|
  {
    FilterCommutes(start, Young(cutoff), InPath(r.path));
    NewerAreYoung(PathRows(start, r.path), r, cutoff);
  }

  /** If every reading of the clock is the same, a row survives exactly if it would survive the prune of its path alone. */
  lemma SameReading(start: seq<Row>, after: seq<Row>, now: int, readings: map<string, int>)
    requires PruneExactly(start, after, now, readings) && forall p :: p in readings ==> readings[p] == now
    ensures forall r :: r in after <==> r in start && Survives(start, r, now - MAX_AGE)
  {
    hide PathRows;
  }

  /** Each row is young or too old. */
  lemma YoungOrTooOld(rows: seq<Row>, cutoff: int)
    ensures |Filter(rows, Young(cutoff))| + |Filter(rows, TooOld(cutoff))| == |rows|
  {
    if rows != [] { YoungOrTooOld(rows[1..], cutoff); }
  }

  ghost predicate AllBoundedAndYoung(rows: seq<Row>, cutoff: int) {
    forall p :: |PathRows(rows, p)| <= MAX_VERSIONS && forall r :: r in PathRows(rows, p) ==> r.createdAt >= cutoff
  }

  /** What a successful prune of everything does: every path is bounded and young, and a faithful history stays so. */
  ghost predicate PruneKeeps(before: seq<Row>, accepted: seq<Row>, after: seq<Row>, cutoff: int) {
    AllBoundedAndYoung(after, cutoff) && (Faithful(before, accepted) ==> Healthy(after, accepted))
  }

  /** The first `n` paths are pruned, and only listed paths have rows. */
  ghost predicate PruneProgress(before: seq<Row>, accepted: seq<Row>, now: seq<Row>, paths: seq<string>,
                                n: nat, cutoff: int)
    requires n <= |paths|
  {
    && (forall r :: r in now ==> r.path in paths)
    && (forall j :: 0 <= j < n ==> BoundedAndYoung(now, paths[j], cutoff))
    && (Faithful(before, accepted) ==> Faithful(now, accepted))
  }

  /** Each path that has a row, once. */
  function DistinctPaths(rows: seq<Row>): seq<string> {
    if rows == [] then []
    else
      var rest := DistinctPaths(rows[1..]);
      if rows[0].path in rest then rest else [rows[0].path] + rest
  }

  lemma DistinctPathsCover(rows: seq<Row>)
    ensures forall r :: r in rows ==> r.path in DistinctPaths(rows)
  {
    if rows != [] { DistinctPathsCover(rows[1..]); }
  }

  lemma AgedProgress(rows: seq<Row>, accepted: seq<Row>, cutoff: int)
    ensures var aged := Filter(rows, Young(cutoff));
      PruneProgress(rows, accepted, aged, DistinctPaths(aged), 0, cutoff)
  {
    DistinctPathsCover(Filter(rows, Young(cutoff)));
    if Faithful(rows, accepted) { AgeDeletionIsFaithful(rows, accepted, cutoff); }
  }

  lemma OnePathMore(start: seq<Row>, before: seq<Row>, after: seq<Row>, accepted: seq<Row>, paths: seq<string>,
                    i: nat, ownCutoff: int, cutoff: int)
    requires i < |paths| && ownCutoff >= cutoff && ById(before)
    requires PruneProgress(start, accepted, before, paths, i, cutoff)
    requires PruneStep(before, after, paths[i], ownCutoff)
    ensures PruneProgress(start, accepted, after, paths, i + 1, cutoff)
  {
    hide Faithful, PathRows;
    forall j | 0 <= j <= i
      ensures BoundedAndYoung(after, paths[j], cutoff)
    {
      if paths[j] != paths[i] {
        assert PathRows(after, paths[j]) == PathRows(before, paths[j]);
        assert BoundedAndYoung(before, paths[j], cutoff);
      }
    }
    if Faithful(start, accepted) {
      FaithfulByTime(before, accepted, paths[i]);
      PruneIsFaithful(before, accepted, after, paths[i], ownCutoff);
    }
  }

  lemma EveryPathPruned(start: seq<Row>, accepted: seq<Row>, rows: seq<Row>, paths: seq<string>, cutoff: int)
    requires PruneProgress(start, accepted, rows, paths, |paths|, cutoff)
    ensures PruneKeeps(start, accepted, rows, cutoff)
  {
    forall p
      ensures |PathRows(rows, p)| <= MAX_VERSIONS && forall r :: r in PathRows(rows, p) ==> r.createdAt >= cutoff
    {
      if p in paths {
        var j :| 0 <= j < |paths| && paths[j] == p;
        assert BoundedAndYoung(rows, paths[j], cutoff);
      } else {
        forall i | 0 <= i < |rows| ensures !InPath(p)(rows[i]) {
          assert rows[i] in rows;
        }
        FilterKeepsNone(rows, InPath(p));
      }
    }
  }

  /** With an injective hash, reading the id of a row that survives gives the text that was snapshotted. */
  lemma ReadBackIsTheText(hash: string -> string, rows: seq<Row>, row: Row, text: string, stored: string)
    requires forall a, b :: hash(a) == hash(b) ==> a == b
    requires ById(rows) && row in rows && row.hash == hash(text)
    requires exists found :: found in rows && found.id == row.id && hash(stored) == found.hash
    ensures stored == text
  {
    var found :| found in rows && found.id == row.id && hash(stored) == found.hash;
    var i :| 0 <= i < |rows| && rows[i] == row;
    var j :| 0 <= j < |rows| && rows[j] == found;
  }
}
