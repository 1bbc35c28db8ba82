/** Rows of the local history: ordering, selection and the facts that pruning relies on. */
module HistoryRows {
  import opened Wrappers
  import opened Text

  const MAX_VERSIONS: nat := 50
  const MAX_AGE: int := 7 * 24 * 60 * 60

  datatype Row = Row(id: nat, path: string, hash: string, createdAt: int, reason: string, byteLen: nat)

  function InPath(path: string): Row -> bool { (r: Row) => r.path == path }

  function NotIds(ids: set<nat>): Row -> bool { (r: Row) => r.id !in ids }

  /** What the age deletion for one path keeps. */
  function YoungOrElsewhere(path: string, cutoff: int): Row -> bool {
    (r: Row) => r.path != path || r.createdAt >= cutoff
  }

  function Young(cutoff: int): Row -> bool { (r: Row) => r.createdAt >= cutoff }

  function TooOld(cutoff: int): Row -> bool { (r: Row) => r.createdAt < cutoff }

  function PathRows(rows: seq<Row>, path: string): seq<Row> {
    Filter(rows, InPath(path))
  }

  predicate IsSuffix<T(==)>(a: seq<T>, b: seq<T>) {
    |a| <= |b| && a == b[|b| - |a|..]
  }

  predicate ById(rows: seq<Row>) {
    forall i, j :: 0 <= i < j < |rows| ==> rows[i].id < rows[j].id
  }

  predicate ByTime(rows: seq<Row>) {
    forall i, j :: 0 <= i < j < |rows| ==> rows[i].createdAt <= rows[j].createdAt
  }

  /** No two consecutive rows record the same content. */
  predicate NoRepeat(rows: seq<Row>) {
    forall i :: 0 < i < |rows| ==> rows[i - 1].hash != rows[i].hash
  }

  lemma {:induction false} FilterKeepsOrder(rows: seq<Row>, keep: Row -> bool)
    ensures ById(rows) ==> ById(Filter(rows, keep))
    ensures ByTime(rows) ==> ByTime(Filter(rows, keep))
  {
    if rows != [] {
      var rest := Filter(rows[1..], keep);
      FilterKeepsOrder(rows[1..], keep);
      FilterMembers(rows[1..], keep);
      forall j | 0 <= j < |rest|
        ensures exists k :: 0 < k < |rows| && rest[j] == rows[k]
      {
        assert rest[j] in rest;
      }
    }
  }

  lemma FilterTwice(rows: seq<Row>, ids: set<nat>, id: nat)
    ensures Filter(Filter(rows, NotIds(ids)), NotIds({id})) == Filter(rows, NotIds(ids + {id}))
  {
    if rows != [] {
      FilterTwice(rows[1..], ids, id);
      var head := if NotIds(ids)(rows[0]) then [rows[0]] else [];
      FilterAppend(head, Filter(rows[1..], NotIds(ids)), NotIds({id}));
    }
  }

  // ---------------------------------------------------------------------
  // `ORDER BY created_at DESC, id DESC`.

  predicate Newer(a: Row, b: Row) {
    a.createdAt > b.createdAt || (a.createdAt == b.createdAt && a.id > b.id)
  }

  function InsertNewest(r: Row, sorted: seq<Row>): seq<Row> {
    if sorted == [] || Newer(r, sorted[0]) then [r] + sorted
    else [sorted[0]] + InsertNewest(r, sorted[1..])
  }

  function NewestFirst(rows: seq<Row>): seq<Row> {
    if rows == [] then []
    else InsertNewest(rows[|rows| - 1], NewestFirst(rows[..|rows| - 1]))
  }

  predicate Sorted(rows: seq<Row>) {
    forall i, j :: 0 <= i < j < |rows| ==> Newer(rows[i], rows[j])
  }

  lemma {:induction false} InsertKeepsRows(r: Row, sorted: seq<Row>)
    ensures multiset(InsertNewest(r, sorted)) == multiset(sorted) + multiset{r}
  {
    if sorted != [] && !Newer(r, sorted[0]) {
      InsertKeepsRows(r, sorted[1..]);
      assert sorted == [sorted[0]] + sorted[1..];
    }
  }

  lemma PrependIsSorted(first: Row, rest: seq<Row>)
    requires Sorted(rest) && forall i :: 0 <= i < |rest| ==> Newer(first, rest[i])
    ensures Sorted([first] + rest)
  {
  }

  lemma {:induction false} InsertNewestIsSorted(r: Row, sorted: seq<Row>)
    requires Sorted(sorted) && forall i :: 0 <= i < |sorted| ==> sorted[i].id != r.id
    ensures Sorted(InsertNewest(r, sorted))
  {
    if sorted == [] || Newer(r, sorted[0]) {
      PrependIsSorted(r, sorted);
    } else {
      var tail := sorted[1..];
      var rest := InsertNewest(r, tail);
      InsertNewestIsSorted(r, tail);
      InsertKeepsRows(r, tail);
      forall i | 0 <= i < |rest|
        ensures Newer(sorted[0], rest[i])
      {
        assert rest[i] in multiset(tail) + multiset{r};
      }
      PrependIsSorted(sorted[0], rest);
    }
  }

  /** The query returns the same rows, newest first, whatever the clock did. */
  lemma {:induction false} NewestFirstIsSorted(rows: seq<Row>)
    requires forall i, j :: 0 <= i < j < |rows| ==> rows[i].id != rows[j].id
    ensures multiset(NewestFirst(rows)) == multiset(rows) && Sorted(NewestFirst(rows))
  {
    if rows != [] {
      var front, last := rows[..|rows| - 1], rows[|rows| - 1];
      var sorted := NewestFirst(front);
      NewestFirstIsSorted(front);
      assert rows == front + [last];
      forall i | 0 <= i < |sorted|
        ensures sorted[i].id != last.id
      {
        assert sorted[i] in multiset(sorted) && sorted[i] in front;
      }
      InsertNewestIsSorted(last, sorted);
      InsertKeepsRows(last, sorted);
    }
  }

  /** The row is in the list, and none of its path is newer. */
  ghost predicate IsLatest(rows: seq<Row>, row: Row) {
    row in rows && forall r :: r in rows && r.path == row.path ==> !Newer(r, row)
  }

  /** The latest row of the path, if there is one, has the content with this hash. */
  ghost predicate LatestHas(rows: seq<Row>, path: string, hash: string) {
    exists row :: IsLatest(rows, row) && row.path == path && row.hash == hash
  }

  /** The query's first row is the latest row of the path, and the only one. */
  lemma LatestIsFirst(rows: seq<Row>, path: string, hash: string)
    requires ById(rows)
    ensures var newest := NewestFirst(PathRows(rows, path));
      LatestHas(rows, path, hash) <==> newest != [] && newest[0].hash == hash
  {
    var own := PathRows(rows, path);
    var newest := NewestFirst(own);
    QueryListsOwn(rows, path);
    FilterMembers(rows, InPath(path));
    if newest != [] {
      FirstIsLatest(rows, path);
      forall row | IsLatest(rows, row) && row.path == path
        ensures row == newest[0]
      {
        SameIdSameRow(rows, row, newest[0]);
      }
    }
    if row :| IsLatest(rows, row) && row.path == path {
      assert row in own && row in newest;
    }
  }

  lemma FirstIsLatest(rows: seq<Row>, path: string)
    requires ById(rows) && NewestFirst(PathRows(rows, path)) != []
    ensures var first := NewestFirst(PathRows(rows, path))[0]; IsLatest(rows, first) && first.path == path
  {
    var own := PathRows(rows, path);
    var newest := NewestFirst(own);
    QueryListsOwn(rows, path);
    FilterMembers(rows, InPath(path));
    FilterKeepsOrder(rows, InPath(path));
    IdsAreDistinct(own);
    NewestFirstIsSorted(own);
    assert newest[0] in newest;
    forall r | r in rows && r.path == path
      ensures !Newer(r, newest[0])
    {
      assert r in newest;
      var k :| 0 <= k < |newest| && newest[k] == r;
    }
  }

  predicate Reverses(order: seq<Row>, rows: seq<Row>) {
    |order| == |rows| && forall i :: 0 <= i < |order| ==> order[i] == rows[|rows| - 1 - i]
  }

  /** Rows inserted under a clock that never went back come out in reverse order of insertion. */
  lemma NewestFirstReverses(rows: seq<Row>)
    requires ById(rows) && ByTime(rows)
    ensures Reverses(NewestFirst(rows), rows)
  {
    if rows != [] {
      var front, last := rows[..|rows| - 1], rows[|rows| - 1];
      NewestFirstReverses(front);
      var sorted := NewestFirst(front);
      if sorted != [] {
        assert sorted[0] == rows[|rows| - 2];
        assert Newer(last, sorted[0]);
      }
      assert NewestFirst(rows) == [last] + sorted;
    }
  }

  // ---------------------------------------------------------------------
  // What a successful prune leaves of one path's rows.

  function Kept(rows: seq<Row>, cutoff: int): seq<Row> {
    var young := Filter(rows, Young(cutoff));
    if |young| > MAX_VERSIONS then young[|young| - MAX_VERSIONS..] else young
  }

  lemma YoungIsSuffix(rows: seq<Row>, cutoff: int)
    requires ByTime(rows)
    ensures IsSuffix(Filter(rows, Young(cutoff)), rows)
  {
    if rows != [] {
      if Young(cutoff)(rows[0]) {
        FilterKeepsAll(rows, Young(cutoff));
      } else {
        YoungIsSuffix(rows[1..], cutoff);
      }
    }
  }

  lemma KeptIsSuffix(rows: seq<Row>, cutoff: int)
    requires ByTime(rows)
    ensures IsSuffix(Kept(rows, cutoff), rows)
    ensures |Kept(rows, cutoff)| <= MAX_VERSIONS
    ensures forall r :: r in Kept(rows, cutoff) ==> r.createdAt >= cutoff
    ensures NoRepeat(rows) ==> NoRepeat(Kept(rows, cutoff))
  {
    hide Filter, ByTime;
    YoungIsSuffix(rows, cutoff);
    FilterMembers(rows, Young(cutoff));
    var young := Filter(rows, Young(cutoff));
    if |young| > MAX_VERSIONS { SuffixMembers(young, |young| - MAX_VERSIONS); }
  }

  /** The newest row survives exactly when it is young enough. */
  lemma NewestSurvives(rows: seq<Row>, cutoff: int)
    requires ByTime(rows) && rows != []
    ensures rows[|rows| - 1] in Kept(rows, cutoff) <==> rows[|rows| - 1].createdAt >= cutoff
  {
    var young := Filter(rows, Young(cutoff));
    YoungIsSuffix(rows, cutoff);
    FilterMembers(rows, Young(cutoff));
    if rows[|rows| - 1] in young {
      assert young[|young| - 1] == rows[|rows| - 1];
    }
    assert rows[|rows| - 1] in rows;
  }

  lemma SuffixTrans<T>(a: seq<T>, b: seq<T>, c: seq<T>)
    requires IsSuffix(a, b) && IsSuffix(b, c)
    ensures IsSuffix(a, c)
  {
  }

  // ---------------------------------------------------------------------
  // Deleting everything beyond the newest rows of one path.

  function ExcessIds(order: seq<Row>, k: nat): set<nat>
    requires MAX_VERSIONS <= k <= |order|
  {
    set i | MAX_VERSIONS <= i < k :: order[i].id
  }

  lemma NoExcessYet(rows: seq<Row>, order: seq<Row>)
    requires |order| > MAX_VERSIONS
    ensures Filter(rows, NotIds(ExcessIds(order, MAX_VERSIONS))) == rows
  {
    assert ExcessIds(order, MAX_VERSIONS) == {};
    FilterKeepsAll(rows, NotIds({}));
  }

  lemma OneMoreExcess(rows: seq<Row>, order: seq<Row>, k: nat)
    requires MAX_VERSIONS <= k < |order|
    ensures Filter(Filter(rows, NotIds(ExcessIds(order, k))), NotIds({order[k].id}))
         == Filter(rows, NotIds(ExcessIds(order, k + 1)))
  {
    FilterTwice(rows, ExcessIds(order, k), order[k].id);
    assert ExcessIds(order, k + 1) == ExcessIds(order, k) + {order[k].id};
  }

  /** Among rows with distinct ids, the excess ids are those of the front part. */
  lemma ExcessIsFront(young: seq<Row>, order: seq<Row>)
    requires ById(young) && Reverses(order, young) && |order| > MAX_VERSIONS
    ensures Filter(young, NotIds(ExcessIds(order, |order|))) == young[|young| - MAX_VERSIONS..]
  {
    var ids := ExcessIds(order, |order|);
    var cut := |young| - MAX_VERSIONS;
    forall i | 0 <= i < |young| ensures young[i].id in ids <==> i < cut {
      assert order[|young| - 1 - i] == young[i];
      forall k | MAX_VERSIONS <= k < |order| ensures order[k].id == young[i].id ==> i < cut {
        assert order[k] == young[|young| - 1 - k];
      }
    }
    FilterSuffix(young, NotIds(ids), cut);
  }

  /** The order lists rows of `own` and nothing else. */
  ghost predicate ListsOnly(order: seq<Row>, own: seq<Row>) {
    forall r :: r in order ==> r in own
  }

  lemma ExcessIsOwn(own: seq<Row>, order: seq<Row>, id: nat)
    requires ListsOnly(order, own) && |order| > MAX_VERSIONS
    requires id in ExcessIds(order, |order|)
    ensures exists r :: r in own && r.id == id
  {
    var k :| MAX_VERSIONS <= k < |order| && order[k].id == id;
    assert order[k] in order;
  }

  /** Rows of different paths have different ids, so the other paths lose nothing. */
  lemma OtherPathUntouched(rows: seq<Row>, path: string, p: string, order: seq<Row>)
    requires ById(rows) && p != path
    requires ListsOnly(order, PathRows(rows, path)) && |order| > MAX_VERSIONS
    ensures PathRows(Filter(rows, NotIds(ExcessIds(order, |order|))), p) == PathRows(rows, p)
  {
    var ids := ExcessIds(order, |order|);
    var own := PathRows(rows, p);
    FilterCommutes(rows, NotIds(ids), InPath(p));
    FilterMembers(rows, InPath(p));
    forall i | 0 <= i < |own|
      ensures NotIds(ids)(own[i])
    {
      assert own[i] in own;
      if own[i].id in ids { IdsDiffer(rows, path, order, own[i]); }
    }
    FilterKeepsAll(own, NotIds(ids));
  }

  lemma IdsDiffer(rows: seq<Row>, path: string, order: seq<Row>, r: Row)
    requires ById(rows) && r in rows && r.path != path
    requires ListsOnly(order, PathRows(rows, path)) && |order| > MAX_VERSIONS
    ensures r.id !in ExcessIds(order, |order|)
  {
    if r.id in ExcessIds(order, |order|) {
      ExcessIsOwn(PathRows(rows, path), order, r.id);
      var q :| q in PathRows(rows, path) && q.id == r.id;
      FilterMembers(rows, InPath(path));
      SameIdSameRow(rows, q, r);
    }
  }

  lemma SameIdSameRow(rows: seq<Row>, a: Row, b: Row)
    requires ById(rows) && a in rows && b in rows && a.id == b.id
    ensures a == b
  {
    var i :| 0 <= i < |rows| && rows[i] == a;
    var j :| 0 <= j < |rows| && rows[j] == b;
  }

  /** Whatever order the rows come in, at most the first fifty of them survive the deletion of the excess. */
  lemma ExcessLeavesFifty(own: seq<Row>, order: seq<Row>)
    requires ById(own) && |order| > MAX_VERSIONS && forall r :: r in own ==> r in order
    ensures |Filter(own, NotIds(ExcessIds(order, |order|)))| <= MAX_VERSIONS
  {
    var ids := ExcessIds(order, |order|);
    var left := Filter(own, NotIds(ids));
    var first := set i | 0 <= i < MAX_VERSIONS :: order[i];
    FilterMembers(own, NotIds(ids));
    FilterKeepsOrder(own, NotIds(ids));
    forall r | r in left
      ensures r in first
    {
      var k :| 0 <= k < |order| && order[k] == r;
      FirstOrExcess(order, k);
    }
    SetOfFirst(order, MAX_VERSIONS);
    SizeOfDistinct(left, first);
  }

  lemma FirstOrExcess(order: seq<Row>, k: nat)
    requires MAX_VERSIONS <= |order| && k < |order|
    ensures k < MAX_VERSIONS || order[k].id in ExcessIds(order, |order|)
  {
  }

  lemma SetOfFirst(order: seq<Row>, n: nat)
    requires n <= |order|
    ensures |set i | 0 <= i < n :: order[i]| <= n
  {
    if n > 0 {
      SetOfFirst(order, n - 1);
      assert (set i | 0 <= i < n :: order[i]) == (set i | 0 <= i < n - 1 :: order[i]) + {order[n - 1]};
    }
  }

  lemma {:induction false} SizeOfDistinct(rows: seq<Row>, all: set<Row>)
    requires ById(rows) && forall r :: r in rows ==> r in all
    ensures |rows| <= |all|
  {
    if rows != [] {
      SuffixMembers(rows, 1);
      forall r | r in rows[1..]
        ensures r != rows[0]
      {
        var i :| 0 <= i < |rows[1..]| && rows[1..][i] == r;
        assert rows[0].id < rows[i + 1].id;
      }
      SizeOfDistinct(rows[1..], all - {rows[0]});
    }
  }

  lemma OwnPathCut(rows: seq<Row>, path: string, order: seq<Row>)
    requires ById(rows)
    requires Reverses(order, PathRows(rows, path)) && |order| > MAX_VERSIONS
    ensures var young := PathRows(rows, path);
      PathRows(Filter(rows, NotIds(ExcessIds(order, |order|))), path) == young[|young| - MAX_VERSIONS..]
  {
    hide Filter, ById, ExcessIds, NotIds, InPath;
    FilterCommutes(rows, NotIds(ExcessIds(order, |order|)), InPath(path));
    FilterKeepsOrder(rows, InPath(path));
    ExcessIsFront(PathRows(rows, path), order);
  }

  // ---------------------------------------------------------------------
  // Deleting what is too old for one path.

  lemma SameFilter(rows: seq<Row>, f: Row -> bool, g: Row -> bool)
    requires forall i :: 0 <= i < |rows| ==> f(rows[i]) == g(rows[i])
    ensures Filter(rows, f) == Filter(rows, g)
  {
    if rows != [] { SameFilter(rows[1..], f, g); }
  }

  lemma AgedPath(rows: seq<Row>, path: string, p: string, cutoff: int)
    ensures PathRows(Filter(rows, YoungOrElsewhere(path, cutoff)), p) ==
            if p == path then Filter(PathRows(rows, p), Young(cutoff)) else PathRows(rows, p)
  {
    FilterCommutes(rows, YoungOrElsewhere(path, cutoff), InPath(p));
    var own := PathRows(rows, p);
    FilterMembers(rows, InPath(p));
    forall i | 0 <= i < |own| ensures own[i].path == p {
      assert own[i] in own;
    }
    if p == path {
      SameFilter(own, YoungOrElsewhere(path, cutoff), Young(cutoff));
    } else {
      FilterKeepsAll(own, YoungOrElsewhere(path, cutoff));
    }
  }

  // ---------------------------------------------------------------------
  // The history of each path.

  ghost predicate FaithfulPath(rows: seq<Row>, accepted: seq<Row>, p: string) {
    IsSuffix(PathRows(rows, p), PathRows(accepted, p)) && NoRepeat(PathRows(rows, p))
  }

  /** The history of every path is a suffix of what was accepted for it, without repetitions. */
  ghost predicate Faithful(rows: seq<Row>, accepted: seq<Row>) {
    ByTime(accepted) && forall p :: FaithfulPath(rows, accepted, p)
  }

  ghost predicate NoneNewer(rows: seq<Row>, time: int) {
    forall r :: r in rows ==> r.createdAt <= time
  }

  ghost predicate BoundedAndYoung(rows: seq<Row>, path: string, cutoff: int) {
    && |PathRows(rows, path)| <= MAX_VERSIONS
    && forall r :: r in PathRows(rows, path) ==> r.createdAt >= cutoff
  }

  /** One path is cut down to what `Kept` keeps; the others stay. */
  ghost predicate PrunedPath(before: seq<Row>, after: seq<Row>, path: string, cutoff: int) {
    && PathRows(after, path) == Kept(PathRows(before, path), cutoff)
    && forall p :: p != path ==> PathRows(after, p) == PathRows(before, p)
  }

  lemma FaithfulByTime(rows: seq<Row>, accepted: seq<Row>, path: string)
    requires Faithful(rows, accepted)
    ensures ByTime(PathRows(rows, path))
  {
    FilterKeepsOrder(accepted, InPath(path));
    assert FaithfulPath(rows, accepted, path);
  }

  /** The rows that the two deletions of a prune leave. */
  function AfterDeletions(before: seq<Row>, path: string, cutoff: int): seq<Row> {
    var aged := Filter(before, YoungOrElsewhere(path, cutoff));
    var order := NewestFirst(PathRows(aged, path));
    if |order| > MAX_VERSIONS then Filter(aged, NotIds(ExcessIds(order, |order|))) else aged
  }

  /** The age deletion followed by the count deletion prunes the path. */
  lemma DeletionsPrune(before: seq<Row>, path: string, cutoff: int)
    requires ById(before) && ByTime(PathRows(before, path))
    ensures PrunedPath(before, AfterDeletions(before, path, cutoff), path, cutoff)
  {
    DeletionsPruneOwn(before, path, cutoff);
    forall p | p != path ensures PathRows(AfterDeletions(before, path, cutoff), p) == PathRows(before, p) {
      DeletionsSpareOthers(before, path, cutoff, p);
    }
  }

  /** The query lists exactly the path's rows, in whatever order. */
  lemma QueryListsOwn(rows: seq<Row>, path: string)
    requires ById(rows)
    ensures ListsOnly(NewestFirst(PathRows(rows, path)), PathRows(rows, path))
    ensures ListsOnly(PathRows(rows, path), NewestFirst(PathRows(rows, path)))
  {
    var own := PathRows(rows, path);
    FilterKeepsOrder(rows, InPath(path));
    NewestFirstIsSorted(own);
    assert forall r :: r in own <==> r in multiset(own);
    assert forall r :: r in NewestFirst(own) <==> r in multiset(NewestFirst(own));
  }

  /** Whatever the clock did: the path keeps at most fifty rows, none of them too old. */
  lemma DeletionsBound(before: seq<Row>, path: string, cutoff: int)
    requires ById(before)
    ensures BoundedAndYoung(AfterDeletions(before, path, cutoff), path, cutoff)
  {
    hide NewestFirst, ById, ExcessIds, Filter, NotIds;
    var aged := Filter(before, YoungOrElsewhere(path, cutoff));
    FilterKeepsOrder(before, YoungOrElsewhere(path, cutoff));
    AgedIsYoung(before, path, cutoff);
    if |NewestFirst(PathRows(aged, path))| > MAX_VERSIONS {
      ExcessBound(aged, path);
    } else {
      QueryIsAsLong(aged, path);
    }
  }

  lemma AgedIsYoung(before: seq<Row>, path: string, cutoff: int)
    ensures forall r :: r in PathRows(Filter(before, YoungOrElsewhere(path, cutoff)), path) ==> r.createdAt >= cutoff
  {
    AgedPath(before, path, path, cutoff);
    FilterMembers(PathRows(before, path), Young(cutoff));
  }

  lemma ExcessBound(aged: seq<Row>, path: string)
    requires ById(aged) && |NewestFirst(PathRows(aged, path))| > MAX_VERSIONS
    ensures var order := NewestFirst(PathRows(aged, path));
      var after := PathRows(Filter(aged, NotIds(ExcessIds(order, |order|))), path);
      |after| <= MAX_VERSIONS && forall r :: r in after ==> r in PathRows(aged, path)
  {
    hide NewestFirst, ById, ExcessIds, Filter, NotIds, InPath;
    var own := PathRows(aged, path);
    var order := NewestFirst(own);
    var ids := ExcessIds(order, |order|);
    QueryListsOwn(aged, path);
    FilterCommutes(aged, NotIds(ids), InPath(path));
    FilterKeepsOrder(aged, InPath(path));
    ExcessLeavesFifty(own, order);
    FilterMembers(own, NotIds(ids));
  }

  lemma QueryIsAsLong(rows: seq<Row>, path: string)
    requires ById(rows)
    ensures |NewestFirst(PathRows(rows, path))| == |PathRows(rows, path)|
  {
    var own := PathRows(rows, path);
    FilterKeepsOrder(rows, InPath(path));
    NewestFirstIsSorted(own);
    assert |multiset(own)| == |own|;
  }

  lemma DeletionsPruneOwn(before: seq<Row>, path: string, cutoff: int)
    requires ById(before) && ByTime(PathRows(before, path))
    ensures PathRows(AfterDeletions(before, path, cutoff), path) == Kept(PathRows(before, path), cutoff)
  {
    hide Filter, NewestFirst, ById, ByTime, ExcessIds;
    var aged := Filter(before, YoungOrElsewhere(path, cutoff));
    var order := NewestFirst(PathRows(aged, path));
    OrderReverses(before, aged, path, cutoff);
    FilterKeepsOrder(before, YoungOrElsewhere(path, cutoff));
    AgedPath(before, path, path, cutoff);
    if |order| > MAX_VERSIONS { OwnPathCut(aged, path, order); }
  }

  /** Deletion by id spares the rows of the other paths, in whatever order the rows were inserted. */
  lemma DeletionsSpareOthers(before: seq<Row>, path: string, cutoff: int, p: string)
    requires ById(before) && p != path
    ensures PathRows(AfterDeletions(before, path, cutoff), p) == PathRows(before, p)
  {
    hide Filter, NewestFirst, ById, ExcessIds;
    var aged := Filter(before, YoungOrElsewhere(path, cutoff));
    var order := NewestFirst(PathRows(aged, path));
    FilterKeepsOrder(before, YoungOrElsewhere(path, cutoff));
    QueryListsOwn(aged, path);
    AgedPath(before, path, p, cutoff);
    if |order| > MAX_VERSIONS { OtherPathUntouched(aged, path, p, order); }
  }

  lemma OrderReverses(before: seq<Row>, aged: seq<Row>, path: string, cutoff: int)
    requires ById(before) && ByTime(PathRows(before, path))
    requires aged == Filter(before, YoungOrElsewhere(path, cutoff))
    ensures Reverses(NewestFirst(PathRows(aged, path)), PathRows(aged, path))
  {
    AgedPath(before, path, path, cutoff);
    FilterKeepsOrder(before, InPath(path));
    FilterKeepsOrder(PathRows(before, path), Young(cutoff));
    NewestFirstReverses(PathRows(aged, path));
  }

  // ---------------------------------------------------------------------
  // Which rows survive, whatever the clock did.

  function NewerThan(row: Row): Row -> bool { (r: Row) => Newer(r, row) }

  function LaterThan(time: int): Row -> bool { (r: Row) => r.createdAt > time }

  /** The row is young enough, and fewer than fifty rows of its path are newer. */
  predicate Survives(before: seq<Row>, row: Row, cutoff: int) {
    row.createdAt >= cutoff && |Filter(PathRows(before, row.path), NewerThan(row))| < MAX_VERSIONS
  }

  lemma {:induction false} FilterMultiplicity(rows: seq<Row>, keep: Row -> bool, r: Row)
    ensures multiset(Filter(rows, keep))[r] == if keep(r) then multiset(rows)[r] else 0
  {
    if rows != [] {
      assert rows == [rows[0]] + rows[1..];
      FilterMultiplicity(rows[1..], keep, r);
    }
  }

  /** Counting does not depend on the order. */
  lemma CountIgnoresOrder(a: seq<Row>, b: seq<Row>, keep: Row -> bool)
    requires multiset(a) == multiset(b)
    ensures |Filter(a, keep)| == |Filter(b, keep)|
  {
    forall r
      ensures multiset(Filter(a, keep))[r] == multiset(Filter(b, keep))[r]
    {
      FilterMultiplicity(a, keep, r);
      FilterMultiplicity(b, keep, r);
    }
    assert multiset(Filter(a, keep)) == multiset(Filter(b, keep));
    assert |multiset(Filter(a, keep))| == |Filter(a, keep)| && |multiset(Filter(b, keep))| == |Filter(b, keep)|;
  }

  /** In sorted order, the rows newer than the one at `k` are those before it. */
  lemma NewerRowsComeFirst(order: seq<Row>, k: nat)
    requires Sorted(order) && k < |order|
    ensures |Filter(order, NewerThan(order[k]))| == k
  {
    var keep := NewerThan(order[k]);
    assert order == order[..k] + order[k..];
    FilterAppend(order[..k], order[k..], keep);
    FilterKeepsAll(order[..k], keep);
    FilterKeepsNone(order[k..], keep);
  }

  /** Whatever is newer than a young row is young. */
  lemma NewerAreYoung(own: seq<Row>, row: Row, cutoff: int)
    requires row.createdAt >= cutoff
    ensures Filter(Filter(own, Young(cutoff)), NewerThan(row)) == Filter(own, NewerThan(row))
  {
    FilterCommutes(own, Young(cutoff), NewerThan(row));
    var newer := Filter(own, NewerThan(row));
    FilterMembers(own, NewerThan(row));
    forall i | 0 <= i < |newer|
      ensures Young(cutoff)(newer[i])
    {
      assert newer[i] in newer;
    }
    FilterKeepsAll(newer, Young(cutoff));
  }

  /** The deletion of the excess keeps a listed row exactly if it is among the first fifty. */
  lemma ExcessDeletesByRank(rows: seq<Row>, order: seq<Row>, k: nat)
    requires ById(rows) && ListsOnly(order, rows) && Sorted(order) && k < |order| && |order| > MAX_VERSIONS
    ensures order[k] in Filter(rows, NotIds(ExcessIds(order, |order|))) <==> k < MAX_VERSIONS
  {
    FilterMembers(rows, NotIds(ExcessIds(order, |order|)));
    FirstOrExcess(order, k);
    assert order[k] in order;
    forall i | MAX_VERSIONS <= i < |order| && order[i].id == order[k].id
      ensures i == k
    {
      assert order[i] in order;
      SameIdSameRow(rows, order[i], order[k]);
    }
  }

  /** A row's place in a sorted order is the number of newer rows. */
  lemma RankInOrder(order: seq<Row>, own: seq<Row>, row: Row) returns (k: nat)
    requires multiset(order) == multiset(own) && Sorted(order) && row in own
    ensures k < |order| && order[k] == row && k == |Filter(own, NewerThan(row))|
  {
    hide Filter, Sorted;
    assert row in multiset(own) && row in multiset(order);
    k :| 0 <= k < |order| && order[k] == row;
    NewerRowsComeFirst(order, k);
    CountIgnoresOrder(order, own, NewerThan(row));
  }

  /** How many rows of the path are newer is the row's place in the query's order. */
  lemma RankIsCount(before: seq<Row>, aged: seq<Row>, row: Row, cutoff: int) returns (k: nat)
    requires ById(before) && aged == Filter(before, YoungOrElsewhere(row.path, cutoff)) && row in aged
    ensures var order := NewestFirst(PathRows(aged, row.path));
      && Sorted(order) && k < |order| && order[k] == row
      && k == |Filter(PathRows(before, row.path), NewerThan(row))|
  {
    hide Newer, NewestFirst, ById, Filter, Sorted;
    var own := PathRows(aged, row.path);
    FilterMembers(before, YoungOrElsewhere(row.path, cutoff));
    FilterMembers(aged, InPath(row.path));
    AgedPath(before, row.path, row.path, cutoff);
    FilterKeepsOrder(before, YoungOrElsewhere(row.path, cutoff));
    FilterKeepsOrder(aged, InPath(row.path));
    IdsAreDistinct(own);
    NewestFirstIsSorted(own);
    k := RankInOrder(NewestFirst(own), own, row);
    NewerAreYoung(PathRows(before, row.path), row, cutoff);
  }

  lemma IdsAreDistinct(rows: seq<Row>)
    requires ById(rows)
    ensures forall i, j :: 0 <= i < j < |rows| ==> rows[i].id != rows[j].id
  {
  }

  /** A row of the path survives the two deletions exactly if it is young and among the fifty newest. */
  lemma SurvivesExactly(before: seq<Row>, row: Row, cutoff: int)
    requires ById(before) && row in before
    ensures row in AfterDeletions(before, row.path, cutoff) <==> Survives(before, row, cutoff)
  {
    hide ById, NewestFirst, ExcessIds, Filter, Sorted, Newer;
    var aged := Filter(before, YoungOrElsewhere(row.path, cutoff));
    var order := NewestFirst(PathRows(aged, row.path));
    FilterMembers(before, YoungOrElsewhere(row.path, cutoff));
    if row in aged {
      var k := RankIsCount(before, aged, row, cutoff);
      FilterKeepsOrder(before, YoungOrElsewhere(row.path, cutoff));
      QueryListsOwn(aged, row.path);
      FilterMembers(aged, InPath(row.path));
      if |order| > MAX_VERSIONS { ExcessDeletesByRank(aged, order, k); }
    } else if |order| > MAX_VERSIONS {
      FilterMembers(aged, NotIds(ExcessIds(order, |order|)));
    }
  }

  /** For the row inserted last, newer means dated later. */
  lemma LastRowSurvivesExactly(rows: seq<Row>, row: Row, cutoff: int)
    requires ById(rows + [row])
    ensures Survives(rows + [row], row, cutoff) <==>
      row.createdAt >= cutoff && |Filter(PathRows(rows, row.path), LaterThan(row.createdAt))| < MAX_VERSIONS
  {
    var own := PathRows(rows, row.path);
    PathRowsAppend(rows, row, row.path);
    FilterAppend(own, [row], NewerThan(row));
    FilterMembers(rows, InPath(row.path));
    forall i | 0 <= i < |own|
      ensures NewerThan(row)(own[i]) == LaterThan(row.createdAt)(own[i])
    {
      assert own[i] in own;
      var j :| 0 <= j < |rows| && rows[j] == own[i];
      assert (rows + [row])[j].id < (rows + [row])[|rows|].id;
    }
    SameFilter(own, NewerThan(row), LaterThan(row.createdAt));
  }

  lemma PruneIsFaithful(before: seq<Row>, accepted: seq<Row>, after: seq<Row>, path: string, cutoff: int)
    requires Faithful(before, accepted) && PrunedPath(before, after, path, cutoff)
    ensures Faithful(after, accepted)
    ensures BoundedAndYoung(after, path, cutoff)
  {
    FaithfulByTime(before, accepted, path);
    KeptIsSuffix(PathRows(before, path), cutoff);
    forall p ensures FaithfulPath(after, accepted, p) {
      assert FaithfulPath(before, accepted, p);
      if p == path {
        SuffixTrans(PathRows(after, p), PathRows(before, p), PathRows(accepted, p));
      }
    }
  }

  lemma AgeDeletionIsFaithful(rows: seq<Row>, accepted: seq<Row>, cutoff: int)
    requires Faithful(rows, accepted)
    ensures Faithful(Filter(rows, Young(cutoff)), accepted)
  {
    var after := Filter(rows, Young(cutoff));
    forall p ensures FaithfulPath(after, accepted, p) {
      FilterCommutes(rows, Young(cutoff), InPath(p));
      FaithfulByTime(rows, accepted, p);
      YoungIsSuffix(PathRows(rows, p), cutoff);
      assert FaithfulPath(rows, accepted, p);
      SuffixTrans(PathRows(after, p), PathRows(rows, p), PathRows(accepted, p));
    }
  }

  lemma PathRowsAppend(rows: seq<Row>, row: Row, p: string)
    ensures PathRows(rows + [row], p) == PathRows(rows, p) + if row.path == p then [row] else []
  {
    FilterAppend(rows, [row], InPath(p));
  }

  lemma AppendFaithfulPath(own: seq<Row>, all: seq<Row>, row: Row)
    requires IsSuffix(own, all) && NoRepeat(own)
    requires own != [] ==> own[|own| - 1].hash != row.hash
    ensures IsSuffix(own + [row], all + [row]) && NoRepeat(own + [row])
  {
  }

  /** Appending a row that differs from the newest one of its path keeps the history faithful. */
  lemma InsertIsFaithful(rows: seq<Row>, accepted: seq<Row>, row: Row)
    requires Faithful(rows, accepted) && NoneNewer(accepted, row.createdAt)
    requires var own := PathRows(rows, row.path); own != [] ==> own[|own| - 1].hash != row.hash
    ensures Faithful(rows + [row], accepted + [row])
  {
    hide Filter;
    forall p ensures FaithfulPath(rows + [row], accepted + [row], p) {
      PathRowsAppend(rows, row, p);
      PathRowsAppend(accepted, row, p);
      assert FaithfulPath(rows, accepted, p);
      if p == row.path {
        AppendFaithfulPath(PathRows(rows, p), PathRows(accepted, p), row);
      }
    }
  }

  /**
   * What a prune of one path does. Whatever the clock did, it removes exactly the rows of that path
   * that are too old or not among its fifty newest; rows in time order are cut down to what `Kept` keeps.
   */
  ghost predicate PruneStep(before: seq<Row>, after: seq<Row>, path: string, cutoff: int) {
    && (forall r :: r in after ==> r in before)
    && (forall p :: p != path ==> PathRows(after, p) == PathRows(before, p))
    && BoundedAndYoung(after, path, cutoff)
    && (forall r :: r in before && r.path == path ==> (r in after <==> Survives(before, r, cutoff)))
    && (ByTime(PathRows(before, path)) ==> PrunedPath(before, after, path, cutoff))
  }

  lemma DeletionsAreStep(before: seq<Row>, path: string, cutoff: int)
    requires ById(before)
    ensures PruneStep(before, AfterDeletions(before, path, cutoff), path, cutoff)
  {
    var aged := Filter(before, YoungOrElsewhere(path, cutoff));
    var order := NewestFirst(PathRows(aged, path));
    FilterMembers(before, YoungOrElsewhere(path, cutoff));
    if |order| > MAX_VERSIONS { FilterMembers(aged, NotIds(ExcessIds(order, |order|))); }
    DeletionsBound(before, path, cutoff);
    forall p | p != path
      ensures PathRows(AfterDeletions(before, path, cutoff), p) == PathRows(before, p)
    {
      DeletionsSpareOthers(before, path, cutoff, p);
    }
    forall r | r in before && r.path == path
      ensures r in AfterDeletions(before, path, cutoff) <==> Survives(before, r, cutoff)
    {
      SurvivesExactly(before, r, cutoff);
    }
    if ByTime(PathRows(before, path)) { DeletionsPrune(before, path, cutoff); }
  }

  ghost predicate AllBounded(rows: seq<Row>) {
    forall p :: |PathRows(rows, p)| <= MAX_VERSIONS
  }

  /** Every path's history is a bounded, repetition-free suffix of what was accepted for it. */
  ghost predicate Healthy(rows: seq<Row>, accepted: seq<Row>) {
    Faithful(rows, accepted) && AllBounded(rows)
  }

  /**
   * What one successful snapshot does. Whatever the clock did, the other paths keep their rows, all
   * paths stay bounded, the snapshot's path is young, and the new row survives exactly if it is not
   * older than the cutoff and fewer than fifty rows of its path are dated later. Under a clock that
   * does not go back the history stays healthy, and no row is dated later.
   */
  ghost predicate SnapshotKeeps(rows: seq<Row>, accepted: seq<Row>, after: seq<Row>, row: Row, cutoff: int) {
    && (forall p :: p != row.path ==> PathRows(after, p) == PathRows(rows, p))
    && BoundedAndYoung(after, row.path, cutoff)
    && (AllBounded(rows) ==> AllBounded(after))
    && (row in after <==>
          row.createdAt >= cutoff && |Filter(PathRows(rows, row.path), LaterThan(row.createdAt))| < MAX_VERSIONS)
    && (Faithful(rows, accepted) && NoneNewer(accepted, row.createdAt) ==>
          Faithful(after, accepted + [row]) && (row in after <==> row.createdAt >= cutoff))
    && (Healthy(rows, accepted) && NoneNewer(accepted, row.createdAt) ==> Healthy(after, accepted + [row]))
  }

  lemma SnapshotIsHealthy(rows: seq<Row>, accepted: seq<Row>, after: seq<Row>, row: Row, cutoff: int)
    requires ById(rows + [row]) && PruneStep(rows + [row], after, row.path, cutoff)
    requires !LatestHas(rows, row.path, row.hash)
    ensures SnapshotKeeps(rows, accepted, after, row, cutoff)
  {
    forall p | p != row.path
      ensures PathRows(after, p) == PathRows(rows, p)
    {
      PathRowsAppend(rows, row, p);
    }
    assert (rows + [row])[|rows|] == row;
    LastRowSurvivesExactly(rows, row, cutoff);
    if AllBounded(rows) {
      forall p
        ensures |PathRows(after, p)| <= MAX_VERSIONS
      {
        assert |PathRows(rows, p)| <= MAX_VERSIONS;
      }
    }
    FrontById(rows, row);
    LatestIsFirst(rows, row.path, row.hash);
    if Faithful(rows, accepted) && NoneNewer(accepted, row.createdAt) {
      SnapshotIsFaithful(rows, accepted, after, row, cutoff);
    }
  }

  lemma SnapshotIsFaithful(rows: seq<Row>, accepted: seq<Row>, after: seq<Row>, row: Row, cutoff: int)
    requires ById(rows + [row]) && PruneStep(rows + [row], after, row.path, cutoff)
    requires var newest := NewestFirst(PathRows(rows, row.path)); newest != [] ==> newest[0].hash != row.hash
    requires Faithful(rows, accepted) && NoneNewer(accepted, row.createdAt)
    ensures Faithful(after, accepted + [row])
    ensures row in after <==> row.createdAt >= cutoff
  {
    NewestDiffers(rows, accepted, row);
    InsertIsFaithful(rows, accepted, row);
    FaithfulByTime(rows + [row], accepted + [row], row.path);
    PruneIsFaithful(rows + [row], accepted + [row], after, row.path, cutoff);
    PathRowsAppend(rows, row, row.path);
    NewestSurvives(PathRows(rows + [row], row.path), cutoff);
    FilterMembers(after, InPath(row.path));
    assert row in after <==> row in PathRows(after, row.path);
  }

  /** A row that is older than the cutoff when its own snapshot is pruned is gone at once. */
  lemma LateClockDropsOwnRow(row: Row, cutoff: int)
    requires row.createdAt < cutoff
    ensures AfterDeletions([row], row.path, cutoff) == []
  {
    assert Filter([row], YoungOrElsewhere(row.path, cutoff)) == [];
  }

  /** `n` rows of one path with different contents and the same date. */
  function SameDate(n: nat, time: int): (rows: seq<Row>)
    ensures |rows| == n && forall i :: 0 <= i < n ==> rows[i] == Row(i, "f", Decimal(i), time, "save", 0)
  {
    seq(n, (i: nat) => Row(i, "f", Decimal(i), time, "save", 0))
  }

  lemma SameDateIsHealthy(time: int)
    ensures var rows := SameDate(MAX_VERSIONS, time);
      ById(rows) && ByTime(rows) && PathRows(rows, "f") == rows && Healthy(rows, rows)
  {
    hide Decimal;
    var rows := SameDate(MAX_VERSIONS, time);
    FilterKeepsAll(rows, InPath("f"));
    forall i | 0 < i < |rows|
      ensures rows[i - 1].hash != rows[i].hash
    {
      DecimalValue(i - 1);
      DecimalValue(i);
    }
    forall p
      ensures FaithfulPath(rows, rows, p) && |PathRows(rows, p)| <= MAX_VERSIONS
    {
      if p != "f" { FilterKeepsNone(rows, InPath(p)); }
    }
  }

  /** A healthy history of fifty rows that are dated later drops the new row at once, however young. */
  lemma ClockWentBackDropsOwnRow(time: int, back: int, cutoff: int)
    requires back < time
    ensures var rows, row := SameDate(MAX_VERSIONS, time), Row(MAX_VERSIONS, "f", "new", back, "save", 0);
      && ById(rows + [row]) && Healthy(rows, rows)
      && row.hash != NewestFirst(PathRows(rows, "f"))[0].hash
      && row !in AfterDeletions(rows + [row], "f", cutoff)
  {
    hide Decimal, NewestFirst, Filter, Healthy;
    var rows, row := SameDate(MAX_VERSIONS, time), Row(MAX_VERSIONS, "f", "new", back, "save", 0);
    SameDateIsHealthy(time);
    NewestFirstReverses(rows);
    var newest := NewestFirst(rows)[0];
    assert newest.hash == Decimal(MAX_VERSIONS - 1) && newest.hash[0] in newest.hash;
    FilterKeepsAll(rows, LaterThan(back));
    assert (rows + [row])[|rows|] == row;
    SurvivesExactly(rows + [row], row, cutoff);
    LastRowSurvivesExactly(rows, row, cutoff);
  }

  lemma FrontById(rows: seq<Row>, row: Row)
    requires ById(rows + [row])
    ensures ById(rows)
  {
    forall i, j | 0 <= i < j < |rows| ensures rows[i].id < rows[j].id {
      assert (rows + [row])[i].id < (rows + [row])[j].id;
    }
  }

  lemma NewestDiffers(rows: seq<Row>, accepted: seq<Row>, row: Row)
    requires ById(rows + [row]) && Faithful(rows, accepted)
    requires var newest := NewestFirst(PathRows(rows, row.path)); newest != [] ==> newest[0].hash != row.hash
    ensures var own := PathRows(rows, row.path); own != [] ==> own[|own| - 1].hash != row.hash
  {
    FrontById(rows, row);
    FilterKeepsOrder(rows, InPath(row.path));
    FaithfulByTime(rows, accepted, row.path);
    NewestFirstReverses(PathRows(rows, row.path));
  }
}
