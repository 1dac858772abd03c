/** One archive month: its subjects table, the indexes it carries and the SSD
    set of hashes beside it, changed by the append-only flush and by the seal.

    Every method that commits durable work takes `commits`: how many of its
    transactions and auto-committed statements complete. A statement that finds
    nothing to do counts like any other. A method that runs out returns with
    the state exactly as a crash at that point leaves it.
  */
module ArchiveMonth {
  import opened Octets
  import opened SubjectRows

  // ---- the active month -----------------------------------------------------

  /** A staged row and its rowid in the active table. */
  datatype Active = Active(rowid: int, row: Row)

  ghost predicate InRowidOrder(active: seq<Active>) {
    forall i, j :: 0 <= i < j < |active| ==> active[i].rowid < active[j].rowid
  }

  function Rows(active: seq<Active>): (rows: seq<Row>)
    ensures |rows| == |active|
    ensures forall i :: 0 <= i < |rows| ==> rows[i] == active[i].row
  {
    seq(|active|, i requires 0 <= i < |active| => active[i].row)
  }

  /** The active rows with lo <= rowid <= hi, in rowid order. */
  function Window(active: seq<Active>, lo: int, hi: int): (rows: seq<Row>) {
    if active == [] then []
    else (if lo <= active[0].rowid <= hi then [active[0].row] else []) + Window(active[1..], lo, hi)
  }

  lemma {:induction false} WindowOfConcat(a: seq<Active>, b: seq<Active>, lo: int, hi: int)
    ensures Window(a + b, lo, hi) == Window(a, lo, hi) + Window(b, lo, hi)
  {
    if a == [] {
      assert a + b == b;
    } else {
      assert (a + b)[1..] == a[1..] + b;
      WindowOfConcat(a[1..], b, lo, hi);
    }
  }

  lemma {:induction false} WindowOutside(active: seq<Active>, lo: int, hi: int)
    requires forall i :: 0 <= i < |active| ==> active[i].rowid < lo || active[i].rowid > hi
    ensures Window(active, lo, hi) == []
  {
    if active != [] {
      WindowOutside(active[1..], lo, hi);
    }
  }

  lemma {:induction false} WindowInside(active: seq<Active>, lo: int, hi: int)
    requires forall i :: 0 <= i < |active| ==> lo <= active[i].rowid <= hi
    ensures Window(active, lo, hi) == Rows(active)
  {
    if active != [] {
      WindowInside(active[1..], lo, hi);
      assert Rows(active) == [active[0].row] + Rows(active[1..]);
    }
  }

  /** The first `done` rows, and only they, have a rowid below `start`. */
  ghost predicate SplitAt(active: seq<Active>, start: int, done: nat) {
    && done <= |active|
    && (forall i :: 0 <= i < done ==> active[i].rowid < start)
    && (forall i :: done <= i < |active| ==> active[i].rowid >= start)
  }

  lemma {:induction false} FindSplit(active: seq<Active>, start: int, done: nat) returns (next: nat)
    requires InRowidOrder(active) && done <= |active|
    requires forall i :: 0 <= i < done ==> active[i].rowid < start
    ensures done <= next && SplitAt(active, start, next)
    decreases |active| - done
  {
    next := done;
    if done < |active| && active[done].rowid < start {
      next := FindSplit(active, start, done + 1);
    }
  }

  /** A rowid window selects exactly the next stretch of the active month. */
  lemma WindowIsSlice(active: seq<Active>, start: int, end: int, done: nat, next: nat)
    requires SplitAt(active, start, done) && SplitAt(active, end + 1, next) && done <= next
    ensures Window(active, start, end) == Rows(active)[done..next]
  {
    ThreeParts(active, done, next);
    WindowOfParts(active[..done], active[done..next], active[next..], start, end);
  }

  lemma ThreeParts(active: seq<Active>, done: nat, next: nat)
    requires done <= next <= |active|
    ensures active == active[..done] + (active[done..next] + active[next..])
    ensures Rows(active[done..next]) == Rows(active)[done..next]
  {
  }

  lemma WindowOfParts(before: seq<Active>, during: seq<Active>, after: seq<Active>, start: int, end: int)
    requires forall i :: 0 <= i < |before| ==> before[i].rowid < start
    requires forall i :: 0 <= i < |during| ==> start <= during[i].rowid <= end
    requires forall i :: 0 <= i < |after| ==> after[i].rowid > end
    ensures Window(before + (during + after), start, end) == Rows(during)
  {
    WindowOfConcat(before, during + after, start, end);
    WindowOfConcat(during, after, start, end);
    WindowOutside(before, start, end);
    WindowInside(during, start, end);
    WindowOutside(after, start, end);
  }

  // ---- sealing --------------------------------------------------------------

  const HASH_ONLY := Indexes(true, false)
  const TILE_ONLY := Indexes(false, true)

  /** A row the compaction statement may delete: some row before it has the same hash. */
  ghost predicate HasLowerTwin(rows: seq<Row>, i: nat)
    requires i < |rows|
  {
    rows[i].id.ByHash? && !IsFirst(rows, i)
  }

  lemma {:induction false} FirstTwin(rows: seq<Row>, i: nat) returns (f: nat)
    requires i < |rows|
    ensures f <= i && rows[f].id == rows[i].id && IsFirst(rows, f)
  {
    if IsFirst(rows, i) {
      f := i;
    } else {
      var j :| 0 <= j < i && rows[j].id == rows[i].id;
      f := FirstTwin(rows, j);
    }
  }

  /** Deletes, one row at a time and in any order, each row that still has a
      lower twin with the same hash. Whatever the order, exactly the rows that
      started with a lower twin go. */
  method DeleteLowerTwins(rows: seq<Row>, order: seq<nat>) returns (live: set<nat>)
    requires forall i: nat :: i < |rows| ==> i in order
    requires forall i :: i in order ==> i < |rows|
    ensures live == KeptPositions(rows, HASH_ONLY)
  {
    live := KeptPositions(rows, NEITHER);
    for k := 0 to |order|
      invariant live <= KeptPositions(rows, NEITHER)
      invariant forall i: nat :: i < |rows| && !HasLowerTwin(rows, i) ==> i in live
      invariant forall m :: 0 <= m < k && order[m] in live ==> !HasLowerTwin(rows, order[m])
    {
      var i := order[k];
      assert i in order;
      if rows[i].id.ByHash? && exists j :: j in live && j < i && rows[j].id == rows[i].id {
        live := live - {i};
      } else {
        var f := FirstTwin(rows, i);
        assert f in live;
      }
    }
    forall i: nat | i < |rows| && HasLowerTwin(rows, i) ensures i !in live {
      assert i in order;
    }
  }

  lemma {:induction false} LockstepRebuild(rows: seq<Row>)
    ensures |InsertAll([], BOTH, rows)| <= |InsertAll([], HASH_ONLY, rows)|
    ensures |InsertAll([], BOTH, rows)| == |InsertAll([], HASH_ONLY, rows)| ==> UniqueOn(rows, TILE_ONLY)
    decreases |rows|
  {
    if rows != [] {
      var n := |rows| - 1;
      var front, last := rows[..n], rows[n];
      assert rows == front + [last];
      LockstepRebuild(front);
      InsertAllOfConcat([], BOTH, front, [last]);
      InsertAllOfConcat([], HASH_ONLY, front, [last]);
      RebuildIds(front, BOTH);
      RebuildIds(front, HASH_ONLY);
      var b, h := InsertAll([], BOTH, front), InsertAll([], HASH_ONLY, front);
      assert InsertAll(b, BOTH, [last]) == InsertOrIgnore(b, BOTH, last);
      assert InsertAll(h, HASH_ONLY, [last]) == InsertOrIgnore(h, HASH_ONLY, last);
      if |InsertOrIgnore(b, BOTH, last)| == |InsertOrIgnore(h, HASH_ONLY, last)| {
        assert UniqueOn(front, TILE_ONLY);
        FirstMeansNew(front, last);
      }
    }
  }

  /** Compacting in place and rebuilding through both indexes give the same
      rows exactly when no legacy (tile, entry) key is repeated. */
  lemma InPlaceMatchesScratch(rows: seq<Row>)
    ensures InsertAll([], HASH_ONLY, rows) == InsertAll([], BOTH, rows) <==> UniqueOn(rows, TILE_ONLY)
  {
    LockstepRebuild(rows);
    if UniqueOn(rows, TILE_ONLY) {
      RebuildKeepsFirsts(rows, HASH_ONLY);
      RebuildKeepsFirsts(rows, BOTH);
      assert forall i: nat | i < |rows| && rows[i].id.ByTile? :: IsFirst(rows, i);
      AtPositionsAgree(rows, KeptPositions(rows, HASH_ONLY), KeptPositions(rows, BOTH));
    }
  }

  lemma SealIsDistinct(rows: seq<Row>)
    ensures InsertAll([], BOTH, rows) == Distinct(rows)
    ensures UniqueOn(Distinct(rows), BOTH)
  {
    RebuildIsDistinct([], rows);
    assert [] + rows == rows;
    DistinctIsUnique({}, rows);
  }

  // ---- the set that never misses --------------------------------------------

  /** With a complete set and a duplicate-free start, the append lands no
      duplicate at all: the raw heap is already the sealed month. */
  lemma CompleteSetNeedsNoCompaction(t: seq<Row>, rows: seq<Row>)
    requires UniqueOn(t, BOTH) && UniqueOn(rows, BOTH)
    ensures InsertAll(t, TILE_ONLY, NewRows(Hashes(t), rows)) == Distinct(t + rows)
  {
    UniqueIsDistinct(t);
    NewAgainstComplete(t, Hashes(t), rows);
    RebuildIsDistinct(t, NewRows(Hashes(t), rows));
    PrefilterIsLossless(t, Hashes(t), rows);
  }

  lemma {:induction false} NewAgainstComplete(t: seq<Row>, seen: set<Bytes>, rows: seq<Row>)
    requires UniqueOn(rows, BOTH)
    requires forall h :: h in Hashes(t) && h !in seen ==> ByHash(h) !in Ids(rows)
    ensures InsertAll(t, TILE_ONLY, NewRows(seen, rows)) == InsertAll(t, BOTH, NewRows(seen, rows))
    decreases |rows|
  {
    if rows != [] {
      var r, rest := rows[0], rows[1..];
      assert rows == [r] + rest;
      assert Ids(rest) <= Ids(rows);
      assert r.id !in Ids(rest);
      if r.id.ByHash? && r.id.hash in seen {
        NewAgainstComplete(t, seen, rest);
      } else {
        assert r.id in Ids(rows);
        assert forall h :: ByHash(h) in Ids(t) ==> h in Hashes(t);
        var t' := InsertOrIgnore(t, BOTH, r);
        assert t' == InsertOrIgnore(t, TILE_ONLY, r);
        forall h | h in Hashes(t') && h !in seen ensures ByHash(h) !in Ids(rest) {
          assert ByHash(h) in Ids(t');
          if ByHash(h) in Ids(t) {
            assert h in Hashes(t);
          }
        }
        NewAgainstComplete(t', seen, rest);
      }
    }
  }

  // ---- counting commits ---------------------------------------------------------

  /** How many steps of `b` it takes to get through `n`. */
  function Steps(n: int, b: int): (k: nat)
    requires b > 0
    ensures n <= 0 <==> k == 0
    decreases n
  {
    if n <= 0 then 0 else 1 + Steps(n - b, b)
  }

  lemma {:induction false} StepsAtMost(n: nat, b: int)
    requires b > 0
    ensures Steps(n, b) <= n
    decreases n
  {
    if n > 0 && n - b > 0 {
      StepsAtMost(n - b, b);
    }
  }

  lemma OneStep(n: int, b: int)
    requires b > 0 && n > 0
    ensures Steps(n, b) == 1 + Steps(n - b, b)
    ensures n <= b ==> Steps(n, b) == 1
  {
  }

  function Scanned(scan: seq<Bytes>, k: nat): (hs: set<Bytes>)
    requires k <= |scan|
  {
    set h | h in scan[..k]
  }

  lemma SeedNext(scan: seq<Bytes>, lo: nat, hi: nat)
    requires lo <= hi <= |scan|
    ensures Scanned(scan, lo) + (set h | h in scan[lo..hi]) == Scanned(scan, hi)
  {
    assert scan[..hi] == scan[..lo] + scan[lo..hi];
  }

  /** One window brings the end one window nearer. */
  lemma OneWindow(start: int, hi: int, b: int)
    requires b > 0 && start <= hi
    ensures Steps(hi - start + 1, b) == 1 + Steps(hi - (start + b) + 1, b)
  {
  }

  /** The rowids from the first active row to the last, gaps included. */
  function Span(active: seq<Active>): (n: int) {
    if active == [] then 0 else active[|active| - 1].rowid - active[0].rowid + 1
  }

  const QUERY_INDEXES := 4

  /** The append drops the hash index and the query indexes. */
  const DROPS := 1 + QUERY_INDEXES

  function AppendCommits(seen: set<Bytes>, active: seq<Active>, batchRows: int): (n: nat)
    requires batchRows > 0
  {
    if NewRows(seen, Rows(active)) == [] then 0 else 5 + Steps(Span(active), batchRows)
  }

  /** The set an attempt pre-filters with: what it found, or the seed if that was empty. */
  function SeenBy(seen: set<Bytes>, scan: seq<Bytes>): (known: set<Bytes>) {
    if seen == {} then set h | h in scan else seen
  }

  function PrepareCommits(seen: set<Bytes>, idx: Indexes, scan: seq<Bytes>, seedBatch: int): (n: nat)
    requires seedBatch > 0
  {
    (if seen == {} then Steps(|scan|, seedBatch) else 0) + if idx.hash then 1 else 0
  }

  /** What one flush attempt needs to get through: seeding, migration, append and record. */
  function FlushCommits(seen: set<Bytes>, idx: Indexes, active: seq<Active>, scan: seq<Bytes>,
                        seedBatch: int, batchRows: int): (n: nat)
    requires seedBatch > 0 && batchRows > 0
  {
    PrepareCommits(seen, idx, scan, seedBatch) + AppendCommits(SeenBy(seen, scan), active, batchRows) + 1
  }

  /** Enough for any attempt on a month of at most `size` rows. */
  function EnoughToFlush(size: nat, active: seq<Active>): (n: int) {
    size + 1 + 5 + Span(active) + 1
  }

  lemma SpanCovers(active: seq<Active>)
    requires InRowidOrder(active)
    ensures Span(active) >= 0
  {
  }

  lemma FlushIsBounded(seen: set<Bytes>, idx: Indexes, active: seq<Active>, scan: seq<Bytes>,
                       seedBatch: int, batchRows: int, size: nat)
    requires seedBatch > 0 && batchRows > 0 && InRowidOrder(active) && |scan| <= size
    ensures FlushCommits(seen, idx, active, scan, seedBatch, batchRows) <= EnoughToFlush(size, active)
  {
    SpanCovers(active);
    StepsAtMost(|scan|, seedBatch);
    StepsAtMost(Span(active), batchRows);
  }

  // ---- the append loop --------------------------------------------------------

  /** The window after the first `done` rows is the next slice of the pool. */
  lemma NextWindow(active: seq<Active>, start: int, end: int, done: nat, batch: seq<Row>)
    requires InRowidOrder(active) && SplitAt(active, start, done) && start <= end
    requires batch == Window(active, start, end)
    ensures SplitAt(active, end + 1, done + |batch|)
    ensures done + |batch| <= |active| && batch == Rows(active)[done..done + |batch|]
  {
    var next := FindSplit(active, end + 1, done);
    WindowIsSlice(active, start, end, done, next);
  }

  /** Where the append loop stands: `start` is the next rowid, `left` the commits it has left. */
  ghost predicate Windowing(active: seq<Active>, batchRows: int, commits: nat, start: int, done: nat, left: nat)
    requires batchRows > 0 && active != []
  {
    && SplitAt(active, start, done)
    && left + Steps(Span(active), batchRows) == commits + Steps(active[|active| - 1].rowid - start + 1, batchRows)
  }

  lemma WindowingNext(active: seq<Active>, batchRows: int, commits: nat, start: int, done: nat, left: nat,
                      batch: seq<Row>)
    requires batchRows > 0 && active != [] && InRowidOrder(active) && left > 0
    requires start <= active[|active| - 1].rowid && batch == Window(active, start, start + batchRows - 1)
    requires Windowing(active, batchRows, commits, start, done, left)
    ensures Windowing(active, batchRows, commits, start + batchRows, done + |batch|, left - 1)
    ensures done + |batch| <= |active| && batch == Rows(active)[done..done + |batch|]
  {
    OneWindow(start, active[|active| - 1].rowid, batchRows);
    NextWindow(active, start, start + batchRows - 1, done, batch);
  }

  lemma WindowingEnd(active: seq<Active>, batchRows: int, commits: nat, start: int, done: nat, left: nat)
    requires batchRows > 0 && active != [] && InRowidOrder(active)
    requires Windowing(active, batchRows, commits, start, done, left)
    ensures start > active[|active| - 1].rowid ==>
              done == |active| && left == commits - Steps(Span(active), batchRows)
    ensures start <= active[|active| - 1].rowid && left == 0 ==> commits < Steps(Span(active), batchRows)
    ensures done <= |active|
  {
  }

  lemma WindowingStart(active: seq<Active>, batchRows: int, commits: nat)
    requires batchRows > 0 && active != [] && InRowidOrder(active)
    ensures Windowing(active, batchRows, commits, active[0].rowid, 0, commits)
  {
  }

  ghost predicate HeapStep(heapOf: nat -> seq<Row>, k: nat, n: nat, idx: Indexes, seen: set<Bytes>, all: seq<Row>) {
    k <= n <= |all| ==> heapOf(n) == InsertAll(heapOf(k), idx, NewRows(seen, all[k..n]))
  }

  /** `heapOf(k)` is the heap once the first `k` active rows have been covered. */
  ghost predicate Heaps(heapOf: nat -> seq<Row>, idx: Indexes, seen: set<Bytes>, all: seq<Row>) {
    forall k: nat, n: nat :: HeapStep(heapOf, k, n, idx, seen, all)
  }

  ghost function HeapFn(table: seq<Row>, idx: Indexes, seen: set<Bytes>, all: seq<Row>): (heapOf: nat -> seq<Row>) {
    (k: nat) => if k <= |all| then InsertAll(table, idx, NewRows(seen, all[..k])) else []
  }

  lemma HeapFnHeaps(table: seq<Row>, idx: Indexes, seen: set<Bytes>, all: seq<Row>)
    ensures Heaps(HeapFn(table, idx, seen, all), idx, seen, all)
    ensures HeapFn(table, idx, seen, all)(0) == table
  {
    assert all[..0] == [];
    forall k: nat, n: nat ensures HeapStep(HeapFn(table, idx, seen, all), k, n, idx, seen, all) {
      if k <= n <= |all| {
        AppendNextRows(table, idx, seen, all, k, n);
      }
    }
  }

  lemma HeapNext(heapOf: nat -> seq<Row>, idx: Indexes, seen: set<Bytes>, all: seq<Row>, done: nat, batch: seq<Row>)
    requires Heaps(heapOf, idx, seen, all)
    requires done + |batch| <= |all| && batch == all[done..done + |batch|]
    ensures InsertAll(heapOf(done), idx, NewRows(seen, batch)) == heapOf(done + |batch|)
  {
    assert HeapStep(heapOf, done, done + |batch|, idx, seen, all);
  }

  /** One commit per `batchRows` rowids, starting at the first. `done` counts the
      active rows the committed windows covered; a crash keeps whole windows. */
  method AppendWindows(table: seq<Row>, idx: Indexes, seen: set<Bytes>, active: seq<Active>, batchRows: int,
                       commits: nat)
    returns (ok: bool, left: nat, done: nat, heap: seq<Row>)
    requires batchRows > 0 && InRowidOrder(active) && active != []
    ensures ok <==> commits >= Steps(Span(active), batchRows)
    ensures left == if ok then commits - Steps(Span(active), batchRows) else 0
    ensures done <= |active| && (ok ==> done == |active|)
    ensures heap == InsertAll(table, idx, NewRows(seen, Rows(active)[..done]))
  {
    ghost var heapOf := HeapFn(table, idx, seen, Rows(active));
    HeapFnHeaps(table, idx, seen, Rows(active));
    ok, left, done, heap := WindowLoop(table, idx, seen, active, batchRows, commits, heapOf);
  }

  method WindowLoop(table: seq<Row>, idx: Indexes, seen: set<Bytes>, active: seq<Active>, batchRows: int,
                    commits: nat, ghost heapOf: nat -> seq<Row>)
    returns (ok: bool, left: nat, done: nat, heap: seq<Row>)
    requires batchRows > 0 && InRowidOrder(active) && active != []
    requires Heaps(heapOf, idx, seen, Rows(active)) && heapOf(0) == table
    ensures ok <==> commits >= Steps(Span(active), batchRows)
    ensures left == if ok then commits - Steps(Span(active), batchRows) else 0
    ensures done <= |active| && (ok ==> done == |active|)
    ensures heap == heapOf(done)
  {
    left, ok, done, heap := commits, true, 0, table;
    var hi := active[|active| - 1].rowid;
    var start := active[0].rowid;
    WindowingStart(active, batchRows, commits);
    while start <= hi
      invariant ok && Windowing(active, batchRows, commits, start, done, left)
      invariant heap == heapOf(done)
      decreases hi - start
    {
      if left == 0 {
        WindowingEnd(active, batchRows, commits, start, done, left);
        ok := false;
        return;
      }
      var batch := Window(active, start, start + batchRows - 1);
      WindowingNext(active, batchRows, commits, start, done, left, batch);
      HeapNext(heapOf, idx, seen, Rows(active), done, batch);
      heap := InsertAll(heap, idx, NewRows(seen, batch));
      done, left, start := done + |batch|, left - 1, start + batchRows;
    }
    WindowingEnd(active, batchRows, commits, start, done, left);
  }

  // ---- the commits of a seal -------------------------------------------------

  /** What compaction leaves: the first row of every hash, and every legacy row. */
  function Compacted(rows: seq<Row>): (out: seq<Row>) {
    InsertAll([], HASH_ONLY, rows)
  }

  /** The DELETE is the second statement that commits, after the helper index. */
  const DELETE_COMMIT := 2

  /** Commits until the unique hash index is back: one, or with duplicates the helper, the DELETE, the drop
      of the helper and the index. */
  function IndexCommits(rows: seq<Row>): (n: nat) {
    if Compacted(rows) == rows then 1 else 4
  }

  /** Whether the helper index is there afterwards. A compaction cut off between the DELETE and
      the DROP leaves it, and with no duplicate left no later seal in place removes it. */
  predicate HelperAfter(rows: seq<Row>, before: bool, commits: nat) {
    if Compacted(rows) == rows || commits == 0 then before else commits <= 2
  }

  /** Then the four query indexes; a scratch rebuild shows in one rename. */
  function SealCommits(scratch: bool, rows: seq<Row>): (n: nat) {
    if scratch then 1 else if Compacted(rows) == rows then 5 else 8
  }

  lemma CompactedFacts(rows: seq<Row>, live: set<nat>, idx: Indexes)
    requires UniqueOn(rows, idx) && live == KeptPositions(rows, HASH_ONLY)
    ensures AtPositions(rows, live) == Compacted(rows)
    ensures UniqueOn(Compacted(rows), idx) && UniqueOn(Compacted(rows), HASH_ONLY)
    ensures Ids(Compacted(rows)) == Ids(rows) && Hashes(rows) <= Hashes(Compacted(rows))
    ensures live == KeptPositions(rows, NEITHER) <==> Compacted(rows) == rows
  {
    RebuildKeepsFirsts(rows, HASH_ONLY);
    InsertAllKeepsUnique([], HASH_ONLY, rows);
    RebuildIds(rows, HASH_ONLY);
    HashesFollowIds(rows, Compacted(rows));
    SubsequenceKeepsUnique(rows, live, idx);
    if live == KeptPositions(rows, NEITHER) {
      AtAllPositions(rows, live);
    } else {
      DroppedPosition(rows, live);
    }
  }

  /** Leaving a position out makes the result shorter. */
  lemma DroppedPosition(rows: seq<Row>, live: set<nat>)
    requires live == KeptPositions(rows, HASH_ONLY) && live != KeptPositions(rows, NEITHER)
    ensures AtPositions(rows, live) != rows
  {
    assert live <= KeptPositions(rows, NEITHER);
    var i :| i in KeptPositions(rows, NEITHER) && i !in live;
    ShorterWithout(rows, live, i);
  }

  lemma {:induction false} ShorterWithout(rows: seq<Row>, live: set<nat>, i: nat)
    ensures |AtPositions(rows, live)| <= |rows|
    ensures i < |rows| && i !in live ==> |AtPositions(rows, live)| < |rows|
  {
    if rows != [] {
      ShorterWithout(rows[..|rows| - 1], live, i);
    }
  }

  // ---- the month as the flush changes it -------------------------------------

  class Month {
    var rows: seq<Row>
    var indexes: Indexes
    var helper: bool   // the temporary index of an unfinished compaction
    var seen: set<Bytes>

    /** Present indexes hold, and the SSD set never runs ahead of the archive. */
    ghost predicate Valid()
      reads this
    {
      UniqueOn(rows, indexes) && seen <= Hashes(rows)
    }

    /** A month taken over as it stands; its set may have missed any of the hashes. */
    constructor (rows: seq<Row>, indexes: Indexes, helper: bool, seen: set<Bytes>)
      requires UniqueOn(rows, indexes) && seen <= Hashes(rows)
      ensures Valid() && this.rows == rows && this.indexes == indexes && this.helper == helper && this.seen == seen
    {
      this.rows, this.indexes, this.helper, this.seen := rows, indexes, helper, seen;
    }

    /** One commit of the seeding: the hashes of a stretch of the scan. */
    method AddSeeds(batch: seq<Bytes>, ghost scan: seq<Bytes>, ghost lo: nat, ghost hi: nat, ghost seen0: set<Bytes>)
      requires Valid() && lo <= hi <= |scan| && batch == scan[lo..hi]
      requires forall h :: h in scan ==> h in Hashes(rows)
      requires seen == seen0 + Scanned(scan, lo)
      modifies this`seen
      ensures Valid()
      ensures seen == seen0 + Scanned(scan, hi)
    {
      SeedNext(scan, lo, hi);
      seen := seen + set h | h in batch;
    }

    /** Seeds the set from what the page scan emitted, one commit per full batch. */
    method PopulateFromArchive(scan: seq<Bytes>, batchSize: nat, commits: nat)
      returns (ok: bool, left: nat, done: nat)
      requires Valid() && batchSize > 0
      requires forall h :: h in scan ==> h in Hashes(rows)
      modifies this`seen
      ensures Valid()
      ensures done <= |scan| && seen == old(seen) + set h | h in scan[..done]
      ensures ok ==> done == |scan|
      ensures ok <==> commits >= Steps(|scan|, batchSize)
      ensures left == if ok then commits - Steps(|scan|, batchSize) else 0
    {
      left, done := commits, 0;
      var batch: seq<Bytes> := [];
      assert Scanned(scan, 0) == {};
      ghost var total := Steps(|scan|, batchSize);
      ghost var togo := total;
      for i := 0 to |scan|
        invariant done <= i && batch == scan[done..i]
        invariant Valid() && seen == old(seen) + Scanned(scan, done)
        invariant |batch| < batchSize
        invariant togo == Steps(|scan| - done, batchSize) && left + total == commits + togo
      {
        assert scan[done..i + 1] == scan[done..i] + [scan[i]];
        batch := batch + [scan[i]];
        if |batch| >= batchSize {
          OneStep(|scan| - done, batchSize);
          if left == 0 {
            ok := false;
            return;
          }
          AddSeeds(batch, scan, done, i + 1, old(seen));
          batch, done, left, togo := [], i + 1, left - 1, togo - 1;
          assert scan[done..done] == [];
        }
      }
      ok := true;
      if batch != [] {
        OneStep(|scan| - done, batchSize);
        if left == 0 {
          ok := false;
          return;
        }
        AddSeeds(batch, scan, done, |scan|, old(seen));
        done, left := |scan|, left - 1;
      }
    }

    /** Rebuilds the month as a heap with the tile index only and renames it into place. */
    method MigrateToAppendOnly(commits: nat) returns (ok: bool, left: nat)
      requires Valid()
      modifies this`rows, this`indexes, this`helper
      ensures Valid()
      ensures ok == (commits > 0) && left == (if ok then commits - 1 else 0)
      ensures ok ==> rows == InsertAll([], TILE_ONLY, old(rows)) && indexes == TILE_ONLY && !helper
      ensures !ok ==> rows == old(rows) && indexes == old(indexes) && helper == old(helper)
      ensures |rows| <= |old(rows)|
      ensures Distinct(rows) == Distinct(old(rows)) && Ids(rows) == Ids(old(rows))
    {
      ok, left := commits > 0, if commits > 0 then commits - 1 else 0;
      if ok {
        RebuildIds(rows, TILE_ONLY);
        InsertAllKeepsUnique([], TILE_ONLY, rows);
        HashesFollowIds(rows, InsertAll([], TILE_ONLY, rows));
        InsertAllGrows([], TILE_ONLY, rows);
        rows, indexes, helper := InsertAll([], TILE_ONLY, rows), TILE_ONLY, false;
      }
    }

    /** Appends the rows the set does not know, after dropping the hash index and
        the query indexes.
        `done` counts the active rows the committed windows covered. With nothing
        new the month is left untouched, indexes included. */
    method AppendDedupedNewRows(active: seq<Active>, batchRows: int, commits: nat)
      returns (ok: bool, left: nat, done: nat)
      requires Valid() && batchRows > 0 && InRowidOrder(active)
      modifies this`rows, this`indexes
      ensures Valid()
      ensures done <= |active| && (ok ==> done == |active|)
      ensures rows == InsertAll(old(rows), Indexes(false, old(indexes).tile), NewRows(seen, Rows(active)[..done]))
      ensures ok <==> commits >= AppendCommits(seen, active, batchRows)
      ensures left == if ok then commits - AppendCommits(seen, active, batchRows) else 0
      ensures NewRows(seen, Rows(active)) == [] ==> ok && indexes == old(indexes)
      ensures indexes == if NewRows(seen, Rows(active)) == [] || commits == 0 then old(indexes)
                         else Indexes(false, old(indexes).tile)
    {
      assert Rows(active)[..|active|] == Rows(active);
      if NewRows(seen, Rows(active)) == [] {
        return true, commits, |active|;
      }
      assert Rows(active)[..0] == [];
      if commits == 0 {
        return false, 0, 0;
      }
      indexes := Indexes(false, indexes.tile);
      if commits < DROPS {
        return false, 0, 0;
      }
      var heap;
      ok, left, done, heap := AppendWindows(rows, indexes, seen, active, batchRows, commits - DROPS);
      AppendKeepsValid(rows, indexes, seen, Rows(active)[..done]);
      rows := heap;
    }

    /** Remembers every hash of a month whose rows are all in the archive. */
    method RecordSeen(active: seq<Active>, commits: nat) returns (ok: bool)
      requires Valid()
      requires Hashes(Rows(active)) <= Hashes(rows)
      modifies this`seen
      ensures Valid()
      ensures ok == (commits > 0)
      ensures seen == if ok then old(seen) + Hashes(Rows(active)) else old(seen)
    {
      ok := commits > 0;
      if ok {
        seen := seen + Hashes(Rows(active));
      }
    }

    /** Seeds a lost set and migrates an indexed month. */
    method PrepareMonth(scan: seq<Bytes>, seedBatch: nat, commits: nat) returns (ok: bool, left: nat)
      requires Valid() && seedBatch > 0
      requires forall h :: h in scan ==> h in Hashes(rows)
      modifies this
      ensures Valid()
      ensures Distinct(rows) == Distinct(old(rows)) && Ids(rows) == Ids(old(rows)) && |rows| <= |old(rows)|
      ensures old(seen) <= seen && (old(indexes).tile ==> indexes.tile)
      ensures ok ==> seen == SeenBy(old(seen), scan) && !indexes.hash
      ensures ok <==> commits >= old(PrepareCommits(seen, indexes, scan, seedBatch))
      ensures left == if ok then commits - old(PrepareCommits(seen, indexes, scan, seedBatch)) else 0
    {
      ok, left := true, commits;
      if seen == {} {
        var n;
        ok, left, n := PopulateFromArchive(scan, seedBatch, left);
        if !ok {
          return;
        }
        assert scan[..n] == scan;
      }
      if indexes.hash {
        ok, left := MigrateToAppendOnly(left);
      }
    }

    /** Appends a prepared month's rows, then records them. */
    method AppendAndRecord(active: seq<Active>, batchRows: int, commits: nat) returns (ok: bool, done: nat)
      requires Valid() && batchRows > 0 && InRowidOrder(active) && !indexes.hash
      modifies this
      ensures Valid()
      ensures done <= |active| && (ok ==> done == |active|)
      ensures Distinct(rows) == Distinct(old(rows) + Rows(active)[..done])
      ensures Ids(rows) == Ids(old(rows)) + Ids(Rows(active)[..done])
      ensures |rows| <= |old(rows)| + |active|
      ensures ok <==> commits >= old(AppendCommits(seen, active, batchRows)) + 1
      ensures old(seen) <= seen && (ok ==> Hashes(Rows(active)) <= seen)
      ensures old(indexes).tile ==> indexes.tile
    {
      ghost var heap := rows;
      var left;
      ok, left, done := AppendDedupedNewRows(active, batchRows, commits);
      AppendMeansConcat(heap, Indexes(false, indexes.tile), seen, Rows(active)[..done]);
      AppendGrows(heap, Indexes(false, indexes.tile), seen, Rows(active), done);
      if !ok {
        return;
      }
      assert Rows(active)[..done] == Rows(active);
      HashesFollowIds(Rows(active), rows);
      ok := RecordSeen(active, left);
    }

    /** One flush attempt: seed a lost set, migrate an indexed month, append, then record.
        Cut off anywhere, the archive means the old month followed by the first `done`
        active rows, and the set still knows only archived hashes. It gets through exactly
        when it survives long enough for all four. */
    method FlushMonthDeduped(active: seq<Active>, scan: seq<Bytes>, seedBatch: nat, batchRows: int, commits: nat)
      returns (ok: bool, done: nat)
      requires Valid() && seedBatch > 0 && batchRows > 0 && InRowidOrder(active)
      requires forall h :: h in scan ==> h in Hashes(rows)
      modifies this
      ensures Valid()
      ensures done <= |active| && (ok ==> done == |active|)
      ensures Distinct(rows) == Distinct(old(rows) + Rows(active)[..done])
      ensures Ids(rows) == Ids(old(rows)) + Ids(Rows(active)[..done])
      ensures ok <==> commits >= old(FlushCommits(seen, indexes, active, scan, seedBatch, batchRows))
      ensures |rows| <= |old(rows)| + |active|
      ensures old(seen) <= seen
      ensures ok ==> Hashes(Rows(active)) <= seen
      ensures old(indexes).tile ==> indexes.tile
    {
      done := 0;
      assert old(rows) + Rows(active)[..0] == old(rows);
      assert Ids(Rows(active)[..0]) == {};
      var left;
      ok, left := PrepareMonth(scan, seedBatch, commits);
      if !ok {
        return;
      }
      ghost var heap := rows;
      ok, done := AppendAndRecord(active, batchRows, left);
      DistinctCongruence(heap, old(rows), Rows(active)[..done]);
    }

    /** Rebuilds the unique hash index. If duplicates stop it, they are compacted first,
        keeping the lowest rowid: a helper index, the DELETE, dropping the helper and the
        index again, each a commit of its own. */
    method RebuildUniqueCertHash(order: seq<nat>, commits: nat) returns (ok: bool, left: nat)
      requires Valid()
      requires forall i: nat :: i < |rows| ==> i in order
      requires forall i :: i in order ==> i < |rows|
      modifies this`rows, this`indexes, this`helper
      ensures Valid()
      ensures ok <==> commits >= IndexCommits(old(rows))
      ensures left == if ok then commits - IndexCommits(old(rows)) else 0
      ensures helper == HelperAfter(old(rows), old(helper), commits)
      ensures rows == if commits < 2 then old(rows) else Compacted(old(rows))
      ensures indexes == if ok then Indexes(true, old(indexes).tile) else old(indexes)
    {
      var live := DeleteLowerTwins(rows, order);
      CompactedFacts(rows, live, indexes);
      if live == KeptPositions(rows, NEITHER) {
        // no row has a twin: the unique index builds at the first try
        ok, left := commits >= 1, if commits >= 1 then commits - 1 else 0;
      } else {
        if commits >= 1 {
          helper := true;
        }
        if commits >= DELETE_COMMIT {
          rows := AtPositions(rows, live);
        }
        if commits >= DELETE_COMMIT + 1 {
          helper := false;
        }
        ok := commits >= DELETE_COMMIT + 2;
        left := if ok then commits - (DELETE_COMMIT + 2) else 0;
      }
      if ok {
        JoinUnique(rows, indexes);
        indexes := Indexes(true, indexes.tile);
      }
    }

    /** Makes the month query-ready. Through a scratch file every row is re-inserted behind
        both indexes and one rename puts it in place; in place the hash duplicates go, the
        unique index comes back and the query indexes follow, statement by statement. */
    method SealMonth(scratch: bool, order: seq<nat>, commits: nat) returns (ok: bool)
      requires Valid()
      requires forall i: nat :: i < |rows| ==> i in order
      requires forall i :: i in order ==> i < |rows|
      modifies this`rows, this`indexes, this`helper
      ensures Valid()
      ensures ok <==> commits >= SealCommits(scratch, old(rows))
      ensures Distinct(rows) == Distinct(old(rows)) && Ids(rows) == Ids(old(rows))
      ensures ok && (scratch || old(indexes).tile) ==> rows == Distinct(old(rows))
      ensures ok ==> indexes.hash && indexes.tile == (scratch || old(indexes).tile)
      ensures scratch && !ok ==> rows == old(rows) && indexes == old(indexes) && helper == old(helper)
      ensures scratch && ok ==> !helper
      ensures !scratch ==> helper == HelperAfter(old(rows), old(helper), commits)
      ensures !scratch ==> rows == if commits < 2 then old(rows) else Compacted(old(rows))
      ensures !scratch ==> indexes == if commits < IndexCommits(old(rows)) then old(indexes)
                                      else Indexes(true, old(indexes).tile)
    {
      SealIsDistinct(rows);
      if scratch {
        ok := commits >= 1;
        if ok {
          RebuildIds(rows, BOTH);
          HashesFollowIds(rows, InsertAll([], BOTH, rows));
          rows, indexes, helper := InsertAll([], BOTH, rows), BOTH, false;
        }
      } else {
        InPlaceMatchesScratch(rows);
        RebuildIds(rows, HASH_ONLY);
        var left;
        ok, left := RebuildUniqueCertHash(order, commits);
        // the query indexes, one statement each
        ok := ok && left >= QUERY_INDEXES;
      }
    }
  }

  /** One more committed stretch extends what the append has done by exactly its rows. */
  lemma AppendNextRows(t: seq<Row>, idx: Indexes, seen: set<Bytes>, all: seq<Row>, done: nat, next: nat)
    requires done <= next <= |all|
    ensures InsertAll(InsertAll(t, idx, NewRows(seen, all[..done])), idx, NewRows(seen, all[done..next]))
         == InsertAll(t, idx, NewRows(seen, all[..next]))
  {
    assert all[..next] == all[..done] + all[done..next];
    NewRowsOfConcat(seen, all[..done], all[done..next]);
    InsertAllOfConcat(t, idx, NewRows(seen, all[..done]), NewRows(seen, all[done..next]));
  }

  lemma {:induction false} InsertAllGrows(t: seq<Row>, idx: Indexes, rows: seq<Row>)
    ensures |InsertAll(t, idx, rows)| <= |t| + |rows|
    decreases |rows|
  {
    if rows != [] {
      InsertAllGrows(InsertOrIgnore(t, idx, rows[0]), idx, rows[1..]);
    }
  }

  lemma {:induction false} NewRowsFewer(seen: set<Bytes>, rows: seq<Row>)
    ensures |NewRows(seen, rows)| <= |rows|
  {
    if rows != [] {
      NewRowsFewer(seen, rows[1..]);
    }
  }

  lemma AppendGrows(t: seq<Row>, idx: Indexes, seen: set<Bytes>, rows: seq<Row>, done: nat)
    requires done <= |rows|
    ensures |InsertAll(t, idx, NewRows(seen, rows[..done]))| <= |t| + |rows|
  {
    InsertAllGrows(t, idx, NewRows(seen, rows[..done]));
    NewRowsFewer(seen, rows[..done]);
  }

  lemma AppendKeepsValid(t: seq<Row>, idx: Indexes, seen: set<Bytes>, rows: seq<Row>)
    requires UniqueOn(t, idx) && seen <= Hashes(t)
    ensures UniqueOn(InsertAll(t, idx, NewRows(seen, rows)), idx)
    ensures seen <= Hashes(InsertAll(t, idx, NewRows(seen, rows)))
  {
    InsertAllKeepsUnique(t, idx, NewRows(seen, rows));
    AppendMeansConcat(t, idx, seen, rows);
  }

  lemma {:induction false} AtAllPositions(rows: seq<Row>, keep: set<nat>)
    requires forall i: nat :: i < |rows| ==> i in keep
    ensures AtPositions(rows, keep) == rows
  {
    if rows != [] {
      AtAllPositions(rows[..|rows| - 1], keep);
    }
  }

  lemma JoinUnique(rows: seq<Row>, idx: Indexes)
    requires UniqueOn(rows, idx) && UniqueOn(rows, HASH_ONLY)
    ensures UniqueOn(rows, Indexes(true, idx.tile))
  {
  }

  lemma {:induction false} SubsequenceKeepsUnique(rows: seq<Row>, keep: set<nat>, idx: Indexes)
    requires UniqueOn(rows, idx)
    ensures UniqueOn(AtPositions(rows, keep), idx)
    ensures Ids(AtPositions(rows, keep)) <= Ids(rows)
  {
    if rows != [] {
      var n := |rows| - 1;
      var front, last := rows[..n], rows[n];
      UniqueFront(rows, idx);
      SubsequenceKeepsUnique(front, keep, idx);
      if n in keep {
        UniqueSnoc(AtPositions(front, keep), last, idx);
        IdsOfConcat(AtPositions(front, keep), [last]);
      }
    }
  }

  lemma UniqueFront(rows: seq<Row>, idx: Indexes)
    requires rows != [] && UniqueOn(rows, idx)
    ensures var front, last := rows[..|rows| - 1], rows[|rows| - 1];
            && UniqueOn(front, idx)
            && Ids(rows) == Ids(front) + {last.id}
            && (Guards(idx, last.id) ==> last.id !in Ids(front))
  {
    var front, last := rows[..|rows| - 1], rows[|rows| - 1];
    assert rows == front + [last];
    IdsOfConcat(front, [last]);
  }

  lemma UniqueSnoc(rows: seq<Row>, last: Row, idx: Indexes)
    requires UniqueOn(rows, idx) && (Guards(idx, last.id) ==> last.id !in Ids(rows))
    ensures UniqueOn(rows + [last], idx)
  {
    assert forall i | 0 <= i < |rows| :: rows[i] in rows;
  }

  // ---- whole drains -----------------------------------------------------------

  function PoolRows(pools: seq<seq<Active>>): (rows: seq<Row>) {
    if pools == [] then []
    else PoolRows(pools[..|pools| - 1]) + Rows(pools[|pools| - 1])
  }

  /** Two cut-off attempts at the same pool mean the longer one. */
  lemma RetryMeansLonger(a: seq<Row>, b: seq<Row>, j: nat, k: nat)
    requires j <= |b| && k <= |b|
    ensures Distinct(a + b[..j] + b[..k]) == Distinct(a + b[..if j < k then k else j])
  {
    if j < k {
      assert b[..k][..j] == b[..j];
      DistinctRetry(a, b[..k], j);
    } else {
      assert b[..j] == b[..k] + b[k..j];
      IdsOfConcat(b[..k], b[k..j]);
      IdsOfConcat(a, b[..j]);
      DistinctAbsorbs(a + b[..j], b[..k]);
    }
  }

  /** A scan emits at most one hash for each row of the table. */
  ghost predicate OneHashARow(scan: seq<Row> -> seq<Bytes>) {
    forall t: seq<Row> :: |scan(t)| <= |t|
  }

  /** Some try survives long enough on a month of at most `size` rows. */
  predicate LongEnough(tries: seq<nat>, size: nat, pool: seq<Active>) {
    exists i :: 0 <= i < |tries| && tries[i] >= EnoughToFlush(size, pool)
  }

  /** The most rows that `n` attempts at a pool can add: each adds the pool's rows at most once. */
  function Added(n: nat, pool: seq<Active>): (k: nat) {
    if n == 0 then 0 else |pool| + Added(n - 1, pool)
  }

  lemma AttemptFits(seen: set<Bytes>, idx: Indexes, pool: seq<Active>, scan: seq<Row> -> seq<Bytes>, rows: seq<Row>,
                    seedBatch: int, batchRows: int, size: nat)
    requires seedBatch > 0 && batchRows > 0 && InRowidOrder(pool) && |rows| <= size
    ensures OneHashARow(scan) ==>
              FlushCommits(seen, idx, pool, scan(rows), seedBatch, batchRows) <= EnoughToFlush(size, pool)
  {
    if OneHashARow(scan) {
      FlushIsBounded(seen, idx, pool, scan(rows), seedBatch, batchRows, size);
    }
  }

  /** One attempt on a month of at most `size` rows. */
  method TryFlush(m: Month, pool: seq<Active>, scan: seq<Row> -> seq<Bytes>, seedBatch: nat, batchRows: int,
                  commits: nat, ghost size: nat)
    returns (ok: bool, covered: nat)
    requires m.Valid() && seedBatch > 0 && batchRows > 0 && InRowidOrder(pool) && |m.rows| <= size
    requires forall t: seq<Row>, h :: h in scan(t) ==> h in Hashes(t)
    modifies m
    ensures m.Valid() && (old(m.indexes).tile ==> m.indexes.tile)
    ensures covered <= |pool| && (ok ==> covered == |pool|)
    ensures Distinct(m.rows) == Distinct(old(m.rows) + Rows(pool)[..covered])
    ensures |m.rows| <= |old(m.rows)| + |pool|
    ensures OneHashARow(scan) && commits >= EnoughToFlush(size, pool) ==> ok
  {
    AttemptFits(m.seen, m.indexes, pool, scan, m.rows, seedBatch, batchRows, size);
    ok, covered := m.FlushMonthDeduped(pool, scan(m.rows), seedBatch, batchRows, commits);
  }

  /** What an attempt that covered `covered` rows adds to attempts that covered `done`. */
  lemma AttemptMeans(start: seq<Row>, before: seq<Row>, after: seq<Row>, rows: seq<Row>, done: nat, covered: nat)
    requires done <= |rows| && covered <= |rows|
    requires Distinct(before) == Distinct(start + rows[..done])
    requires Distinct(after) == Distinct(before + rows[..covered])
    ensures Distinct(after) == Distinct(start + rows[..if done < covered then covered else done])
  {
    DistinctCongruence(before, start + rows[..done], rows[..covered]);
    RetryMeansLonger(start, rows, done, covered);
  }

  /** Tries one pool again and again, each attempt surviving the given number of commits,
      until one attempt completes or the tries run out. */
  method FlushWithRetries(m: Month, pool: seq<Active>, scan: seq<Row> -> seq<Bytes>, seedBatch: nat, batchRows: int,
                          tries: seq<nat>)
    returns (ok: bool, done: nat)
    requires m.Valid() && seedBatch > 0 && batchRows > 0 && InRowidOrder(pool)
    requires forall t: seq<Row>, h :: h in scan(t) ==> h in Hashes(t)
    modifies m
    ensures m.Valid() && (old(m.indexes).tile ==> m.indexes.tile)
    ensures done <= |pool| && (ok ==> done == |pool|)
    ensures Distinct(m.rows) == Distinct(old(m.rows) + Rows(pool)[..done])
    ensures |m.rows| <= |old(m.rows)| + Added(|tries|, pool)
    ensures OneHashARow(scan) && LongEnough(tries, |old(m.rows)| + Added(|tries|, pool), pool) ==> ok
  {
    ok, done := false, 0;
    assert old(m.rows) + Rows(pool)[..0] == old(m.rows);
    ghost var size, room := |old(m.rows)| + Added(|tries|, pool), Added(|tries|, pool);
    for i := 0 to |tries|
      invariant m.Valid() && (old(m.indexes).tile ==> m.indexes.tile)
      invariant !ok && done <= |pool|
      invariant Distinct(m.rows) == Distinct(old(m.rows) + Rows(pool)[..done])
      invariant room == Added(|tries| - i, pool) && |m.rows| + room <= size
      invariant OneHashARow(scan) ==> forall j :: 0 <= j < i ==> tries[j] < EnoughToFlush(size, pool)
    {
      ghost var before := m.rows;
      var covered;
      ok, covered := TryFlush(m, pool, scan, seedBatch, batchRows, tries[i], size);
      AttemptMeans(old(m.rows), before, m.rows, Rows(pool), done, covered);
      done := if done < covered then covered else done;
      if ok {
        return;
      }
      room := room - |pool|;
    }
  }

  /** Exactly when repeating a finished append leaves the heap alone: the set
      already knew every hash of the pool. A hash it missed lands once more. */
  lemma {:induction false} RepeatIsNoOp(t: seq<Row>, seen: set<Bytes>, rows: seq<Row>)
    requires Ids(rows) <= Ids(t)
    ensures |InsertAll(t, TILE_ONLY, NewRows(seen, rows))| >= |t|
    ensures InsertAll(t, TILE_ONLY, NewRows(seen, rows)) == t <==>
            forall i | 0 <= i < |rows| && rows[i].id.ByHash? :: rows[i].id.hash in seen
    decreases |rows|
  {
    if rows != [] {
      var r, rest := rows[0], rows[1..];
      assert rows == [r] + rest;
      assert Ids(rows) == {r.id} + Ids(rest);
      if r.id.ByHash? && r.id.hash in seen {
        RepeatIsNoOp(t, seen, rest);
      } else {
        RepeatIsNoOp(InsertOrIgnore(t, TILE_ONLY, r), seen, rest);
      }
    }
  }

  /** One order in which a statement may visit the rows. */
  function Ascending(n: nat): (order: seq<nat>)
    ensures forall i: nat :: i < n ==> i in order
    ensures forall i :: i in order ==> i < n
  {
    if n == 0 then [] else Ascending(n - 1) + [n - 1]
  }

  /** Seals again and again, each attempt surviving the given number of commits. */
  method SealWithRetries(m: Month, scratch: bool, tries: seq<nat>) returns (ok: bool)
    requires m.Valid()
    modifies m
    ensures m.Valid()
    ensures Distinct(m.rows) == Distinct(old(m.rows))
    ensures ok && (scratch || old(m.indexes).tile) ==> m.rows == Distinct(old(m.rows)) && m.indexes == BOTH
    ensures (exists n :: n in tries && n >= 8) ==> ok
  {
    ok := false;
    for i := 0 to |tries|
      invariant m.Valid() && !ok && (old(m.indexes).tile ==> m.indexes.tile)
      invariant Distinct(m.rows) == Distinct(old(m.rows))
      invariant forall j :: 0 <= j < i ==> tries[j] < 8
    {
      ok := m.SealMonth(scratch, Ascending(|m.rows|), tries[i]);
      if ok {
        return;
      }
    }
  }

  /** The most rows the month can have after the first `k` pools and all their attempts. */
  function Largest(size: nat, pools: seq<seq<Active>>, tries: seq<seq<nat>>, k: nat): (n: nat)
    requires k <= |pools| == |tries|
  {
    if k == 0 then size else Largest(size, pools, tries, k - 1) + Added(|tries[k - 1]|, pools[k - 1])
  }

  /** Every pool has one try that survives long enough, whatever the tries before it left. */
  predicate AllLongEnough(size: nat, pools: seq<seq<Active>>, tries: seq<seq<nat>>)
    requires |pools| == |tries|
  {
    forall k :: 0 <= k < |pools| ==> LongEnough(tries[k], Largest(size, pools, tries, k + 1), pools[k])
  }

  lemma PoolFits(size: nat, pools: seq<seq<Active>>, tries: seq<seq<nat>>, k: nat, now: nat)
    requires |pools| == |tries| && k < |pools| && now <= Largest(size, pools, tries, k)
    ensures now + Added(|tries[k]|, pools[k]) <= Largest(size, pools, tries, k + 1)
    ensures AllLongEnough(size, pools, tries) ==> LongEnough(tries[k], now + Added(|tries[k]|, pools[k]), pools[k])
  {
    if AllLongEnough(size, pools, tries) {
      var i :| 0 <= i < |tries[k]| && tries[k][i] >= EnoughToFlush(Largest(size, pools, tries, k + 1), pools[k]);
      assert tries[k][i] >= EnoughToFlush(now + Added(|tries[k]|, pools[k]), pools[k]);
    }
  }

  /** Flushes the pools in turn, each through any crashes and retries. */
  method DrainPools(m: Month, pools: seq<seq<Active>>, scan: seq<Row> -> seq<Bytes>, seedBatch: nat, batchRows: int,
                    tries: seq<seq<nat>>)
    returns (ok: bool)
    requires m.Valid() && seedBatch > 0 && batchRows > 0
    requires |tries| == |pools| && forall i :: 0 <= i < |pools| ==> InRowidOrder(pools[i])
    requires forall t: seq<Row>, h :: h in scan(t) ==> h in Hashes(t)
    modifies m
    ensures m.Valid() && (old(m.indexes).tile ==> m.indexes.tile)
    ensures ok ==> Distinct(m.rows) == Distinct(old(m.rows) + PoolRows(pools))
    ensures OneHashARow(scan) && AllLongEnough(|old(m.rows)|, pools, tries) ==> ok
  {
    ghost var start := m.rows;
    assert start + PoolRows(pools[..0]) == start;
    for i := 0 to |pools|
      invariant m.Valid() && (old(m.indexes).tile ==> m.indexes.tile)
      invariant Distinct(m.rows) == Distinct(start + PoolRows(pools[..i]))
      invariant |m.rows| <= Largest(|start|, pools, tries, i)
    {
      ghost var before := m.rows;
      PoolFits(|start|, pools, tries, i, |m.rows|);
      var done;
      ok, done := FlushWithRetries(m, pools[i], scan, seedBatch, batchRows, tries[i]);
      if !ok {
        return;
      }
      PoolsSnoc(before, start, pools, i, done);
    }
    assert pools[..|pools|] == pools;
    ok := true;
  }

  lemma PoolsSnoc(before: seq<Row>, start: seq<Row>, pools: seq<seq<Active>>, i: nat, done: nat)
    requires i < |pools| && done == |pools[i]|
    requires Distinct(before) == Distinct(start + PoolRows(pools[..i]))
    ensures Distinct(before + Rows(pools[i])[..done]) == Distinct(start + PoolRows(pools[..i + 1]))
  {
    var rows := Rows(pools[i]);
    assert rows[..done] == rows;
    DistinctCongruence(before, start + PoolRows(pools[..i]), rows);
    assert pools[..i + 1][..i] == pools[..i];
    assert start + PoolRows(pools[..i]) + rows == start + PoolRows(pools[..i + 1]);
  }

  /** Flushes the pools in turn, through any crashes and retries, and seals, again through any
      cut-off attempts. If every pool and one seal got through, the sealed month is the full
      rebuild: the first occurrence of every identity in the old month followed by the pools
      in order. They do get through as soon as each pool has one try, and the seal one, that
      survives long enough. */
  method DrainAndSeal(m: Month, pools: seq<seq<Active>>, scan: seq<Row> -> seq<Bytes>, seedBatch: nat, batchRows: int,
                      tries: seq<seq<nat>>, scratch: bool, sealTries: seq<nat>)
    returns (ok: bool)
    requires m.Valid() && seedBatch > 0 && batchRows > 0
    requires |tries| == |pools| && forall i :: 0 <= i < |pools| ==> InRowidOrder(pools[i])
    requires forall t: seq<Row>, h :: h in scan(t) ==> h in Hashes(t)
    modifies m
    ensures m.Valid()
    ensures ok && (scratch || old(m.indexes).tile) ==> m.rows == Distinct(old(m.rows) + PoolRows(pools))
    ensures ok && (scratch || old(m.indexes).tile) ==> m.rows == InsertAll([], BOTH, old(m.rows) + PoolRows(pools))
    ensures OneHashARow(scan) && AllLongEnough(|old(m.rows)|, pools, tries)
         && (exists n :: n in sealTries && n >= 8)
         ==> ok
  {
    ok := DrainPools(m, pools, scan, seedBatch, batchRows, tries);
    if ok {
      SealIsDistinct(old(m.rows) + PoolRows(pools));
      ok := SealWithRetries(m, scratch, sealTries);
    }
  }
}
