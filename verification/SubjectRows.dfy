/** Rows of a subjects table and what the two unique indexes do to an insert.

    A row is identified by its cert_hash or, for legacy rows, by (tile, entry).
    `Distinct` is the reference meaning of a month: the first row of every
    identity, in table order. Everything the archive does to a month is judged
    by what it does to `Distinct`.
  */
module SubjectRows {
  import opened Octets

  datatype Identity = ByHash(hash: Bytes) | ByTile(tile: int, entry: int)

  /** `columns` stands for every column that is not part of the identity. */
  datatype Row = Row(id: Identity, columns: seq<string>)

  /** A subject as a caller hands it in: both key forms are always filled. */
  datatype Subject = Subject(certHash: Bytes, tileIdx: int, entryIdx: int, columns: seq<string>)

  /** Which of the two unique indexes a table carries. */
  datatype Indexes = Indexes(hash: bool, tile: bool)

  const BOTH := Indexes(true, true)
  const NEITHER := Indexes(false, false)

  function Ids(rows: seq<Row>): (ids: set<Identity>) {
    set r | r in rows :: r.id
  }

  function Hashes(rows: seq<Row>): (hs: set<Bytes>) {
    set r | r in rows && r.id.ByHash? :: r.id.hash
  }

  /** The key columns the batch insert binds: a non-empty cert_hash leaves tile and entry NULL. */
  function Stage(s: Subject): (r: Row)
    ensures r.id.ByHash? <==> s.certHash != []
    ensures r.id.ByHash? ==> r.id.hash == s.certHash
    ensures r.id.ByTile? ==> (r.id.tile, r.id.entry) == (s.tileIdx, s.entryIdx)
    ensures r.columns == s.columns
  {
    Row(if |s.certHash| > 0 then ByHash(s.certHash) else ByTile(s.tileIdx, s.entryIdx), s.columns)
  }

  /** Two subjects clash exactly when they carry the same hash, or neither
      carries one and they come from the same tile entry. */
  lemma SameIdentity(a: Subject, b: Subject)
    ensures Stage(a).id == Stage(b).id <==>
            a.certHash == b.certHash && (a.certHash != [] || (a.tileIdx, a.entryIdx) == (b.tileIdx, b.entryIdx))
  {
  }

  // ---- uniqueness -----------------------------------------------------------

  ghost predicate UniqueOn(rows: seq<Row>, idx: Indexes) {
    forall i, j :: 0 <= i < j < |rows| && Guards(idx, rows[j].id) ==> rows[i].id != rows[j].id
  }

  /** Does one of the table's indexes cover this kind of identity? */
  predicate Guards(idx: Indexes, id: Identity) {
    match id
    case ByHash(_) => idx.hash
    case ByTile(_, _) => idx.tile
  }

  // ---- INSERT OR IGNORE -----------------------------------------------------

  function InsertOrIgnore(table: seq<Row>, idx: Indexes, row: Row): (t: seq<Row>)
    ensures t == table || t == table + [row]
    ensures Ids(t) == Ids(table) + {row.id}
  {
    if Guards(idx, row.id) && row.id in Ids(table) then table else table + [row]
  }

  function InsertAll(table: seq<Row>, idx: Indexes, rows: seq<Row>): (t: seq<Row>)
    decreases |rows|
  {
    if rows == [] then table
    else InsertAll(InsertOrIgnore(table, idx, rows[0]), idx, rows[1..])
  }

  // ---- the reference meaning ------------------------------------------------

  /** The rows whose identity is neither in `known` nor earlier in the list. */
  function Fresh(known: set<Identity>, rows: seq<Row>): (out: seq<Row>)
    decreases |rows|
  {
    if rows == [] then []
    else if rows[0].id in known then Fresh(known, rows[1..])
    else [rows[0]] + Fresh(known + {rows[0].id}, rows[1..])
  }

  function Distinct(rows: seq<Row>): (out: seq<Row>) {
    Fresh({}, rows)
  }

  /** What `Distinct` means, said by positions: it keeps exactly the rows that have no earlier twin. */
  predicate IsFirst(rows: seq<Row>, i: nat)
    requires i < |rows|
  {
    forall j :: 0 <= j < i ==> rows[j].id != rows[i].id
  }

  function AtPositions(rows: seq<Row>, keep: set<nat>): (out: seq<Row>) {
    if rows == [] then []
    else
      var n := |rows| - 1;
      AtPositions(rows[..n], keep) + (if n in keep then [rows[n]] else [])
  }

  lemma {:induction false} FreshOfConcat(known: set<Identity>, a: seq<Row>, b: seq<Row>)
    ensures Fresh(known, a + b) == Fresh(known, a) + Fresh(known + Ids(a), b)
    decreases |a|
  {
    if a == [] {
      assert a + b == b;
      assert known + Ids(a) == known;
    } else {
      assert (a + b)[1..] == a[1..] + b;
      var known' := if a[0].id in known then known else known + {a[0].id};
      FreshOfConcat(known', a[1..], b);
      assert a == [a[0]] + a[1..];
      assert known' + Ids(a[1..]) == known + Ids(a);
    }
  }

  lemma {:induction false} FreshIds(known: set<Identity>, rows: seq<Row>)
    ensures Ids(Fresh(known, rows)) == Ids(rows) - known
    decreases |rows|
  {
    if rows != [] {
      assert rows == [rows[0]] + rows[1..];
      if rows[0].id in known {
        FreshIds(known, rows[1..]);
        assert Ids(rows) == {rows[0].id} + Ids(rows[1..]);
      } else {
        FreshIds(known + {rows[0].id}, rows[1..]);
        assert Ids(rows) == {rows[0].id} + Ids(rows[1..]);
        var rest := Fresh(known + {rows[0].id}, rows[1..]);
        assert Ids([rows[0]] + rest) == {rows[0].id} + Ids(rest);
      }
    }
  }

  /** A row is represented by `Distinct` whenever it was ever in the list. */
  lemma DistinctIds(rows: seq<Row>)
    ensures Ids(Distinct(rows)) == Ids(rows)
  {
    FreshIds({}, rows);
  }

  lemma {:induction false} AtPositionsAgree(rows: seq<Row>, k1: set<nat>, k2: set<nat>)
    requires forall i: nat :: i < |rows| ==> (i in k1 <==> i in k2)
    ensures AtPositions(rows, k1) == AtPositions(rows, k2)
  {
    if rows != [] {
      AtPositionsAgree(rows[..|rows| - 1], k1, k2);
    }
  }

  // ---- equivalence of month contents ---------------------------------------

  /** Adding the same rows to two months that mean the same keeps them meaning the same. */
  lemma DistinctCongruence(a: seq<Row>, b: seq<Row>, c: seq<Row>)
    requires Distinct(a) == Distinct(b)
    ensures Ids(a) == Ids(b)
    ensures Distinct(a + c) == Distinct(b + c)
  {
    DistinctIds(a);
    DistinctIds(b);
    FreshOfConcat({}, a, c);
    FreshOfConcat({}, b, c);
    assert {} + Ids(a) == Ids(a);
    assert {} + Ids(b) == Ids(b);
  }

  /** Rows already represented add nothing. */
  lemma {:induction false} FreshOfKnown(known: set<Identity>, rows: seq<Row>)
    requires Ids(rows) <= known
    ensures Fresh(known, rows) == []
  {
    if rows != [] {
      assert rows[0] in rows;
      assert Ids(rows[1..]) <= Ids(rows);
      FreshOfKnown(known, rows[1..]);
    }
  }

  lemma DistinctAbsorbs(a: seq<Row>, b: seq<Row>)
    requires Ids(b) <= Ids(a)
    ensures Distinct(a + b) == Distinct(a)
  {
    FreshOfConcat({}, a, b);
    assert {} + Ids(a) == Ids(a);
    FreshOfKnown(Ids(a), b);
  }

  /** A prefix of a list followed by the whole list again means the list alone. */
  lemma DistinctRetry(a: seq<Row>, b: seq<Row>, k: nat)
    requires k <= |b|
    ensures Distinct(a + b[..k] + b) == Distinct(a + b)
  {
    var pre, post := b[..k], b[k..];
    assert b == pre + post;
    assert a + pre + b == (a + pre + pre) + post;
    assert Ids(pre) <= Ids(a + pre);
    DistinctAbsorbs(a + pre, pre);
    DistinctCongruence(a + pre + pre, a + pre, post);
    assert (a + pre) + post == a + b;
  }

  // ---- INSERT OR IGNORE against the reference --------------------------------

  lemma {:induction false} InsertAllOfConcat(t: seq<Row>, idx: Indexes, a: seq<Row>, b: seq<Row>)
    ensures InsertAll(t, idx, a + b) == InsertAll(InsertAll(t, idx, a), idx, b)
    decreases |a|
  {
    if a == [] {
      assert a + b == b;
    } else {
      assert (a + b)[1..] == a[1..] + b;
      InsertAllOfConcat(InsertOrIgnore(t, idx, a[0]), idx, a[1..], b);
    }
  }

  /** One insert, kept or ignored, means the row was appended. */
  lemma InsertOneMeansAppend(t: seq<Row>, idx: Indexes, r: Row, rest: seq<Row>)
    ensures Distinct(InsertOrIgnore(t, idx, r) + rest) == Distinct(t + ([r] + rest))
  {
    assert t + ([r] + rest) == (t + [r]) + rest;
    if InsertOrIgnore(t, idx, r) == t {
      DistinctAbsorbs(t, [r]);
      DistinctCongruence(t + [r], t, rest);
    }
  }

  /** Whatever indexes are present, OR IGNORE never changes what the month means. */
  lemma {:induction false} InsertAllMeansAppend(t: seq<Row>, idx: Indexes, rows: seq<Row>)
    ensures Distinct(InsertAll(t, idx, rows)) == Distinct(t + rows)
    decreases |rows|
  {
    if rows == [] {
      assert t + rows == t;
    } else {
      assert rows == [rows[0]] + rows[1..];
      InsertAllMeansAppend(InsertOrIgnore(t, idx, rows[0]), idx, rows[1..]);
      InsertOneMeansAppend(t, idx, rows[0], rows[1..]);
    }
  }

  lemma InsertThroughBoth(t: seq<Row>, r: Row)
    requires Distinct(t) == t
    ensures InsertOrIgnore(t, BOTH, r) == Distinct(t + [r])
    ensures Distinct(InsertOrIgnore(t, BOTH, r)) == InsertOrIgnore(t, BOTH, r)
  {
    FreshOfConcat({}, t, [r]);
    assert {} + Ids(t) == Ids(t);
    assert Fresh(Ids(t), [r]) == if r.id in Ids(t) then [] else [r];
    InsertOneMeansAppend(t, BOTH, r, []);
    assert InsertOrIgnore(t, BOTH, r) + [] == InsertOrIgnore(t, BOTH, r);
    assert t + ([r] + []) == t + [r];
  }

  /** Through both indexes a rebuild is exactly the first occurrence of every identity. */
  lemma {:induction false} RebuildIsDistinct(t: seq<Row>, rows: seq<Row>)
    requires Distinct(t) == t
    ensures InsertAll(t, BOTH, rows) == Distinct(t + rows)
    decreases |rows|
  {
    if rows == [] {
      assert t + rows == t;
    } else {
      assert rows == [rows[0]] + rows[1..];
      InsertThroughBoth(t, rows[0]);
      RebuildIsDistinct(InsertOrIgnore(t, BOTH, rows[0]), rows[1..]);
      InsertOneMeansAppend(t, BOTH, rows[0], rows[1..]);
    }
  }

  /** The positions OR IGNORE keeps: every row whose kind no index guards, and the first of each guarded identity. */
  function KeptPositions(rows: seq<Row>, idx: Indexes): (keep: set<nat>) {
    set i: nat | i < |rows| && (Guards(idx, rows[i].id) ==> IsFirst(rows, i))
  }

  lemma FirstMeansNew(rows: seq<Row>, r: Row)
    ensures IsFirst(rows + [r], |rows|) <==> r.id !in Ids(rows)
  {
    if r.id in Ids(rows) {
      var q :| q in rows && q.id == r.id;
      var j :| 0 <= j < |rows| && rows[j] == q;
      assert (rows + [r])[j].id == r.id;
    } else {
      forall j | 0 <= j < |rows| ensures (rows + [r])[j].id != r.id {
        assert rows[j] in rows;
      }
    }
  }

  lemma KeptOfSnoc(rows: seq<Row>, idx: Indexes, last: Row)
    ensures AtPositions(rows + [last], KeptPositions(rows + [last], idx))
         == AtPositions(rows, KeptPositions(rows, idx))
            + (if Guards(idx, last.id) && last.id in Ids(rows) then [] else [last])
  {
    var all, n := rows + [last], |rows|;
    var keep := KeptPositions(all, idx);
    assert all[..n] == rows;
    FirstMeansNew(rows, last);
    forall i: nat | i < n ensures i in keep <==> i in KeptPositions(rows, idx) {
      assert all[i] == rows[i];
      assert IsFirst(all, i) <==> IsFirst(rows, i);
    }
    AtPositionsAgree(rows, keep, KeptPositions(rows, idx));
  }

  /** OR IGNORE from empty, said by positions instead of by a growing table. */
  lemma {:induction false} RebuildKeepsFirsts(rows: seq<Row>, idx: Indexes)
    ensures InsertAll([], idx, rows) == AtPositions(rows, KeptPositions(rows, idx))
    decreases |rows|
  {
    if rows != [] {
      var front, last := rows[..|rows| - 1], rows[|rows| - 1];
      assert rows == front + [last];
      RebuildKeepsFirsts(front, idx);
      RebuildIds(front, idx);
      KeptOfSnoc(front, idx, last);
      InsertAllOfConcat([], idx, front, [last]);
      InsertOne(InsertAll([], idx, front), idx, last);
    }
  }

  lemma InsertOne(t: seq<Row>, idx: Indexes, r: Row)
    ensures InsertAll(t, idx, [r]) == InsertOrIgnore(t, idx, r)
  {
    assert [r][1..] == [];
  }

  lemma RebuildIds(rows: seq<Row>, idx: Indexes)
    ensures Ids(InsertAll([], idx, rows)) == Ids(rows)
    ensures Distinct(InsertAll([], idx, rows)) == Distinct(rows)
  {
    InsertAllMeansAppend([], idx, rows);
    assert [] + rows == rows;
    DistinctIds(rows);
    DistinctIds(InsertAll([], idx, rows));
  }

  lemma DistinctIsFirstOccurrences(rows: seq<Row>)
    ensures Distinct(rows) == AtPositions(rows, set i: nat | i < |rows| && IsFirst(rows, i))
  {
    RebuildIsDistinct([], rows);
    assert [] + rows == rows;
    RebuildKeepsFirsts(rows, BOTH);
    AtPositionsAgree(rows, KeptPositions(rows, BOTH), set i: nat | i < |rows| && IsFirst(rows, i));
  }

  /** A table that satisfies its own indexes still does after OR IGNORE. */
  lemma {:induction false} InsertAllKeepsUnique(t: seq<Row>, idx: Indexes, rows: seq<Row>)
    requires UniqueOn(t, idx)
    ensures UniqueOn(InsertAll(t, idx, rows), idx)
    decreases |rows|
  {
    if rows != [] {
      var t' := InsertOrIgnore(t, idx, rows[0]);
      forall i, j | 0 <= i < j < |t'| && Guards(idx, t'[j].id) ensures t'[i].id != t'[j].id {
        if j == |t| {
          assert t[i] in t;
        }
      }
      InsertAllKeepsUnique(t', idx, rows[1..]);
    }
  }

  lemma {:induction false} DistinctIsUnique(known: set<Identity>, rows: seq<Row>)
    ensures UniqueOn(Fresh(known, rows), BOTH)
    ensures forall r :: r in Fresh(known, rows) ==> r.id !in known
    decreases |rows|
  {
    if rows != [] {
      if rows[0].id in known {
        DistinctIsUnique(known, rows[1..]);
      } else {
        DistinctIsUnique(known + {rows[0].id}, rows[1..]);
        var rest := Fresh(known + {rows[0].id}, rows[1..]);
        forall i, j | 0 <= i < j < |rest| + 1
          ensures ([rows[0]] + rest)[i].id != ([rows[0]] + rest)[j].id
        {
          assert rest[j - 1] in rest;
        }
      }
    }
  }

  /** A month with no twins is already its own first occurrences. */
  lemma {:induction false} UniqueIsDistinct(rows: seq<Row>)
    requires UniqueOn(rows, BOTH)
    ensures Distinct(rows) == rows
    decreases |rows|
  {
    if rows != [] {
      var n := |rows| - 1;
      assert rows == rows[..n] + [rows[n]];
      UniqueIsDistinct(rows[..n]);
      FreshOfConcat({}, rows[..n], [rows[n]]);
      assert rows[n].id !in Ids(rows[..n]);
    }
  }

  // ---- the pre-filter -------------------------------------------------------

  /** The rows the SSD set does not already account for; legacy rows always pass. */
  function NewRows(seen: set<Bytes>, rows: seq<Row>): (out: seq<Row>) {
    if rows == [] then []
    else if rows[0].id.ByHash? && rows[0].id.hash in seen then NewRows(seen, rows[1..])
    else [rows[0]] + NewRows(seen, rows[1..])
  }

  lemma {:induction false} NewRowsOfConcat(seen: set<Bytes>, a: seq<Row>, b: seq<Row>)
    ensures NewRows(seen, a + b) == NewRows(seen, a) + NewRows(seen, b)
    decreases |a|
  {
    if a == [] {
      assert a + b == b;
    } else {
      assert (a + b)[1..] == a[1..] + b;
      NewRowsOfConcat(seen, a[1..], b);
    }
  }

  /** Skipping rows whose hash the archive already holds changes no meaning, so it loses nothing. */
  lemma {:induction false} PrefilterIsLossless(t: seq<Row>, seen: set<Bytes>, rows: seq<Row>)
    requires seen <= Hashes(t)
    ensures Distinct(t + NewRows(seen, rows)) == Distinct(t + rows)
    decreases |rows|
  {
    if rows != [] {
      var r, rest := rows[0], rows[1..];
      assert rows == [r] + rest;
      if r.id.ByHash? && r.id.hash in seen {
        PrefilterIsLossless(t, seen, rest);
        assert InsertOrIgnore(t, BOTH, r) == t;
        InsertOneMeansAppend(t, BOTH, r, rest);
      } else {
        HashesFollowIds(t, t + [r]);
        PrefilterIsLossless(t + [r], seen, rest);
        assert t + rows == (t + [r]) + rest;
        assert t + NewRows(seen, rows) == (t + [r]) + NewRows(seen, rest);
      }
    }
  }

  /** One pre-filtered append, by whatever indexes the heap still has, means appending every row. */
  lemma AppendMeansConcat(t: seq<Row>, idx: Indexes, seen: set<Bytes>, rows: seq<Row>)
    requires seen <= Hashes(t)
    ensures Distinct(InsertAll(t, idx, NewRows(seen, rows))) == Distinct(t + rows)
    ensures Ids(InsertAll(t, idx, NewRows(seen, rows))) == Ids(t) + Ids(rows)
    ensures Hashes(t) <= Hashes(InsertAll(t, idx, NewRows(seen, rows)))
  {
    var t' := InsertAll(t, idx, NewRows(seen, rows));
    InsertAllMeansAppend(t, idx, NewRows(seen, rows));
    PrefilterIsLossless(t, seen, rows);
    DistinctIds(t');
    DistinctIds(t + rows);
    IdsOfConcat(t, rows);
    HashesFollowIds(t, t');
  }

  lemma IdsOfConcat(a: seq<Row>, b: seq<Row>)
    ensures Ids(a + b) == Ids(a) + Ids(b)
  {
    assert forall r :: r in a + b <==> r in a || r in b;
  }

  lemma HashesFollowIds(a: seq<Row>, b: seq<Row>)
    requires Ids(a) <= Ids(b)
    ensures Hashes(a) <= Hashes(b)
  {
    forall h | h in Hashes(a) ensures h in Hashes(b) {
      assert ByHash(h) in Ids(a);
      var r :| r in b && r.id == ByHash(h);
    }
  }
}
