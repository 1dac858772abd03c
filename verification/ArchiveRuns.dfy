/** Every run of an archive month: pools stage rows, a flush works through its
    durable steps, and a crash or error may cut it off between any two of them.

    The state carries two history variables. `staged` holds every identity ever
    accepted by a pool; `journal` is the initial archive followed by the source
    rows each committed step accounted for.
  */
module ArchiveRuns {
  import opened Octets
  import opened SubjectRows
  import opened ArchiveMonth

  /** Where the flush of a pool stands. */
  datatype Phase =
    | Idle
    | Seeding(pool: nat)
    | Seeded(pool: nat)
    | Appending(pool: nat, done: nat)
    | Appended(pool: nat)
    | Recorded(pool: nat)
    | Copied(pool: nat)

  datatype State = State(
    present: bool,
    rows: seq<Row>,
    indexes: Indexes,
    seen: set<Bytes>,
    active: map<nat, seq<Row>>,
    phase: Phase,
    staged: set<Identity>,
    journal: seq<Row>)

  datatype Step =
    | StageRow(pool: nat, subject: Subject)
    | BeginFlush(pool: nat)
    | CopyNewMonth(pool: nat)
    | SeedBatch(hashes: set<Bytes>)
    | SeedDone
    | Migrate
    | SkipMigrate
    | AppendBatch(count: nat)
    | NothingNew
    | AppendDone
    | Record
    | DropActive
    | Interrupt
    | LoseSet(kept: set<Bytes>)
    | MigrateOffline
    | SealScratch
    | SealCompact
    | SealIndex

  function ActiveIds(active: map<nat, seq<Row>>): (ids: set<Identity>) {
    set p, r | p in active && r in active[p] :: r.id
  }

  function PoolOf(s: State, p: nat): (rows: seq<Row>) {
    if p in s.active then s.active[p] else []
  }

  predicate Enabled(s: State, step: Step) {
    match step
    case StageRow(p, _) => s.phase.Idle? || s.phase.pool != p   // a pool under flush takes no inserts
    case BeginFlush(p) => s.phase.Idle? && s.present && p in s.active
    case CopyNewMonth(p) => s.phase.Idle? && !s.present && p in s.active
    case SeedBatch(hs) => (s.phase.Seeding? || s.phase.Copied?) && hs <= Hashes(s.rows)
    case SeedDone => s.phase.Seeding?
    case Migrate => s.phase.Seeded? && s.indexes.hash
    case SkipMigrate => s.phase.Seeded? && !s.indexes.hash
    case AppendBatch(n) => s.phase.Appending? && s.phase.done + n <= |PoolOf(s, s.phase.pool)|
    case NothingNew =>
      s.phase.Appending? && s.phase.done == 0 && NewRows(s.seen, PoolOf(s, s.phase.pool)) == []
    case AppendDone => s.phase.Appending? && s.phase.done == |PoolOf(s, s.phase.pool)|
    case Record => s.phase.Appended?
    case DropActive => s.phase.Recorded? || s.phase.Copied?
    case Interrupt => !s.phase.Idle?
    case LoseSet(kept) => s.phase.Idle? && kept <= s.seen
    case MigrateOffline => s.phase.Idle? && s.indexes.hash
    case SealScratch => s.phase.Idle? && s.present
    case SealCompact => s.phase.Idle? && s.present
    case SealIndex => s.phase.Idle? && s.present && s.rows == InsertAll([], HASH_ONLY, s.rows)
  }

  function Apply(s: State, step: Step): (s': State)
    requires Enabled(s, step)
  {
    match step
    case StageRow(p, x) =>
      var r := Stage(x);
      s.(active := s.active[p := InsertOrIgnore(PoolOf(s, p), BOTH, r)], staged := s.staged + {r.id})
    case BeginFlush(p) => s.(phase := if s.seen == {} then Seeding(p) else Seeded(p))
    case CopyNewMonth(p) =>
      s.(present := true, rows := s.active[p], indexes := BOTH, journal := s.journal + s.active[p], phase := Copied(p))
    case SeedBatch(hs) => s.(seen := s.seen + hs)
    case SeedDone => s.(phase := Seeded(s.phase.pool))
    case Migrate =>
      s.(rows := InsertAll([], TILE_ONLY, s.rows), indexes := TILE_ONLY, phase := Appending(s.phase.pool, 0))
    case SkipMigrate => s.(phase := Appending(s.phase.pool, 0))
    case AppendBatch(n) =>
      var idx := Indexes(false, s.indexes.tile);
      var next := s.phase.done + n;
      var batch := PoolOf(s, s.phase.pool)[s.phase.done..next];
      s.(rows := InsertAll(s.rows, idx, NewRows(s.seen, batch)),
         indexes := idx,
         journal := s.journal + batch,
         phase := Appending(s.phase.pool, next))
    case NothingNew =>
      s.(journal := s.journal + PoolOf(s, s.phase.pool), phase := Appended(s.phase.pool))
    case AppendDone => s.(phase := Appended(s.phase.pool))
    case Record =>
      s.(seen := s.seen + Hashes(PoolOf(s, s.phase.pool)), phase := Recorded(s.phase.pool))
    case DropActive => s.(active := s.active - {s.phase.pool}, phase := Idle)
    case Interrupt => s.(phase := Idle)
    case LoseSet(kept) => s.(seen := kept)
    case MigrateOffline => s.(rows := InsertAll([], TILE_ONLY, s.rows), indexes := TILE_ONLY)
    case SealScratch => s.(rows := InsertAll([], BOTH, s.rows), indexes := BOTH)
    case SealCompact => s.(rows := InsertAll([], HASH_ONLY, s.rows))
    case SealIndex => s.(indexes := Indexes(true, s.indexes.tile))
  }

  /** Any month found on disk, with any leftover pools and any set that knows only archived hashes. */
  ghost predicate Init(s: State) {
    && s.phase.Idle?
    && UniqueOn(s.rows, s.indexes)
    && s.seen <= Hashes(s.rows)
    && (!s.present ==> s.rows == [])
    && (forall p :: p in s.active ==> UniqueOn(s.active[p], BOTH))
    && s.staged == ActiveIds(s.active)
    && s.journal == s.rows
  }

  predicate Legal(s: State, steps: seq<Step>)
    decreases |steps|
  {
    steps == [] || (Enabled(s, steps[0]) && Legal(Apply(s, steps[0]), steps[1..]))
  }

  function After(s: State, steps: seq<Step>): (s': State)
    requires Legal(s, steps)
    decreases |steps|
  {
    if steps == [] then s else After(Apply(s, steps[0]), steps[1..])
  }

  // ---- the invariant ----------------------------------------------------------

  /** What each phase has already made durable for its pool. */
  ghost predicate PhaseInv(s: State) {
    match s.phase
    case Idle => true
    case Seeding(p) => p in s.active
    case Seeded(p) => p in s.active
    case Appending(p, done) => p in s.active && done <= |s.active[p]| && Ids(s.active[p][..done]) <= Ids(s.rows)
    case Appended(p) => p in s.active && Ids(s.active[p]) <= Ids(s.rows)
    case Recorded(p) => p in s.active && Ids(s.active[p]) <= Ids(s.rows) && Hashes(s.active[p]) <= s.seen
    case Copied(p) => p in s.active && Ids(s.active[p]) <= Ids(s.rows)
  }

  ghost predicate Inv(s: State) {
    && UniqueOn(s.rows, s.indexes)
    && s.seen <= Hashes(s.rows)
    && (!s.present ==> s.rows == [] && s.phase.Idle?)
    && (forall p :: p in s.active ==> UniqueOn(s.active[p], BOTH))
    && s.staged <= ActiveIds(s.active) + Ids(s.rows)
    && Distinct(s.rows) == Distinct(s.journal)
    && PhaseInv(s)
  }

  /** A change of the archive that keeps every identity it had keeps all that rests on identities. */
  lemma ArchiveGrows(s: State, s': State)
    requires Inv(s) && s'.active == s.active && s'.staged == s.staged && s.seen <= s'.seen
    requires Ids(s.rows) <= Ids(s'.rows)
    ensures s'.staged <= ActiveIds(s'.active) + Ids(s'.rows)
    ensures s.seen <= Hashes(s'.rows)
    ensures s'.phase == s.phase ==> PhaseInv(s')
  {
    HashesFollowIds(s.rows, s'.rows);
  }

  lemma RebuildKeepsInv(s: State, idx: Indexes, s': State)
    requires Inv(s)
    requires s' == s.(rows := InsertAll([], idx, s.rows), indexes := s'.indexes, phase := s'.phase)
    requires s'.phase == s.phase || (s.phase.Seeded? && s'.phase == Appending(s.phase.pool, 0))
    requires UniqueOn(s'.rows, s'.indexes)
    ensures Inv(s')
  {
    RebuildIds(s.rows, idx);
    ArchiveGrows(s, s');
    if s'.phase.Appending? && s.phase.Seeded? {
      assert Ids(s'.active[s'.phase.pool][..0]) == {};
    }
  }

  lemma RebuildUnique(rows: seq<Row>, idx: Indexes)
    ensures UniqueOn(InsertAll([], idx, rows), idx)
  {
    InsertAllKeepsUnique([], idx, rows);
  }

  lemma StageKeepsInv(s: State, p: nat, x: Subject)
    requires Inv(s) && Enabled(s, StageRow(p, x))
    ensures Inv(Apply(s, StageRow(p, x)))
  {
    var s', r := Apply(s, StageRow(p, x)), Stage(x);
    assert PoolOf(s, p) == [] || p in s.active;
    assert UniqueOn(PoolOf(s, p), BOTH);
    InsertOne(PoolOf(s, p), BOTH, r);
    InsertAllKeepsUnique(PoolOf(s, p), BOTH, [r]);
    var pool' := s'.active[p];
    assert Ids(pool') == Ids(PoolOf(s, p)) + {r.id};
    forall id | id in ActiveIds(s.active) + {r.id} ensures id in ActiveIds(s'.active) {
      if id in Ids(pool') {
        var q :| q in pool' && q.id == id;
        assert p in s'.active && q in s'.active[p];
      } else {
        var p0, q :| p0 in s.active && q in s.active[p0] && q.id == id;
        assert p0 == p ==> q in PoolOf(s, p);
        assert p0 in s'.active && q in s'.active[p0];
      }
    }
  }

  lemma AppendFacts(rows: seq<Row>, idx: Indexes, seen: set<Bytes>, journal: seq<Row>, batch: seq<Row>)
    requires UniqueOn(rows, idx) && seen <= Hashes(rows) && Distinct(rows) == Distinct(journal)
    ensures
      var rows' := InsertAll(rows, idx, NewRows(seen, batch));
      && UniqueOn(rows', idx)
      && Ids(rows') == Ids(rows) + Ids(batch)
      && Distinct(rows') == Distinct(journal + batch)
  {
    AppendMeansConcat(rows, idx, seen, batch);
    DistinctCongruence(rows, journal, batch);
    AppendKeepsValid(rows, idx, seen, batch);
  }

  lemma WithoutHashIndex(rows: seq<Row>, idx: Indexes)
    requires UniqueOn(rows, idx)
    ensures UniqueOn(rows, Indexes(false, idx.tile))
  {
  }

  /** The archive took in the next rows of the pool, whatever they left of it. */
  lemma GrownKeepsInv(s: State, rows': seq<Row>, idx: Indexes, n: nat, s': State)
    requires Inv(s) && s.phase.Appending? && s.phase.done + n <= |s.active[s.phase.pool]|
    requires var batch := s.active[s.phase.pool][s.phase.done..s.phase.done + n];
             && s' == s.(rows := rows', indexes := idx, journal := s.journal + batch,
                         phase := Appending(s.phase.pool, s.phase.done + n))
             && UniqueOn(rows', idx)
             && Ids(rows') == Ids(s.rows) + Ids(batch)
             && Distinct(rows') == Distinct(s.journal + batch)
    ensures Inv(s')
  {
    PartArchived(s.active[s.phase.pool], s.phase.done, n, Ids(s.rows), Ids(rows'));
    ArchiveGrows(s, s');
  }

  lemma PartArchived(pool: seq<Row>, done: nat, n: nat, ids: set<Identity>, ids': set<Identity>)
    requires done + n <= |pool| && Ids(pool[..done]) <= ids && ids' == ids + Ids(pool[done..done + n])
    ensures Ids(pool[..done + n]) <= ids'
  {
    assert pool[..done + n] == pool[..done] + pool[done..done + n];
    IdsOfConcat(pool[..done], pool[done..done + n]);
  }

  lemma AppendApplies(s: State, n: nat)
    requires Enabled(s, AppendBatch(n)) && s.phase.pool in s.active
    ensures var idx := Indexes(false, s.indexes.tile);
            var batch := s.active[s.phase.pool][s.phase.done..s.phase.done + n];
            Apply(s, AppendBatch(n))
            == s.(rows := InsertAll(s.rows, idx, NewRows(s.seen, batch)), indexes := idx,
                  journal := s.journal + batch, phase := Appending(s.phase.pool, s.phase.done + n))
  {
  }

  /** What an append batch does to a state, with the new rows named and no more said of them
      than the invariant needs. */
  lemma AppendedRows(s: State, n: nat) returns (rows': seq<Row>, idx: Indexes)
    requires UniqueOn(s.rows, s.indexes) && s.seen <= Hashes(s.rows) && Distinct(s.rows) == Distinct(s.journal)
    requires Enabled(s, AppendBatch(n)) && s.phase.pool in s.active
    ensures var batch := s.active[s.phase.pool][s.phase.done..s.phase.done + n];
            && Apply(s, AppendBatch(n))
               == s.(rows := rows', indexes := idx, journal := s.journal + batch,
                     phase := Appending(s.phase.pool, s.phase.done + n))
            && UniqueOn(rows', idx)
            && Ids(rows') == Ids(s.rows) + Ids(batch)
            && Distinct(rows') == Distinct(s.journal + batch)
  {
    AppendApplies(s, n);
    rows', idx := HeapAfter(s.rows, s.indexes, s.seen, s.journal,
                            s.active[s.phase.pool][s.phase.done..s.phase.done + n]);
  }

  lemma HeapAfter(rows: seq<Row>, indexes: Indexes, seen: set<Bytes>, journal: seq<Row>, batch: seq<Row>)
    returns (rows': seq<Row>, idx: Indexes)
    requires UniqueOn(rows, indexes) && seen <= Hashes(rows) && Distinct(rows) == Distinct(journal)
    ensures idx == Indexes(false, indexes.tile) && rows' == InsertAll(rows, idx, NewRows(seen, batch))
    ensures UniqueOn(rows', idx) && Ids(rows') == Ids(rows) + Ids(batch) && Distinct(rows') == Distinct(journal + batch)
  {
    idx := Indexes(false, indexes.tile);
    WithoutHashIndex(rows, indexes);
    AppendFacts(rows, idx, seen, journal, batch);
    rows' := InsertAll(rows, idx, NewRows(seen, batch));
  }

  lemma AppendKeepsInv(s: State, n: nat)
    requires Inv(s) && Enabled(s, AppendBatch(n))
    ensures Inv(Apply(s, AppendBatch(n)))
  {
    var rows', idx := AppendedRows(s, n);
    GrownKeepsInv(s, rows', idx, n, Apply(s, AppendBatch(n)));
  }

  lemma NothingNewKeepsInv(s: State)
    requires Inv(s) && Enabled(s, NothingNew)
    ensures Inv(Apply(s, NothingNew))
  {
    var pool := PoolOf(s, s.phase.pool);
    AppendMeansConcat(s.rows, BOTH, s.seen, pool);
    IdsOfConcat(s.rows, pool);
    DistinctCongruence(s.rows, s.journal, pool);
  }

  lemma CopyKeepsInv(s: State, p: nat)
    requires Inv(s) && Enabled(s, CopyNewMonth(p))
    ensures Inv(Apply(s, CopyNewMonth(p)))
  {
    DistinctCongruence(s.rows, s.journal, s.active[p]);
    assert s.rows + s.active[p] == s.active[p];
    ArchiveGrows(s, Apply(s, CopyNewMonth(p)));
  }

  lemma DropKeepsInv(s: State)
    requires Inv(s) && Enabled(s, DropActive)
    ensures Inv(Apply(s, DropActive))
  {
    var s' := Apply(s, DropActive);
    forall id | id in s.staged ensures id in ActiveIds(s'.active) + Ids(s'.rows) {
      if id in ActiveIds(s.active) && id !in Ids(s.rows) {
        var p, r :| p in s.active && r in s.active[p] && r.id == id;
        assert p != s.phase.pool;
        assert p in s'.active && r in s'.active[p];
      }
    }
  }

  lemma RecordKeepsInv(s: State)
    requires Inv(s) && Enabled(s, Record)
    ensures Inv(Apply(s, Record))
  {
    HashesFollowIds(PoolOf(s, s.phase.pool), s.rows);
  }

  lemma SealIndexKeepsInv(s: State)
    requires Inv(s) && Enabled(s, SealIndex)
    ensures Inv(Apply(s, SealIndex))
  {
    RebuildUnique(s.rows, HASH_ONLY);
    JoinUnique(s.rows, s.indexes);
  }

  lemma CompactKeepsInv(s: State)
    requires Inv(s) && Enabled(s, SealCompact)
    ensures Inv(Apply(s, SealCompact))
  {
    RebuildKeepsFirsts(s.rows, HASH_ONLY);
    SubsequenceKeepsUnique(s.rows, KeptPositions(s.rows, HASH_ONLY), s.indexes);
    RebuildKeepsInv(s, HASH_ONLY, Apply(s, SealCompact));
  }

  /** Every step a month can take keeps the invariant, an interruption at any point included. */
  lemma StepKeepsInv(s: State, step: Step)
    requires Inv(s) && Enabled(s, step)
    ensures Inv(Apply(s, step))
  {
    match step
    case StageRow(p, r) => StageKeepsInv(s, p, r);
    case CopyNewMonth(p) => CopyKeepsInv(s, p);
    case Migrate =>
      RebuildUnique(s.rows, TILE_ONLY);
      RebuildKeepsInv(s, TILE_ONLY, Apply(s, step));
    case SkipMigrate => assert Ids(s.active[s.phase.pool][..0]) == {};
    case AppendBatch(n) => AppendKeepsInv(s, n);
    case NothingNew => NothingNewKeepsInv(s);
    case AppendDone => assert s.active[s.phase.pool][..s.phase.done] == s.active[s.phase.pool];
    case Record => RecordKeepsInv(s);
    case DropActive => DropKeepsInv(s);
    case MigrateOffline =>
      RebuildUnique(s.rows, TILE_ONLY);
      RebuildKeepsInv(s, TILE_ONLY, Apply(s, step));
    case SealScratch =>
      RebuildUnique(s.rows, BOTH);
      RebuildKeepsInv(s, BOTH, Apply(s, step));
    case SealCompact => CompactKeepsInv(s);
    case SealIndex => SealIndexKeepsInv(s);
    case BeginFlush(_) =>
    case SeedBatch(_) =>
    case SeedDone =>
    case Interrupt =>
    case LoseSet(_) =>
  }

  lemma {:induction false} RunKeepsInv(s: State, steps: seq<Step>)
    requires Inv(s) && Legal(s, steps)
    ensures Inv(After(s, steps))
    decreases |steps|
  {
    if steps != [] {
      StepKeepsInv(s, steps[0]);
      RunKeepsInv(Apply(s, steps[0]), steps[1..]);
    }
  }

  // ---- what every run guarantees ------------------------------------------------

  /** No subject is ever lost: in every reachable state each one handed in during the run has
      its identity in an active pool or in the archive, no archived identity disappears, and
      the SSD set knows only archived hashes. */
  lemma NoRowLost(s: State, steps: seq<Step>)
    requires Init(s) && Legal(s, steps)
    ensures forall i | 0 <= i < |steps| && steps[i].StageRow? ::
              Stage(steps[i].subject).id in ActiveIds(After(s, steps).active) + Ids(After(s, steps).rows)
    ensures ActiveIds(s.active) <= ActiveIds(After(s, steps).active) + Ids(After(s, steps).rows)
    ensures Ids(s.rows) <= Ids(After(s, steps).rows)
    ensures After(s, steps).seen <= Hashes(After(s, steps).rows)
  {
    RunKeepsInv(s, steps);
    StagedGrows(s, steps);
    JournalGrows(s, steps);
    DistinctIds(After(s, steps).rows);
    DistinctIds(After(s, steps).journal);
  }

  /** The history of a run holds every subject it handed in. */
  lemma {:induction false} StagedGrows(s: State, steps: seq<Step>)
    requires Legal(s, steps)
    ensures s.staged <= After(s, steps).staged
    ensures forall i | 0 <= i < |steps| && steps[i].StageRow? :: Stage(steps[i].subject).id in After(s, steps).staged
    decreases |steps|
  {
    if steps != [] {
      StagedGrows(Apply(s, steps[0]), steps[1..]);
      forall i | 0 <= i < |steps| && steps[i].StageRow?
        ensures Stage(steps[i].subject).id in After(s, steps).staged
      {
        if i > 0 {
          assert steps[i] == steps[1..][i - 1];
        }
      }
    }
  }

  lemma {:induction false} JournalGrows(s: State, steps: seq<Step>)
    requires Legal(s, steps)
    ensures s.journal <= After(s, steps).journal
    decreases |steps|
  {
    if steps != [] {
      JournalGrows(Apply(s, steps[0]), steps[1..]);
    }
  }

  // ---- what the rows hold --------------------------------------------------------

  /** A row of a pool, of the archive or of the journal. */
  ghost predicate Holds(s: State, r: Row) {
    r in s.rows || r in s.journal || InPool(s, r)
  }

  ghost predicate InPool(s: State, r: Row) {
    exists p :: p in s.active && r in s.active[p]
  }

  lemma {:induction false} InsertAllMembers(t: seq<Row>, idx: Indexes, rows: seq<Row>, r: Row)
    ensures r in InsertAll(t, idx, rows) ==> r in t || r in rows
    decreases |rows|
  {
    if rows != [] {
      InsertAllMembers(InsertOrIgnore(t, idx, rows[0]), idx, rows[1..], r);
    }
  }

  lemma {:induction false} NewRowsMembers(seen: set<Bytes>, rows: seq<Row>, r: Row)
    ensures r in NewRows(seen, rows) ==> r in rows
  {
    if rows != [] {
      NewRowsMembers(seen, rows[1..], r);
    }
  }

  lemma PoolMembers(s: State, p: nat, r: Row)
    ensures r in PoolOf(s, p) ==> InPool(s, r)
  {
  }

  /** A step brings in no row but that of the subject it stages. */
  lemma StepAddsOnlyStaged(s: State, step: Step, r: Row)
    requires Enabled(s, step) && Inv(s) && Holds(Apply(s, step), r)
    ensures Holds(s, r) || (step.StageRow? && r == Stage(step.subject))
  {
    match step
    case StageRow(p, x) =>
      if InPool(Apply(s, step), r) {
        StagedMembers(s, p, x, r);
      }
    case CopyNewMonth(p) => PoolMembers(s, p, r);
    case Migrate => InsertAllMembers([], TILE_ONLY, s.rows, r);
    case AppendBatch(n) => BatchMembers(s, n, r);
    case NothingNew => PoolMembers(s, s.phase.pool, r);
    case MigrateOffline => InsertAllMembers([], TILE_ONLY, s.rows, r);
    case SealScratch => InsertAllMembers([], BOTH, s.rows, r);
    case SealCompact => InsertAllMembers([], HASH_ONLY, s.rows, r);
    case DropActive =>
    case BeginFlush(_) =>
    case SeedBatch(_) =>
    case SeedDone =>
    case SkipMigrate =>
    case AppendDone =>
    case Record =>
    case SealIndex =>
    case Interrupt =>
    case LoseSet(_) =>
  }

  lemma StagedMembers(s: State, p: nat, x: Subject, r: Row)
    requires Enabled(s, StageRow(p, x)) && InPool(Apply(s, StageRow(p, x)), r)
    ensures InPool(s, r) || r == Stage(x)
  {
    var s' := Apply(s, StageRow(p, x));
    var q :| q in s'.active && r in s'.active[q];
    if q == p {
      PoolMembers(s, p, r);
    } else {
      assert q in s.active && r in s.active[q];
    }
  }

  lemma BatchMembers(s: State, n: nat, r: Row)
    requires Enabled(s, AppendBatch(n)) && Holds(Apply(s, AppendBatch(n)), r)
    ensures Holds(s, r)
  {
    var pool := PoolOf(s, s.phase.pool);
    var batch := pool[s.phase.done..s.phase.done + n];
    InsertAllMembers(s.rows, Indexes(false, s.indexes.tile), NewRows(s.seen, batch), r);
    NewRowsMembers(s.seen, batch, r);
    PoolMembers(s, s.phase.pool, r);
    assert r in batch ==> r in pool;
  }

  /** Every row there ever is, with all its columns, was there at the start or is that of a subject
      handed in during the run. */
  lemma {:induction false} RowsAreHandedIn(s: State, steps: seq<Step>, r: Row)
    requires Inv(s) && Legal(s, steps) && Holds(After(s, steps), r)
    ensures Holds(s, r) || exists i :: 0 <= i < |steps| && steps[i].StageRow? && r == Stage(steps[i].subject)
    decreases |steps|
  {
    if steps != [] {
      var s', rest := Apply(s, steps[0]), steps[1..];
      StepKeepsInv(s, steps[0]);
      RowsAreHandedIn(s', rest, r);
      if Holds(s', r) {
        StepAddsOnlyStaged(s, steps[0], r);
      } else {
        var i :| 0 <= i < |rest| && rest[i].StageRow? && r == Stage(rest[i].subject);
        assert steps[i + 1] == rest[i];
      }
    }
  }

  /** The rows handed to a pool since it was last dropped, after those it had at the start. */
  function Handed(s: State, steps: seq<Step>, p: nat, sofar: seq<Row>): (rows: seq<Row>)
    requires Legal(s, steps)
    decreases |steps|
  {
    if steps == [] then sofar
    else
      var next :=
        if steps[0].StageRow? && steps[0].pool == p then sofar + [Stage(steps[0].subject)]
        else if steps[0].DropActive? && s.phase.pool == p then []
        else sofar;
      Handed(Apply(s, steps[0]), steps[1..], p, next)
  }

  /** A pool holds the first occurrences of what it was handed: a later subject of the same
      identity replaces nothing. */
  lemma {:induction false} PoolIsFirsts(s: State, steps: seq<Step>, p: nat, sofar: seq<Row>)
    requires Inv(s) && Legal(s, steps) && PoolOf(s, p) == Distinct(sofar)
    ensures PoolOf(After(s, steps), p) == Distinct(Handed(s, steps, p, sofar))
    decreases |steps|
  {
    if steps != [] {
      var step, s' := steps[0], Apply(s, steps[0]);
      StepKeepsInv(s, step);
      if step.StageRow? && step.pool == p {
        PoolTakes(s, p, step.subject, sofar);
        PoolIsFirsts(s', steps[1..], p, sofar + [Stage(step.subject)]);
      } else if step.DropActive? && s.phase.pool == p {
        PoolIsFirsts(s', steps[1..], p, []);
      } else {
        PoolIsFirsts(s', steps[1..], p, sofar);
      }
    }
  }

  lemma PoolTakes(s: State, p: nat, x: Subject, sofar: seq<Row>)
    requires Inv(s) && Enabled(s, StageRow(p, x)) && PoolOf(s, p) == Distinct(sofar)
    ensures PoolOf(Apply(s, StageRow(p, x)), p) == Distinct(sofar + [Stage(x)])
  {
    var pool, r := PoolOf(s, p), Stage(x);
    assert UniqueOn(pool, BOTH);
    UniqueIsDistinct(pool);
    RebuildIsDistinct(pool, [r]);
    InsertOne(pool, BOTH, r);
    DistinctCongruence(pool, sofar, [r]);
  }

  // ---- a flush can always finish ---------------------------------------------------

  lemma Chain(s: State, step: Step, steps: seq<Step>)
    requires Enabled(s, step) && Legal(Apply(s, step), steps)
    ensures Legal(s, [step] + steps) && After(s, [step] + steps) == After(Apply(s, step), steps)
  {
    assert ([step] + steps)[1..] == steps;
  }

  lemma FinishAppended(s: State) returns (steps: seq<Step>)
    requires s.phase.Appended? && s.phase.pool in s.active
    ensures Legal(s, steps)
    ensures After(s, steps) == s.(seen := s.seen + Hashes(s.active[s.phase.pool]),
                                  active := s.active - {s.phase.pool}, phase := Idle)
  {
    var recorded := Apply(s, Record);
    Chain(recorded, DropActive, []);
    Chain(s, Record, [DropActive] + []);
    steps := [Record] + ([DropActive] + []);
  }

  /** The rest of the pool in one batch, and what follows it. */
  lemma FinishRest(s: State) returns (steps: seq<Step>)
    requires s.phase.Appending? && s.phase.pool in s.active && s.phase.done <= |s.active[s.phase.pool]|
    ensures Legal(s, steps)
    ensures After(s, steps).phase.Idle? && After(s, steps).active == s.active - {s.phase.pool}
    ensures After(s, steps).journal == s.journal + s.active[s.phase.pool][s.phase.done..]
    ensures After(s, steps).seen == s.seen + Hashes(s.active[s.phase.pool])
  {
    var pool, done := s.active[s.phase.pool], s.phase.done;
    var appended := Apply(s, AppendBatch(|pool| - done));
    assert pool[done..|pool|] == pool[done..];
    var rest := FinishAppended(Apply(appended, AppendDone));
    Chain(appended, AppendDone, rest);
    Chain(s, AppendBatch(|pool| - done), [AppendDone] + rest);
    steps := [AppendBatch(|pool| - done)] + ([AppendDone] + rest);
  }

  lemma FinishAppending(s: State, k: nat) returns (steps: seq<Step>)
    requires s.phase.Appending? && s.phase.done == 0 && s.phase.pool in s.active && k <= |s.active[s.phase.pool]|
    ensures Legal(s, steps)
    ensures After(s, steps).phase.Idle? && After(s, steps).active == s.active - {s.phase.pool}
    ensures After(s, steps).journal == s.journal + s.active[s.phase.pool]
    ensures After(s, steps).seen == s.seen + Hashes(s.active[s.phase.pool])
  {
    var rest := FinishRest(Apply(s, AppendBatch(k)));
    Chain(s, AppendBatch(k), rest);
    steps := [AppendBatch(k)] + rest;
    Halves(s.journal, s.active[s.phase.pool], k);
  }

  lemma Halves(journal: seq<Row>, pool: seq<Row>, k: nat)
    requires k <= |pool|
    ensures journal + pool[0..k] + pool[k..] == journal + pool
  {
  }

  /** From every state in which no flush is under way, a pool's flush can run to its end, whether or
      not it has to seed and migrate and wherever the batch boundary `k` falls: the pool is gone, its
      rows are in the journal in order, and its hashes are in the set. */
  lemma FlushCanFinish(s: State, p: nat, k: nat) returns (steps: seq<Step>)
    requires Inv(s) && s.phase.Idle? && s.present && p in s.active && k <= |s.active[p]|
    ensures Legal(s, steps)
    ensures
      var t := After(s, steps);
      && t.phase.Idle? && t.active == s.active - {p}
      && t.journal == s.journal + s.active[p]
      && Distinct(t.rows) == Distinct(s.rows + s.active[p])
      && Hashes(s.active[p]) <= t.seen
      && (s.seen == {} ==> Hashes(s.rows) <= t.seen)
  {
    var begun := Apply(s, BeginFlush(p));
    if s.seen == {} {
      steps := FinishSeeding(begun, k);
    } else {
      steps := FinishSeeded(begun, k);
    }
    Chain(s, BeginFlush(p), steps);
    steps := [BeginFlush(p)] + steps;
    RunKeepsInv(s, steps);
    DistinctCongruence(s.rows, s.journal, s.active[p]);
  }

  lemma FinishSeeded(s: State, k: nat) returns (steps: seq<Step>)
    requires s.phase.Seeded? && s.phase.pool in s.active && k <= |s.active[s.phase.pool]|
    ensures Legal(s, steps)
    ensures After(s, steps).phase.Idle? && After(s, steps).active == s.active - {s.phase.pool}
    ensures After(s, steps).journal == s.journal + s.active[s.phase.pool]
    ensures After(s, steps).seen == s.seen + Hashes(s.active[s.phase.pool])
  {
    var migrate := if s.indexes.hash then Migrate else SkipMigrate;
    var rest := FinishAppending(Apply(s, migrate), k);
    Chain(s, migrate, rest);
    steps := [migrate] + rest;
  }

  lemma FinishSeeding(s: State, k: nat) returns (steps: seq<Step>)
    requires s.phase.Seeding? && s.phase.pool in s.active && k <= |s.active[s.phase.pool]|
    ensures Legal(s, steps)
    ensures After(s, steps).phase.Idle? && After(s, steps).active == s.active - {s.phase.pool}
    ensures After(s, steps).journal == s.journal + s.active[s.phase.pool]
    ensures After(s, steps).seen == s.seen + Hashes(s.rows) + Hashes(s.active[s.phase.pool])
  {
    var seeded := Apply(s, SeedBatch(Hashes(s.rows)));
    var rest := FinishSeeded(Apply(seeded, SeedDone), k);
    Chain(seeded, SeedDone, rest);
    Chain(s, SeedBatch(Hashes(s.rows)), [SeedDone] + rest);
    steps := [SeedBatch(Hashes(s.rows))] + ([SeedDone] + rest);
  }

  /** Where the set knows every hash of a pool of hashed rows, the flush records it and touches nothing. */
  lemma NothingNewCanFinish(s: State)
    requires s.phase.Appending? && s.phase.done == 0 && s.phase.pool in s.active
    requires forall r | r in s.active[s.phase.pool] :: r.id.ByHash? && r.id.hash in s.seen
    ensures Legal(s, [NothingNew, Record, DropActive])
    ensures
      var t := After(s, [NothingNew, Record, DropActive]);
      && t.phase.Idle? && t.active == s.active - {s.phase.pool}
      && t.rows == s.rows && t.indexes == s.indexes && t.journal == s.journal + s.active[s.phase.pool]
  {
    AllKnown(s.seen, s.active[s.phase.pool]);
    var appended := Apply(s, NothingNew);
    var recorded := Apply(appended, Record);
    Chain(recorded, DropActive, []);
    Chain(appended, Record, [DropActive] + []);
    Chain(s, NothingNew, [Record] + ([DropActive] + []));
    assert [NothingNew] + ([Record] + ([DropActive] + [])) == [NothingNew, Record, DropActive];
  }

  lemma {:induction false} AllKnown(seen: set<Bytes>, rows: seq<Row>)
    requires forall r | r in rows :: r.id.ByHash? && r.id.hash in seen
    ensures NewRows(seen, rows) == []
  {
    if rows != [] {
      AllKnown(seen, rows[1..]);
    }
  }

  /** An idle month can be sealed either way and made append-only: through a scratch file into its
      dedup behind both indexes, in place into the same where the tile index stands, and with the
      hash index gone into what stands for the same month. */
  lemma SealsFromHere(s: State)
    requires Inv(s) && s.phase.Idle? && s.present
    ensures Legal(s, [SealScratch])
    ensures var t := After(s, [SealScratch]); t.rows == Distinct(s.rows) && t.indexes == BOTH
    ensures Legal(s, [SealCompact, SealIndex])
    ensures
      var t := After(s, [SealCompact, SealIndex]);
      && t.indexes == Indexes(true, s.indexes.tile)
      && Distinct(t.rows) == Distinct(s.rows)
      && (s.indexes.tile ==> t.rows == Distinct(s.rows))
    ensures s.indexes.hash ==> Legal(s, [MigrateOffline])
    ensures s.indexes.hash ==>
              var t := After(s, [MigrateOffline]);
              !t.indexes.hash && t.indexes.tile && Distinct(t.rows) == Distinct(s.rows)
  {
    SealIsDistinct(s.rows);
    Chain(s, SealScratch, []);
    assert [SealScratch] + [] == [SealScratch];
    CompactThenIndex(s);
    if s.indexes.hash {
      StepKeepsInv(s, MigrateOffline);
      Chain(s, MigrateOffline, []);
      assert [MigrateOffline] + [] == [MigrateOffline];
    }
  }

  /** Rows that an index has nothing against all go in. */
  lemma {:induction false} NothingIgnored(t: seq<Row>, idx: Indexes, rows: seq<Row>)
    requires UniqueOn(t + rows, idx)
    ensures InsertAll(t, idx, rows) == t + rows
    decreases |rows|
  {
    if rows == [] {
      assert t + rows == t;
    } else {
      TakesNext(t, idx, rows);
      assert t + [rows[0]] + rows[1..] == t + rows;
      NothingIgnored(t + [rows[0]], idx, rows[1..]);
    }
  }

  lemma TakesNext(t: seq<Row>, idx: Indexes, rows: seq<Row>)
    requires rows != [] && UniqueOn(t + rows, idx)
    ensures InsertOrIgnore(t, idx, rows[0]) == t + [rows[0]]
  {
    var all := t + rows;
    forall i | 0 <= i < |t| && Guards(idx, rows[0].id) ensures t[i].id != rows[0].id {
      assert all[i] == t[i] && all[|t|] == rows[0];
    }
  }

  lemma CompactIsStable(rows: seq<Row>)
    ensures InsertAll([], HASH_ONLY, InsertAll([], HASH_ONLY, rows)) == InsertAll([], HASH_ONLY, rows)
  {
    var compacted := InsertAll([], HASH_ONLY, rows);
    InsertAllKeepsUnique([], HASH_ONLY, rows);
    assert [] + compacted == compacted;
    NothingIgnored([], HASH_ONLY, compacted);
  }

  lemma SealSteps(s: State, compacted: seq<Row>)
    requires s.phase.Idle? && s.present
    requires compacted == InsertAll([], HASH_ONLY, s.rows) && InsertAll([], HASH_ONLY, compacted) == compacted
    ensures Legal(s, [SealCompact, SealIndex])
    ensures After(s, [SealCompact, SealIndex]) == s.(rows := compacted, indexes := Indexes(true, s.indexes.tile))
  {
    Chain(Apply(s, SealCompact), SealIndex, []);
    Chain(s, SealCompact, [SealIndex] + []);
    assert [SealCompact] + ([SealIndex] + []) == [SealCompact, SealIndex];
  }

  lemma TileUnique(rows: seq<Row>, idx: Indexes)
    requires UniqueOn(rows, idx) && idx.tile
    ensures UniqueOn(rows, TILE_ONLY)
  {
  }

  lemma CompactThenIndex(s: State)
    requires Inv(s) && s.phase.Idle? && s.present
    ensures Legal(s, [SealCompact, SealIndex])
    ensures
      var t := After(s, [SealCompact, SealIndex]);
      && t.indexes == Indexes(true, s.indexes.tile)
      && Distinct(t.rows) == Distinct(s.rows)
      && (s.indexes.tile ==> t.rows == Distinct(s.rows))
  {
    SealIsDistinct(s.rows);
    InPlaceMatchesScratch(s.rows);
    StepKeepsInv(s, SealCompact);
    CompactIsStable(s.rows);
    SealSteps(s, InsertAll([], HASH_ONLY, s.rows));
    if s.indexes.tile {
      TileUnique(s.rows, s.indexes);
    }
  }

  /** The first flush of a month copies the pool as it is. */
  lemma FirstFlushCanFinish(s: State, p: nat) returns (steps: seq<Step>)
    requires Inv(s) && s.phase.Idle? && !s.present && p in s.active
    ensures Legal(s, steps)
    ensures
      var t := After(s, steps);
      && t.phase.Idle? && t.present && t.active == s.active - {p}
      && t.rows == s.active[p] && t.indexes == BOTH && t.journal == s.journal + s.active[p]
  {
    var copied := Apply(s, CopyNewMonth(p));
    Chain(copied, DropActive, []);
    Chain(s, CopyNewMonth(p), [DropActive] + []);
    steps := [CopyNewMonth(p)] + ([DropActive] + []);
  }

  /** Seal whenever you like: the rebuilt month is the first occurrence of every identity in
      the initial archive followed by the source rows, in the order the steps took them up. */
  lemma SealedRunIsRebuild(s: State, steps: seq<Step>)
    requires Init(s) && Legal(s, steps)
    ensures InsertAll([], BOTH, After(s, steps).rows) == Distinct(After(s, steps).journal)
    ensures s.rows <= After(s, steps).journal
    ensures forall r | r in InsertAll([], BOTH, After(s, steps).rows) ::
              || r in s.rows
              || InPool(s, r)
              || exists i :: 0 <= i < |steps| && steps[i].StageRow? && r == Stage(steps[i].subject)
  {
    RunKeepsInv(s, steps);
    JournalGrows(s, steps);
    SealIsDistinct(After(s, steps).rows);
    forall r | r in InsertAll([], BOTH, After(s, steps).rows)
      ensures Holds(s, r) || exists i :: 0 <= i < |steps| && steps[i].StageRow? && r == Stage(steps[i].subject)
    {
      InsertAllMembers([], BOTH, After(s, steps).rows, r);
      RowsAreHandedIn(s, steps, r);
    }
  }

  const CUT_BEFORE_RECORD := [BeginFlush(0), SkipMigrate, AppendBatch(1), AppendDone, Interrupt]

  /** The retry that the flush comments call a no-op is not one: with a set that is not empty,
      so that no seeding takes place, and that missed the row's hash, a flush cut off after the
      append and before the record puts the row in the raw heap once per attempt. Only modulo
      the seal is the second copy harmless. */
  lemma RetryMayDuplicate(s: State, r: Row)
    requires s.present && s.indexes == TILE_ONLY && s.phase.Idle?
    requires r.id.ByHash? && s.seen != {} && r.id.hash !in s.seen
    requires 0 in s.active && s.active[0] == [r]
    ensures Legal(s, CUT_BEFORE_RECORD)
    ensures After(s, CUT_BEFORE_RECORD) == s.(rows := s.rows + [r], journal := s.journal + [r])
    ensures Legal(After(s, CUT_BEFORE_RECORD), CUT_BEFORE_RECORD)
    ensures After(After(s, CUT_BEFORE_RECORD), CUT_BEFORE_RECORD).rows == s.rows + [r, r]
    ensures Distinct(s.rows + [r, r]) == Distinct(s.rows + [r])
  {
    CutAttempt(s, r);
    CutAttempt(s.(rows := s.rows + [r], journal := s.journal + [r]), r);
    assert s.rows + [r] + [r] == s.rows + [r, r];
    DistinctAbsorbs(s.rows + [r], [r]);
  }

  lemma CutAttempt(s: State, r: Row)
    requires s.present && s.indexes == TILE_ONLY && s.phase.Idle?
    requires r.id.ByHash? && s.seen != {} && r.id.hash !in s.seen
    requires 0 in s.active && s.active[0] == [r]
    ensures Legal(s, CUT_BEFORE_RECORD)
    ensures After(s, CUT_BEFORE_RECORD) == s.(rows := s.rows + [r], journal := s.journal + [r])
  {
    var c := CUT_BEFORE_RECORD;
    var t := s.(rows := s.rows + [r], journal := s.journal + [r]);
    CutAppend(s, r);
    CutTail(t);
    Unroll(s.(phase := Appending(0, 0)), c, 2);
    Unroll(s.(phase := Seeded(0)), c, 1);
    Unroll(s, c, 0);
    assert c[0..] == c;
  }

  lemma CutTail(t: State)
    requires t.phase.Idle? && 0 in t.active && |t.active[0]| == 1
    ensures Legal(t.(phase := Appending(0, 1)), CUT_BEFORE_RECORD[3..])
    ensures After(t.(phase := Appending(0, 1)), CUT_BEFORE_RECORD[3..]) == t
  {
    Unroll(t.(phase := Appended(0)), CUT_BEFORE_RECORD, 4);
    Unroll(t.(phase := Appending(0, 1)), CUT_BEFORE_RECORD, 3);
  }

  lemma CutAppend(s: State, r: Row)
    requires s.indexes == TILE_ONLY && r.id.ByHash? && r.id.hash !in s.seen
    requires 0 in s.active && s.active[0] == [r]
    ensures Enabled(s.(phase := Appending(0, 0)), AppendBatch(1))
    ensures Apply(s.(phase := Appending(0, 0)), AppendBatch(1))
         == s.(rows := s.rows + [r], journal := s.journal + [r], phase := Appending(0, 1))
  {
    assert [r][0..1] == [r];
    assert NewRows(s.seen, [r]) == [r];
    InsertOne(s.rows, TILE_ONLY, r);
  }

  lemma Unroll(s: State, steps: seq<Step>, i: nat)
    requires i < |steps| && Enabled(s, steps[i]) && Legal(Apply(s, steps[i]), steps[i + 1..])
    ensures Legal(s, steps[i..]) && After(s, steps[i..]) == After(Apply(s, steps[i]), steps[i + 1..])
  {
    assert steps[i..][1..] == steps[i + 1..];
  }
}
