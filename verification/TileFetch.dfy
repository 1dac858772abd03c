/** The tile fetcher's worker pool: a producer feeds tile numbers through a
    bounded channel, any worker takes the next one, fetches it and hands the
    entries that fall in the requested range to the sink as one batch. */
module TileFetch {
  const TILE_WIDTH := 256

  /** The end of the readable range: no later than the last complete tile. */
  function Clamp(end: int, treeSize: nat): (e: int)
    ensures e <= end && e <= treeSize
    ensures treeSize % TILE_WIDTH == 0 && end <= treeSize ==> e == end
  {
    var lastFull := (treeSize / TILE_WIDTH) * TILE_WIDTH;
    if end > lastFull then lastFull else end
  }

  /** The indices of [start, end) that lie in tile t, in order. */
  function Slice(t: nat, start: int, end: int): (batch: seq<int>) {
    var lo := if start > t * TILE_WIDTH then start else t * TILE_WIDTH;
    var hi := if end < (t + 1) * TILE_WIDTH then end else (t + 1) * TILE_WIDTH;
    if lo < hi then seq(hi - lo, i requires 0 <= i < hi - lo => lo + i) else []
  }

  /** Numbers the leaves of a fetched tile and keeps those in range. A tile with all its leaves
      gives the whole slice, a shorter one the slice's beginning. */
  method BuildBatch(t: nat, leaves: nat, start: int, end: int) returns (batch: seq<int>)
    ensures leaves == TILE_WIDTH ==> batch == Slice(t, start, end)
    ensures leaves <= TILE_WIDTH ==> batch <= Slice(t, start, end)
    ensures forall i | 0 <= i < |batch| :: batch[i] == batch[0] + i
    ensures forall x :: x in batch <==> start <= x < end && t * TILE_WIDTH <= x < t * TILE_WIDTH + leaves
  {
    batch := [];
    var base := t * TILE_WIDTH;
    for i := 0 to leaves
      invariant batch == Stretch(base, base + i, start, end)
    {
      var idx := base + i;
      if start <= idx < end {
        batch := batch + [idx];
      }
    }
    StretchFacts(base, base + leaves, start, end);
    StretchIsSlice(t, leaves, start, end);
  }

  /** The indices of [start, end) that lie in [lo, hi), in order. */
  function Stretch(lo: int, hi: int, start: int, end: int): (batch: seq<int>) {
    var a := if start > lo then start else lo;
    var b := if end < hi then end else hi;
    if a < b then seq(b - a, i requires 0 <= i < b - a => a + i) else []
  }

  lemma StretchFacts(lo: int, hi: int, start: int, end: int)
    ensures forall x :: x in Stretch(lo, hi, start, end) <==> start <= x < end && lo <= x < hi
    ensures forall i | 0 <= i < |Stretch(lo, hi, start, end)| ::
              Stretch(lo, hi, start, end)[i] == Stretch(lo, hi, start, end)[0] + i
  {
    var s, a := Stretch(lo, hi, start, end), if start > lo then start else lo;
    forall x | start <= x < end && lo <= x < hi ensures x in s {
      assert s[x - a] == x;
    }
  }

  lemma StretchHolds(lo: int, hi: int, start: int, end: int, x: int)
    ensures multiset(Stretch(lo, hi, start, end))[x] == if start <= x < end && lo <= x < hi then 1 else 0
  {
    var s, a := Stretch(lo, hi, start, end), if start > lo then start else lo;
    StretchFacts(lo, hi, start, end);
    if x in s {
      var k := x - a;
      assert s == s[..k] + [x] + s[k + 1..];
      assert x !in s[..k] && x !in s[k + 1..];
    }
  }

  lemma StretchIsSlice(t: nat, leaves: nat, start: int, end: int)
    ensures leaves == TILE_WIDTH ==>
              Stretch(t * TILE_WIDTH, t * TILE_WIDTH + leaves, start, end) == Slice(t, start, end)
    ensures leaves <= TILE_WIDTH ==>
              Stretch(t * TILE_WIDTH, t * TILE_WIDTH + leaves, start, end) <= Slice(t, start, end)
  {
  }

  // ---- the pool -------------------------------------------------------------------

  /** A fetched tile and how many leaves its body had: the body is read to its end, with no cap. */
  datatype Body = Body(tile: nat, leaves: nat)

  /** `served` lists the bodies whose batch reached the sink, in order of arrival. */
  datatype State = State(
    next: nat,
    channel: seq<nat>,
    busy: multiset<nat>,
    served: seq<Body>,
    skipped: multiset<nat>,
    failed: bool)

  datatype Job = Job(start: int, end: int, first: nat, last: nat, concurrency: nat)

  /** What Fetch sets up for a non-empty clamped range. */
  function Plan(start: nat, end: int, concurrency: nat): (job: Job)
    requires start < end
  {
    Job(start, end, start / TILE_WIDTH, (end - 1) / TILE_WIDTH, concurrency)
  }

  function Init(job: Job): (s: State) {
    State(job.first, [], multiset{}, [], multiset{}, false)
  }

  datatype Step =
    | Send
    | Take
    | Serve(body: Body)       // fetched, and the sink took the batch
    | Fail(tile: nat)         // the fetch or the sink failed
    | Drain(tile: nat)        // dropped, because something has failed

  predicate Enabled(job: Job, s: State, step: Step) {
    match step
    case Send => s.next <= job.last && |s.channel| < job.concurrency
    case Take => s.channel != [] && |s.busy| < job.concurrency
    case Serve(b) => b.tile in s.busy
    case Fail(t) => t in s.busy
    case Drain(t) => t in s.busy && s.failed
  }

  function Apply(job: Job, s: State, step: Step): (s': State)
    requires Enabled(job, s, step)
  {
    match step
    case Send => s.(next := s.next + 1, channel := s.channel + [s.next])
    case Take => s.(channel := s.channel[1..], busy := s.busy + multiset{s.channel[0]})
    case Serve(b) => s.(busy := s.busy - multiset{b.tile}, served := s.served + [b])
    case Fail(t) => s.(busy := s.busy - multiset{t}, skipped := s.skipped + multiset{t}, failed := true)
    case Drain(t) => s.(busy := s.busy - multiset{t}, skipped := s.skipped + multiset{t})
  }

  predicate Legal(job: Job, s: State, steps: seq<Step>)
    decreases |steps|
  {
    steps == [] || (Enabled(job, s, steps[0]) && Legal(job, Apply(job, s, steps[0]), steps[1..]))
  }

  function After(job: Job, s: State, steps: seq<Step>): (s': State)
    requires Legal(job, s, steps)
    decreases |steps|
  {
    if steps == [] then s else After(job, Apply(job, s, steps[0]), steps[1..])
  }

  /** The producer is through, no tile is left anywhere, and nothing failed. */
  predicate Finished(job: Job, s: State) {
    s.next == job.last + 1 && s.channel == [] && s.busy == multiset{} && !s.failed
  }

  // ---- where every tile is ----------------------------------------------------------

  function Tiles(served: seq<Body>): (ts: seq<nat>)
    ensures |ts| == |served|
    ensures forall i :: 0 <= i < |ts| ==> ts[i] == served[i].tile
  {
    seq(|served|, i requires 0 <= i < |served| => served[i].tile)
  }

  function Places(s: State): (tiles: multiset<nat>) {
    multiset(s.channel) + s.busy + multiset(Tiles(s.served)) + s.skipped
  }

  /** Each tile sent so far is in exactly one place. */
  ghost predicate Inv(job: Job, s: State) {
    && job.first <= s.next
    && (forall t: nat :: Places(s)[t] == if job.first <= t < s.next then 1 else 0)
    && (s.skipped != multiset{} ==> s.failed)
    && s.next <= job.last + 1
  }

  lemma HeadTaken(q: seq<nat>)
    requires q != []
    ensures multiset(q) == multiset{q[0]} + multiset(q[1..])
  {
    assert q == [q[0]] + q[1..];
  }

  lemma TileServed(served: seq<Body>, b: Body)
    ensures multiset(Tiles(served + [b])) == multiset(Tiles(served)) + multiset{b.tile}
  {
    assert Tiles(served + [b]) == Tiles(served) + [b.tile];
  }

  /** Steps move tiles between places; only sending adds one. */
  lemma StepMovesTiles(job: Job, s: State, step: Step)
    requires Enabled(job, s, step)
    ensures Places(Apply(job, s, step)) == Places(s) + (if step.Send? then multiset{s.next} else multiset{})
  {
    match step
    case Send =>
    case Take => HeadTaken(s.channel);
    case Serve(b) => TileServed(s.served, b);
    case Fail(t) =>
    case Drain(t) =>
  }

  /** The steps that the tiles not yet done with still need: to be sent, taken and served or given up. */
  function StepsLeft(job: Job, s: State): (n: int) {
    3 * (job.last + 1 - s.next) + 2 * |s.channel| + |s.busy|
  }

  lemma StepIsProgress(job: Job, s: State, step: Step)
    requires Enabled(job, s, step)
    ensures StepsLeft(job, Apply(job, s, step)) == StepsLeft(job, s) - 1
  {
    match step
    case Send =>
    case Take => assert |s.busy + multiset{s.channel[0]}| == |s.busy| + 1;
    case Serve(b) => assert |s.busy - multiset{b.tile}| == |s.busy| - 1;
    case Fail(t) => assert |s.busy - multiset{t}| == |s.busy| - 1;
    case Drain(t) => assert |s.busy - multiset{t}| == |s.busy| - 1;
  }

  /** Under every scheduling and any failures a run is three steps a tile long when it has drained, and
      shorter before: no worker goes round for ever. */
  lemma {:induction false} RunLength(job: Job, s: State, steps: seq<Step>)
    requires Legal(job, s, steps)
    ensures |steps| == StepsLeft(job, s) - StepsLeft(job, After(job, s, steps))
    ensures s == Init(job) && Inv(job, s) ==> |steps| <= 3 * (job.last + 1 - job.first)
    decreases |steps|
  {
    if steps != [] {
      StepIsProgress(job, s, steps[0]);
      RunLength(job, Apply(job, s, steps[0]), steps[1..]);
    }
    if Inv(job, s) {
      RunKeepsInv(job, s, steps);
    }
  }

  lemma StepKeepsInv(job: Job, s: State, step: Step)
    requires Inv(job, s) && Enabled(job, s, step)
    ensures Inv(job, Apply(job, s, step))
  {
    StepMovesTiles(job, s, step);
  }

  lemma {:induction false} RunKeepsInv(job: Job, s: State, steps: seq<Step>)
    requires Inv(job, s) && Legal(job, s, steps)
    ensures Inv(job, After(job, s, steps))
    decreases |steps|
  {
    if steps != [] {
      StepKeepsInv(job, s, steps[0]);
      RunKeepsInv(job, Apply(job, s, steps[0]), steps[1..]);
    }
  }

  // ---- what the sink receives ---------------------------------------------------------

  /** The indices of the batch that a body becomes. */
  function Batch(job: Job, b: Body): (batch: seq<int>) {
    Stretch(b.tile * TILE_WIDTH, b.tile * TILE_WIDTH + b.leaves, job.start, job.end)
  }

  predicate Reaches(job: Job, b: Body, x: int) {
    job.start <= x < job.end && b.tile * TILE_WIDTH <= x < b.tile * TILE_WIDTH + b.leaves
  }

  /** How often the sink was handed index x. */
  function Deliveries(job: Job, served: seq<Body>, x: int): (n: nat) {
    if served == [] then 0 else multiset(Batch(job, served[0]))[x] + Deliveries(job, served[1..], x)
  }

  lemma BatchHolds(job: Job, b: Body, x: int)
    ensures multiset(Batch(job, b))[x] == if Reaches(job, b, x) then 1 else 0
  {
    StretchHolds(b.tile * TILE_WIDTH, b.tile * TILE_WIDTH + b.leaves, job.start, job.end, x);
  }

  /** An index arrives once for each body that reaches it: at all, and again. */
  lemma {:induction false} ArrivesWhenReached(job: Job, served: seq<Body>, x: int)
    ensures Deliveries(job, served, x) >= 1 <==> exists i :: 0 <= i < |served| && Reaches(job, served[i], x)
  {
    if served != [] {
      BatchHolds(job, served[0], x);
      ArrivesWhenReached(job, served[1..], x);
      if i :| 0 <= i < |served| && Reaches(job, served[i], x) {
        assert i > 0 ==> Reaches(job, served[1..][i - 1], x);
      }
      if Deliveries(job, served[1..], x) >= 1 {
        var i :| 0 <= i < |served[1..]| && Reaches(job, served[1..][i], x);
        assert Reaches(job, served[i + 1], x);
      }
    }
  }

  ghost predicate ReachedTwice(job: Job, served: seq<Body>, x: int) {
    exists i, j :: 0 <= i < j < |served| && Reaches(job, served[i], x) && Reaches(job, served[j], x)
  }

  lemma {:induction false} ArrivesTwice(job: Job, served: seq<Body>, x: int)
    ensures Deliveries(job, served, x) >= 2 <==> ReachedTwice(job, served, x)
  {
    if served != [] {
      var rest := served[1..];
      BatchHolds(job, served[0], x);
      ArrivesWhenReached(job, rest, x);
      ArrivesTwice(job, rest, x);
      ReachedTwiceSplits(job, served, x);
    }
  }

  lemma ReachedTwiceSplits(job: Job, served: seq<Body>, x: int)
    requires served != []
    ensures ReachedTwice(job, served, x) <==>
            ReachedTwice(job, served[1..], x)
            || (Reaches(job, served[0], x) && exists i :: 0 <= i < |served[1..]| && Reaches(job, served[1..][i], x))
  {
    var rest := served[1..];
    if ReachedTwice(job, served, x) {
      var i, j :| 0 <= i < j < |served| && Reaches(job, served[i], x) && Reaches(job, served[j], x);
      assert Reaches(job, rest[j - 1], x) && (i > 0 ==> Reaches(job, rest[i - 1], x));
    }
    if ReachedTwice(job, rest, x) {
      var i, j :| 0 <= i < j < |rest| && Reaches(job, rest[i], x) && Reaches(job, rest[j], x);
      assert Reaches(job, served[i + 1], x) && Reaches(job, served[j + 1], x);
    }
    if Reaches(job, served[0], x) && exists i :: 0 <= i < |rest| && Reaches(job, rest[i], x) {
      var i :| 0 <= i < |rest| && Reaches(job, rest[i], x);
      assert Reaches(job, served[i + 1], x);
    }
  }

  /** No body runs into the first index of a later tile that has leaves of its own. */
  predicate NoOverrun(served: seq<Body>) {
    forall i, j :: 0 <= i < |served| && 0 <= j < |served| ==> Clear(served[i], served[j])
  }

  predicate Clear(a: Body, b: Body) {
    a.tile < b.tile && b.leaves > 0 ==> a.tile * TILE_WIDTH + a.leaves <= b.tile * TILE_WIDTH
  }

  lemma {:induction false} DistinctTiles(served: seq<Body>, i: nat, j: nat)
    requires forall t: nat :: multiset(Tiles(served))[t] <= 1
    requires i < j < |served|
    ensures served[i].tile != served[j].tile
  {
    var ts := Tiles(served);
    assert ts == ts[..i] + [ts[i]] + ts[i + 1..j] + [ts[j]] + ts[j + 1..];
    assert multiset(ts)[ts[i]] >= if ts[i] == ts[j] then 2 else 1;
  }

  /** The tiles of what has been served: none twice, all of the job. */
  lemma ServedTiles(job: Job, s: State)
    requires Inv(job, s)
    ensures forall t: nat :: multiset(Tiles(s.served))[t] <= 1
    ensures forall i :: 0 <= i < |s.served| ==> job.first <= s.served[i].tile <= job.last
  {
    forall t: nat ensures multiset(Tiles(s.served))[t] <= 1 {
      assert Places(s)[t] <= 1;
    }
    forall i | 0 <= i < |s.served| ensures job.first <= s.served[i].tile <= job.last {
      assert Tiles(s.served)[i] in multiset(Tiles(s.served));
      assert Places(s)[s.served[i].tile] >= 1;
    }
  }

  /** Exactly when no index reaches the sink twice, under every scheduling and any failures: no
      served body runs into a later one. No index outside the range ever arrives. */
  lemma TwiceOnlyByOverrun(start: nat, end: int, concurrency: nat, steps: seq<Step>)
    requires start < end
    requires var job := Plan(start, end, concurrency); Legal(job, Init(job), steps)
    ensures
      var job := Plan(start, end, concurrency);
      var s := After(job, Init(job), steps);
      && ((forall x :: Deliveries(job, s.served, x) <= 1) <==> NoOverrun(s.served))
      && (forall x :: Deliveries(job, s.served, x) >= 1 ==> start <= x < end)
  {
    var job := Plan(start, end, concurrency);
    var s := After(job, Init(job), steps);
    RunKeepsInv(job, Init(job), steps);
    OverrunExactly(start, end, concurrency, s);
    forall x ensures Deliveries(job, s.served, x) >= 1 ==> start <= x < end {
      OutsideNever(job, s.served, x);
    }
  }

  lemma OutsideNever(job: Job, served: seq<Body>, x: int)
    ensures Deliveries(job, served, x) >= 1 ==> job.start <= x < job.end
  {
    ArrivesWhenReached(job, served, x);
  }

  lemma OverrunExactly(start: nat, end: int, concurrency: nat, s: State)
    requires start < end && Inv(Plan(start, end, concurrency), s)
    ensures (forall x :: Deliveries(Plan(start, end, concurrency), s.served, x) <= 1) <==> NoOverrun(s.served)
  {
    var job := Plan(start, end, concurrency);
    ServedTiles(job, s);
    if NoOverrun(s.served) {
      forall x ensures Deliveries(job, s.served, x) <= 1 {
        ClearMeansOnce(job, s.served, x);
      }
    } else {
      var i, j :| 0 <= i < |s.served| && 0 <= j < |s.served| && !Clear(s.served[i], s.served[j]);
      OverrunMeansTwice(start, end, concurrency, s.served, i, j);
    }
  }

  lemma ClearMeansOnce(job: Job, served: seq<Body>, x: int)
    requires NoOverrun(served) && forall t: nat :: multiset(Tiles(served))[t] <= 1
    ensures Deliveries(job, served, x) <= 1
  {
    ArrivesTwice(job, served, x);
    if ReachedTwice(job, served, x) {
      var i, j :| 0 <= i < j < |served| && Reaches(job, served[i], x) && Reaches(job, served[j], x);
      DistinctTiles(served, i, j);
      SharedNotClear(job, served[i], served[j], x);
    }
  }

  lemma SharedNotClear(job: Job, a: Body, b: Body, x: int)
    requires Reaches(job, a, x) && Reaches(job, b, x) && a.tile != b.tile
    ensures !Clear(a, b) || !Clear(b, a)
  {
  }

  lemma OverrunMeansTwice(start: nat, end: int, concurrency: nat, served: seq<Body>, i: nat, j: nat)
    requires start < end && i < |served| && j < |served| && !Clear(served[i], served[j])
    requires Plan(start, end, concurrency).first <= served[i].tile
    requires served[j].tile <= Plan(start, end, concurrency).last
    ensures Deliveries(Plan(start, end, concurrency), served, served[j].tile * TILE_WIDTH) >= 2
  {
    var job := Plan(start, end, concurrency);
    var x := served[j].tile * TILE_WIDTH;
    ArrivesTwice(job, served, x);
    assert Reaches(job, served[i], x) && Reaches(job, served[j], x);
    assert i < j || j < i;
  }

  /** With bodies of at most 256 leaves, no index reaches the sink twice and none outside the range. */
  lemma DeliveredAtMostOnce(start: nat, end: int, concurrency: nat, steps: seq<Step>, x: int)
    requires start < end
    requires var job := Plan(start, end, concurrency); Legal(job, Init(job), steps)
    requires var job := Plan(start, end, concurrency);
             forall b :: b in After(job, Init(job), steps).served ==> b.leaves <= 256
    ensures
      var job := Plan(start, end, concurrency);
      var s := After(job, Init(job), steps);
      Deliveries(job, s.served, x) <= if start <= x < end then 1 else 0
  {
    var job := Plan(start, end, concurrency);
    var s := After(job, Init(job), steps);
    forall i, j | 0 <= i < |s.served| && 0 <= j < |s.served| ensures Clear(s.served[i], s.served[j]) {
      assert s.served[i] in s.served;
    }
    TwiceOnlyByOverrun(start, end, concurrency, steps);
  }

  /** With one worker: send, take and serve one tile. */
  lemma ServeNext(job: Job, s: State, b: Body, steps: seq<Step>, i: nat)
    requires s.next == b.tile <= job.last && s.channel == [] && s.busy == multiset{} && job.concurrency == 1
    requires i + 3 <= |steps| && steps[i] == Send && steps[i + 1] == Take && steps[i + 2] == Serve(b)
    requires Legal(job, s.(next := s.next + 1, served := s.served + [b]), steps[i + 3..])
    ensures Legal(job, s, steps[i..])
    ensures After(job, s, steps[i..]) == After(job, s.(next := s.next + 1, served := s.served + [b]), steps[i + 3..])
  {
    var sent := s.(next := s.next + 1, channel := [b.tile]);
    var taken := s.(next := s.next + 1, busy := multiset{b.tile});
    Unroll(job, taken, s.(next := s.next + 1, served := s.served + [b]), steps, i + 2);
    Unroll(job, sent, taken, steps, i + 1);
    Unroll(job, s, sent, steps, i);
  }

  /** A body of 257 leaves makes the sink receive index 256 twice. */
  lemma OverlongDeliversTwice()
    ensures
      var job := Plan(0, 512, 1);
      var steps := [Send, Take, Serve(Body(0, 257)), Send, Take, Serve(Body(1, 256))];
      && Legal(job, Init(job), steps)
      && After(job, Init(job), steps).served == [Body(0, 257), Body(1, 256)]
      && Finished(job, After(job, Init(job), steps))
      && Deliveries(job, After(job, Init(job), steps).served, 256) == 2
  {
    var job := Plan(0, 512, 1);
    var steps := [Send, Take, Serve(Body(0, 257)), Send, Take, Serve(Body(1, 256))];
    ServeTwo(job, Body(0, 257), Body(1, 256), steps);
    TwoBodies(job, Body(0, 257), Body(1, 256), 256);
  }

  lemma ServeTwo(job: Job, a: Body, b: Body, steps: seq<Step>)
    requires job.concurrency == 1 && a.tile == job.first && b.tile == job.first + 1 == job.last
    requires steps == [Send, Take, Serve(a), Send, Take, Serve(b)]
    ensures Legal(job, Init(job), steps)
    ensures After(job, Init(job), steps) == State(job.last + 1, [], multiset{}, [a, b], multiset{}, false)
  {
    var s := State(job.last, [], multiset{}, [a], multiset{}, false);
    assert steps[6..] == [] && [] + [a] == [a] && [a] + [b] == [a, b];
    ServeNext(job, s, b, steps, 3);
    ServeNext(job, Init(job), a, steps, 0);
    assert steps[0..] == steps;
  }

  lemma TwoBodies(job: Job, a: Body, b: Body, x: int)
    ensures Deliveries(job, [a, b], x) == (if Reaches(job, a, x) then 1 else 0) + if Reaches(job, b, x) then 1 else 0
  {
    BatchHolds(job, a, x);
    BatchHolds(job, b, x);
    assert [a, b][1..] == [b] && [b][1..] == [];
    assert Deliveries(job, [b], x) == multiset(Batch(job, b))[x] + Deliveries(job, [], x);
  }

  lemma Unroll(job: Job, s: State, s': State, steps: seq<Step>, i: nat)
    requires i < |steps| && Enabled(job, s, steps[i]) && Apply(job, s, steps[i]) == s'
    requires Legal(job, s', steps[i + 1..])
    ensures Legal(job, s, steps[i..]) && After(job, s, steps[i..]) == After(job, s', steps[i + 1..])
  {
    assert steps[i..][1..] == steps[i + 1..];
  }

  /** When the pool has drained, nothing failed and every tile had its 256 leaves, every index of
      the range reached the sink exactly once. */
  lemma DeliveredExactlyOnce(start: nat, end: int, concurrency: nat, steps: seq<Step>, x: int)
    requires start < end
    requires var job := Plan(start, end, concurrency); Legal(job, Init(job), steps)
    requires
      var job := Plan(start, end, concurrency);
      var s := After(job, Init(job), steps);
      Finished(job, s) && forall b :: b in s.served ==> b.leaves == 256
    ensures
      var job := Plan(start, end, concurrency);
      var s := After(job, Init(job), steps);
      Deliveries(job, s.served, x) == if start <= x < end then 1 else 0
  {
    var job := Plan(start, end, concurrency);
    var s := After(job, Init(job), steps);
    RunKeepsInv(job, Init(job), steps);
    DeliveredAtMostOnce(start, end, concurrency, steps, x);
    ArrivesWhenReached(job, s.served, x);
    if start <= x < end {
      var t: nat := x / TILE_WIDTH;
      assert job.first <= t < s.next;
      assert Places(s)[t] == 1;
      assert t in Tiles(s.served);
      var i :| 0 <= i < |s.served| && Tiles(s.served)[i] == t;
      assert s.served[i] in s.served;
      assert Reaches(job, s.served[i], x);
    }
  }

  /** An index is below the clamped end exactly when it was asked for and its
      tile is complete. */
  lemma ClampMeansComplete(end: int, treeSize: nat, x: nat)
    ensures x < Clamp(end, treeSize) <==> x < end && (x / 256 + 1) * 256 <= treeSize
  {
  }

  /** Fetch as a whole, when every tile has its 256 leaves: of the range asked for, exactly the
      indices of complete tiles reach the sink, each once. */
  lemma FetchDelivers(start: nat, end: int, treeSize: nat, concurrency: nat, steps: seq<Step>, x: nat)
    requires start < Clamp(end, treeSize)
    requires var job := Plan(start, Clamp(end, treeSize), concurrency); Legal(job, Init(job), steps)
    requires
      var job := Plan(start, Clamp(end, treeSize), concurrency);
      var s := After(job, Init(job), steps);
      Finished(job, s) && forall b :: b in s.served ==> b.leaves == 256
    ensures
      var job := Plan(start, Clamp(end, treeSize), concurrency);
      var s := After(job, Init(job), steps);
      Deliveries(job, s.served, x)
      == if start <= x < end && (x / 256 + 1) * 256 <= treeSize then 1 else 0
  {
    ClampMeansComplete(end, treeSize, x);
    DeliveredExactlyOnce(start, Clamp(end, treeSize), concurrency, steps, x);
  }

  /** No more tiles wait in the channel than it has room for, and no more are in work than there are workers. */
  lemma {:induction false} InFlightBounded(job: Job, s: State, steps: seq<Step>)
    requires Legal(job, s, steps) && |s.channel| <= job.concurrency && |s.busy| <= job.concurrency
    ensures |After(job, s, steps).channel| <= job.concurrency && |After(job, s, steps).busy| <= job.concurrency
    decreases |steps|
  {
    if steps != [] {
      StepKeepsBounds(job, s, steps[0]);
      InFlightBounded(job, Apply(job, s, steps[0]), steps[1..]);
    }
  }

  lemma StepKeepsBounds(job: Job, s: State, step: Step)
    requires Enabled(job, s, step) && |s.channel| <= job.concurrency && |s.busy| <= job.concurrency
    ensures |Apply(job, s, step).channel| <= job.concurrency && |Apply(job, s, step).busy| <= job.concurrency
  {
    match step
    case Send =>
    case Take => assert |s.busy + multiset{s.channel[0]}| == |s.busy| + 1;
    case Serve(b) => assert |s.busy - multiset{b.tile}| == |s.busy| - 1;
    case Fail(t) => assert |s.busy - multiset{t}| == |s.busy| - 1;
    case Drain(t) => assert |s.busy - multiset{t}| == |s.busy| - 1;
  }

  /** The pool cannot hang: until it has drained, the producer or a worker can move. */
  lemma PoolNeverStuck(job: Job, s: State)
    requires Inv(job, s) && job.concurrency >= 1
    requires s.next <= job.last || s.channel != [] || s.busy != multiset{}
    ensures exists step :: Enabled(job, s, step)
  {
    if s.busy != multiset{} {
      var t :| t in s.busy;
      assert Enabled(job, s, Serve(Body(t, 0)));
    } else if s.channel != [] {
      assert Enabled(job, s, Take);
    } else {
      assert Enabled(job, s, Send);
    }
  }
}
