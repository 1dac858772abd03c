/** Fetching tiles and writing partitions as one operation: what the pool hands
    to the sink, in any order of arrival, is what ends up on disk under the
    names that are read back. */
module TileIngest {
  import opened Base36
  import opened Wrappers
  import opened Partition
  import TileFetch

  type Body = TileFetch.Body

  /** The entries of one body's batch: consecutive, and exactly the indices the body reaches. */
  ghost predicate BatchOf(es: seq<Entry>, job: TileFetch.Job, b: Body) {
    Consecutive(es) && forall x :: HasIndex(es, x) <==> TileFetch.Reaches(job, b, x)
  }

  /** Each entry carries the leaf at its own index. */
  ghost predicate Carries(es: seq<Entry>, raw: int -> Entry) {
    forall i :: 0 <= i < |es| ==> es[i] == raw(es[i].index).(index := es[i].index)
  }

  ghost predicate AllBatches(batches: seq<seq<Entry>>, job: TileFetch.Job, served: seq<Body>) {
    |batches| == |served| && forall i :: 0 <= i < |served| ==> BatchOf(batches[i], job, served[i])
  }

  /** Turns the leaves of a fetched tile into entries; the index is the tile's, whatever the
      leaf says of itself. */
  method BuildEntries(job: TileFetch.Job, b: Body, raw: int -> Entry) returns (es: seq<Entry>)
    requires 0 <= job.start && job.end < TWO63
    ensures BatchOf(es, job, b)
    ensures forall i :: 0 <= i < |es| ==> es[i] == raw(es[i].index).(index := es[i].index)
  {
    var indices := TileFetch.BuildBatch(b.tile, b.leaves, job.start, job.end);
    es := seq(|indices|, i requires 0 <= i < |indices| => raw(indices[i]).(index := indices[i]));
    forall x ensures HasIndex(es, x) <==> TileFetch.Reaches(job, b, x) {
      assert x in indices <==> TileFetch.Reaches(job, b, x);
      if x in indices {
        var i :| 0 <= i < |indices| && indices[i] == x;
        assert es[i].index == x;
      }
    }
    forall i | 0 <= i < |es| ensures 0 <= es[i].index < TWO63 - 1 {
      assert indices[i] in indices;
    }
  }

  method BuildAll(job: TileFetch.Job, served: seq<Body>, raw: int -> Entry) returns (batches: seq<seq<Entry>>)
    requires 0 <= job.start && job.end < TWO63
    ensures AllBatches(batches, job, served)
    ensures forall j :: 0 <= j < |batches| ==> Carries(batches[j], raw)
  {
    batches := [];
    for i := 0 to |served|
      invariant |batches| == i
      invariant forall j :: 0 <= j < i ==> BatchOf(batches[j], job, served[j]) && Carries(batches[j], raw)
    {
      var es := BuildEntries(job, served[i], raw);
      batches := batches + [es];
    }
  }

  /** The batches hold exactly the indices that were delivered. */
  lemma BatchesHoldDeliveries(batches: seq<seq<Entry>>, job: TileFetch.Job, served: seq<Body>, x: int)
    requires AllBatches(batches, job, served)
    ensures InBatches(batches, x) <==> TileFetch.Deliveries(job, served, x) >= 1
  {
    TileFetch.ArrivesWhenReached(job, served, x);
    if InBatches(batches, x) {
      var i :| 0 <= i < |batches| && HasIndex(batches[i], x);
      assert BatchOf(batches[i], job, served[i]);
    }
    if TileFetch.Deliveries(job, served, x) >= 1 {
      var i :| 0 <= i < |served| && TileFetch.Reaches(job, served[i], x);
      assert BatchOf(batches[i], job, served[i]);
    }
  }

  /** Where no index is delivered twice and none is on disk yet, every batch is new. */
  lemma BatchesAreNew(files: Files, parse: string -> Option<Range>, batches: seq<seq<Entry>>,
                      job: TileFetch.Job, served: seq<Body>)
    requires AllBatches(batches, job, served)
    requires forall x :: TileFetch.Deliveries(job, served, x) <= 1
    requires forall x :: TileFetch.Deliveries(job, served, x) >= 1 ==> !Written(files, parse, x)
    ensures AllNew(files, parse, batches)
  {
    forall i | 0 <= i < |batches| ensures Unwritten(files, parse, batches[i]) {
      forall k | 0 <= k < |batches[i]| ensures !Written(files, parse, batches[i][k].index) {
        assert HasIndex(batches[i], batches[i][k].index);
        BatchesHoldDeliveries(batches, job, served, batches[i][k].index);
      }
    }
    forall i, j | 0 <= i < j < |batches| ensures Disjoint(batches[i], batches[j]) {
      forall k | 0 <= k < |batches[j]| ensures !HasIndex(batches[i], batches[j][k].index) {
        var x := batches[j][k].index;
        assert HasIndex(batches[j], x);
        TileFetch.ArrivesTwice(job, served, x);
        assert BatchOf(batches[i], job, served[i]) && BatchOf(batches[j], job, served[j]);
      }
    }
  }

  lemma BatchesCarry(batches: seq<seq<Entry>>, raw: int -> Entry)
    requires forall j :: 0 <= j < |batches| ==> Carries(batches[j], raw)
    ensures forall e :: e in Concat(batches) ==> e == raw(e.index).(index := e.index)
    ensures forall x :: InBatches(batches, x) ==> raw(x).(index := x) in Concat(batches)
  {
    ConcatHolds(batches);
    forall e | e in Concat(batches) ensures e == raw(e.index).(index := e.index) {
      var j :| 0 <= j < |batches| && e in batches[j];
      assert Carries(batches[j], raw);
    }
    forall x | InBatches(batches, x) ensures raw(x).(index := x) in Concat(batches) {
      var j :| 0 <= j < |batches| && HasIndex(batches[j], x);
      var i :| 0 <= i < |batches[j]| && batches[j][i].index == x;
      assert Carries(batches[j], raw) && batches[j][i] in batches[j];
    }
  }

  /** Whether an index was asked for and lies in a complete tile of the tree. */
  predicate Readable(start: int, end: int, treeSize: nat, x: int) {
    0 <= start <= x < end && (x / 256 + 1) * 256 <= treeSize
  }

  /** Fetch and write, end to end and under the names on disk. `served` is what a pool that has
      drained without failure handed over, in any order of arrival, each tile with its 256 leaves.
      If the writes get through, the written indices are the earlier ones and exactly the readable
      ones, each with the leaf fetched for it and in the directory of that leaf's day; and where those
      are new, only the backend can stop the writes. No earlier file is touched. */
  method FetchAndWrite(files: Files, gz: bool, start: nat, end: int, treeSize: nat, concurrency: nat,
                       served: seq<Body>, ghost steps: seq<TileFetch.Step>,
                       raw: int -> Entry, day: int -> string, io: (nat, nat) -> bool)
    returns (sink: BatchSink, ok: bool)
    requires StoreInv(files, DiskNames(gz).parse) && treeSize < TWO63
    requires start < TileFetch.Clamp(end, treeSize)
    requires
      var job := TileFetch.Plan(start, TileFetch.Clamp(end, treeSize), concurrency);
      && TileFetch.Legal(job, TileFetch.Init(job), steps)
      && TileFetch.Finished(job, TileFetch.After(job, TileFetch.Init(job), steps))
      && served == TileFetch.After(job, TileFetch.Init(job), steps).served
    requires forall b :: b in served ==> b.leaves == 256
    ensures fresh(sink) && sink.Valid() && sink.nm == DiskNames(gz)
    ensures forall x :: Written(files, DiskNames(gz).parse, x) ==> Written(sink.files, DiskNames(gz).parse, x)
    ensures forall x :: Written(sink.files, DiskNames(gz).parse, x) ==>
                          Written(files, DiskNames(gz).parse, x) || Readable(start, end, treeSize, x)
    ensures ok ==> forall x :: Readable(start, end, treeSize, x) ==> Written(sink.files, DiskNames(gz).parse, x)
    ensures (forall k, n :: io(k, n))
         && (forall x :: Readable(start, end, treeSize, x) ==> !Written(files, DiskNames(gz).parse, x))
         ==> ok
    ensures forall p :: p in files ==> p in sink.files && sink.files[p] == files[p]
    ensures forall p, e :: p in sink.files && p !in files && e in sink.files[p] ==>
                             e == raw(e.index).(index := e.index) && p.dir == day(e.timestampMs)
    ensures ok ==> forall x :: Readable(start, end, treeSize, x) ==> Stored(sink.files, raw(x).(index := x), day)
  {
    DiskNamesFaithful(gz);
    sink := new BatchSink(files, DiskNames(gz));
    var job := TileFetch.Plan(start, TileFetch.Clamp(end, treeSize), concurrency);
    var batches := BuildAll(job, served, raw);
    forall x
      ensures InBatches(batches, x) <==> Readable(start, end, treeSize, x)
      ensures TileFetch.Deliveries(job, served, x) == if Readable(start, end, treeSize, x) then 1 else 0
    {
      DeliveredIfReadable(start, end, treeSize, concurrency, steps, x);
      BatchesHoldDeliveries(batches, job, served, x);
    }
    if forall x :: Readable(start, end, treeSize, x) ==> !Written(files, DiskNames(gz).parse, x) {
      BatchesAreNew(files, DiskNames(gz).parse, batches, job, served);
    }
    ok := WriteAll(sink, batches, day, io);
    BatchesCarry(batches, raw);
    forall p, e | p in sink.files && p !in files && e in sink.files[p]
      ensures e == raw(e.index).(index := e.index) && p.dir == day(e.timestampMs)
    {
      assert Filed(p, sink.files[p], Concat(batches), day, sink.nm);
    }
  }

  lemma DeliveredIfReadable(start: nat, end: int, treeSize: nat, concurrency: nat, steps: seq<TileFetch.Step>, x: int)
    requires start < TileFetch.Clamp(end, treeSize)
    requires
      var job := TileFetch.Plan(start, TileFetch.Clamp(end, treeSize), concurrency);
      && TileFetch.Legal(job, TileFetch.Init(job), steps)
      && TileFetch.Finished(job, TileFetch.After(job, TileFetch.Init(job), steps))
      && forall b :: b in TileFetch.After(job, TileFetch.Init(job), steps).served ==> b.leaves == 256
    ensures
      var job := TileFetch.Plan(start, TileFetch.Clamp(end, treeSize), concurrency);
      TileFetch.Deliveries(job, TileFetch.After(job, TileFetch.Init(job), steps).served, x)
      == if Readable(start, end, treeSize, x) then 1 else 0
  {
    if x >= 0 {
      TileFetch.FetchDelivers(start, end, treeSize, concurrency, steps, x);
    } else {
      TileFetch.DeliveredExactlyOnce(start, TileFetch.Clamp(end, treeSize), concurrency, steps, x);
    }
  }
}
