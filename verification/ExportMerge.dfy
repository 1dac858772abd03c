/** Counting SAN domains by external sort: counts are flushed to sorted chunk
    files every so many rows, and a k-way merge adds them up again.

    Counters are 32 bits wide and two of them share one 64-bit word while a chunk
    is being filled; the model keeps both widths.
  */
module ExportMerge {
  import opened Octets
  import opened Lex

  const TWO32 := 0x1_0000_0000
  const TWO64 := 0x1_0000_0000_0000_0000

  /** A SAN after normalisation: a non-empty name, seen directly or under a wildcard.
      It is also the key of one counter. */
  datatype San = San(domain: Bytes, wild: bool)

  datatype Line = Line(domain: Bytes, direct: nat, wild: nat)

  // ---- the reference: one unchunked count --------------------------------------------

  function Flat(rows: seq<seq<San>>): (sans: seq<San>) {
    if rows == [] then [] else Flat(rows[..|rows| - 1]) + rows[|rows| - 1]
  }

  predicate Named(sans: seq<San>) {
    forall i :: 0 <= i < |sans| ==> sans[i].domain != []
  }

  lemma FlatSnoc(rows: seq<seq<San>>, row: seq<San>)
    ensures Flat(rows + [row]) == Flat(rows) + row
  {
    assert (rows + [row])[..|rows|] == rows;
  }

  lemma {:induction false} FlatOfConcat(a: seq<seq<San>>, b: seq<seq<San>>)
    ensures Flat(a + b) == Flat(a) + Flat(b)
  {
    if b == [] {
      assert a + b == a;
    } else {
      assert (a + b)[..|a + b| - 1] == a + b[..|b| - 1];
      FlatOfConcat(a, b[..|b| - 1]);
    }
  }

  // ---- files ----------------------------------------------------------------------------

  /** Strictly increasing names, none empty, both counters 32 bits. */
  ghost predicate SortedFile(f: seq<Line>) {
    && (forall i, j :: 0 <= i < j < |f| ==> Less(f[i].domain, f[j].domain))
    && (forall i :: 0 <= i < |f| ==> f[i].domain != [] && f[i].direct < TWO32 && f[i].wild < TWO32)
  }

  /** What a line says about one counter. */
  function Says(l: Line, k: San): (n: nat) {
    if l.domain != k.domain then 0 else if k.wild then l.wild else l.direct
  }

  function FileTotal(f: seq<Line>, k: San): (n: nat) {
    if f == [] then 0 else FileTotal(f[..|f| - 1], k) + Says(f[|f| - 1], k)
  }

  function FilesTotal(files: seq<seq<Line>>, k: San): (n: nat) {
    if files == [] then 0 else FilesTotal(files[..|files| - 1], k) + FileTotal(files[|files| - 1], k)
  }

  ghost predicate HasLine(f: seq<Line>, d: Bytes) {
    exists i :: 0 <= i < |f| && f[i].domain == d
  }

  ghost predicate InFiles(files: seq<seq<Line>>, d: Bytes) {
    exists i :: 0 <= i < |files| && HasLine(files[i], d)
  }

  lemma FilesTotalSnoc(files: seq<seq<Line>>, f: seq<Line>, k: San)
    ensures FilesTotal(files + [f], k) == FilesTotal(files, k) + FileTotal(f, k)
  {
    assert (files + [f])[..|files|] == files;
  }

  /** In a sorted file a name's total is its one line. */
  lemma {:induction false} SortedFileTotal(f: seq<Line>, i: nat, k: San)
    requires SortedFile(f) && i < |f| && f[i].domain == k.domain
    ensures FileTotal(f, k) == Says(f[i], k)
  {
    var n := |f| - 1;
    if i == n {
      forall j | 0 <= j < n ensures f[..n][j].domain != k.domain {
        Asymmetric(f[j].domain, f[n].domain);
      }
      AbsentTotal(f[..n], k);
    } else {
      Asymmetric(f[i].domain, f[n].domain);
      SortedFileTotal(f[..n], i, k);
    }
  }

  lemma {:induction false} AbsentTotal(f: seq<Line>, k: San)
    requires forall i :: 0 <= i < |f| ==> f[i].domain != k.domain
    ensures FileTotal(f, k) == 0
  {
    if f != [] {
      AbsentTotal(f[..|f| - 1], k);
    }
  }

  // ---- packed counters ---------------------------------------------------------------------

  type Word = w: int | 0 <= w < TWO64

  function Packed(direct: nat, wild: nat): (w: Word) {
    (direct + wild * TWO32) % TWO64
  }

  function AddSan(w: Word, wild: bool): (w': Word) {
    if wild then (w + TWO32) % TWO64 else (w + 1) % TWO64
  }

  function DirectCount(w: Word): (n: nat) {
    w % TWO32
  }

  function WildcardCount(w: Word): (n: nat) {
    w / TWO32
  }

  /** Bumping the word keeps it the packing of the true counts, even past 32 bits. */
  lemma PackedStep(direct: nat, wild: nat)
    ensures AddSan(Packed(direct, wild), false) == Packed(direct + 1, wild)
    ensures AddSan(Packed(direct, wild), true) == Packed(direct, wild + 1)
  {
    assert (wild + 1) * TWO32 == wild * TWO32 + TWO32;
  }

  /** Both halves read back exactly when both counts fit; otherwise one spills into the other or is cut. */
  lemma PackedReadsBack(direct: nat, wild: nat)
    ensures DirectCount(Packed(direct, wild)) == direct && WildcardCount(Packed(direct, wild)) == wild
      <==> direct < TWO32 && wild < TWO32
  {
  }

  // ---- one chunk -----------------------------------------------------------------------------

  /** The counters of a chunk under way stand for the SANs seen since the last flush. */
  ghost predicate CountsFor(counts: map<Bytes, Word>, sans: seq<San>) {
    forall d: Bytes ::
      var m := multiset(sans);
      (d in counts <==> San(d, false) in m || San(d, true) in m)
      && (d in counts ==> counts[d] == Packed(m[San(d, false)], m[San(d, true)]))
  }

  function Bump(counts: map<Bytes, Word>, san: San): (counts': map<Bytes, Word>) {
    counts[san.domain := AddSan(if san.domain in counts then counts[san.domain] else 0, san.wild)]
  }

  lemma CountOne(counts: map<Bytes, Word>, sans: seq<San>, san: San)
    requires CountsFor(counts, sans)
    ensures CountsFor(Bump(counts, san), sans + [san])
  {
    var m, m' := multiset(sans), multiset(sans + [san]);
    assert m' == m + multiset{san};
    var counts' := Bump(counts, san);
    forall d: Bytes
      ensures d in counts' <==> San(d, false) in m' || San(d, true) in m'
      ensures d in counts' ==> counts'[d] == Packed(m'[San(d, false)], m'[San(d, true)])
    {
      if d == san.domain {
        PackedStep(m[San(d, false)], m[San(d, true)]);
      } else {
        assert d in counts <==> San(d, false) in m || San(d, true) in m;
      }
    }
  }

  method CountRow(counts0: map<Bytes, Word>, ghost before: seq<San>, row: seq<San>) returns (counts: map<Bytes, Word>)
    requires CountsFor(counts0, before)
    ensures CountsFor(counts, before + row)
  {
    counts := counts0;
    assert before + row[..0] == before;
    for j := 0 to |row|
      invariant CountsFor(counts, before + row[..j])
    {
      var san := row[j];
      CountOne(counts, before + row[..j], san);
      assert before + row[..j] + [san] == before + row[..j + 1];
      counts := Bump(counts, san);
    }
    assert row[..|row|] == row;
  }

  /** Puts a name that is not there yet in its place. */
  method InsertLine(f: seq<Line>, l: Line) returns (g: seq<Line>)
    requires SortedFile(f) && SortedFile([l]) && !HasLine(f, l.domain)
    ensures SortedFile(g)
    ensures forall x :: x in g <==> x in f || x == l
  {
    var k := 0;
    while k < |f| && Less(f[k].domain, l.domain)
      invariant k <= |f|
      invariant forall i :: 0 <= i < k ==> Less(f[i].domain, l.domain)
    {
      k := k + 1;
    }
    g := f[..k] + [l] + f[k..];
    assert [l][0] == l;
    forall i | k <= i < |f| ensures Less(l.domain, f[i].domain) {
      Total(f[k].domain, l.domain);
      if i > k {
        Transitive(l.domain, f[k].domain, f[i].domain);
      }
    }
  }

  function Unpack(counts: map<Bytes, Word>, d: Bytes): (l: Line)
    requires d in counts
  {
    Line(d, DirectCount(counts[d]), WildcardCount(counts[d]))
  }

  /** Sorts the keys and unpacks the counters. */
  method WriteSortedChunk(counts: map<Bytes, Word>) returns (f: seq<Line>)
    requires [] !in counts
    ensures SortedFile(f)
    ensures forall d :: d in counts ==> Unpack(counts, d) in f
    ensures forall l :: l in f ==> l.domain in counts && l == Unpack(counts, l.domain)
  {
    f := [];
    var keys := counts.Keys;
    while keys != {}
      invariant keys <= counts.Keys && SortedFile(f)
      invariant forall l :: l in f ==> l.domain in counts && l.domain !in keys && l == Unpack(counts, l.domain)
      invariant forall d :: d in counts && d !in keys ==> Unpack(counts, d) in f
      decreases |keys|
    {
      var d :| d in keys;
      assert SortedFile([Unpack(counts, d)]);
      f := InsertLine(f, Unpack(counts, d));
      keys := keys - {d};
    }
  }

  // ---- all chunks ------------------------------------------------------------------------------

  /** Both counts of a name fit in 32 bits. */
  predicate Fits(sans: seq<San>, d: Bytes) {
    multiset(sans)[San(d, false)] < 0x1_0000_0000 && multiset(sans)[San(d, true)] < 0x1_0000_0000
  }

  predicate Occurs(sans: seq<San>, d: Bytes) {
    San(d, false) in multiset(sans) || San(d, true) in multiset(sans)
  }

  /** The line shows the true counts of its name. */
  predicate Exact(l: Line, sans: seq<San>) {
    l.direct == multiset(sans)[San(l.domain, false)] && l.wild == multiset(sans)[San(l.domain, true)]
  }

  /** A sorted file that agrees with a plain count of these SANs: each name once and in order,
      with its true counts exactly when they fit in 32 bits. */
  ghost predicate Tally(f: seq<Line>, sans: seq<San>) {
    && SortedFile(f)
    && (forall d :: HasLine(f, d) <==> Occurs(sans, d))
    && (forall i :: 0 <= i < |f| ==> (Exact(f[i], sans) <==> Fits(sans, f[i].domain)))
  }

  /** Flushes the counters into a chunk. */
  method FlushChunk(counts: map<Bytes, Word>, ghost sans: seq<San>) returns (f: seq<Line>)
    requires CountsFor(counts, sans) && Named(sans)
    ensures Tally(f, sans)
  {
    assert [] !in counts by {
      assert San([], false) !in multiset(sans) && San([], true) !in multiset(sans);
    }
    f := WriteSortedChunk(counts);
    forall d ensures HasLine(f, d) <==> Occurs(sans, d) {
      assert d in counts <==> Occurs(sans, d);
      if d in counts {
        assert Unpack(counts, d) in f;
      }
      if HasLine(f, d) {
        var i :| 0 <= i < |f| && f[i].domain == d;
        assert f[i] in f;
      }
    }
    forall i | 0 <= i < |f| ensures Exact(f[i], sans) <==> Fits(sans, f[i].domain) {
      assert f[i] in f;
      PackedReadsBack(multiset(sans)[San(f[i].domain, false)], multiset(sans)[San(f[i].domain, true)]);
    }
  }

  /** File by file, they agree with these batches of SANs. */
  ghost predicate Tallies(chunks: seq<seq<Line>>, batches: seq<seq<San>>) {
    |chunks| == |batches| && forall i :: 0 <= i < |chunks| ==> Tally(chunks[i], batches[i])
  }

  lemma TalliesSnoc(chunks: seq<seq<Line>>, batches: seq<seq<San>>, f: seq<Line>, sans: seq<San>)
    requires Tallies(chunks, batches) && Tally(f, sans)
    ensures Tallies(chunks + [f], batches + [sans])
    ensures Flat(batches + [sans]) == Flat(batches) + sans
  {
    FlatSnoc(batches, sans);
  }

  lemma NothingPending(sans: seq<San>)
    ensures CountsFor(map[], sans) <==> sans == []
  {
    if sans != [] {
      assert sans[0] in multiset(sans);
      assert sans[0] == San(sans[0].domain, false) || sans[0] == San(sans[0].domain, true);
    }
  }

  lemma NextRow(flushed: seq<San>, pending: seq<San>, rows: seq<seq<San>>, r: nat)
    requires r < |rows| && flushed + pending == Flat(rows[..r])
    ensures flushed + (pending + rows[r]) == Flat(rows[..r + 1])
  {
    assert rows[..r + 1] == rows[..r] + [rows[r]];
    FlatSnoc(rows[..r], rows[r]);
    assert flushed + (pending + rows[r]) == (flushed + pending) + rows[r];
  }

  /** Scans the rows, flushing every `flushEvery` rows and at the end; an empty map is not written.
      `batches` are the SANs each chunk stands for. */
  method BuildChunks(rows: seq<seq<San>>, flushEvery: int)
    returns (chunks: seq<seq<Line>>, ghost batches: seq<seq<San>>)
    requires flushEvery > 0 && forall i :: 0 <= i < |rows| ==> Named(rows[i])
    ensures Tallies(chunks, batches)
    ensures Flat(batches) == Flat(rows)
  {
    chunks, batches := [], [];
    var counts: map<Bytes, Word> := map[];
    ghost var pending: seq<San> := [];
    ghost var flushed: seq<San> := [];
    NothingPending([]);
    for r := 0 to |rows|
      invariant Tallies(chunks, batches)
      invariant CountsFor(counts, pending) && Named(pending)
      invariant flushed == Flat(batches) && flushed + pending == Flat(rows[..r])
    {
      counts := CountRow(counts, pending, rows[r]);
      NextRow(flushed, pending, rows, r);
      pending := pending + rows[r];
      if (r + 1) % flushEvery == 0 {
        chunks, counts, batches, pending := FlushMap(chunks, counts, batches, pending);
        flushed := Flat(batches);
      }
    }
    assert rows[..|rows|] == rows;
    chunks, counts, batches, pending := FlushMap(chunks, counts, batches, pending);
  }

  /** Writes the counters out as one more chunk, unless there is nothing to write. */
  method FlushMap(chunks0: seq<seq<Line>>, counts0: map<Bytes, Word>, ghost batches0: seq<seq<San>>,
                  ghost pending0: seq<San>)
    returns (chunks: seq<seq<Line>>, counts: map<Bytes, Word>, ghost batches: seq<seq<San>>, ghost pending: seq<San>)
    requires Tallies(chunks0, batches0) && CountsFor(counts0, pending0) && Named(pending0)
    ensures Tallies(chunks, batches) && CountsFor(counts, pending) && pending == []
    ensures Flat(batches) == Flat(batches0) + pending0
  {
    chunks, counts, batches, pending := chunks0, counts0, batches0, pending0;
    NothingPending(pending0);
    NothingPending([]);
    if counts != map[] {
      var f := FlushChunk(counts, pending);
      TalliesSnoc(chunks, batches, f, pending);
      chunks, batches, counts, pending := chunks + [f], batches + [pending], map[], [];
    }
  }

  lemma FileTallies(f: seq<Line>, sans: seq<San>, k: San)
    requires Tally(f, sans) && Fits(sans, k.domain)
    ensures FileTotal(f, k) == multiset(sans)[k]
  {
    assert k == San(k.domain, false) || k == San(k.domain, true);
    if HasLine(f, k.domain) {
      var i :| 0 <= i < |f| && f[i].domain == k.domain;
      SortedFileTotal(f, i, k);
      assert Exact(f[i], sans);
    } else {
      AbsentTotal(f, k);
      assert !Occurs(sans, k.domain);
    }
  }

  /** Wherever the cuts between the files fall, they add up to one uncut count. */
  lemma {:induction false} TalliesAddUp(files: seq<seq<Line>>, batches: seq<seq<San>>, k: San)
    requires Tallies(files, batches) && Fits(Flat(batches), k.domain)
    ensures FilesTotal(files, k) == multiset(Flat(batches))[k]
  {
    if files != [] {
      var n := |files| - 1;
      assert files == files[..n] + [files[n]] && batches == batches[..n] + [batches[n]];
      FlatSnoc(batches[..n], batches[n]);
      TalliesAddUp(files[..n], batches[..n], k);
      FileTallies(files[n], batches[n], k);
      FilesTotalSnoc(files[..n], files[n], k);
    }
  }

  lemma {:induction false} TalliesMention(files: seq<seq<Line>>, batches: seq<seq<San>>, d: Bytes)
    requires Tallies(files, batches)
    ensures InFiles(files, d) <==> Occurs(Flat(batches), d)
  {
    if files != [] {
      var n := |files| - 1;
      assert files == files[..n] + [files[n]] && batches == batches[..n] + [batches[n]];
      FlatSnoc(batches[..n], batches[n]);
      TalliesMention(files[..n], batches[..n], d);
      InFilesSnoc(files[..n], files[n], d);
    }
  }

  lemma InFilesSnoc(files: seq<seq<Line>>, f: seq<Line>, d: Bytes)
    ensures InFiles(files + [f], d) <==> InFiles(files, d) || HasLine(f, d)
  {
    if InFiles(files, d) {
      var i :| 0 <= i < |files| && HasLine(files[i], d);
      assert HasLine((files + [f])[i], d);
    }
    if HasLine(f, d) {
      assert HasLine((files + [f])[|files|], d);
    }
  }
}
