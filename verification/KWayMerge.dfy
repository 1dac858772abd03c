/** The k-way merge of sorted count files and the two-level export built on it. */
module KWayMerge {
  import opened Octets
  import opened Lex
  import opened ExportMerge

  // ---- how far each file has been read --------------------------------------------------

  predicate Positions(files: seq<seq<Line>>, pos: seq<nat>) {
    |pos| == |files| && forall f :: 0 <= f < |files| ==> pos[f] <= |files[f]|
  }

  /** The lines already taken from each file. */
  function Taken(files: seq<seq<Line>>, pos: seq<nat>): (parts: seq<seq<Line>>)
    requires Positions(files, pos)
    ensures |parts| == |files|
    ensures forall f :: 0 <= f < |files| ==> parts[f] == files[f][..pos[f]]
  {
    seq(|files|, f requires 0 <= f < |files| => files[f][..pos[f]])
  }

  function Remaining(files: seq<seq<Line>>, pos: seq<nat>): (n: nat)
    requires Positions(files, pos)
  {
    if files == [] then 0
    else
      var n := |files| - 1;
      Remaining(files[..n], pos[..n]) + (|files[n]| - pos[n])
  }

  lemma {:induction false} TakeLowersRemaining(files: seq<seq<Line>>, pos: seq<nat>, f: nat)
    requires Positions(files, pos) && f < |files| && pos[f] < |files[f]|
    ensures Remaining(files, pos[f := pos[f] + 1]) == Remaining(files, pos) - 1
  {
    var n := |files| - 1;
    var pos' := pos[f := pos[f] + 1];
    if f == n {
      assert pos'[..n] == pos[..n];
    } else {
      assert pos'[..n] == pos[..n][f := pos[f] + 1];
      TakeLowersRemaining(files[..n], pos[..n], f);
    }
  }

  /** Replacing one file by itself plus a line adds exactly that line's say. */
  lemma {:induction false} TotalOfTake(parts: seq<seq<Line>>, f: nat, l: Line, k: San)
    requires f < |parts|
    ensures FilesTotal(parts[f := parts[f] + [l]], k) == FilesTotal(parts, k) + Says(l, k)
  {
    var n := |parts| - 1;
    var parts': seq<seq<Line>> := parts[f := parts[f] + [l]];
    if f == n {
      assert parts'[..n] == parts[..n];
      assert (parts[f] + [l])[..|parts[f]|] == parts[f];
    } else {
      assert parts'[..n] == parts[..n][f := parts[f] + [l]];
      TotalOfTake(parts[..n], f, l, k);
    }
  }

  lemma TakenNext(files: seq<seq<Line>>, pos: seq<nat>, f: nat)
    requires Positions(files, pos) && f < |files| && pos[f] < |files[f]|
    ensures Positions(files, pos[f := pos[f] + 1])
    ensures Taken(files, pos[f := pos[f] + 1]) == Taken(files, pos)[f := Taken(files, pos)[f] + [files[f][pos[f]]]]
  {
    assert files[f][..pos[f] + 1] == files[f][..pos[f]] + [files[f][pos[f]]];
  }

  lemma {:induction false} AbsentFromFiles(files: seq<seq<Line>>, k: San)
    requires !InFiles(files, k.domain)
    ensures FilesTotal(files, k) == 0
  {
    if files != [] {
      var n := |files| - 1;
      assert files == files[..n] + [files[n]];
      InFilesSnoc(files[..n], files[n], k.domain);
      AbsentFromFiles(files[..n], k);
      AbsentTotal(files[n], k);
    }
  }

  lemma InFilesOfTake(parts: seq<seq<Line>>, f: nat, l: Line, d: Bytes)
    requires f < |parts|
    ensures InFiles(parts[f := parts[f] + [l]], d) <==> InFiles(parts, d) || d == l.domain
  {
    var parts': seq<seq<Line>> := parts[f := parts[f] + [l]];
    if InFiles(parts, d) {
      var i :| 0 <= i < |parts| && HasLine(parts[i], d);
      var j :| 0 <= j < |parts[i]| && parts[i][j].domain == d;
      assert parts'[i][j].domain == d && HasLine(parts'[i], d);
    }
    if d == l.domain {
      assert parts'[f][|parts[f]|].domain == d && HasLine(parts'[f], d);
    }
    if InFiles(parts', d) && d != l.domain {
      var i :| 0 <= i < |parts'| && HasLine(parts'[i], d);
      var j :| 0 <= j < |parts'[i]| && parts'[i][j].domain == d;
      assert parts[i][j].domain == d && HasLine(parts[i], d);
    }
  }

  // ---- the merge invariant ----------------------------------------------------------------

  /** A line whose two counters are what the 32-bit sums over these files would be. */
  ghost predicate Sums(l: Line, parts: seq<seq<Line>>) {
    && l.direct == FilesTotal(parts, San(l.domain, false)) % TWO32
    && l.wild == FilesTotal(parts, San(l.domain, true)) % TWO32
  }

  /** Nothing still to come is below the name being summed. */
  ghost predicate RestFrom(files: seq<seq<Line>>, pos: seq<nat>, d: Bytes)
    requires Positions(files, pos)
  {
    forall f, i :: 0 <= f < |files| && pos[f] <= i < |files[f]| ==> Leq(d, files[f][i].domain)
  }

  /** `out` has the finished names in order, `cur` the one under way; the empty name means none yet. */
  ghost predicate MergeInv(parts: seq<seq<Line>>, out: seq<Line>, cur: Line) {
    && SortedFile(out)
    && cur.direct < TWO32 && cur.wild < TWO32
    && (forall i :: 0 <= i < |out| ==> Less(out[i].domain, cur.domain) && Sums(out[i], parts))
    && (cur.domain != [] ==> Sums(cur, parts))
    && (forall d :: InFiles(parts, d) <==> HasLine(out, d) || (d == cur.domain && d != []))
  }

  /** What the merge does with one popped line. */
  function NextCur(cur: Line, item: Line): (l: Line) {
    if item.domain != cur.domain then item
    else Line(cur.domain, (cur.direct + item.direct) % TWO32, (cur.wild + item.wild) % TWO32)
  }

  function NextOut(out: seq<Line>, cur: Line, item: Line): (o: seq<Line>) {
    if item.domain != cur.domain && cur.domain != [] then out + [cur] else out
  }

  lemma SumsUnaffected(l: Line, parts: seq<seq<Line>>, f: nat, item: Line)
    requires f < |parts| && Sums(l, parts) && l.domain != item.domain
    ensures Sums(l, parts[f := parts[f] + [item]])
  {
    TotalOfTake(parts, f, item, San(l.domain, false));
    TotalOfTake(parts, f, item, San(l.domain, true));
  }

  lemma AddMod32(t: nat, x: nat)
    ensures (t % TWO32 + x) % TWO32 == (t + x) % TWO32
  {
  }

  lemma SumsOfCur(parts: seq<seq<Line>>, out: seq<Line>, cur: Line, f: nat, item: Line)
    requires MergeInv(parts, out, cur) && f < |parts|
    requires Leq(cur.domain, item.domain) && item.domain != [] && item.direct < TWO32 && item.wild < TWO32
    ensures Sums(NextCur(cur, item), parts[f := parts[f] + [item]])
  {
    var kd, kw := San(item.domain, false), San(item.domain, true);
    TotalOfTake(parts, f, item, kd);
    TotalOfTake(parts, f, item, kw);
    if item.domain != cur.domain {
      forall i | 0 <= i < |out| ensures out[i].domain != item.domain {
        Transitive(out[i].domain, cur.domain, item.domain);
        Asymmetric(out[i].domain, item.domain);
      }
      assert !InFiles(parts, item.domain);
      AbsentFromFiles(parts, kd);
      AbsentFromFiles(parts, kw);
    } else {
      AddMod32(FilesTotal(parts, kd), item.direct);
      AddMod32(FilesTotal(parts, kw), item.wild);
    }
  }

  lemma HasLineSnoc(f: seq<Line>, l: Line, d: Bytes)
    ensures HasLine(f + [l], d) <==> HasLine(f, d) || d == l.domain
  {
    if HasLine(f, d) {
      var i :| 0 <= i < |f| && f[i].domain == d;
      assert (f + [l])[i].domain == d;
    }
    if d == l.domain {
      assert (f + [l])[|f|].domain == d;
    }
  }

  /** Every popped line keeps the merge on course, whichever of several equal names came first. */
  lemma MergeStep(parts: seq<seq<Line>>, out: seq<Line>, cur: Line, f: nat, item: Line)
    requires MergeInv(parts, out, cur) && f < |parts|
    requires Leq(cur.domain, item.domain) && item.domain != [] && item.direct < TWO32 && item.wild < TWO32
    ensures MergeInv(parts[f := parts[f] + [item]], NextOut(out, cur, item), NextCur(cur, item))
  {
    var parts', out', cur' := parts[f := parts[f] + [item]], NextOut(out, cur, item), NextCur(cur, item);
    SumsOfCur(parts, out, cur, f, item);
    forall i | 0 <= i < |out'| ensures Less(out'[i].domain, cur'.domain) && Sums(out'[i], parts') {
      if i < |out| {
        LeqTransitive(out[i].domain, cur.domain, item.domain);
        Asymmetric(out[i].domain, item.domain);
        SumsUnaffected(out[i], parts, f, item);
      } else {
        SumsUnaffected(cur, parts, f, item);
      }
    }
    forall d ensures InFiles(parts', d) <==> HasLine(out', d) || (d == cur'.domain && d != []) {
      InFilesOfTake(parts, f, item, d);
      HasLineSnoc(out, cur, d);
    }
    assert SortedFile(out');
  }

  // ---- the merge --------------------------------------------------------------------------

  ghost predicate AllSorted(files: seq<seq<Line>>) {
    forall f :: 0 <= f < |files| ==> SortedFile(files[f])
  }

  /** The result of merging: each name once and in order, with the 32-bit sum of its counts. */
  ghost predicate Merges(files: seq<seq<Line>>, out: seq<Line>) {
    && SortedFile(out)
    && (forall d :: HasLine(out, d) <==> InFiles(files, d))
    && (forall i :: 0 <= i < |out| ==> Sums(out[i], files))
  }

  lemma PopKeepsRest(files: seq<seq<Line>>, pos: seq<nat>, f: nat, d: Bytes)
    requires AllSorted(files) && Positions(files, pos) && f < |files| && pos[f] < |files[f]|
    requires d == files[f][pos[f]].domain
    requires forall g :: 0 <= g < |files| && pos[g] < |files[g]| ==> !Less(files[g][pos[g]].domain, d)
    ensures RestFrom(files, pos[f := pos[f] + 1], d)
  {
    forall g, i | 0 <= g < |files| && pos[f := pos[f] + 1][g] <= i < |files[g]| ensures Leq(d, files[g][i].domain) {
      var head := files[g][pos[g]].domain;
      Total(head, d);
      assert SortedFile(files[g]);
      if i > pos[g] {
        LeqTransitive(d, head, files[g][i].domain);
      }
    }
  }

  /** The files with lines left. */
  function Live(files: seq<seq<Line>>, pos: seq<nat>): (heap: set<int>)
    requires Positions(files, pos)
  {
    set f | 0 <= f < |files| && pos[f] < |files[f]|
  }

  lemma LiveAfterPop(files: seq<seq<Line>>, pos: seq<nat>, f: nat)
    requires Positions(files, pos) && f < |files| && pos[f] < |files[f]|
    ensures Positions(files, pos[f := pos[f] + 1])
    ensures Live(files, pos[f := pos[f] + 1]) == Live(files, pos) - if pos[f] + 1 == |files[f]| then {f} else {}
  {
  }

  /** The heap holds the files with lines left; each turn pops one with a least name. */
  method KMerge(files: seq<seq<Line>>) returns (out: seq<Line>)
    requires AllSorted(files)
    ensures Merges(files, out)
  {
    out := [];
    var cur := Line([], 0, 0);
    var pos: seq<nat> := seq(|files|, _ => 0);
    var heap := set f | 0 <= f < |files| && |files[f]| > 0;
    Untouched(files, pos);
    while heap != {}
      invariant Positions(files, pos)
      invariant heap == Live(files, pos)
      invariant MergeInv(Taken(files, pos), out, cur)
      invariant RestFrom(files, pos, cur.domain)
      decreases Remaining(files, pos)
    {
      var f := PopLeast(files, pos, heap);
      var item := files[f][pos[f]];
      PopStep(files, pos, out, cur, f);
      LiveAfterPop(files, pos, f);
      out := NextOut(out, cur, item);
      cur := NextCur(cur, item);
      pos := pos[f := pos[f] + 1];
      if pos[f] == |files[f]| {
        heap := heap - {f};
      }
    }
    forall f | 0 <= f < |files| ensures pos[f] == |files[f]| {
      assert f !in heap;
    }
    Exhausted(files, pos);
    FinishMerge(files, out, cur);
    if cur.domain != [] {
      out := out + [cur];
    }
  }

  lemma PopStep(files: seq<seq<Line>>, pos: seq<nat>, out: seq<Line>, cur: Line, f: nat)
    requires AllSorted(files) && Positions(files, pos) && f < |files| && pos[f] < |files[f]|
    requires MergeInv(Taken(files, pos), out, cur) && RestFrom(files, pos, cur.domain)
    requires forall g :: 0 <= g < |files| && pos[g] < |files[g]| ==>
                           !Less(files[g][pos[g]].domain, files[f][pos[f]].domain)
    ensures
      var item, pos' := files[f][pos[f]], pos[f := pos[f] + 1];
      && Positions(files, pos')
      && MergeInv(Taken(files, pos'), NextOut(out, cur, item), NextCur(cur, item))
      && RestFrom(files, pos', NextCur(cur, item).domain)
      && Remaining(files, pos') < Remaining(files, pos)
  {
    assert SortedFile(files[f]);
    TakenNext(files, pos, f);
    MergeStep(Taken(files, pos), out, cur, f, files[f][pos[f]]);
    PopKeepsRest(files, pos, f, files[f][pos[f]].domain);
    TakeLowersRemaining(files, pos, f);
  }

  /** Emitting the last name under way completes the merge. */
  lemma FinishMerge(files: seq<seq<Line>>, out: seq<Line>, cur: Line)
    requires MergeInv(files, out, cur)
    ensures Merges(files, if cur.domain != [] then out + [cur] else out)
  {
    forall d ensures HasLine(out + [cur], d) <==> HasLine(out, d) || d == cur.domain {
      HasLineSnoc(out, cur, d);
    }
  }

  lemma Untouched(files: seq<seq<Line>>, pos: seq<nat>)
    requires |pos| == |files| && forall f :: 0 <= f < |files| ==> pos[f] == 0
    ensures Positions(files, pos) && MergeInv(Taken(files, pos), [], Line([], 0, 0))
    ensures RestFrom(files, pos, [])
  {
    forall f, i | 0 <= f < |files| && 0 <= i < |files[f]| ensures Leq([], files[f][i].domain) {
    }
  }

  lemma Exhausted(files: seq<seq<Line>>, pos: seq<nat>)
    requires Positions(files, pos) && forall f :: 0 <= f < |files| ==> pos[f] == |files[f]|
    ensures Taken(files, pos) == files
  {
    forall f | 0 <= f < |files| ensures Taken(files, pos)[f] == files[f] {
      assert files[f][..|files[f]|] == files[f];
    }
  }

  /** Any element of the heap with no smaller name beside it; ties are open. */
  method PopLeast(files: seq<seq<Line>>, pos: seq<nat>, heap: set<int>) returns (f: nat)
    requires Positions(files, pos) && heap != {}
    requires heap == Live(files, pos)
    ensures f < |files| && pos[f] < |files[f]|
    ensures forall g :: 0 <= g < |files| && pos[g] < |files[g]| ==>
                          !Less(files[g][pos[g]].domain, files[f][pos[f]].domain)
  {
    var least :| least in heap;
    var rest := heap - {least};
    Irreflexive(files[least][pos[least]].domain);
    while rest != {}
      invariant least in heap && rest <= heap
      invariant forall g :: g in heap - rest ==> !Less(files[g][pos[g]].domain, files[least][pos[least]].domain)
      decreases |rest|
    {
      var g :| g in rest;
      rest := rest - {g};
      if Less(files[g][pos[g]].domain, files[least][pos[least]].domain) {
        forall h | h in heap - rest ensures !Less(files[h][pos[h]].domain, files[g][pos[g]].domain) {
          Irreflexive(files[g][pos[g]].domain);
          if h != g && Less(files[h][pos[h]].domain, files[g][pos[g]].domain) {
            Transitive(files[h][pos[h]].domain, files[g][pos[g]].domain, files[least][pos[least]].domain);
          }
        }
        least := g;
      }
    }
    f := least;
  }

  // ---- the whole export ------------------------------------------------------------------------

  lemma MergedLine(files: seq<seq<Line>>, batches: seq<seq<San>>, l: Line)
    requires Tallies(files, batches) && Sums(l, files)
    ensures Exact(l, Flat(batches)) <==> Fits(Flat(batches), l.domain)
  {
    if Fits(Flat(batches), l.domain) {
      TalliesAddUp(files, batches, San(l.domain, false));
      TalliesAddUp(files, batches, San(l.domain, true));
    }
  }

  /** Merging files that each agree with a plain count agrees with the plain count of everything. */
  lemma MergeOfTallies(files: seq<seq<Line>>, batches: seq<seq<San>>, out: seq<Line>)
    requires Tallies(files, batches) && Merges(files, out)
    ensures Tally(out, Flat(batches))
  {
    forall d ensures HasLine(out, d) <==> Occurs(Flat(batches), d) {
      TalliesMention(files, batches, d);
    }
    forall i | 0 <= i < |out| ensures Exact(out[i], Flat(batches)) <==> Fits(Flat(batches), out[i].domain) {
      MergedLine(files, batches, out[i]);
    }
  }

  /** One day: chunks at any flush interval, merged, agree with a plain count of the day's rows. */
  method BuildDateExport(rows: seq<seq<San>>, flushEvery: int) returns (out: seq<Line>)
    requires flushEvery > 0 && forall i :: 0 <= i < |rows| ==> Named(rows[i])
    ensures Tally(out, Flat(rows))
  {
    var chunks;
    ghost var batches;
    chunks, batches := BuildChunks(rows, flushEvery);
    out := KMerge(chunks);
    MergeOfTallies(chunks, batches, out);
  }

  /** The SANs of each day, in row order. */
  function DaySans(days: seq<seq<seq<San>>>): (sans: seq<seq<San>>)
    ensures |sans| == |days|
    ensures forall i | 0 <= i < |days| :: sans[i] == Flat(days[i])
  {
    seq(|days|, i requires 0 <= i < |days| => Flat(days[i]))
  }
}
