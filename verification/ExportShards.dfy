/** The final outputs of the export: the merged list split into shard files, and
    the names seen directly told from those seen only under a wildcard. */
module ExportShards {
  import opened Octets
  import opened Lex
  import opened ExportMerge
  import opened KWayMerge

  /** A shard file: its directory and its bucket. */
  datatype Shard = Shard(tld: string, bucket: string)

  /** The lines that satisfy a condition, in order. */
  function Keep(f: seq<Line>, p: Line -> bool): (out: seq<Line>) {
    if f == [] then []
    else
      var n := |f| - 1;
      Keep(f[..n], p) + if p(f[n]) then [f[n]] else []
  }

  lemma {:induction false} KeepMembers(f: seq<Line>, p: Line -> bool)
    ensures forall l :: l in Keep(f, p) <==> l in f && p(l)
  {
    if f != [] {
      var n := |f| - 1;
      assert f == f[..n] + [f[n]];
      KeepMembers(f[..n], p);
    }
  }

  lemma {:induction false} KeepSorted(f: seq<Line>, p: Line -> bool)
    requires SortedFile(f)
    ensures SortedFile(Keep(f, p))
  {
    if f != [] {
      var n := |f| - 1;
      assert f == f[..n] + [f[n]] && SortedFile(f[..n]);
      KeepSorted(f[..n], p);
      KeepMembers(f[..n], p);
      if p(f[n]) {
        SortedSnoc(f[..n], Keep(f[..n], p), f[n]);
      }
    }
  }

  lemma SortedSnoc(all: seq<Line>, kept: seq<Line>, l: Line)
    requires SortedFile(all + [l]) && SortedFile(kept) && forall x | x in kept :: x in all
    ensures SortedFile(kept + [l])
  {
    assert (all + [l])[|all|] == l;
    forall i | 0 <= i < |kept| ensures Less(kept[i].domain, l.domain) {
      assert kept[i] in all;
      var j :| 0 <= j < |all| && all[j] == kept[i];
      assert (all + [l])[j] == kept[i];
    }
  }

  function FileAt(shards: map<Shard, seq<Line>>, k: Shard): (f: seq<Line>) {
    if k in shards then shards[k] else []
  }

  function InShard(key: Bytes -> Shard, k: Shard): Line -> bool {
    (l: Line) => key(l.domain) == k
  }

  function SeenDirectly(): Line -> bool {
    (l: Line) => l.direct > 0
  }

  function WildcardOnly(): Line -> bool {
    (l: Line) => l.direct == 0
  }

  function Names(f: seq<Line>): (ds: seq<Bytes>)
    ensures |ds| == |f| && forall i | 0 <= i < |f| :: ds[i] == f[i].domain
  {
    if f == [] then [] else Names(f[..|f| - 1]) + [f[|f| - 1].domain]
  }

  /** Each line goes to its shard's file, opened at the first line, and its name to one of two lists. */
  method Distribute(merged: seq<Line>, key: Bytes -> Shard)
    returns (shards: map<Shard, seq<Line>>, direct: seq<Bytes>, wildOnly: seq<Bytes>)
    ensures forall k :: FileAt(shards, k) == Keep(merged, InShard(key, k))
    ensures direct == Names(Keep(merged, SeenDirectly()))
    ensures wildOnly == Names(Keep(merged, WildcardOnly()))
  {
    shards, direct, wildOnly := map[], [], [];
    for i := 0 to |merged|
      invariant forall k :: FileAt(shards, k) == Keep(merged[..i], InShard(key, k))
      invariant direct == Names(Keep(merged[..i], SeenDirectly()))
      invariant wildOnly == Names(Keep(merged[..i], WildcardOnly()))
    {
      var l := merged[i];
      var k := key(l.domain);
      KeepNext(merged, i, SeenDirectly());
      KeepNext(merged, i, WildcardOnly());
      forall j
        ensures Keep(merged[..i + 1], InShard(key, j))
             == Keep(merged[..i], InShard(key, j)) + if j == k then [l] else []
      {
        KeepNext(merged, i, InShard(key, j));
      }
      shards := shards[k := FileAt(shards, k) + [l]];
      if l.direct > 0 {
        NamesSnoc(Keep(merged[..i], SeenDirectly()), l);
        direct := direct + [l.domain];
      } else {
        NamesSnoc(Keep(merged[..i], WildcardOnly()), l);
        wildOnly := wildOnly + [l.domain];
      }
    }
    assert merged[..|merged|] == merged;
  }

  lemma KeepNext(f: seq<Line>, i: nat, p: Line -> bool)
    requires i < |f|
    ensures Keep(f[..i + 1], p) == Keep(f[..i], p) + if p(f[i]) then [f[i]] else []
  {
    assert f[..i + 1][..i] == f[..i];
  }

  lemma NamesSnoc(f: seq<Line>, l: Line)
    ensures Names(f + [l]) == Names(f) + [l.domain]
  {
    assert (f + [l])[..|f|] == f;
  }

  // ---- what the outputs say -----------------------------------------------------------

  /** Every line is in the file of its own shard and in no other, and each file is sorted. */
  ghost predicate Partitions(shards: map<Shard, seq<Line>>, merged: seq<Line>, key: Bytes -> Shard) {
    && (forall k :: SortedFile(FileAt(shards, k)))
    && (forall k, l :: l in FileAt(shards, k) <==> l in merged && key(l.domain) == k)
  }

  /** The two lists split the names that occur, as far as the counters can tell them apart. */
  ghost predicate Separates(direct: seq<Bytes>, wildOnly: seq<Bytes>, sans: seq<San>) {
    && (forall d :: Fits(sans, d) ==> (d in direct <==> San(d, false) in multiset(sans)))
    && (forall d :: Fits(sans, d) ==>
          (d in wildOnly <==> San(d, true) in multiset(sans) && San(d, false) !in multiset(sans)))
    && (forall d :: d in direct || d in wildOnly <==> Occurs(sans, d))
    && (forall d :: !(d in direct && d in wildOnly))
    && (forall i, j | 0 <= i < j < |direct| :: Less(direct[i], direct[j]))
    && (forall i, j | 0 <= i < j < |wildOnly| :: Less(wildOnly[i], wildOnly[j]))
  }

  ghost predicate Listed(f: seq<Line>, p: Line -> bool, d: Bytes) {
    exists i :: 0 <= i < |f| && ListedAt(f, p, d, i)
  }

  predicate ListedAt(f: seq<Line>, p: Line -> bool, d: Bytes, i: nat)
    requires i < |f|
  {
    f[i].domain == d && p(f[i])
  }

  lemma {:induction false} NamesMembers(f: seq<Line>, p: Line -> bool, d: Bytes)
    ensures d in Names(Keep(f, p)) <==> Listed(f, p, d)
  {
    if f != [] {
      var n := |f| - 1;
      NamesMembers(f[..n], p, d);
      ListedSnoc(f, p, d);
      if p(f[n]) {
        NamesSnoc(Keep(f[..n], p), f[n]);
      } else {
        assert Keep(f, p) == Keep(f[..n], p);
      }
    }
  }

  lemma ListedSnoc(f: seq<Line>, p: Line -> bool, d: Bytes)
    requires f != []
    ensures Listed(f, p, d) <==> Listed(f[..|f| - 1], p, d) || ListedAt(f, p, d, |f| - 1)
  {
    var front := f[..|f| - 1];
    if Listed(front, p, d) {
      var i :| 0 <= i < |front| && ListedAt(front, p, d, i);
      assert ListedAt(f, p, d, i);
    }
    if Listed(f, p, d) {
      var i :| 0 <= i < |f| && ListedAt(f, p, d, i);
      assert i < |front| ==> ListedAt(front, p, d, i);
    }
  }

  lemma ListsSeparate(merged: seq<Line>, sans: seq<San>)
    requires Tally(merged, sans)
    ensures Separates(Names(Keep(merged, SeenDirectly())), Names(Keep(merged, WildcardOnly())), sans)
  {
    var direct, wildOnly := Names(Keep(merged, SeenDirectly())), Names(Keep(merged, WildcardOnly()));
    KeepSorted(merged, SeenDirectly());
    KeepSorted(merged, WildcardOnly());
    forall d
      ensures Fits(sans, d) ==> (d in direct <==> San(d, false) in multiset(sans))
      ensures Fits(sans, d) ==> (d in wildOnly <==> San(d, true) in multiset(sans) && San(d, false) !in multiset(sans))
      ensures d in direct || d in wildOnly <==> Occurs(sans, d)
      ensures !(d in direct && d in wildOnly)
    {
      NameSeparates(merged, sans, d);
    }
  }

  lemma NameSeparates(merged: seq<Line>, sans: seq<San>, d: Bytes)
    requires Tally(merged, sans)
    ensures var direct, wildOnly := Names(Keep(merged, SeenDirectly())), Names(Keep(merged, WildcardOnly()));
            && (Fits(sans, d) ==> (d in direct <==> San(d, false) in multiset(sans)))
            && (Fits(sans, d) ==>
                  (d in wildOnly <==> San(d, true) in multiset(sans) && San(d, false) !in multiset(sans)))
            && (d in direct || d in wildOnly <==> Occurs(sans, d))
            && !(d in direct && d in wildOnly)
  {
    NamesMembers(merged, SeenDirectly(), d);
    NamesMembers(merged, WildcardOnly(), d);
    assert HasLine(merged, d) <==> Occurs(sans, d);
    if HasLine(merged, d) {
      var i :| 0 <= i < |merged| && merged[i].domain == d;
      assert Exact(merged[i], sans) <==> Fits(sans, d);
      assert if merged[i].direct > 0 then ListedAt(merged, SeenDirectly(), d, i)
             else ListedAt(merged, WildcardOnly(), d, i);
      forall j | 0 <= j < |merged| && merged[j].domain == d ensures j == i {
        Irreflexive(d);
      }
    }
  }

  /** Merge and shard: the sorted list of counts tallies every row, each of its lines is in exactly
      one shard file, and the two name lists separate direct from wildcard-only names. */
  method MergeAndShard(exports: seq<seq<Line>>, key: Bytes -> Shard, ghost batches: seq<seq<San>>)
    returns (counts: seq<Line>, shards: map<Shard, seq<Line>>, direct: seq<Bytes>, wildOnly: seq<Bytes>)
    requires Tallies(exports, batches)
    ensures Tally(counts, Flat(batches))
    ensures Partitions(shards, counts, key)
    ensures Separates(direct, wildOnly, Flat(batches))
  {
    counts := KMerge(exports);
    MergeOfTallies(exports, batches, counts);
    shards, direct, wildOnly := Distribute(counts, key);
    forall k ensures SortedFile(FileAt(shards, k)) {
      KeepSorted(counts, InShard(key, k));
    }
    forall k, l ensures l in FileAt(shards, k) <==> l in counts && key(l.domain) == k {
      KeepMembers(counts, InShard(key, k));
    }
    ListsSeparate(counts, Flat(batches));
  }

  /** All days: whatever the flush interval and however the rows fall into chunks and days, the
      outputs are those of one plain count of every row of every day. */
  method ExportAll(days: seq<seq<seq<San>>>, flushEvery: int, key: Bytes -> Shard)
    returns (counts: seq<Line>, shards: map<Shard, seq<Line>>, direct: seq<Bytes>, wildOnly: seq<Bytes>)
    requires flushEvery > 0 && forall i, j :: 0 <= i < |days| && 0 <= j < |days[i]| ==> Named(days[i][j])
    ensures Tally(counts, Flat(DaySans(days)))
    ensures Partitions(shards, counts, key)
    ensures Separates(direct, wildOnly, Flat(DaySans(days)))
  {
    ghost var batches := DaySans(days);
    var exports: seq<seq<Line>> := [];
    for i := 0 to |days|
      invariant |exports| == i && Tallies(exports, batches[..i])
    {
      var e := BuildDateExport(days[i], flushEvery);
      TalliesSnoc(exports, batches[..i], e, Flat(days[i]));
      assert batches[..i + 1] == batches[..i] + [Flat(days[i])];
      exports := exports + [e];
    }
    assert batches[..|days|] == batches;
    counts, shards, direct, wildOnly := MergeAndShard(exports, key, batches);
  }
}
