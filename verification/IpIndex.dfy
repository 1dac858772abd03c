/** The IP-to-domain index as one file and as shards, and lookups in both. */
module IpIndex {
  import opened Octets
  import opened IpKeys
  import opened Wrappers
  import Lex

  /** A nullable fetch time; NULL sorts after every time when descending. */
  datatype Stamp = Null | At(time: int)

  datatype Row = Row(ip: Key, domain: Bytes, fetched: Stamp)

  predicate Newer(a: Stamp, b: Stamp) {
    a.At? && (b.Null? || a.time > b.time)
  }

  predicate PairLess(a: Row, b: Row) {
    Lex.Less(a.ip, b.ip) || (a.ip == b.ip && Lex.Less(a.domain, b.domain))
  }

  predicate SamePair(a: Row, b: Row) {
    a.ip == b.ip && a.domain == b.domain
  }

  /** ORDER BY ip, domain, fetched_at DESC */
  predicate Before(a: Row, b: Row) {
    PairLess(a, b) || (SamePair(a, b) && !Newer(b.fetched, a.fetched))
  }

  /** The order written out, and any two rows compare: every corpus can be streamed in it. */
  lemma BeforeSpelled(a: Row, b: Row)
    ensures Before(a, b) <==>
              || Lex.Less(a.ip, b.ip)
              || (a.ip == b.ip && Lex.Less(a.domain, b.domain))
              || (a.ip == b.ip && a.domain == b.domain
                  && (b.fetched.At? ==> a.fetched.At? && a.fetched.time >= b.fetched.time))
    ensures Before(a, b) || Before(b, a)
  {
    Lex.Total(a.ip, b.ip);
    Lex.Total(a.domain, b.domain);
  }

  ghost predicate Ordered(s: seq<Row>) {
    forall i, j | 0 <= i < j < |s| :: Before(s[i], s[j])
  }

  ghost predicate StrictlyOrdered(s: seq<Row>) {
    forall i, j | 0 <= i < j < |s| :: PairLess(s[i], s[j])
  }

  /** A row that no other row of its (ip, domain) pair is newer than. */
  ghost predicate Freshest(rows: seq<Row>, r: Row) {
    r in rows && forall s | s in rows && SamePair(s, r) :: !Newer(s.fetched, r.fetched)
  }

  lemma PairTransitive(a: Row, b: Row, c: Row)
    requires PairLess(a, b) && PairLess(b, c)
    ensures PairLess(a, c)
  {
    if Lex.Less(a.ip, b.ip) && Lex.Less(b.ip, c.ip) {
      Lex.Transitive(a.ip, b.ip, c.ip);
    } else if !Lex.Less(a.ip, b.ip) && !Lex.Less(b.ip, c.ip) {
      Lex.Transitive(a.domain, b.domain, c.domain);
    }
  }

  lemma PairAsymmetric(a: Row, b: Row)
    requires PairLess(a, b)
    ensures !PairLess(b, a) && !SamePair(a, b)
  {
    if a.ip == b.ip {
      Lex.Irreflexive(a.ip);
      Lex.Asymmetric(a.domain, b.domain);
    } else {
      Lex.Asymmetric(a.ip, b.ip);
    }
  }

  /** One sequence only lists a given set of rows in strict order. */
  lemma {:induction false} OrderIsUnique(a: seq<Row>, b: seq<Row>)
    requires StrictlyOrdered(a) && StrictlyOrdered(b)
    requires forall r :: r in a <==> r in b
    ensures a == b
  {
    if b != [] {
      HasFirst(b);
    }
    if a != [] {
      HasFirst(a);
      SameFirst(a, b);
      forall r
        ensures r in a[1..] <==> r in b[1..]
      {
        InTail(a, r);
        InTail(b, r);
      }
      OrderIsUnique(a[1..], b[1..]);
      assert a == [a[0]] + a[1..] && b == [b[0]] + b[1..];
    }
  }

  lemma HasFirst(s: seq<Row>)
    requires s != []
    ensures s[0] in s
  {
  }

  lemma SameFirst(a: seq<Row>, b: seq<Row>)
    requires StrictlyOrdered(a) && StrictlyOrdered(b) && a != [] && b != [] && a[0] in b && b[0] in a
    ensures a[0] == b[0]
  {
    var i :| 0 <= i < |b| && b[i] == a[0];
    var j :| 0 <= j < |a| && a[j] == b[0];
    if i > 0 && j > 0 {
      PairAsymmetric(a[0], a[j]);
      assert false;
    }
  }

  lemma InTail(s: seq<Row>, r: Row)
    requires StrictlyOrdered(s) && s != []
    ensures r in s[1..] <==> r in s && r != s[0]
  {
    assert s == [s[0]] + s[1..];
    if s[0] in s[1..] {
      var i :| 1 <= i < |s| && s[i] == s[0];
      PairAsymmetric(s[0], s[i]);
      assert false;
    }
  }

  // ------------------------------------------------------------- building

  lemma SkipKeepsFreshest(seen: seq<Row>, row: Row, last: Row)
    requires last in seen && SamePair(last, row) && !Newer(row.fetched, last.fetched)
    requires Freshest(seen, last)
    ensures forall r :: Freshest(seen + [row], r) <==> Freshest(seen, r)
  {
    forall r
      ensures Freshest(seen + [row], r) <==> Freshest(seen, r)
    {
      SkipOne(seen, row, last, r);
    }
  }

  lemma SkipOne(seen: seq<Row>, row: Row, last: Row, r: Row)
    requires last in seen && SamePair(last, row) && !Newer(row.fetched, last.fetched)
    requires Freshest(seen, last)
    ensures Freshest(seen + [row], r) <==> Freshest(seen, r)
  {
    assert forall x :: x in seen + [row] <==> x in seen || x == row;
    assert Freshest(seen + [row], r) && r == row ==> r == last;
    if Freshest(seen, r) && SamePair(row, r) {
      assert SamePair(last, r) && !Newer(last.fetched, r.fetched);
    }
  }

  lemma TakeAddsFreshest(seen: seq<Row>, row: Row)
    requires forall s | s in seen :: !SamePair(s, row)
    ensures forall r :: Freshest(seen + [row], r) <==> Freshest(seen, r) || r == row
  {
    assert forall x :: x in seen + [row] <==> x in seen || x == row;
  }

  /** Sort-then-unique: keep the first row of each run of equal pairs. */
  method BuildIP(stream: seq<Row>) returns (index: seq<Row>)
    requires Ordered(stream)
    ensures StrictlyOrdered(index)
    ensures forall r :: r in index <==> Freshest(stream, r)
  {
    index := [];
    var havePrev := false;
    var prevIP: Key := seq(16, _ => 0);
    var prevDomain: Bytes := [];
    for i := 0 to |stream|
      invariant StrictlyOrdered(index)
      invariant forall r :: r in index <==> Freshest(stream[..i], r)
      invariant havePrev <==> i > 0
      invariant havePrev ==> index != [] && SamePair(index[|index| - 1], stream[i - 1])
      invariant havePrev ==> index[|index| - 1].ip == prevIP && index[|index| - 1].domain == prevDomain
    {
      var row := stream[i];
      assert stream[..i + 1] == stream[..i] + [row];
      if havePrev && row.domain == prevDomain && row.ip == prevIP {
        SkipStep(stream, i, index[|index| - 1]);
        continue;
      }
      TakeStep(stream, i, index);
      index := index + [row];
      prevIP, prevDomain, havePrev := row.ip, row.domain, true;
    }
    assert stream[..|stream|] == stream;
  }

  lemma SkipStep(stream: seq<Row>, i: nat, last: Row)
    requires Ordered(stream) && i < |stream| && Freshest(stream[..i], last) && SamePair(last, stream[i])
    ensures forall r :: Freshest(stream[..i] + [stream[i]], r) <==> Freshest(stream[..i], r)
  {
    var j :| 0 <= j < i && stream[..i][j] == last;
    assert Before(stream[j], stream[i]);
    if PairLess(stream[j], stream[i]) {
      PairAsymmetric(stream[j], stream[i]);
    }
    SkipKeepsFreshest(stream[..i], stream[i], last);
  }

  lemma TakeStep(stream: seq<Row>, i: nat, index: seq<Row>)
    requires Ordered(stream) && i < |stream| && StrictlyOrdered(index)
    requires forall r :: r in index <==> Freshest(stream[..i], r)
    requires i > 0 ==> index != []
                       && !SamePair(index[|index| - 1], stream[i]) && SamePair(index[|index| - 1], stream[i - 1])
    ensures StrictlyOrdered(index + [stream[i]])
    ensures forall r :: Freshest(stream[..i] + [stream[i]], r) <==> Freshest(stream[..i], r) || r == stream[i]
  {
    var row := stream[i];
    forall s | s in stream[..i]
      ensures PairLess(s, row) && !SamePair(s, row)
    {
      var j :| 0 <= j < i && stream[..i][j] == s;
      assert PairLess(stream[i - 1], row);
      if j < i - 1 {
        assert Before(stream[j], stream[i - 1]);
        if PairLess(stream[j], stream[i - 1]) {
          PairTransitive(stream[j], stream[i - 1], row);
        }
      }
      PairAsymmetric(s, row);
    }
    TakeAddsFreshest(stream[..i], row);
    AppendOrdered(index, stream[..i], row);
  }

  lemma AppendOrdered(index: seq<Row>, seen: seq<Row>, row: Row)
    requires StrictlyOrdered(index)
    requires forall r | r in index :: r in seen
    requires forall s | s in seen :: PairLess(s, row)
    ensures StrictlyOrdered(index + [row])
  {
    forall i, j | 0 <= i < j < |index + [row]|
      ensures PairLess((index + [row])[i], (index + [row])[j])
    {
      if j == |index| {
        assert index[i] in index;
      }
    }
  }

  /** ORDER BY shard, ip, domain, fetched_at DESC: equal shards are together
      and each shard's rows are in order. */
  ghost predicate Grouped(s: seq<Row>, shard: Key -> string) {
    && (forall i, j, k :: Together(s, shard, i, j, k))
    && (forall i, j :: InOrder(s, shard, i, j))
  }

  ghost predicate Together(s: seq<Row>, shard: Key -> string, i: int, j: int, k: int) {
    0 <= i < j < k < |s| && shard(s[i].ip) == shard(s[k].ip) ==> shard(s[j].ip) == shard(s[i].ip)
  }

  ghost predicate InOrder(s: seq<Row>, shard: Key -> string, i: int, j: int) {
    0 <= i < j < |s| && shard(s[i].ip) == shard(s[j].ip) ==> Before(s[i], s[j])
  }

  /** A file holds its shard's freshest rows, in order, and nothing else. */
  ghost predicate HoldsShard(file: seq<Row>, rows: seq<Row>, shard: Key -> string, name: string) {
    && StrictlyOrdered(file)
    && forall r :: r in file <==> Freshest(rows, r) && shard(r.ip) == name
  }

  ghost predicate HasShard(rows: seq<Row>, shard: Key -> string, name: string) {
    exists i :: 0 <= i < |rows| && shard(rows[i].ip) == name
  }

  function FileOf(files: map<string, seq<Row>>, name: string): seq<Row> {
    if name in files then files[name] else []
  }

  /** A file for every shard that has rows, each exact. */
  ghost predicate HoldsAll(files: map<string, seq<Row>>, rows: seq<Row>, shard: Key -> string) {
    && (forall name :: name in files <==> HasShard(rows, shard, name))
    && (forall name :: HoldsShard(FileOf(files, name), rows, shard, name))
  }

  lemma GroupedPrefixEnds(s: seq<Row>, shard: Key -> string, i: nat)
    requires Grouped(s, shard) && 0 < i < |s| && shard(s[i - 1].ip) != shard(s[i].ip)
    ensures !HasShard(s[..i], shard, shard(s[i].ip))
  {
    forall j | 0 <= j < i
      ensures shard(s[..i][j].ip) != shard(s[i].ip)
    {
      assert s[..i][j] == s[j] && Together(s, shard, j, i - 1, i);
    }
  }

  lemma HasShardStep(seen: seq<Row>, row: Row, shard: Key -> string)
    ensures forall name :: HasShard(seen + [row], shard, name) <==> HasShard(seen, shard, name) || name == shard(row.ip)
  {
    var all := seen + [row];
    forall name
      ensures HasShard(all, shard, name) <==> HasShard(seen, shard, name) || name == shard(row.ip)
    {
      if HasShard(all, shard, name) && name != shard(row.ip) {
        var j :| 0 <= j < |all| && shard(all[j].ip) == name;
        assert seen[j] == all[j];
      }
      if HasShard(seen, shard, name) {
        var j :| 0 <= j < |seen| && shard(seen[j].ip) == name;
        assert all[j] == seen[j];
      }
      assert all[|seen|] == row;
    }
  }

  /** The row repeats its shard's last pair: every file stays exact. */
  lemma SkipInShard(s: seq<Row>, shard: Key -> string, i: nat, files: map<string, seq<Row>>, last: Row)
    requires Grouped(s, shard) && i < |s| && HoldsAll(files, s[..i], shard)
    requires Freshest(s[..i], last) && SamePair(last, s[i])
    ensures HoldsAll(files, s[..i + 1], shard)
  {
    RepeatIsOlder(s, shard, i, last);
    assert s[..i + 1] == s[..i] + [s[i]];
    FilesKept(files, s[..i], s[i], shard, last);
  }

  lemma RepeatIsOlder(s: seq<Row>, shard: Key -> string, i: nat, last: Row)
    requires Grouped(s, shard) && i < |s| && last in s[..i] && SamePair(last, s[i])
    ensures !Newer(s[i].fetched, last.fetched) && HasShard(s[..i], shard, shard(s[i].ip))
  {
    var j :| 0 <= j < i && s[..i][j] == last;
    assert InOrder(s, shard, j, i);
    if PairLess(s[j], s[i]) {
      PairAsymmetric(s[j], s[i]);
    }
    assert shard(s[..i][j].ip) == shard(s[i].ip);
  }

  lemma FilesKept(files: map<string, seq<Row>>, seen: seq<Row>, row: Row, shard: Key -> string, last: Row)
    requires HoldsAll(files, seen, shard) && HasShard(seen, shard, shard(row.ip))
    requires Freshest(seen, last) && SamePair(last, row) && !Newer(row.fetched, last.fetched)
    ensures HoldsAll(files, seen + [row], shard)
  {
    SkipKeepsFreshest(seen, row, last);
    HasShardStep(seen, row, shard);
    forall name
      ensures HoldsShard(FileOf(files, name), seen + [row], shard, name)
    {
      assert HoldsShard(FileOf(files, name), seen, shard, name);
    }
  }

  lemma NewPairInShard(s: seq<Row>, shard: Key -> string, i: nat)
    requires Grouped(s, shard) && i < |s|
    requires i > 0 && shard(s[i - 1].ip) == shard(s[i].ip) ==> !SamePair(s[i - 1], s[i])
    ensures forall x | x in s[..i] :: !SamePair(x, s[i])
    ensures forall x | x in s[..i] && shard(x.ip) == shard(s[i].ip) :: PairLess(x, s[i])
  {
    forall x | x in s[..i] && shard(x.ip) == shard(s[i].ip)
      ensures PairLess(x, s[i]) && !SamePair(x, s[i])
    {
      var j :| 0 <= j < i && s[..i][j] == x;
      assert Together(s, shard, j, i - 1, i) && InOrder(s, shard, i - 1, i);
      if j < i - 1 {
        assert InOrder(s, shard, j, i - 1);
        if PairLess(s[j], s[i - 1]) {
          PairTransitive(s[j], s[i - 1], s[i]);
        }
      }
      PairAsymmetric(x, s[i]);
    }
  }

  /** The row is its shard's next pair: only that file grows. */
  lemma TakeInShard(s: seq<Row>, shard: Key -> string, i: nat, files: map<string, seq<Row>>)
    requires Grouped(s, shard) && i < |s| && HoldsAll(files, s[..i], shard)
    requires i > 0 && shard(s[i - 1].ip) == shard(s[i].ip) ==> !SamePair(s[i - 1], s[i])
    ensures HoldsAll(files[shard(s[i].ip) := FileOf(files, shard(s[i].ip)) + [s[i]]], s[..i + 1], shard)
  {
    NewPairInShard(s, shard, i);
    TakeAddsFreshest(s[..i], s[i]);
    assert s[..i + 1] == s[..i] + [s[i]];
    FilesGrow(files, s[..i], s[i], shard);
  }

  lemma FilesGrow(files: map<string, seq<Row>>, seen: seq<Row>, row: Row, shard: Key -> string)
    requires HoldsAll(files, seen, shard)
    requires forall x | x in seen && shard(x.ip) == shard(row.ip) :: PairLess(x, row)
    requires forall r :: Freshest(seen + [row], r) <==> Freshest(seen, r) || r == row
    ensures HoldsAll(files[shard(row.ip) := FileOf(files, shard(row.ip)) + [row]], seen + [row], shard)
  {
    HasShardStep(seen, row, shard);
    var own := shard(row.ip);
    var now := files[own := FileOf(files, own) + [row]];
    forall name
      ensures HoldsShard(FileOf(now, name), seen + [row], shard, name)
    {
      if name == own {
        OwnFileGrows(FileOf(files, own), seen, row, shard);
      } else {
        OtherFileKept(FileOf(files, name), seen, row, shard, name);
        assert FileOf(now, name) == FileOf(files, name);
      }
    }
  }

  lemma OtherFileKept(file: seq<Row>, seen: seq<Row>, row: Row, shard: Key -> string, name: string)
    requires HoldsShard(file, seen, shard, name) && name != shard(row.ip)
    requires forall r :: Freshest(seen + [row], r) <==> Freshest(seen, r) || r == row
    ensures HoldsShard(file, seen + [row], shard, name)
  {
  }

  lemma OwnFileGrows(file: seq<Row>, seen: seq<Row>, row: Row, shard: Key -> string)
    requires HoldsShard(file, seen, shard, shard(row.ip))
    requires forall x | x in seen && shard(x.ip) == shard(row.ip) :: PairLess(x, row)
    requires forall r :: Freshest(seen + [row], r) <==> Freshest(seen, r) || r == row
    ensures HoldsShard(file + [row], seen + [row], shard, shard(row.ip))
  {
    forall i, j | 0 <= i < j < |file + [row]|
      ensures PairLess((file + [row])[i], (file + [row])[j])
    {
      if j == |file| {
        assert file[i] in file;
      }
    }
  }

  /** Where the writer stands after `i` rows. */
  ghost predicate Writing(files: map<string, seq<Row>>, cur: string, prev: Option<Row>, s: seq<Row>,
                          shard: Key -> string, i: nat)
    requires i <= |s|
  {
    && HoldsAll(files, s[..i], shard)
    && (prev.Some? <==> i > 0)
    && (prev.Some? ==>
          && cur == shard(s[i - 1].ip)
          && SamePair(prev.value, s[i - 1])
          && prev.value in FileOf(files, cur))
  }

  lemma WriterSkips(files: map<string, seq<Row>>, cur: string, prev: Option<Row>, s: seq<Row>, shard: Key -> string,
                    i: nat)
    requires Grouped(s, shard) && i < |s| && Writing(files, cur, prev, s, shard, i)
    requires prev.Some? && cur == shard(s[i].ip) && SamePair(prev.value, s[i])
    ensures Writing(files, cur, prev, s, shard, i + 1)
  {
    assert HoldsShard(FileOf(files, cur), s[..i], shard, cur);
    SkipInShard(s, shard, i, files, prev.value);
  }

  lemma WriterTakes(files: map<string, seq<Row>>, cur: string, prev: Option<Row>, s: seq<Row>, shard: Key -> string,
                    i: nat)
    requires Grouped(s, shard) && i < |s| && Writing(files, cur, prev, s, shard, i)
    requires !(prev.Some? && cur == shard(s[i].ip) && SamePair(prev.value, s[i]))
    ensures var name := shard(s[i].ip);
            Writing(files[name := FileOf(files, name) + [s[i]]], name, Some(s[i]), s, shard, i + 1)
  {
    TakeInShard(s, shard, i, files);
  }

  lemma WriterOpens(files: map<string, seq<Row>>, cur: string, prev: Option<Row>, s: seq<Row>, shard: Key -> string,
                    i: nat)
    requires Grouped(s, shard) && i < |s| && Writing(files, cur, prev, s, shard, i)
    requires prev.Some? ==> cur != shard(s[i].ip)
    ensures FileOf(files, shard(s[i].ip)) == []
  {
    if i > 0 {
      GroupedPrefixEnds(s, shard, i);
    }
  }

  /** Writes one file per shard; opening a shard replaces any file there. */
  method FanOut(stream: seq<Row>, shard: Key -> string) returns (files: map<string, seq<Row>>)
    requires Grouped(stream, shard)
    ensures HoldsAll(files, stream, shard)
  {
    files := map[];
    var cur := "";
    var prev: Option<Row> := None;
    for i := 0 to |stream|
      invariant Writing(files, cur, prev, stream, shard, i)
    {
      var row := stream[i];
      var name := shard(row.ip);
      var file := [];
      if prev.None? || name != cur {
        WriterOpens(files, cur, prev, stream, shard, i);
      } else if row.domain == prev.value.domain && row.ip == prev.value.ip {
        WriterSkips(files, cur, prev, stream, shard, i);
        continue;
      } else {
        file := FileOf(files, cur);
      }
      WriterTakes(files, cur, prev, stream, shard, i);
      files := files[name := file + [row]];
      cur, prev := name, Some(row);
    }
    assert stream[..|stream|] == stream;
  }
}
