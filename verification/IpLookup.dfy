/** CIDR lookups: the shards answer as the single file does. */
module IpLookup {
  import opened IpKeys
  import opened IpShards
  import opened IpRouting
  import opened IpIndex
  import Lex

  /** WHERE ip BETWEEN lo AND hi, over a file already in (ip, domain) order. */
  function Select(file: seq<Row>, lo: Key, hi: Key): (rows: seq<Row>) {
    if file == [] then []
    else (if InRange(lo, hi, file[0].ip) then [file[0]] else []) + Select(file[1..], lo, hi)
  }

  lemma {:induction false} SelectFacts(file: seq<Row>, lo: Key, hi: Key)
    requires StrictlyOrdered(file)
    ensures StrictlyOrdered(Select(file, lo, hi))
    ensures forall r :: r in Select(file, lo, hi) <==> r in file && InRange(lo, hi, r.ip)
  {
    if file != [] {
      SelectFacts(file[1..], lo, hi);
      var rest := Select(file[1..], lo, hi);
      assert forall r :: r in file <==> r == file[0] || r in file[1..];
      assert forall r | r in rest :: PairLess(file[0], r);
      PrependOrdered(file[0], rest);
    }
  }

  lemma PrependOrdered(r: Row, rest: seq<Row>)
    requires StrictlyOrdered(rest) && forall x | x in rest :: PairLess(r, x)
    ensures StrictlyOrdered([r] + rest)
  {
    forall i, j | 0 <= i < j < |[r] + rest|
      ensures PairLess(([r] + rest)[i], ([r] + rest)[j])
    {
      assert rest[j - 1] in rest;
    }
  }

  /** The complete answer to a prefix: the freshest row of every pair whose
      address it covers, in strict (ip, domain) order. */
  ghost predicate Answers(rows: seq<Row>, corpus: seq<Row>, p: Prefix)
    requires p.Valid()
  {
    && StrictlyOrdered(rows)
    && forall r :: r in rows <==> Freshest(corpus, r) && Covers(p, r.ip)
  }

  /** The answer restricted to the addresses of the prefix's own family. */
  ghost predicate FamilyAnswers(rows: seq<Row>, corpus: seq<Row>, p: Prefix)
    requires p.Valid()
  {
    && StrictlyOrdered(rows)
    && forall r :: r in rows <==> Freshest(corpus, r) && Covers(p, r.ip) && IsV4(r.ip) == p.V4?
  }

  method LookupCIDR(index: seq<Row>, p: Prefix, ghost corpus: seq<Row>) returns (rows: seq<Row>)
    requires p.Valid() && StrictlyOrdered(index) && forall r :: r in index <==> Freshest(corpus, r)
    ensures Answers(rows, corpus, p)
  {
    var lo, hi := PrefixRange(p);
    rows := Select(index, lo, hi);
    SelectFacts(index, lo, hi);
  }

  // ------------------------------------------------------ over many files

  /** The rows a list of files yields, missing files yielding none. */
  function Gather(files: map<string, seq<Row>>, names: seq<string>, lo: Key, hi: Key): (rows: seq<Row>) {
    if names == [] then []
    else
      var n := |names| - 1;
      Gather(files, names[..n], lo, hi) + Select(FileOf(files, names[n]), lo, hi)
  }

  /** Files listed in key order: every row of an earlier one comes first. */
  ghost predicate InKeyOrder(names: seq<string>, shard: Key -> string) {
    forall i, j, x: Key, y: Key | 0 <= i < j < |names| && shard(x) == names[i] && shard(y) == names[j] :: Lex.Less(x, y)
  }

  lemma ConcatOrdered(a: seq<Row>, b: seq<Row>)
    requires StrictlyOrdered(a) && StrictlyOrdered(b)
    requires forall x, y | x in a && y in b :: PairLess(x, y)
    ensures StrictlyOrdered(a + b)
  {
    forall i, j | 0 <= i < j < |a + b|
      ensures PairLess((a + b)[i], (a + b)[j])
    {
      if i < |a| <= j {
        assert a[i] in a && b[j - |a|] in b;
      }
    }
  }

  lemma {:induction false} GatherFacts(files: map<string, seq<Row>>, names: seq<string>, lo: Key, hi: Key,
                                       corpus: seq<Row>, shard: Key -> string)
    requires HoldsAll(files, corpus, shard) && InKeyOrder(names, shard)
    ensures StrictlyOrdered(Gather(files, names, lo, hi))
    ensures forall r :: r in Gather(files, names, lo, hi) <==>
              Freshest(corpus, r) && InRange(lo, hi, r.ip) && shard(r.ip) in names
  {
    if names != [] {
      var n := |names| - 1;
      assert InKeyOrder(names[..n], shard);
      GatherFacts(files, names[..n], lo, hi, corpus, shard);
      var file := FileOf(files, names[n]);
      assert HoldsShard(file, corpus, shard, names[n]);
      SelectFacts(file, lo, hi);
      GatherStep(Gather(files, names[..n], lo, hi), Select(file, lo, hi), names, shard);
    }
  }

  lemma GatherStep(a: seq<Row>, b: seq<Row>, names: seq<string>, shard: Key -> string)
    requires names != [] && InKeyOrder(names, shard)
    requires StrictlyOrdered(a) && forall r | r in a :: shard(r.ip) in names[..|names| - 1]
    requires StrictlyOrdered(b) && forall r | r in b :: shard(r.ip) == names[|names| - 1]
    ensures StrictlyOrdered(a + b)
    ensures forall s :: s in names <==> s in names[..|names| - 1] || s == names[|names| - 1]
  {
    var n := |names| - 1;
    assert names == names[..n] + [names[n]];
    forall x, y | x in a && y in b
      ensures PairLess(x, y)
    {
      var i :| 0 <= i < n && names[..n][i] == shard(x.ip);
      assert shard(x.ip) == names[i] && shard(y.ip) == names[n];
    }
    ConcatOrdered(a, b);
  }

  /** Opens the files in the order given and skips those that do not exist. */
  method ReadFiles(files: map<string, seq<Row>>, names: seq<string>, lo: Key, hi: Key) returns (rows: seq<Row>)
    ensures rows == Gather(files, names, lo, hi)
  {
    rows := [];
    for i := 0 to |names|
      invariant rows == Gather(files, names[..i], lo, hi)
    {
      assert names[..i + 1][..i] == names[..i];
      if names[i] !in files {
        continue;
      }
      rows := rows + Select(files[names[i]], lo, hi);
    }
    assert names[..|names|] == names;
  }

  // ----------------------------------------------------- routing is exact

  /** The shard of a staged row, as a function of its address alone. */
  function ShardFn(w: Width, split: set<string>): Key -> string {
    (k: Key) => ShardOf(k, w, split)
  }

  lemma NameOfPiece(lo: Key, hi: Key, v4: bool, w: Width, split: set<string>, i: nat, k: Key)
    requires i < |Route(lo, hi, v4, w, split)|
    requires Routed(Route(lo, hi, v4, w, split), w, split, v4)
    ensures ShardFn(w, split)(k) == Names(Route(lo, hi, v4, w, split), NameFn(w))[i] <==>
            Route(lo, hi, v4, w, split)[i].Has(k)
  {
    var pc := Route(lo, hi, v4, w, split)[i];
    ShardOfIsPiece(k, w, split, pc);
  }

  lemma RouteInKeyOrder(lo: Key, hi: Key, v4: bool, w: Width, split: set<string>)
    ensures InKeyOrder(Names(Route(lo, hi, v4, w, split), NameFn(w)), ShardFn(w, split))
  {
    var ps := Route(lo, hi, v4, w, split);
    var names, shard := Names(ps, NameFn(w)), ShardFn(w, split);
    RouteInOrder(lo, hi, v4, w, split);
    forall i, j, x: Key, y: Key | 0 <= i < j < |names| && shard(x) == names[i] && shard(y) == names[j]
      ensures Lex.Less(x, y)
    {
      NameOfPiece(lo, hi, v4, w, split, i, x);
      NameOfPiece(lo, hi, v4, w, split, j, y);
      PrecedesMeansLess(ps[i], ps[j], w, x, y);
    }
  }

  /** Between the bounds, the files opened are exactly those of the family. */
  lemma RouteIsFamily(lo: Key, hi: Key, v4: bool, w: Width, split: set<string>, k: Key)
    requires FamilyBounds(lo, hi, v4) && InRange(lo, hi, k)
    ensures ShardFn(w, split)(k) in Names(Route(lo, hi, v4, w, split), NameFn(w)) <==> IsV4(k) == v4
  {
    var ps := Route(lo, hi, v4, w, split);
    var names := Names(ps, NameFn(w));
    RouteInOrder(lo, hi, v4, w, split);
    if ShardFn(w, split)(k) in names {
      var i :| 0 <= i < |names| && names[i] == ShardFn(w, split)(k);
      NameOfPiece(lo, hi, v4, w, split, i, k);
    }
    if IsV4(k) == v4 {
      EveryKeyReached(lo, hi, v4, w, split, k);
      var pc :| pc in ps && pc.Has(k);
      var i :| 0 <= i < |ps| && ps[i] == pc;
      NameOfPiece(lo, hi, v4, w, split, i, k);
    }
  }

  method LookupCIDRSharded(files: map<string, seq<Row>>, split: set<string>, w: Width, p: Prefix,
                           ghost corpus: seq<Row>)
    returns (rows: seq<Row>)
    requires p.Valid() && HoldsAll(files, corpus, ShardFn(w, split))
    ensures FamilyAnswers(rows, corpus, p)
  {
    var lo, hi := PrefixRange(p);
    BoundsOfPrefix(p, lo, hi);
    var names := RouteNames(p, w, split, lo, hi);
    rows := ReadFiles(files, names, lo, hi);
    RouteInKeyOrder(lo, hi, p.V4?, w, split);
    GatherFacts(files, names, lo, hi, corpus, ShardFn(w, split));
    forall r: Row | InRange(lo, hi, r.ip)
      ensures ShardFn(w, split)(r.ip) in names <==> IsV4(r.ip) == p.V4?
    {
      RouteIsFamily(lo, hi, p.V4?, w, split, r.ip);
    }
  }

  // ------------------------------------------------------- the comparison

  lemma {:induction false} FreshestExists(rows: seq<Row>, r: Row) returns (best: Row)
    requires r in rows
    ensures SamePair(best, r) && Freshest(rows, best)
  {
    var n := |rows| - 1;
    assert rows == rows[..n] + [rows[n]];
    assert forall x :: x in rows <==> x in rows[..n] || x == rows[n];
    if r in rows[..n] {
      best := FreshestExists(rows[..n], r);
      if SamePair(rows[n], r) && Newer(rows[n].fetched, best.fetched) {
        best := rows[n];
      }
    } else {
      best := NoEarlierTwin(rows[..n], r);
    }
  }

  /** The row itself, or the freshest of the earlier rows of its pair. */
  lemma {:induction false} NoEarlierTwin(rows: seq<Row>, r: Row) returns (best: Row)
    ensures SamePair(best, r) && (best == r || best in rows)
    ensures forall x | (x in rows || x == r) && SamePair(x, r) :: !Newer(x.fetched, best.fetched)
  {
    if rows == [] {
      best := r;
    } else {
      var n := |rows| - 1;
      assert forall x :: x in rows <==> x in rows[..n] || x == rows[n];
      best := NoEarlierTwin(rows[..n], r);
      if SamePair(rows[n], r) && Newer(rows[n].fetched, best.fetched) {
        best := rows[n];
      }
    }
  }

  /** Both answers are the same sequence exactly when no staged address of the
      other family is covered. */
  lemma SameAnswer(direct: seq<Row>, sharded: seq<Row>, corpus: seq<Row>, p: Prefix)
    requires p.Valid() && Answers(direct, corpus, p) && FamilyAnswers(sharded, corpus, p)
    ensures sharded == direct <==> forall r | r in corpus && Covers(p, r.ip) :: IsV4(r.ip) == p.V4?
  {
    if forall r | r in corpus && Covers(p, r.ip) :: IsV4(r.ip) == p.V4? {
      OrderIsUnique(direct, sharded);
    }
    if sharded == direct {
      forall r | r in corpus && Covers(p, r.ip)
        ensures IsV4(r.ip) == p.V4?
      {
        var best := FreshestExists(corpus, r);
        assert best in direct;
      }
    }
  }

  /** The exact condition, decided by the prefix alone: the two lookups agree
      on every corpus just when the prefix is v4 or stays clear of
      ::ffff:0:0/96. */
  lemma AgreeOnEveryCorpus(p: Prefix)
    requires p.Valid()
    ensures p.V4? || !ReachesMapped(p) <==>
            forall corpus, direct, sharded | Answers(direct, corpus, p) && FamilyAnswers(sharded, corpus, p) ::
              sharded == direct
  {
    CoversSomeMapped(p);
    if p.V4? || !ReachesMapped(p) {
      forall corpus, direct, sharded | Answers(direct, corpus, p) && FamilyAnswers(sharded, corpus, p)
        ensures sharded == direct
      {
        FamilyOfCovered(p);
        SameAnswer(direct, sharded, corpus, p);
      }
    } else {
      var k: Key :| Covers(p, k) && IsV4(k);
      var r := Row(k, [], Null);
      assert Freshest([r], r);
      assert Answers([r], [r], p) && FamilyAnswers([], [r], p);
    }
  }

  lemma FamilyOfCovered(p: Prefix)
    requires p.Valid() && (p.V4? || !ReachesMapped(p))
    ensures forall k: Key | Covers(p, k) :: IsV4(k) == p.V4?
  {
    CoversSomeMapped(p);
    forall k: Key | Covers(p, k)
      ensures IsV4(k) == p.V4?
    {
      if p.V4? {
        V4CoversMapped(p, k);
      }
    }
  }

  // ----------------------------------------------------------- end to end

  function BaseOf(k: Key, w: Width): string {
    ShardName(ShardId(k, IsV4(k), w), w)
  }

  /** How many staged rows each base shard would take. */
  function BaseCount(corpus: seq<Row>, w: Width, base: string): nat {
    CountWhere(corpus, InBase(w, base))
  }

  function InBase(w: Width, base: string): Row -> bool {
    (r: Row) => BaseOf(r.ip, w) == base
  }

  function CountWhere(corpus: seq<Row>, isIn: Row -> bool): nat {
    if corpus == [] then 0
    else
      var n := |corpus| - 1;
      CountWhere(corpus[..n], isIn) + if isIn(corpus[n]) then 1 else 0
  }

  /** Where the rows stand in the corpus that go to a base shard when none is split. */
  ghost function RowsOf(corpus: seq<Row>, w: Width, base: string): (at: set<int>) {
    set i | 0 <= i < |corpus| && ShardOf(corpus[i].ip, w, {}) == base
  }

  /** The base shards that reach the threshold; none when there is none. */
  ghost predicate IsSplit(corpus: seq<Row>, w: Width, splitMin: int, base: string) {
    splitMin > 0 && |RowsOf(corpus, w, base)| >= splitMin
  }

  lemma {:induction false} CountIsSize(corpus: seq<Row>, isIn: Row -> bool)
    ensures CountWhere(corpus, isIn) == |set i | 0 <= i < |corpus| && isIn(corpus[i])|
  {
    if corpus != [] {
      var n := |corpus| - 1;
      CountIsSize(corpus[..n], isIn);
      var more: set<int> := if isIn(corpus[n]) then {n} else {};
      assert (set i | 0 <= i < |corpus| && isIn(corpus[i]))
          == (set i | 0 <= i < n && isIn(corpus[..n][i])) + more;
    }
  }

  lemma BaseWhenUnsplit(k: Key, w: Width)
    ensures ShardOf(k, w, {}) == BaseOf(k, w)
  {
  }

  lemma BaseCountsRows(corpus: seq<Row>, w: Width)
    ensures forall base :: BaseCount(corpus, w, base) == |RowsOf(corpus, w, base)|
  {
    forall base ensures BaseCount(corpus, w, base) == |RowsOf(corpus, w, base)| {
      CountIsSize(corpus, InBase(w, base));
      forall i | 0 <= i < |corpus| ensures ShardOf(corpus[i].ip, w, {}) == BaseOf(corpus[i].ip, w) {
        BaseWhenUnsplit(corpus[i].ip, w);
      }
      assert RowsOf(corpus, w, base) == set i | 0 <= i < |corpus| && InBase(w, base)(corpus[i]);
    }
  }

  method SplitBases(corpus: seq<Row>, w: Width, splitMin: int) returns (split: set<string>)
    ensures forall base :: base in split <==> IsSplit(corpus, w, splitMin, base)
  {
    BaseCountsRows(corpus, w);
    var count: map<string, int> := map[];
    for i := 0 to |corpus|
      invariant forall base | base in count :: count[base] == BaseCount(corpus[..i], w, base)
      invariant forall base | base !in count :: BaseCount(corpus[..i], w, base) == 0
    {
      var own := BaseOf(corpus[i].ip, w);
      assert corpus[..i + 1][..i] == corpus[..i];
      count := count[own := (if own in count then count[own] else 0) + 1];
    }
    assert corpus[..|corpus|] == corpus;
    split := if splitMin > 0 then set base | base in count && count[base] >= splitMin else {};
  }

  lemma SameRowsSameFiles(files: map<string, seq<Row>>, a: seq<Row>, b: seq<Row>, shard: Key -> string)
    requires HoldsAll(files, a, shard) && multiset(a) == multiset(b)
    ensures HoldsAll(files, b, shard)
  {
    SameMembers(a, b);
    forall name
      ensures HasShard(a, shard, name) <==> HasShard(b, shard, name)
    {
      if HasShard(a, shard, name) {
        var i :| 0 <= i < |a| && shard(a[i].ip) == name;
        assert a[i] in a;
        var j :| 0 <= j < |b| && b[j] == a[i];
      }
      if HasShard(b, shard, name) {
        var i :| 0 <= i < |b| && shard(b[i].ip) == name;
        assert b[i] in b;
        var j :| 0 <= j < |a| && a[j] == b[i];
      }
    }
    forall name
      ensures HoldsShard(FileOf(files, name), b, shard, name)
    {
      assert HoldsShard(FileOf(files, name), a, shard, name);
    }
  }

  lemma SameMembers(a: seq<Row>, b: seq<Row>)
    requires multiset(a) == multiset(b)
    ensures forall r :: r in a <==> r in b
    ensures forall r :: Freshest(a, r) <==> Freshest(b, r)
  {
    forall r
      ensures r in a <==> r in b
    {
      assert r in a <==> r in multiset(a);
      assert r in b <==> r in multiset(b);
    }
  }

  /** The right answer, from the corpus and the prefix as written: in the order of the addresses and
      then of the domains, exactly the rows under the prefix that no row of the same address and
      domain was fetched after; a row without a time counts as the oldest. */
  ghost predicate RightAnswer(rows: seq<Row>, corpus: seq<Row>, p: Prefix)
    requires p.Valid()
  {
    && (forall i, j | 0 <= i < j < |rows| ::
          Lex.Less(rows[i].ip, rows[j].ip)
          || (rows[i].ip == rows[j].ip && Lex.Less(rows[i].domain, rows[j].domain)))
    && (forall r :: r in rows <==> r in corpus && Under(p, r.ip) && NoneLater(corpus, r))
  }

  ghost predicate NoneLater(corpus: seq<Row>, r: Row) {
    forall s | s in corpus && s.ip == r.ip && s.domain == r.domain && s.fetched.At? ::
      r.fetched.At? && s.fetched.time <= r.fetched.time
  }

  lemma AnswerIsRight(rows: seq<Row>, corpus: seq<Row>, p: Prefix)
    requires p.Valid() && Answers(rows, corpus, p)
    ensures RightAnswer(rows, corpus, p)
  {
    forall r ensures r in rows <==> r in corpus && Under(p, r.ip) && NoneLater(corpus, r) {
      CoversIsUnder(p, r.ip);
      FreshestIsLatest(corpus, r);
    }
  }

  lemma FreshestIsLatest(corpus: seq<Row>, r: Row)
    ensures Freshest(corpus, r) <==> r in corpus && NoneLater(corpus, r)
  {
    if r in corpus && NoneLater(corpus, r) {
      forall s | s in corpus && SamePair(s, r) ensures !Newer(s.fetched, r.fetched) {
      }
    }
    if Freshest(corpus, r) {
      forall s | s in corpus && s.ip == r.ip && s.domain == r.domain && s.fetched.At?
        ensures r.fetched.At? && s.fetched.time <= r.fetched.time
      {
        assert SamePair(s, r) && !Newer(s.fetched, r.fetched);
      }
    }
  }

  /** Builds the index both ways from one corpus and asks both the same
      question. `single` and `fanned` are the two ORDER BY streams of the staged
      rows; SQLite may order ties as it likes. */
  method LookupBothWays(corpus: seq<Row>, w: Width, splitMin: int, single: seq<Row>, fanned: seq<Row>,
                        split: set<string>, p: Prefix)
    returns (direct: seq<Row>, sharded: seq<Row>)
    requires p.Valid()
    requires forall base :: base in split <==> IsSplit(corpus, w, splitMin, base)
    requires multiset(single) == multiset(corpus) && Ordered(single)
    requires multiset(fanned) == multiset(corpus) && Grouped(fanned, ShardFn(w, split))
    ensures Answers(direct, corpus, p) && RightAnswer(direct, corpus, p)
    ensures sharded == direct <==> forall r | r in corpus && Under(p, r.ip) :: IsV4(r.ip) == p.V4?
    ensures p.V4? || !ReachesMapped(p) ==> sharded == direct
  {
    var index := BuildIP(single);
    SameMembers(single, corpus);
    direct := LookupCIDR(index, p, corpus);
    var chosen := SplitBases(corpus, w, splitMin);
    assert chosen == split;
    var files := FanOut(fanned, ShardFn(w, chosen));
    SameRowsSameFiles(files, fanned, corpus, ShardFn(w, split));
    sharded := LookupCIDRSharded(files, chosen, w, p, corpus);
    SameAnswer(direct, sharded, corpus, p);
    AnswerIsRight(direct, corpus, p);
    forall r: Row ensures Covers(p, r.ip) <==> Under(p, r.ip) {
      CoversIsUnder(p, r.ip);
    }
    if p.V4? || !ReachesMapped(p) {
      FamilyOfCovered(p);
    }
  }
}
