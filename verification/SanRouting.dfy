/** The SAN index by public suffix: bucketed, dedicated and catch-all shards. */
module SanRouting {
  import opened Wrappers

  /** The public suffix list, as the two questions asked of it. */
  datatype Psl = Psl(etldPlusOne: string -> Option<string>, publicSuffix: string -> string)

  const OTHER := "_other"

  function RegDomain(psl: Psl, fqdn: string): string {
    match psl.etldPlusOne(fqdn)
    case Some(e) => e
    case None => OTHER
  }

  /** A registrable domain is its own registrable domain. */
  ghost predicate Idempotent(psl: Psl) {
    forall name :: RegDomain(psl, RegDomain(psl, name)) == RegDomain(psl, name)
  }

  function RegSuffix(psl: Psl, reg: string): string {
    if reg == "" || reg == OTHER then OTHER
    else
      var s := psl.publicSuffix(reg);
      if s == "" || s == reg then reg else s
  }

  function TrimSuffix(s: string, suffix: string): string {
    if |suffix| <= |s| && s[|s| - |suffix|..] == suffix then s[..|s| - |suffix|] else s
  }

  function FirstCharBucket(s: string): string {
    if s == "" then OTHER
    else if 'a' <= s[0] <= 'z' then [s[0]]
    else if '0' <= s[0] <= '9' then "0"
    else OTHER
  }

  function LabelBucket(reg: string, suffix: string): string {
    var own := TrimSuffix(reg, "." + suffix);
    if own == "" then "all" else FirstCharBucket(own)
  }

  predicate LargeTLD(suffix: string) {
    suffix == "com"
  }

  function ShardBase(suffix: string, bucket: string): string {
    "san_" + suffix + "__" + bucket
  }

  function TailBase(suffix: string): string {
    "san__tail__" + FirstCharBucket(suffix)
  }

  /** The layout of an index that has no manifest. */
  function StaticBase(psl: Psl, reg: string): string {
    var suffix := RegSuffix(psl, reg);
    ShardBase(suffix, if LargeTLD(suffix) then LabelBucket(reg, suffix) else "all")
  }

  datatype Routing = Routing(bucketed: set<string>, dedicated: set<string>)

  /** The one shard a query opens: bucketed, then dedicated, then tail. */
  function QueryBase(psl: Psl, manifest: Option<Routing>, reg: string): string {
    match manifest
    case None => StaticBase(psl, reg)
    case Some(rt) =>
      var suffix := RegSuffix(psl, reg);
      if suffix in rt.bucketed then ShardBase(suffix, LabelBucket(reg, suffix))
      else if suffix in rt.dedicated then ShardBase(suffix, "all")
      else TailBase(suffix)
  }

  // ------------------------------------------------------------- building

  datatype Row = Row(san: string, reg: string, cert: int, wild: bool)

  /** A SAN as it is read from a certificate: cleaned name and wildcard mark. */
  datatype Entry = Entry(name: string, cert: int, wild: bool)

  datatype Staged = Staged(suffix: string, labelchar: string, row: Row)

  function StageOf(psl: Psl, e: Entry): Staged {
    var reg := RegDomain(psl, e.name);
    var suffix := RegSuffix(psl, reg);
    Staged(suffix, LabelBucket(reg, suffix), Row(e.name, reg, e.cert, e.wild))
  }

  function Tally(staged: seq<Staged>, suffix: string): nat {
    if staged == [] then 0
    else
      var n := |staged| - 1;
      Tally(staged[..n], suffix) + if staged[n].suffix == suffix then 1 else 0
  }

  /** The counter holds the number of rows of each suffix that has any. */
  ghost predicate Counts(count: map<string, int>, staged: seq<Staged>) {
    forall s :: (if s in count then count[s] else 0) == Tally(staged, s) && (s in count ==> count[s] > 0)
  }

  lemma CountsStep(count: map<string, int>, staged: seq<Staged>, st: Staged)
    requires Counts(count, staged)
    ensures Counts(count[st.suffix := (if st.suffix in count then count[st.suffix] else 0) + 1], staged + [st])
  {
    assert (staged + [st])[..|staged|] == staged;
  }

  /** Every staged row's suffix has been counted. */
  lemma {:induction false} TallyCounts(staged: seq<Staged>, i: nat)
    requires i < |staged|
    ensures Tally(staged, staged[i].suffix) > 0
  {
    if i < |staged| - 1 {
      TallyCounts(staged[..|staged| - 1], i);
    }
  }

  /** Stages every named SAN and counts rows per suffix; empty names are
      skipped. */
  method Stage(psl: Psl, entries: seq<Entry>) returns (staged: seq<Staged>, count: map<string, int>)
    ensures staged == StagedOf(psl, entries)
    ensures Counts(count, staged)
    ensures forall s | s in count :: count[s] == |set i | 0 <= i < |staged| && staged[i].suffix == s|
    ensures forall r :: r in AllRows(staged) <==> StagedRow(psl, entries, r)
    ensures forall i | 0 <= i < |staged| :: staged[i].suffix in count
  {
    staged, count := [], map[];
    for i := 0 to |entries|
      invariant staged == StagedOf(psl, entries[..i])
      invariant Counts(count, staged)
    {
      StagedOfSnoc(psl, entries, i);
      if entries[i].name == "" {
        continue;
      }
      var st := StageOf(psl, entries[i]);
      CountsStep(count, staged, st);
      staged := staged + [st];
      count := count[st.suffix := (if st.suffix in count then count[st.suffix] else 0) + 1];
    }
    assert entries[..|entries|] == entries;
    forall i | 0 <= i < |staged|
      ensures staged[i].suffix in count
    {
      TallyCounts(staged, i);
    }
    forall s | s in count
      ensures count[s] == |set i | 0 <= i < |staged| && staged[i].suffix == s|
    {
      TallyIsSize(staged, s);
    }
    forall r
      ensures r in AllRows(staged) <==> StagedRow(psl, entries, r)
    {
      RowsOfEntries(psl, entries, r);
    }
  }

  lemma StagedOfSnoc(psl: Psl, entries: seq<Entry>, i: nat)
    requires i < |entries|
    ensures StagedOf(psl, entries[..i + 1])
         == StagedOf(psl, entries[..i]) + if entries[i].name == "" then [] else [StageOf(psl, entries[i])]
  {
    assert entries[..i + 1][..i] == entries[..i];
  }

  function StagedOf(psl: Psl, entries: seq<Entry>): seq<Staged> {
    if entries == [] then []
    else
      var n := |entries| - 1;
      StagedOf(psl, entries[..n]) + if entries[n].name == "" then [] else [StageOf(psl, entries[n])]
  }

  lemma {:induction false} StagedFromEntries(psl: Psl, entries: seq<Entry>, i: nat)
    requires i < |StagedOf(psl, entries)|
    ensures StagedOf(psl, entries)[i] == StageOf(psl, Entry(StagedOf(psl, entries)[i].row.san,
                                                            StagedOf(psl, entries)[i].row.cert,
                                                            StagedOf(psl, entries)[i].row.wild))
  {
    var n := |entries| - 1;
    if i < |StagedOf(psl, entries[..n])| {
      StagedFromEntries(psl, entries[..n], i);
    }
  }

  datatype Class = Bucketed | Dedicated | Tail

  function Classify(suffix: string, c: int, dedicateMin: int, splitMin: int): Class {
    if LargeTLD(suffix) || (splitMin > 0 && c >= splitMin) then Bucketed
    else if dedicateMin == 0 || c >= dedicateMin then Dedicated
    else Tail
  }

  /** The class tables agree with the counts, suffix by suffix. */
  ghost predicate Routes(rt: Routing, tail: map<string, string>, count: map<string, int>, dedicateMin: int,
                         splitMin: int) {
    && (forall s :: s in rt.bucketed <==> s in count && Classify(s, count[s], dedicateMin, splitMin) == Bucketed)
    && (forall s :: s in rt.dedicated <==> s in count && Classify(s, count[s], dedicateMin, splitMin) == Dedicated)
    && (forall s :: s in tail <==> s in count && Classify(s, count[s], dedicateMin, splitMin) == Tail)
    && (forall s | s in tail :: tail[s] == TailBase(s))
  }

  function Without(count: map<string, int>, todo: set<string>): map<string, int> {
    map s | s in count && s !in todo :: count[s]
  }

  /** Classifies the suffixes in whatever order the map yields them. */
  method ClassifySuffixes(count: map<string, int>, dedicateMin: int, splitMin: int)
    returns (rt: Routing, tail: map<string, string>)
    ensures Routes(rt, tail, count, dedicateMin, splitMin)
    ensures forall s ::
              s in rt.bucketed <==> s in count && (s == "com" || (splitMin > 0 && count[s] >= splitMin))
    ensures forall s ::
              s in rt.dedicated <==>
              s in count && s !in rt.bucketed && (dedicateMin == 0 || count[s] >= dedicateMin)
    ensures forall s :: s in tail <==> s in count && s !in rt.bucketed && s !in rt.dedicated
  {
    var bucketed, dedicated: set<string> := {}, {};
    tail := map[];
    var todo := count.Keys;
    while todo != {}
      invariant todo <= count.Keys
      invariant Routes(Routing(bucketed, dedicated), tail, Without(count, todo), dedicateMin, splitMin)
      decreases todo
    {
      var s :| s in todo;
      todo := todo - {s};
      match Classify(s, count[s], dedicateMin, splitMin)
      case Bucketed => bucketed := bucketed + {s};
      case Dedicated => dedicated := dedicated + {s};
      case Tail => tail := tail[s := TailBase(s)];
    }
    rt := Routing(bucketed, dedicated);
    assert Without(count, todo) == count;
  }

  /** The UPDATE: a row's shard, or NULL when no table knows its suffix. */
  function Assigned(rt: Routing, tail: map<string, string>, st: Staged): Option<string> {
    if st.suffix in rt.bucketed then Some(ShardBase(st.suffix, st.labelchar))
    else if st.suffix in rt.dedicated then Some(ShardBase(st.suffix, "all"))
    else if st.suffix in tail then Some(tail[st.suffix])
    else None
  }

  // ------------------------------------------------------------- routing

  predicate Matches(r: Row, name: string) {
    r.san == name || r.reg == name
  }

  /** For every count table that knows the row's suffix and both thresholds:
      a row that matches the query was put in the one shard the query opens. */
  lemma MatchIsInQueriedShard(psl: Psl, rt: Routing, tail: map<string, string>, count: map<string, int>,
                              dedicateMin: int, splitMin: int, e: Entry, name: string)
    requires Idempotent(psl) && Routes(rt, tail, count, dedicateMin, splitMin)
    requires StageOf(psl, e).suffix in count && Matches(StageOf(psl, e).row, name)
    ensures Assigned(rt, tail, StageOf(psl, e)) == Some(QueryBase(psl, Some(rt), RegDomain(psl, name)))
  {
    SameRegDomain(psl, e, name);
  }

  lemma SameRegDomain(psl: Psl, e: Entry, name: string)
    requires Idempotent(psl) && Matches(StageOf(psl, e).row, name)
    ensures RegDomain(psl, name) == StageOf(psl, e).row.reg
  {
    assert RegDomain(psl, RegDomain(psl, e.name)) == RegDomain(psl, e.name);
  }

  /** Every staged row gets a shard. */
  lemma EveryRowAssigned(psl: Psl, rt: Routing, tail: map<string, string>, count: map<string, int>,
                         dedicateMin: int, splitMin: int, st: Staged)
    requires Routes(rt, tail, count, dedicateMin, splitMin) && st.suffix in count
    ensures Assigned(rt, tail, st).Some?
  {
  }

  /** With both thresholds off, a lost manifest changes no route: the layout
      is the static one for every suffix that holds rows. */
  lemma ManifestOptionalWhenOff(psl: Psl, rt: Routing, tail: map<string, string>, count: map<string, int>, reg: string)
    requires Routes(rt, tail, count, 0, 0) && RegSuffix(psl, reg) in count
    ensures QueryBase(psl, Some(rt), reg) == QueryBase(psl, None, reg)
  {
  }

  // ------------------------------------------------- files and lookups

  /** A staged row with its shard filled in. */
  datatype Placed = Placed(shard: string, row: Row)

  ghost predicate Grouped(s: seq<Placed>) {
    forall i, j, k | 0 <= i < j < k < |s| && s[i].shard == s[k].shard :: s[j].shard == s[i].shard
  }

  function RowsOf(s: seq<Placed>, name: string): seq<Row> {
    if s == [] then []
    else
      var n := |s| - 1;
      RowsOf(s[..n], name) + if s[n].shard == name then [s[n].row] else []
  }

  function FileOf(files: map<string, seq<Row>>, name: string): seq<Row> {
    if name in files then files[name] else []
  }

  lemma {:induction false} NoRowsYet(s: seq<Placed>, name: string)
    requires forall i | 0 <= i < |s| :: s[i].shard != name
    ensures RowsOf(s, name) == []
  {
    if s != [] {
      NoRowsYet(s[..|s| - 1], name);
    }
  }

  lemma {:induction false} RowsOfMembers(s: seq<Placed>, name: string, r: Row)
    ensures r in RowsOf(s, name) <==> Placed(name, r) in s
  {
    if s != [] {
      var n := |s| - 1;
      assert s == s[..n] + [s[n]];
      RowsOfMembers(s[..n], name, r);
    }
  }

  /** Streams rows in shard order into one file each; opening a shard removes
      any file of that name. */
  method FanOut(stream: seq<Placed>) returns (files: map<string, seq<Row>>)
    requires Grouped(stream)
    ensures forall name :: FileOf(files, name) == RowsOf(stream, name)
  {
    files := map[];
    var cur: Option<string> := None;
    for i := 0 to |stream|
      invariant cur.Some? <==> i > 0
      invariant cur.Some? ==> cur.value == stream[i - 1].shard && cur.value in files
      invariant forall name :: FileOf(files, name) == RowsOf(stream[..i], name)
    {
      var name := stream[i].shard;
      assert stream[..i + 1][..i] == stream[..i];
      if cur != Some(name) {
        NoRowsYet(stream[..i], name);
        files := files[name := []];
        cur := Some(name);
      }
      files := files[name := files[name] + [stream[i].row]];
    }
    assert stream[..|stream|] == stream;
  }

  datatype Hit = Hit(san: string, wild: bool, cert: int)

  /** SELECT DISTINCT san_domain, is_wildcard, cert_id of the matching rows. */
  function Hits(rows: seq<Row>, name: string): set<Hit> {
    set r | r in rows && Matches(r, name) :: Hit(r.san, r.wild, r.cert)
  }

  function AllRows(staged: seq<Staged>): (rows: seq<Row>)
    ensures |rows| == |staged|
    ensures forall i | 0 <= i < |rows| :: rows[i] == staged[i].row
  {
    seq(|staged|, i requires 0 <= i < |staged| => staged[i].row)
  }

  /** The shard of a staged row, from its suffix's count and the thresholds. */
  function ShardFor(staged: seq<Staged>, st: Staged, dedicateMin: int, splitMin: int): string {
    match Classify(st.suffix, Tally(staged, st.suffix), dedicateMin, splitMin)
    case Bucketed => ShardBase(st.suffix, st.labelchar)
    case Dedicated => ShardBase(st.suffix, "all")
    case Tail => TailBase(st.suffix)
  }

  /** The UPDATE gives each row the shard its suffix's count says. */
  lemma AssignedIsShardFor(staged: seq<Staged>, count: map<string, int>, rt: Routing, tail: map<string, string>,
                           dedicateMin: int, splitMin: int, st: Staged)
    requires Counts(count, staged) && Routes(rt, tail, count, dedicateMin, splitMin) && st.suffix in count
    ensures Assigned(rt, tail, st) == Some(ShardFor(staged, st, dedicateMin, splitMin))
  {
    assert count[st.suffix] == Tally(staged, st.suffix);
  }

  /** The staged table with its shards filled in, read back in shard order. */
  ghost predicate IsStream(stream: seq<Placed>, staged: seq<Staged>, dedicateMin: int, splitMin: int) {
    && Grouped(stream)
    && (forall pl :: pl in stream <==> PlacedFrom(staged, dedicateMin, splitMin, pl))
  }

  ghost predicate PlacedFrom(staged: seq<Staged>, dedicateMin: int, splitMin: int, pl: Placed) {
    exists i :: 0 <= i < |staged| && pl == Placed(ShardFor(staged, staged[i], dedicateMin, splitMin), staged[i].row)
  }

  /** What a query is for: a certificate's cleaned SAN is the name asked for, or has it as its
      registrable domain, where a name without one is filed under "_other". */
  predicate Asked(psl: Psl, e: Entry, name: string) {
    || e.name == name
    || psl.etldPlusOne(e.name) == Some(name)
    || (psl.etldPlusOne(e.name) == None && name == "_other")
  }

  /** The certificate and wildcard mark of a SAN that is not empty and was asked for. */
  ghost predicate Found(psl: Psl, entries: seq<Entry>, name: string, h: Hit) {
    exists i :: && 0 <= i < |entries| && entries[i].name != "" && Asked(psl, entries[i], name)
                && h == Hit(entries[i].name, entries[i].wild, entries[i].cert)
  }

  /** The row an entry is staged as: its own name, certificate and wildcard mark, and its
      registrable domain. */
  predicate FromEntry(psl: Psl, e: Entry, r: Row) {
    && e.name != "" && r.san == e.name && r.cert == e.cert && r.wild == e.wild
    && (psl.etldPlusOne(e.name) == Some(r.reg) || (psl.etldPlusOne(e.name) == None && r.reg == "_other"))
  }

  ghost predicate StagedRow(psl: Psl, entries: seq<Entry>, r: Row) {
    exists i :: 0 <= i < |entries| && FromEntry(psl, entries[i], r)
  }

  lemma StageIsFrom(psl: Psl, e: Entry, r: Row)
    ensures FromEntry(psl, e, r) <==> e.name != "" && r == StageOf(psl, e).row
  {
  }

  lemma {:induction false} RowsOfEntries(psl: Psl, entries: seq<Entry>, r: Row)
    ensures r in AllRows(StagedOf(psl, entries)) <==> StagedRow(psl, entries, r)
  {
    if entries != [] {
      var n := |entries| - 1;
      RowsOfEntries(psl, entries[..n], r);
      RowsSnoc(psl, entries, r);
      StagedRowSnoc(psl, entries, r);
    }
  }

  lemma RowsSnoc(psl: Psl, entries: seq<Entry>, r: Row)
    requires entries != []
    ensures var n := |entries| - 1;
            r in AllRows(StagedOf(psl, entries)) <==>
            r in AllRows(StagedOf(psl, entries[..n])) || FromEntry(psl, entries[n], r)
  {
    var n := |entries| - 1;
    StageIsFrom(psl, entries[n], r);
    var more := if entries[n].name == "" then [] else [StageOf(psl, entries[n])];
    assert StagedOf(psl, entries) == StagedOf(psl, entries[..n]) + more;
    AllRowsConcat(StagedOf(psl, entries[..n]), more);
    if entries[n].name == "" {
      assert AllRows(more) == [];
    } else {
      OneRow(StageOf(psl, entries[n]));
    }
  }

  lemma OneRow(st: Staged)
    ensures AllRows([st]) == [st.row]
  {
  }

  lemma AllRowsConcat(a: seq<Staged>, b: seq<Staged>)
    ensures AllRows(a + b) == AllRows(a) + AllRows(b)
  {
  }

  lemma StagedRowSnoc(psl: Psl, entries: seq<Entry>, r: Row)
    requires entries != []
    ensures var n := |entries| - 1;
            StagedRow(psl, entries, r) <==> StagedRow(psl, entries[..n], r) || FromEntry(psl, entries[n], r)
  {
    var n := |entries| - 1;
    if StagedRow(psl, entries[..n], r) {
      var i :| 0 <= i < n && FromEntry(psl, entries[..n][i], r);
      assert FromEntry(psl, entries[i], r);
    }
    if StagedRow(psl, entries, r) {
      var i :| 0 <= i < |entries| && FromEntry(psl, entries[i], r);
      assert i < n ==> FromEntry(psl, entries[..n][i], r);
    }
  }

  /** A hit is a SAN that was asked for, with its own certificate, and every such SAN is a hit. */
  lemma HitsAreFound(psl: Psl, entries: seq<Entry>, name: string, h: Hit)
    ensures h in Hits(AllRows(StagedOf(psl, entries)), name) <==> Found(psl, entries, name, h)
  {
    var rows := AllRows(StagedOf(psl, entries));
    if h in Hits(rows, name) {
      var r :| r in rows && Matches(r, name) && h == Hit(r.san, r.wild, r.cert);
      RowsOfEntries(psl, entries, r);
      var i :| 0 <= i < |entries| && FromEntry(psl, entries[i], r);
      assert Asked(psl, entries[i], name);
    }
    if Found(psl, entries, name, h) {
      var i :| && 0 <= i < |entries| && entries[i].name != "" && Asked(psl, entries[i], name)
               && h == Hit(entries[i].name, entries[i].wild, entries[i].cert);
      var r := StageOf(psl, entries[i]).row;
      StageIsFrom(psl, entries[i], r);
      RowsOfEntries(psl, entries, r);
      assert r in rows && Matches(r, name);
    }
  }

  lemma {:induction false} TallyIsSize(staged: seq<Staged>, suffix: string)
    ensures Tally(staged, suffix) == |set i | 0 <= i < |staged| && staged[i].suffix == suffix|
  {
    var all := set i | 0 <= i < |staged| && staged[i].suffix == suffix;
    if staged != [] {
      var n := |staged| - 1;
      TallyIsSize(staged[..n], suffix);
      var front := set i | 0 <= i < n && staged[..n][i].suffix == suffix;
      assert all == front + if staged[n].suffix == suffix then {n} else {};
    }
  }

  /** The shard of a SAN whose registrable domain is `own` + "." + `suffix`, spelled out: "com" and
      every suffix with enough rows by the first character of `own`, the next class as a whole, and
      the rest by the first character of the suffix. */
  lemma ShardSpelled(psl: Psl, staged: seq<Staged>, e: Entry, own: string, suffix: string, dedicateMin: int,
                     splitMin: int)
    requires psl.etldPlusOne(e.name) == Some(own + "." + suffix) && own != "" && suffix != ""
    requires psl.publicSuffix(own + "." + suffix) == suffix && own + "." + suffix != "_other"
    ensures
      var c := |set i | 0 <= i < |staged| && staged[i].suffix == suffix|;
      ShardFor(staged, StageOf(psl, e), dedicateMin, splitMin)
      == if suffix == "com" || (splitMin > 0 && c >= splitMin) then
           "san_" + suffix + "__"
           + (if 'a' <= own[0] <= 'z' then [own[0]] else if '0' <= own[0] <= '9' then "0" else "_other")
         else if dedicateMin == 0 || c >= dedicateMin then "san_" + suffix + "__all"
         else "san__tail__"
              + (if 'a' <= suffix[0] <= 'z' then [suffix[0]] else if '0' <= suffix[0] <= '9' then "0" else "_other")
  {
    var reg := own + "." + suffix;
    assert reg[|reg| - |"." + suffix|..] == "." + suffix && reg[..|reg| - |"." + suffix|] == own;
    assert |reg| > |suffix| && RegSuffix(psl, reg) == suffix;
    assert LabelBucket(reg, suffix) == FirstCharBucket(own);
    TallyIsSize(staged, suffix);
  }

  /** Builds the index both ways from the same SANs and asks both the same question: the answers
      are the same set, whatever the SANs, the thresholds and the query. `stream` is the staged
      table in shard order; SQLite may order rows within a shard as it likes. */
  method LookupSANBothWays(psl: Psl, entries: seq<Entry>, dedicateMin: int, splitMin: int, stream: seq<Placed>,
                           name: string)
    returns (direct: set<Hit>, sharded: set<Hit>)
    requires Idempotent(psl) && IsStream(stream, StagedOf(psl, entries), dedicateMin, splitMin)
    ensures direct == Hits(AllRows(StagedOf(psl, entries)), name)
    ensures forall h :: h in direct <==> Found(psl, entries, name, h)
    ensures sharded == direct
  {
    forall h ensures h in Hits(AllRows(StagedOf(psl, entries)), name) <==> Found(psl, entries, name, h) {
      HitsAreFound(psl, entries, name, h);
    }
    var staged, count := Stage(psl, entries);
    direct := Hits(AllRows(staged), name);
    var rt, tail := ClassifySuffixes(count, dedicateMin, splitMin);
    var files := FanOut(stream);
    var base := QueryBase(psl, Some(rt), RegDomain(psl, name));
    sharded := if base in files then Hits(files[base], name) else {};
    assert sharded == Hits(FileOf(files, base), name);
    forall r: Row | Matches(r, name)
      ensures r in FileOf(files, base) <==> r in AllRows(staged)
    {
      RowsOfMembers(stream, base, r);
      InQueriedFile(psl, entries, staged, count, dedicateMin, splitMin, rt, tail, stream, name, r);
    }
    SameHits(FileOf(files, base), AllRows(staged), name);
  }

  lemma SameHits(a: seq<Row>, b: seq<Row>, name: string)
    requires forall r: Row | Matches(r, name) :: r in a <==> r in b
    ensures Hits(a, name) == Hits(b, name)
  {
  }

  lemma InQueriedFile(psl: Psl, entries: seq<Entry>, staged: seq<Staged>, count: map<string, int>,
                      dedicateMin: int, splitMin: int, rt: Routing, tail: map<string, string>,
                      stream: seq<Placed>, name: string, r: Row)
    requires Idempotent(psl) && staged == StagedOf(psl, entries) && Matches(r, name)
    requires Counts(count, staged) && forall i | 0 <= i < |staged| :: staged[i].suffix in count
    requires Routes(rt, tail, count, dedicateMin, splitMin) && IsStream(stream, staged, dedicateMin, splitMin)
    ensures Placed(QueryBase(psl, Some(rt), RegDomain(psl, name)), r) in stream <==> r in AllRows(staged)
  {
    var pl := Placed(QueryBase(psl, Some(rt), RegDomain(psl, name)), r);
    if pl in stream {
      assert PlacedFrom(staged, dedicateMin, splitMin, pl);
      var i :| 0 <= i < |staged| && pl == Placed(ShardFor(staged, staged[i], dedicateMin, splitMin), staged[i].row);
      assert AllRows(staged)[i] == r;
    }
    if r in AllRows(staged) {
      var i :| 0 <= i < |staged| && AllRows(staged)[i] == r;
      StagedFromEntries(psl, entries, i);
      MatchIsInQueriedShard(psl, rt, tail, count, dedicateMin, splitMin, Entry(r.san, r.cert, r.wild), name);
      AssignedIsShardFor(staged, count, rt, tail, dedicateMin, splitMin, staged[i]);
      assert pl == Placed(ShardFor(staged, staged[i], dedicateMin, splitMin), staged[i].row);
      assert PlacedFrom(staged, dedicateMin, splitMin, pl);
    }
  }
}
