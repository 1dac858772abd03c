/** Partition files: writing batches as one file per same-day run, scanning the
    file names for coverage, and finding an entry by the name that brackets it.

    The output root is a map from paths to file contents; marshalling and
    compression are taken to be lossless. The day of a timestamp is a parameter.
  */
module Partition {
  import opened Base36
  import opened Wrappers
  import opened Coverage

  datatype Entry = Entry(index: int, timestampMs: int, leaf: string)

  /** A file's directory, at any depth, and its base name. */
  datatype Path = Path(dir: string, base: string)

  type Files = map<Path, seq<Entry>>

  /** Index-ordered and consecutive, within the range a name can carry. */
  predicate Consecutive(es: seq<Entry>) {
    forall i :: 0 <= i < |es| ==> es[i].index == es[0].index + i && 0 <= es[i].index < TWO63 - 1
  }

  ghost predicate HasIndex(es: seq<Entry>, x: int) {
    exists i :: 0 <= i < |es| && es[i].index == x
  }

  // ---- file names --------------------------------------------------------------------

  /** How runs are named and names read back. */
  datatype Naming = Naming(parse: string -> Option<Range>, name: (nat, nat) -> string)

  ghost predicate Faithful(nm: Naming) {
    forall f: nat, l: nat :: f <= l < TWO63 - 1 ==> nm.parse(nm.name(f, l)) == Some(Range(f, l + 1))
  }

  /** The names on disk: base-36 ranges, with or without the compression suffix. */
  function DiskNames(gz: bool): (nm: Naming) {
    Naming(n => ParseRange(n), (f: nat, l: nat) => RangeName(f, l) + (if gz then ".gz" else ""))
  }

  lemma DiskNamesFaithful(gz: bool)
    ensures Faithful(DiskNames(gz))
  {
    forall f: nat, l: nat | f <= l < TWO63 - 1
      ensures DiskNames(gz).parse(DiskNames(gz).name(f, l)) == Some(Range(f, l + 1))
    {
      DiskNameReadsBack(gz, f, l);
    }
  }

  lemma DiskNameReadsBack(gz: bool, f: nat, l: nat)
    requires f <= l < TWO63 - 1
    ensures ParseRange(RangeName(f, l) + (if gz then ".gz" else "")) == Some(Range(f, l + 1))
  {
    NameReadsBack(f, l);
    assert RangeName(f, l) + "" == RangeName(f, l);
  }

  // ---- splitting a batch into runs --------------------------------------------------

  /** A batch cut into same-day runs: those that a change of day has closed, and the last one. */
  datatype Split = Split(closed: seq<seq<Entry>>, last: seq<Entry>)

  /** One more entry closes the last run if it is of another day, and else joins it. */
  function Step(sp: Split, e: Entry, day: int -> string): (sp': Split) {
    if sp.last != [] && day(Last(sp.last).timestampMs) != day(e.timestampMs) then Split(sp.closed + [sp.last], [e])
    else Split(sp.closed, sp.last + [e])
  }

  function SplitOf(es: seq<Entry>, day: int -> string): (sp: Split)
    ensures sp.last == [] <==> es == []
    ensures forall k :: 0 <= k < |sp.closed| ==> sp.closed[k] != []
  {
    if es == [] then Split([], []) else Step(SplitOf(es[..|es| - 1], day), es[|es| - 1], day)
  }

  /** The maximal same-day stretches of a batch, in order. */
  function Runs(es: seq<Entry>, day: int -> string): (runs: seq<seq<Entry>>)
    ensures forall k :: 0 <= k < |runs| ==> runs[k] != []
    ensures es == [] <==> runs == []
  {
    if es == [] then [] else SplitOf(es, day).closed + [SplitOf(es, day).last]
  }

  function Last(es: seq<Entry>): (e: Entry)
    requires es != []
  {
    es[|es| - 1]
  }

  function Concat(runs: seq<seq<Entry>>): (es: seq<Entry>) {
    if runs == [] then [] else Concat(runs[..|runs| - 1]) + runs[|runs| - 1]
  }

  lemma ConcatSnoc(runs: seq<seq<Entry>>, run: seq<Entry>)
    ensures Concat(runs + [run]) == Concat(runs) + run
  {
    assert (runs + [run])[..|runs|] == runs;
  }

  /** The entries a split holds, in order. */
  function Whole(sp: Split): (es: seq<Entry>) {
    Concat(sp.closed) + sp.last
  }

  lemma StepWhole(sp: Split, e: Entry, day: int -> string)
    ensures Whole(Step(sp, e, day)) == Whole(sp) + [e]
  {
    ConcatSnoc(sp.closed, sp.last);
  }

  lemma FrontAndLast(es: seq<Entry>)
    requires es != []
    ensures es[..|es| - 1] + [es[|es| - 1]] == es
  {
  }

  lemma {:induction false} SplitConcat(es: seq<Entry>, day: int -> string)
    ensures Whole(SplitOf(es, day)) == es
  {
    if es != [] {
      var init, e := es[..|es| - 1], es[|es| - 1];
      SplitConcat(init, day);
      var sp := SplitOf(init, day);
      StepWhole(sp, e, day);
      FrontAndLast(es);
    }
  }

  /** The runs re-concatenate to the batch. */
  lemma RunsConcat(es: seq<Entry>, day: int -> string)
    ensures Concat(Runs(es, day)) == es
  {
    SplitConcat(es, day);
    ConcatSnoc(SplitOf(es, day).closed, SplitOf(es, day).last);
  }

  ghost predicate SameDay(run: seq<Entry>, day: int -> string) {
    run != [] && forall i :: 0 <= i < |run| ==> day(run[i].timestampMs) == day(Last(run).timestampMs)
  }

  ghost predicate DayBreak(a: seq<Entry>, b: seq<Entry>, day: int -> string) {
    a != [] && b != [] && day(Last(a).timestampMs) != day(Last(b).timestampMs)
  }

  ghost predicate Maximal(sp: Split, day: int -> string) {
    && (forall k :: 0 <= k < |sp.closed| ==> SameDay(sp.closed[k], day))
    && (forall k :: 0 < k < |sp.closed| ==> DayBreak(sp.closed[k - 1], sp.closed[k], day))
    && (sp.last != [] ==> SameDay(sp.last, day))
    && (sp.last != [] && sp.closed != [] ==> DayBreak(sp.closed[|sp.closed| - 1], sp.last, day))
    && (sp.last == [] ==> sp.closed == [])
  }

  lemma StepMaximal(sp: Split, e: Entry, day: int -> string)
    requires Maximal(sp, day)
    ensures Maximal(Step(sp, e, day), day)
  {
    assert Last([e]) == e && Last(sp.last + [e]) == e;
  }

  lemma {:induction false} SplitMaximal(es: seq<Entry>, day: int -> string)
    ensures Maximal(SplitOf(es, day), day)
  {
    if es != [] {
      SplitMaximal(es[..|es| - 1], day);
      StepMaximal(SplitOf(es[..|es| - 1], day), es[|es| - 1], day);
    }
  }

  /** Each run holds one day, and no two neighbours could be joined. */
  lemma RunsMaximal(es: seq<Entry>, day: int -> string)
    ensures forall k :: 0 <= k < |Runs(es, day)| ==> SameDay(Runs(es, day)[k], day)
    ensures forall k :: 0 < k < |Runs(es, day)| ==> DayBreak(Runs(es, day)[k - 1], Runs(es, day)[k], day)
  {
    SplitMaximal(es, day);
    if es != [] {
      MaximalRuns(SplitOf(es, day), day);
    }
  }

  lemma MaximalRuns(sp: Split, day: int -> string)
    requires Maximal(sp, day) && sp.last != []
    ensures var runs := sp.closed + [sp.last];
            && (forall k :: 0 <= k < |runs| ==> SameDay(runs[k], day))
            && (forall k :: 0 < k < |runs| ==> DayBreak(runs[k - 1], runs[k], day))
  {
  }

  // ---- the store --------------------------------------------------------------------

  function RunPath(run: seq<Entry>, day: int -> string, nm: Naming): (p: Path)
    requires run != [] && Consecutive(run)
  {
    Path(day(run[0].timestampMs), nm.name(run[0].index, Last(run).index))
  }

  /** A partition file holds exactly the consecutive entries its name says. */
  ghost predicate WellNamed(p: Path, es: seq<Entry>, parse: string -> Option<Range>) {
    && es != [] && Consecutive(es)
    && parse(p.base) == Some(Range(es[0].index, Last(es).index + 1))
  }

  /** Every file is a well-named partition or no partition at all. */
  ghost predicate StoreInv(files: Files, parse: string -> Option<Range>) {
    forall p :: p in files ==> parse(p.base).None? || WellNamed(p, files[p], parse)
  }

  ghost predicate Holds(files: Files, parse: string -> Option<Range>, p: Path, x: int) {
    p in files && parse(p.base).Some? && HasIndex(files[p], x)
  }

  ghost predicate Written(files: Files, parse: string -> Option<Range>, x: int) {
    exists p :: Holds(files, parse, p, x)
  }

  /** In a well-named file the range of the name and the indices inside are the same thing. */
  lemma NameBracketsContent(p: Path, es: seq<Entry>, parse: string -> Option<Range>, x: int)
    requires WellNamed(p, es, parse)
    ensures Within(parse(p.base).value, x) <==> HasIndex(es, x)
  {
    if Within(parse(p.base).value, x) {
      assert es[x - es[0].index].index == x;
    }
  }

  /** None of the batch's indices is on disk yet. */
  ghost predicate Unwritten(files: Files, parse: string -> Option<Range>, es: seq<Entry>) {
    forall i :: 0 <= i < |es| ==> !Written(files, parse, es[i].index)
  }

  /** A run that starts at an unwritten index never meets an existing path. */
  lemma UnwrittenNotRefused(files: Files, run: seq<Entry>, day: int -> string, nm: Naming)
    requires StoreInv(files, nm.parse) && Faithful(nm) && run != [] && Consecutive(run)
    requires !Written(files, nm.parse, run[0].index)
    ensures RunPath(run, day, nm) !in files
  {
    var p := RunPath(run, day, nm);
    if p in files {
      assert nm.parse(p.base) == Some(Range(run[0].index, Last(run).index + 1));
      assert WellNamed(p, files[p], nm.parse);
      assert files[p][0].index == run[0].index;
      assert Holds(files, nm.parse, p, run[0].index);
    }
  }

  lemma AddFile(files: Files, parse: string -> Option<Range>, p: Path, es: seq<Entry>)
    requires StoreInv(files, parse) && p !in files && WellNamed(p, es, parse)
    ensures StoreInv(files[p := es], parse)
    ensures forall x :: Written(files[p := es], parse, x) <==> Written(files, parse, x) || HasIndex(es, x)
  {
    var files' := files[p := es];
    forall x ensures Written(files', parse, x) <==> Written(files, parse, x) || HasIndex(es, x) {
      if Written(files, parse, x) {
        var q :| Holds(files, parse, q, x);
        assert Holds(files', parse, q, x);
      }
      if HasIndex(es, x) {
        assert Holds(files', parse, p, x);
      }
      if Written(files', parse, x) && !HasIndex(es, x) {
        var q :| Holds(files', parse, q, x);
        assert Holds(files, parse, q, x);
      }
    }
  }

  lemma HasIndexOfConcat(a: seq<Entry>, b: seq<Entry>)
    ensures forall x :: HasIndex(a + b, x) <==> HasIndex(a, x) || HasIndex(b, x)
  {
    forall x ensures HasIndex(a + b, x) <==> HasIndex(a, x) || HasIndex(b, x) {
      if HasIndex(a, x) {
        var i :| 0 <= i < |a| && a[i].index == x;
        assert (a + b)[i].index == x;
      }
      if HasIndex(b, x) {
        var i :| 0 <= i < |b| && b[i].index == x;
        assert (a + b)[|a| + i].index == x;
      }
    }
  }

  /** Runs that Put can take one after another: consecutive, and each on a path not yet there. */
  ghost predicate Fits(files: Files, runs: seq<seq<Entry>>, day: int -> string, nm: Naming) {
    runs == [] ||
    var n := |runs| - 1;
    && Fits(files, runs[..n], day, nm)
    && runs[n] != [] && Consecutive(runs[n])
    && RunPath(runs[n], day, nm) !in AddRuns(files, runs[..n], day, nm)
  }

  /** The output root after those runs have been put. */
  ghost function AddRuns(files: Files, runs: seq<seq<Entry>>, day: int -> string, nm: Naming): (files': Files) {
    if runs == [] then files
    else
      var n := |runs| - 1;
      var before := AddRuns(files, runs[..n], day, nm);
      if runs[n] == [] || !Consecutive(runs[n]) then before
      else before[RunPath(runs[n], day, nm) := runs[n]]
  }

  /** What has landed: the runs' entries and nothing else, with no earlier file touched. */
  lemma {:induction false} AddRunsFacts(files: Files, runs: seq<seq<Entry>>, day: int -> string, nm: Naming)
    requires StoreInv(files, nm.parse) && Faithful(nm) && Fits(files, runs, day, nm)
    ensures StoreInv(AddRuns(files, runs, day, nm), nm.parse)
    ensures forall x ::
      Written(AddRuns(files, runs, day, nm), nm.parse, x) <==> Written(files, nm.parse, x) || HasIndex(Concat(runs), x)
    ensures forall p :: p in files ==>
                          p in AddRuns(files, runs, day, nm) && AddRuns(files, runs, day, nm)[p] == files[p]
  {
    if runs != [] {
      var n := |runs| - 1;
      AddRunsFacts(files, runs[..n], day, nm);
      var before := AddRuns(files, runs[..n], day, nm);
      AddFile(before, nm.parse, RunPath(runs[n], day, nm), runs[n]);
      HasIndexOfConcat(Concat(runs[..n]), runs[n]);
    }
  }

  lemma FitsSnoc(files: Files, runs: seq<seq<Entry>>, run: seq<Entry>, day: int -> string, nm: Naming)
    requires Fits(files, runs, day, nm) && run != [] && Consecutive(run)
    requires RunPath(run, day, nm) !in AddRuns(files, runs, day, nm)
    ensures Fits(files, runs + [run], day, nm)
    ensures AddRuns(files, runs + [run], day, nm) == AddRuns(files, runs, day, nm)[RunPath(run, day, nm) := run]
  {
    assert (runs + [run])[..|runs|] == runs;
  }

  /** The entries from `done` to `i` are the run that is open. */
  ghost predicate Open(es: seq<Entry>, done: nat, i: nat, day: int -> string) {
    done < i <= |es| && SplitOf(es[..i], day) == Split(Runs(es[..done], day), es[done..i])
  }

  /** One more entry either joins the open run or closes it. */
  lemma OpenNext(es: seq<Entry>, done: nat, i: nat, day: int -> string)
    requires Open(es, done, i, day) && i < |es|
    ensures if day(es[i - 1].timestampMs) == day(es[i].timestampMs) then Open(es, done, i + 1, day)
            else Open(es, i, i + 1, day)
  {
    assert es[..i + 1][..i] == es[..i] && es[..i + 1][i] == es[i];
    assert Last(es[done..i]) == es[i - 1];
    assert es[done..i] + [es[i]] == es[done..i + 1];
    assert es[i..i + 1] == [es[i]];
  }

  /** Closing the open run. */
  lemma RunsOfOpen(es: seq<Entry>, done: nat, i: nat, day: int -> string)
    requires Open(es, done, i, day)
    ensures Runs(es[..i], day) == Runs(es[..done], day) + [es[done..i]]
  {
  }

  /** The entries have landed, as their runs, and nothing else has. */
  ghost predicate Landed(files0: Files, files: Files, es: seq<Entry>, day: int -> string, nm: Naming) {
    Fits(files0, Runs(es, day), day, nm) && files == AddRuns(files0, Runs(es, day), day, nm)
  }

  /** `landed(files, k)` says that the first `k` entries have landed. */
  ghost predicate TracksLanded(landed: (Files, nat) -> bool, files0: Files, es: seq<Entry>, day: int -> string,
                               nm: Naming) {
    forall files, k :: LandedIs(landed, files, k, files0, es, day, nm)
  }

  ghost predicate LandedIs(landed: (Files, nat) -> bool, files: Files, k: nat,
                           files0: Files, es: seq<Entry>, day: int -> string, nm: Naming) {
    landed(files, k) <==> k <= |es| && Landed(files0, files, es[..k], day, nm)
  }

  ghost function LandedFn(files0: Files, es: seq<Entry>, day: int -> string, nm: Naming): (Files, nat) -> bool {
    (files: Files, k: nat) => k <= |es| && Landed(files0, files, es[..k], day, nm)
  }

  lemma LandedFnTracks(files0: Files, es: seq<Entry>, day: int -> string, nm: Naming)
    ensures TracksLanded(LandedFn(files0, es, day, nm), files0, es, day, nm)
  {
    forall files, k
      ensures LandedIs(LandedFn(files0, es, day, nm), files, k, files0, es, day, nm)
    {
    }
  }

  lemma NothingLanded(landed: (Files, nat) -> bool, files0: Files, es: seq<Entry>, day: int -> string, nm: Naming)
    requires TracksLanded(landed, files0, es, day, nm)
    ensures landed(files0, 0)
  {
    assert LandedIs(landed, files0, 0, files0, es, day, nm);
    assert es[..0] == [];
  }

  // ---- what a write leaves on disk ------------------------------------------------------

  /** No earlier file is touched. */
  ghost predicate Kept(files0: Files, files: Files) {
    forall p :: p in files0 ==> p in files && files[p] == files0[p]
  }

  /** A new file: named by the range it holds, its entries out of the given ones, and in the directory
      of the day that each of them falls on. */
  ghost predicate Filed(p: Path, content: seq<Entry>, es: seq<Entry>, day: int -> string, nm: Naming) {
    && WellNamed(p, content, nm.parse)
    && forall e :: e in content ==> e in es && p.dir == day(e.timestampMs)
  }

  ghost predicate OnlyNew(files0: Files, files: Files, es: seq<Entry>, day: int -> string, nm: Naming) {
    forall p :: p in files && p !in files0 ==> Filed(p, files[p], es, day, nm)
  }

  /** The entry is in a file in the directory of its day. */
  ghost predicate Stored(files: Files, e: Entry, day: int -> string) {
    exists p :: p in files && e in files[p] && p.dir == day(e.timestampMs)
  }

  ghost predicate AllStored(files: Files, es: seq<Entry>, day: int -> string) {
    forall e :: e in es ==> Stored(files, e, day)
  }

  /** Earlier files are untouched, new ones hold these entries only, and each of these is stored. */
  ghost predicate Adds(files0: Files, files: Files, es: seq<Entry>, day: int -> string, nm: Naming) {
    Kept(files0, files) && OnlyNew(files0, files, es, day, nm) && AllStored(files, es, day)
  }

  lemma KeptStays(files0: Files, files: Files, es: seq<Entry>, day: int -> string)
    requires Kept(files0, files) && AllStored(files0, es, day)
    ensures AllStored(files, es, day)
  {
    forall e | e in es ensures Stored(files, e, day) {
      assert Stored(files0, e, day);
      var p :| p in files0 && e in files0[p] && p.dir == day(e.timestampMs);
      assert p in files && e in files[p];
    }
  }

  lemma OnlyNewOfMore(files0: Files, files: Files, es: seq<Entry>, all: seq<Entry>, day: int -> string, nm: Naming)
    requires OnlyNew(files0, files, es, day, nm) && forall e :: e in es ==> e in all
    ensures OnlyNew(files0, files, all, day, nm)
  {
    forall p | p in files && p !in files0 ensures Filed(p, files[p], all, day, nm) {
      assert Filed(p, files[p], es, day, nm);
    }
  }

  /** One write after another. */
  lemma OnlyNewInTurn(files0: Files, files1: Files, files2: Files, es1: seq<Entry>, es2: seq<Entry>,
                      day: int -> string, nm: Naming)
    requires Kept(files0, files1) && OnlyNew(files0, files1, es1, day, nm)
    requires Kept(files1, files2) && OnlyNew(files1, files2, es2, day, nm)
    ensures Kept(files0, files2) && OnlyNew(files0, files2, es1 + es2, day, nm)
  {
    OnlyNewOfMore(files0, files1, es1, es1 + es2, day, nm);
    OnlyNewOfMore(files1, files2, es2, es1 + es2, day, nm);
    forall p | p in files2 && p !in files0 ensures Filed(p, files2[p], es1 + es2, day, nm) {
      if p in files1 {
        assert Filed(p, files1[p], es1 + es2, day, nm);
      }
    }
  }

  lemma AllStoredInTurn(files1: Files, files2: Files, es1: seq<Entry>, es2: seq<Entry>, day: int -> string)
    requires AllStored(files1, es1, day) && Kept(files1, files2) && AllStored(files2, es2, day)
    ensures AllStored(files2, es1 + es2, day)
  {
    KeptStays(files1, files2, es1, day);
  }

  lemma RunAdds(files: Files, run: seq<Entry>, day: int -> string, nm: Naming)
    requires Faithful(nm) && run != [] && Consecutive(run) && SameDay(run, day) && RunPath(run, day, nm) !in files
    ensures Adds(files, files[RunPath(run, day, nm) := run], run, day, nm)
  {
    var p := RunPath(run, day, nm);
    var files' := files[p := run];
    forall e | e in run ensures p.dir == day(e.timestampMs) && Stored(files', e, day) {
      var i :| 0 <= i < |run| && run[i] == e;
      assert p in files' && e in files'[p];
    }
    assert WellNamed(p, run, nm.parse);
    assert Filed(p, run, run, day, nm);
  }

  lemma {:induction false} RunsAdd(files: Files, runs: seq<seq<Entry>>, day: int -> string, nm: Naming)
    requires Faithful(nm) && Fits(files, runs, day, nm)
    requires forall k :: 0 <= k < |runs| ==> SameDay(runs[k], day)
    ensures Adds(files, AddRuns(files, runs, day, nm), Concat(runs), day, nm)
  {
    if runs != [] {
      var n := |runs| - 1;
      var before := AddRuns(files, runs[..n], day, nm);
      RunsAdd(files, runs[..n], day, nm);
      RunAdds(before, runs[n], day, nm);
      OnlyNewInTurn(files, before, AddRuns(files, runs, day, nm), Concat(runs[..n]), runs[n], day, nm);
      AllStoredInTurn(before, AddRuns(files, runs, day, nm), Concat(runs[..n]), runs[n], day);
    }
  }

  /** A batch that has landed: each entry is in a file of its day, and the new files hold nothing else. */
  lemma BatchAdds(files: Files, es: seq<Entry>, day: int -> string, nm: Naming)
    requires Faithful(nm) && Fits(files, Runs(es, day), day, nm)
    ensures Adds(files, AddRuns(files, Runs(es, day), day, nm), es, day, nm)
  {
    RunsMaximal(es, day);
    RunsConcat(es, day);
    RunsAdd(files, Runs(es, day), day, nm);
  }

  // ---- the sink -----------------------------------------------------------------------

  /** The sink's counters agree with what it has written. */
  ghost predicate Counts(history: seq<Entry>, entriesWritten: nat, firstIndex: int, lastIndex: int) {
    && entriesWritten == |history|
    && (forall i :: 0 <= i < |history| ==> 0 <= firstIndex <= history[i].index <= lastIndex)
    && (history == [] ==> firstIndex == -1 && lastIndex == -1)
    && (history != [] ==> HasIndex(history, firstIndex) && HasIndex(history, lastIndex))
  }

  lemma CountRun(history: seq<Entry>, n: nat, lo: int, hi: int, run: seq<Entry>)
    requires Counts(history, n, lo, hi) && run != [] && Consecutive(run)
    ensures
      var first, last := run[0].index, Last(run).index;
      Counts(history + run, n + |run|, if lo < 0 || first < lo then first else lo, if last > hi then last else hi)
  {
    HasIndexOfConcat(history, run);
    assert HasIndex(run, run[0].index) && HasIndex(run, Last(run).index);
  }

  class BatchSink {
    var files: Files
    var entriesWritten: nat
    var firstIndex: int
    var lastIndex: int
    const nm: Naming
    ghost var history: seq<Entry>   // what this sink has written, in order

    ghost predicate Valid()
      reads this
    {
      Faithful(nm) && StoreInv(files, nm.parse) && Counts(history, entriesWritten, firstIndex, lastIndex)
    }

    /** A sink over an output root that may already hold other partitions and other files. */
    constructor (files: Files, nm: Naming)
      requires StoreInv(files, nm.parse) && Faithful(nm)
      ensures Valid() && this.files == files && this.nm == nm && history == []
    {
      this.files, this.nm := files, nm;
      entriesWritten, firstIndex, lastIndex, history := 0, -1, -1, [];
    }

    /** Writes one run. Put refuses an existing path, and may fail for reasons of its own. */
    method WriteRun(run: seq<Entry>, day: int -> string, ioOk: bool) returns (ok: bool)
      requires Valid() && Consecutive(run) && run != []
      modifies this
      ensures Valid()
      ensures ok <==> ioOk && RunPath(run, day, nm) !in old(files)
      ensures files == if ok then old(files)[RunPath(run, day, nm) := run] else old(files)
      ensures history == if ok then old(history) + run else old(history)
    {
      var path := RunPath(run, day, nm);
      if !ioOk || path in files {
        return false;
      }
      assert WellNamed(path, run, nm.parse);
      AddFile(files, nm.parse, path, run);
      CountRun(history, entriesWritten, firstIndex, lastIndex, run);
      files := files[path := run];
      var first, last := run[0].index, Last(run).index;
      entriesWritten := entriesWritten + |run|;
      if firstIndex < 0 || first < firstIndex {
        firstIndex := first;
      }
      if last > lastIndex {
        lastIndex := last;
      }
      history := history + run;
      ok := true;
    }

    /** Closes the open run es[done..i] of a batch whose earlier runs have landed. */
    method CloseRun(es: seq<Entry>, day: int -> string, done: nat, i: nat, ioOk: bool,
                    ghost files0: Files, ghost isNew: bool, ghost landed: (Files, nat) -> bool)
      returns (ok: bool)
      requires Valid() && Consecutive(es) && Open(es, done, i, day)
      requires TracksLanded(landed, files0, es, day, nm) && landed(files, done)
      requires StoreInv(files0, nm.parse) && (isNew ==> Unwritten(files0, nm.parse, es))
      modifies this
      ensures Valid()
      ensures ioOk && isNew ==> ok
      ensures !ok ==> files == old(files) && history == old(history)
      ensures ok ==> landed(files, i) && history == old(history) + es[done..i]
    {
      assert LandedIs(landed, files, done, files0, es, day, nm);
      SliceIsConsecutive(es, done, i);
      RunsOfOpen(es, done, i, day);
      if isNew {
        NextRunNotRefused(files0, es, done, i, day, nm);
      }
      ok := WriteRun(es[done..i], day, ioOk);
      if ok {
        FitsSnoc(files0, Runs(es[..done], day), es[done..i], day, nm);
        assert LandedIs(landed, files, i, files0, es, day, nm);
      }
    }

    /** Writes a batch as one file per same-day run. `io` says which Put calls the backend lets
        through; however far it gets, exactly the first `done` entries have landed, as their runs.
        A batch of unwritten indices is never refused. */
    method WriteBatch(es: seq<Entry>, day: int -> string, io: nat -> bool) returns (ok: bool, done: nat)
      requires Valid() && Consecutive(es)
      modifies this
      ensures Valid()
      ensures done <= |es| && (ok <==> done == |es|)
      ensures (forall n :: io(n)) && Unwritten(old(files), nm.parse, es) ==> ok
      ensures history == old(history) + es[..done]
      ensures Fits(old(files), Runs(es[..done], day), day, nm)
      ensures files == AddRuns(old(files), Runs(es[..done], day), day, nm)
      ensures Adds(old(files), files, es[..done], day, nm)
    {
      assert es[..0] == [];
      if es == [] {
        return true, 0;
      }
      ghost var landed := LandedFn(files, es, day, nm);
      LandedFnTracks(files, es, day, nm);
      ok, done := WriteRuns(es, day, io, files, landed);
      assert LandedIs(landed, files, done, old(files), es, day, nm);
      BatchAdds(old(files), es[..done], day, nm);
    }

    /** Writes the closed runs, then the last one. */
    method WriteRuns(es: seq<Entry>, day: int -> string, io: nat -> bool, ghost files0: Files, ghost landed: (Files,
                     nat) -> bool)
      returns (ok: bool, done: nat)
      requires Valid() && Consecutive(es) && es != []
      requires files == files0 && TracksLanded(landed, files0, es, day, nm)
      modifies this
      ensures Valid()
      ensures done <= |es| && (ok <==> done == |es|)
      ensures (forall n :: io(n)) && Unwritten(files0, nm.parse, es) ==> ok
      ensures history == old(history) + es[..done]
      ensures landed(files, done)
    {
      ghost var isNew := Unwritten(files0, nm.parse, es);
      ok, done := WriteClosedRuns(es, day, io, files0, isNew, landed);
      if ok {
        ok := CloseRun(es, day, done, |es|, io(done), files0, isNew, landed);
        if ok {
          JoinSlices(old(history), es, done, |es|);
          done := |es|;
        }
      }
    }

    /** The loop of the batch: writes every run that a change of day closes. */
    method WriteClosedRuns(es: seq<Entry>, day: int -> string, io: nat -> bool,
                           ghost files0: Files, ghost isNew: bool, ghost landed: (Files, nat) -> bool)
      returns (ok: bool, done: nat)
      requires Valid() && Consecutive(es) && es != [] && (isNew ==> Unwritten(files0, nm.parse, es))
      requires files == files0 && TracksLanded(landed, files0, es, day, nm)
      modifies this
      ensures Valid()
      ensures done < |es|
      ensures !ok && isNew ==> exists n :: !io(n)
      ensures history == old(history) + es[..done]
      ensures landed(files, done)
      ensures ok ==> Open(es, done, |es|, day)
    {
      done, ok := 0, true;
      var curDay := day(es[0].timestampMs);
      FirstRun(es, day);
      NothingLanded(landed, files0, es, day, nm);
      assert es[..0] == [];
      for i := 1 to |es|
        invariant Valid() && done < i
        invariant curDay == day(es[i - 1].timestampMs)
        invariant Open(es, done, i, day)
        invariant history == old(history) + es[..done]
        invariant landed(files, done)
      {
        var d := day(es[i].timestampMs);
        OpenNext(es, done, i, day);
        if d != curDay {
          ok := CloseRun(es, day, done, i, io(done), files0, isNew, landed);
          if !ok {
            return;
          }
          JoinSlices(old(history), es, done, i);
          curDay, done := d, i;
        }
      }
    }
  }

  /** With the earlier runs of an unwritten batch landed, the next one meets no existing path. */
  lemma NextRunNotRefused(files0: Files, es: seq<Entry>, done: nat, i: nat, day: int -> string, nm: Naming)
    requires StoreInv(files0, nm.parse) && Faithful(nm) && Consecutive(es) && done < i <= |es|
    requires Consecutive(es[done..i]) && Unwritten(files0, nm.parse, es)
    requires Fits(files0, Runs(es[..done], day), day, nm)
    ensures RunPath(es[done..i], day, nm) !in AddRuns(files0, Runs(es[..done], day), day, nm)
  {
    BatchIsWritten(files0, es[..done], day, nm);
    AddRunsFacts(files0, Runs(es[..done], day), day, nm);
    var x := es[done].index;
    assert !HasIndex(es[..done], x) by {
      forall j | 0 <= j < done ensures es[..done][j].index != x {
        assert es[..done][j] == es[j];
      }
    }
    UnwrittenNotRefused(AddRuns(files0, Runs(es[..done], day), day, nm), es[done..i], day, nm);
  }

  lemma JoinSlices(h: seq<Entry>, es: seq<Entry>, lo: nat, hi: nat)
    requires lo <= hi <= |es|
    ensures h + es[..lo] + es[lo..hi] == h + es[..hi]
  {
    assert es[..lo] + es[lo..hi] == es[..hi];
  }

  lemma SliceIsConsecutive(es: seq<Entry>, lo: nat, hi: nat)
    requires Consecutive(es) && lo < hi <= |es|
    ensures Consecutive(es[lo..hi])
  {
    forall k | 0 <= k < hi - lo ensures es[lo..hi][k].index == es[lo..hi][0].index + k {
      assert es[lo..hi][k] == es[lo + k] && es[lo..hi][0] == es[lo];
    }
  }

  lemma FirstRun(es: seq<Entry>, day: int -> string)
    requires es != []
    ensures Open(es, 0, 1, day)
  {
    assert es[..1][..0] == [] && es[..0] == [];
    assert es[..1] == [es[0]] && es[0..1] == [es[0]];
    assert SplitOf(es[..1], day) == Step(SplitOf([], day), es[0], day);
  }

  /** A batch that got through makes exactly its own indices findable, beside those already there. */
  lemma BatchIsWritten(files: Files, es: seq<Entry>, day: int -> string, nm: Naming)
    requires StoreInv(files, nm.parse) && Faithful(nm) && Fits(files, Runs(es, day), day, nm)
    ensures forall x ::
      Written(AddRuns(files, Runs(es, day), day, nm), nm.parse, x) <==> Written(files, nm.parse, x) || HasIndex(es, x)
  {
    AddRunsFacts(files, Runs(es, day), day, nm);
    RunsConcat(es, day);
  }

  // ---- scanning ---------------------------------------------------------------------

  /** `order` visits every file once, in whatever order the walk takes. */
  ghost predicate Visits(order: seq<Path>, files: Files) {
    && (forall i, j :: 0 <= i < j < |order| ==> order[i] != order[j])
    && (forall i :: 0 <= i < |order| ==> order[i] in files)
    && (forall p :: p in files ==> p in order)
  }

  /** The partition files among these paths. */
  function Partitions(paths: set<Path>, parse: string -> Option<Range>): (ps: set<Path>) {
    set p | p in paths && parse(p.base).Some?
  }

  method ScanPartitionRanges(files: Files, parse: string -> Option<Range>, order: seq<Path>)
    returns (ranges: seq<Range>, count: nat)
    requires StoreInv(files, parse) && Visits(order, files)
    ensures Proper(ranges)
    ensures count == |Partitions(files.Keys, parse)|
    ensures forall x :: Covered(ranges, x) <==> Written(files, parse, x)
  {
    ranges, count := [], 0;
    for k := 0 to |order|
      invariant Proper(ranges)
      invariant count == |Partitions(Seen(order, k), parse)|
      invariant forall x :: Covered(ranges, x) <==> WrittenIn(files, parse, order[..k], x)
    {
      var p := order[k];
      assert order[..k + 1] == order[..k] + [p];
      var r := parse(p.base);
      WrittenSnoc(files, parse, order[..k], p);
      CountNext(order, k, parse);
      if r.Some? {
        assert WellNamed(p, files[p], parse);
        CoveredSnoc(ranges, r.value);
        forall x ensures Within(r.value, x) <==> HasIndex(files[p], x) {
          NameBracketsContent(p, files[p], parse, x);
        }
        ranges, count := ranges + [r.value], count + 1;
      }
    }
    assert order[..|order|] == order;
    assert Seen(order, |order|) == files.Keys;
    forall x ensures WrittenIn(files, parse, order, x) <==> Written(files, parse, x) {
      if Written(files, parse, x) {
        var p :| Holds(files, parse, p, x);
        assert p in order;
      }
    }
  }

  function Seen(order: seq<Path>, k: nat): (paths: set<Path>)
    requires k <= |order|
  {
    set p | p in order[..k]
  }

  lemma CountNext(order: seq<Path>, k: nat, parse: string -> Option<Range>)
    requires k < |order| && forall i, j :: 0 <= i < j < |order| ==> order[i] != order[j]
    ensures |Partitions(Seen(order, k + 1), parse)|
         == |Partitions(Seen(order, k), parse)| + if parse(order[k].base).Some? then 1 else 0
  {
    assert order[..k + 1] == order[..k] + [order[k]];
    assert order[k] !in order[..k];
    var more := if parse(order[k].base).Some? then {order[k]} else {};
    assert Partitions(Seen(order, k + 1), parse) == Partitions(Seen(order, k), parse) + more;
  }

  ghost predicate WrittenIn(files: Files, parse: string -> Option<Range>, paths: seq<Path>, x: int) {
    exists p :: p in paths && Holds(files, parse, p, x)
  }

  lemma WrittenSnoc(files: Files, parse: string -> Option<Range>, paths: seq<Path>, p: Path)
    ensures forall x ::
      WrittenIn(files, parse, paths + [p], x) <==> WrittenIn(files, parse, paths, x) || Holds(files, parse, p, x)
  {
    forall x ensures WrittenIn(files, parse, paths + [p], x)
      <==> WrittenIn(files, parse, paths, x) || Holds(files, parse, p, x)
    {
      if WrittenIn(files, parse, paths, x) {
        var q :| q in paths && Holds(files, parse, q, x);
        assert q in paths + [p];
      }
      if Holds(files, parse, p, x) {
        assert p in paths + [p];
      }
    }
  }

  // ---- lookup by index -----------------------------------------------------------------

  method FindEntry(files: Files, parse: string -> Option<Range>, order: seq<Path>, index: int)
    returns (found: Option<Entry>)
    requires StoreInv(files, parse) && Visits(order, files)
    ensures found.Some? <==> Written(files, parse, index)
    ensures found.Some? ==>
      found.value.index == index && exists p :: Holds(files, parse, p, index) && found.value in files[p]
  {
    for k := 0 to |order|
      invariant forall j :: 0 <= j < k ==> !Holds(files, parse, order[j], index)
    {
      var p := order[k];
      var r := parse(p.base);
      if r.Some? {
        NameBracketsContent(p, files[p], parse, index);
        if Within(r.value, index) {
          var es := files[p];
          for i := 0 to |es|
            invariant forall j :: 0 <= j < i ==> es[j].index != index
          {
            if es[i].index == index {
              assert Holds(files, parse, p, index);
              return Some(es[i]);
            }
          }
        }
      }
    }
    forall p ensures !Holds(files, parse, p, index) {
      if p in files {
        assert p in order;
      }
    }
    found := None;
  }

  // ---- coverage of an output root ---------------------------------------------------------

  /** Scan and summary together: the statistics are about the entries on disk, not about names. */
  method CheckCoverage(files: Files, parse: string -> Option<Range>, order: seq<Path>, treeSize: int)
    returns (stored: int, frontier: int, contiguous: int, gaps: seq<Range>, count: nat)
    requires StoreInv(files, parse) && Visits(order, files)
    ensures 0 <= frontier && forall x :: Written(files, parse, x) ==> 0 <= x < frontier
    ensures frontier > 0 ==> Written(files, parse, frontier - 1)
    ensures count == |Partitions(files.Keys, parse)|
    ensures stored == |set x | 0 <= x < frontier && Written(files, parse, x)|
    ensures 0 <= contiguous && !Written(files, parse, contiguous)
    ensures forall x :: 0 <= x < contiguous ==> Written(files, parse, x)
    ensures Proper(gaps) && Separated(gaps)
    ensures forall x :: Covered(gaps, x) <==>
                          0 <= x < (if treeSize > 0 then treeSize else frontier) && !Written(files, parse, x)
  {
    var ranges;
    ranges, count := ScanPartitionRanges(files, parse, order);
    stored, frontier, contiguous, gaps := SummarizeRanges(ranges, treeSize);
    assert Indices(ranges, frontier) == set x | 0 <= x < frontier && Written(files, parse, x);
  }

  // ---- write, scan and find together -------------------------------------------------------

  ghost predicate InBatches(batches: seq<seq<Entry>>, x: int) {
    exists i :: 0 <= i < |batches| && HasIndex(batches[i], x)
  }

  lemma InBatchesSnoc(batches: seq<seq<Entry>>, es: seq<Entry>)
    ensures forall x :: InBatches(batches + [es], x) <==> InBatches(batches, x) || HasIndex(es, x)
  {
    forall x ensures InBatches(batches + [es], x) <==> InBatches(batches, x) || HasIndex(es, x) {
      var all := batches + [es];
      if InBatches(batches, x) {
        var i :| 0 <= i < |batches| && HasIndex(batches[i], x);
        assert HasIndex(all[i], x);
      }
      if HasIndex(es, x) {
        assert HasIndex(all[|batches|], x);
      }
    }
  }

  /** Batches of unwritten indices, no two of which share one. */
  ghost predicate AllNew(files: Files, parse: string -> Option<Range>, batches: seq<seq<Entry>>) {
    && (forall i :: 0 <= i < |batches| ==> Unwritten(files, parse, batches[i]))
    && (forall i, j :: 0 <= i < j < |batches| ==> Disjoint(batches[i], batches[j]))
  }

  ghost predicate Disjoint(a: seq<Entry>, b: seq<Entry>) {
    forall i :: 0 <= i < |b| ==> !HasIndex(a, b[i].index)
  }

  /** New batches stay new while earlier ones are written. */
  lemma StillUnwritten(files0: Files, files: Files, parse: string -> Option<Range>, batches: seq<seq<Entry>>, k: nat)
    requires k < |batches| && AllNew(files0, parse, batches)
    requires forall x :: Written(files, parse, x) <==> Written(files0, parse, x) || InBatches(batches[..k], x)
    ensures Unwritten(files, parse, batches[k])
  {
    forall i, j | 0 <= i < |batches[k]| && 0 <= j < k
      ensures !HasIndex(batches[..k][j], batches[k][i].index)
    {
      assert batches[..k][j] == batches[j] && Disjoint(batches[j], batches[k]);
    }
  }

  /** Writes batch after batch until one fails. `io` says which Put calls the backend lets through.
      Batches of new indices are never refused. */
  method WriteAll(sink: BatchSink, batches: seq<seq<Entry>>, day: int -> string, io: (nat, nat) -> bool)
    returns (ok: bool)
    requires sink.Valid() && forall i :: 0 <= i < |batches| ==> Consecutive(batches[i])
    modifies sink
    ensures sink.Valid()
    ensures forall x :: Written(old(sink.files), sink.nm.parse, x) ==> Written(sink.files, sink.nm.parse, x)
    ensures forall x :: Written(sink.files, sink.nm.parse, x) ==>
                          Written(old(sink.files), sink.nm.parse, x) || InBatches(batches, x)
    ensures ok ==> forall x :: Written(sink.files, sink.nm.parse, x) <==>
                                 Written(old(sink.files), sink.nm.parse, x) || InBatches(batches, x)
    ensures (forall k, n :: io(k, n)) && AllNew(old(sink.files), sink.nm.parse, batches) ==> ok
    ensures Kept(old(sink.files), sink.files)
    ensures OnlyNew(old(sink.files), sink.files, Concat(batches), day, sink.nm)
    ensures ok ==> AllStored(sink.files, Concat(batches), day)
  {
    ghost var files0 := sink.files;
    for k := 0 to |batches|
      invariant sink.Valid()
      invariant Adds(files0, sink.files, Concat(batches[..k]), day, sink.nm)
      invariant forall x :: Written(sink.files, sink.nm.parse, x) <==>
                              Written(files0, sink.nm.parse, x) || InBatches(batches[..k], x)
    {
      var done;
      ghost var before := sink.files;
      ok, done := WriteNext(sink, batches, k, day, (n: nat) => io(k, n), files0);
      AddsNext(files0, before, sink.files, batches, k, day, sink.nm);
      if !ok {
        return;
      }
    }
    assert batches[..|batches|] == batches;
    ok := true;
  }

  lemma {:induction false} ConcatHolds(batches: seq<seq<Entry>>)
    ensures forall e :: e in Concat(batches) <==> exists i :: 0 <= i < |batches| && e in batches[i]
  {
    if batches != [] {
      ConcatHolds(batches[..|batches| - 1]);
    }
  }

  lemma {:induction false} ConcatGrows(batches: seq<seq<Entry>>, k: nat)
    requires k <= |batches|
    ensures forall e :: e in Concat(batches[..k]) ==> e in Concat(batches)
  {
    if k < |batches| {
      var front := batches[..|batches| - 1];
      assert front[..k] == batches[..k];
      ConcatGrows(front, k);
    } else {
      assert batches[..k] == batches;
    }
  }

  lemma ConcatOfFirst(batches: seq<seq<Entry>>, k: nat)
    requires k < |batches|
    ensures Concat(batches[..k + 1]) == Concat(batches[..k]) + batches[k]
    ensures forall e :: e in Concat(batches[..k + 1]) ==> e in Concat(batches)
  {
    assert batches[..k + 1] == batches[..k] + [batches[k]];
    ConcatSnoc(batches[..k], batches[k]);
    ConcatGrows(batches, k + 1);
  }

  lemma AddsNext(files0: Files, before: Files, files: Files, batches: seq<seq<Entry>>, k: nat, day: int -> string,
                 nm: Naming)
    requires k < |batches| && Adds(files0, before, Concat(batches[..k]), day, nm)
    requires Kept(before, files) && OnlyNew(before, files, batches[k], day, nm)
    ensures Kept(files0, files) && OnlyNew(files0, files, Concat(batches), day, nm)
    ensures AllStored(files, batches[k], day) ==> Adds(files0, files, Concat(batches[..k + 1]), day, nm)
  {
    ConcatOfFirst(batches, k);
    OnlyNewInTurn(files0, before, files, Concat(batches[..k]), batches[k], day, nm);
    OnlyNewOfMore(files0, files, Concat(batches[..k + 1]), Concat(batches), day, nm);
    if AllStored(files, batches[k], day) {
      AllStoredInTurn(before, files, Concat(batches[..k]), batches[k], day);
    }
  }

  /** One batch of several: what it adds to those before it. */
  method WriteNext(sink: BatchSink, batches: seq<seq<Entry>>, k: nat, day: int -> string, io: nat -> bool,
                   ghost files0: Files)
    returns (ok: bool, done: nat)
    requires sink.Valid() && k < |batches| && Consecutive(batches[k])
    requires forall x :: Written(sink.files, sink.nm.parse, x) <==>
                           Written(files0, sink.nm.parse, x) || InBatches(batches[..k], x)
    modifies sink
    ensures sink.Valid()
    ensures forall x :: Written(old(sink.files), sink.nm.parse, x) ==> Written(sink.files, sink.nm.parse, x)
    ensures forall x :: Written(sink.files, sink.nm.parse, x) ==>
                          Written(files0, sink.nm.parse, x) || InBatches(batches, x)
    ensures ok ==> forall x :: Written(sink.files, sink.nm.parse, x) <==>
                                 Written(files0, sink.nm.parse, x) || InBatches(batches[..k + 1], x)
    ensures (forall n :: io(n)) && AllNew(files0, sink.nm.parse, batches) ==> ok
    ensures Kept(old(sink.files), sink.files) && OnlyNew(old(sink.files), sink.files, batches[k], day, sink.nm)
    ensures ok ==> AllStored(sink.files, batches[k], day)
  {
    if AllNew(files0, sink.nm.parse, batches) {
      StillUnwritten(files0, sink.files, sink.nm.parse, batches, k);
    }
    ghost var before := sink.files;
    ok, done := sink.WriteBatch(batches[k], day, io);
    BatchIsWritten(before, batches[k][..done], day, sink.nm);
    OnlyNewOfMore(before, sink.files, batches[k][..done], batches[k], day, sink.nm);
    LandedPart(batches, k, done);
  }

  lemma LandedPart(batches: seq<seq<Entry>>, k: nat, done: nat)
    requires k < |batches| && done <= |batches[k]|
    ensures forall x :: HasIndex(batches[k][..done], x) ==> HasIndex(batches[k], x) && InBatches(batches, x)
    ensures forall x :: InBatches(batches[..k], x) ==> InBatches(batches, x)
    ensures done == |batches[k]| ==>
              forall x :: InBatches(batches[..k + 1], x) <==>
                            InBatches(batches[..k], x) || HasIndex(batches[k][..done], x)
  {
    forall x ensures HasIndex(batches[k][..done], x) ==> HasIndex(batches[k], x) && InBatches(batches, x) {
      if HasIndex(batches[k][..done], x) {
        var i :| 0 <= i < done && batches[k][..done][i].index == x;
        assert batches[k][i].index == x;
      }
    }
    forall x ensures InBatches(batches[..k], x) ==> InBatches(batches, x) {
      if InBatches(batches[..k], x) {
        var i :| 0 <= i < k && HasIndex(batches[..k][i], x);
        assert HasIndex(batches[i], x);
      }
    }
    if done == |batches[k]| {
      assert batches[k][..done] == batches[k];
      assert batches[..k + 1] == batches[..k] + [batches[k]];
      InBatchesSnoc(batches[..k], batches[k]);
    }
  }

  /** Any order in which a walk may visit the files. */
  method Walk(files: Files) returns (order: seq<Path>)
    ensures Visits(order, files)
  {
    order := [];
    var left := files.Keys;
    while left != {}
      invariant left <= files.Keys
      invariant forall i, j :: 0 <= i < j < |order| ==> order[i] != order[j]
      invariant forall p :: p in order <==> p in files && p !in left
      decreases |left|
    {
      var p :| p in left;
      left := left - {p};
      assert forall q :: q in order + [p] <==> q in order || q == p;
      order := order + [p];
    }
  }

  // ---- closing the gaps ------------------------------------------------------------------

  /** The consecutive entries of one interval. */
  predicate Fills(es: seq<Entry>, r: Range) {
    Consecutive(es) && |es| == r.end - r.start && (es != [] ==> es[0].index == r.start)
  }

  lemma FillsMeansWithin(es: seq<Entry>, r: Range)
    requires Fills(es, r)
    ensures forall x :: HasIndex(es, x) <==> Within(r, x)
  {
    forall x ensures HasIndex(es, x) <==> Within(r, x) {
      if Within(r, x) {
        assert es[x - r.start].index == x;
      }
    }
  }

  /** One batch per gap: the batches hold exactly the gaps' indices, and all are new. */
  lemma GapBatches(gaps: seq<Range>, batches: seq<seq<Entry>>, files: Files, parse: string -> Option<Range>)
    requires Separated(gaps) && Proper(gaps) && |batches| == |gaps|
    requires forall i :: 0 <= i < |gaps| ==> Fills(batches[i], gaps[i])
    requires forall x :: Covered(gaps, x) ==> !Written(files, parse, x)
    ensures forall x :: InBatches(batches, x) <==> Covered(gaps, x)
    ensures AllNew(files, parse, batches)
  {
    forall i | 0 <= i < |gaps| ensures forall x :: HasIndex(batches[i], x) <==> Within(gaps[i], x) {
      FillsMeansWithin(batches[i], gaps[i]);
    }
    forall i | 0 <= i < |batches| ensures Unwritten(files, parse, batches[i]) {
      forall j | 0 <= j < |batches[i]| ensures !Written(files, parse, batches[i][j].index) {
        assert HasIndex(batches[i], batches[i][j].index);
        assert Covered(gaps, batches[i][j].index);
      }
    }
    forall i, j | 0 <= i < j < |batches| ensures Disjoint(batches[i], batches[j]) {
      forall t | 0 <= t < |batches[j]| ensures !HasIndex(batches[i], batches[j][t].index) {
        assert HasIndex(batches[j], batches[j][t].index);
      }
    }
  }

  lemma NothingCovered(gaps: seq<Range>)
    requires Proper(gaps) && forall x :: !Covered(gaps, x)
    ensures gaps == []
  {
    if gaps != [] {
      FirstCovered(gaps);
    }
  }

  lemma FirstCovered(gaps: seq<Range>)
    requires Proper(gaps) && gaps != []
    ensures Covered(gaps, gaps[0].start)
  {
    assert Within(gaps[0], gaps[0].start);
  }

  /** The frontier and all indices stay within what a name can carry. */
  lemma GapsInRange(gaps: seq<Range>, bound: int)
    requires Proper(gaps) && forall x :: Covered(gaps, x) ==> x < bound
    ensures forall i :: 0 <= i < |gaps| ==> gaps[i].end <= bound
  {
    forall i | 0 <= i < |gaps| ensures gaps[i].end <= bound {
      assert Within(gaps[i], gaps[i].end - 1);
      assert Covered(gaps, gaps[i].end - 1);
    }
  }

  /** Reports the gaps, fetches and writes exactly them, reports again and looks one index up. When the
      writes get through, which only the backend can prevent, the second report has no gap, every
      index below the bound is on disk and can be found, and nothing else has been added. */
  method FillReportedGaps(sink: BatchSink, treeSize: int, fetch: Range -> seq<Entry>, day: int -> string,
                          io: (nat, nat) -> bool, probe: int)
    returns (ok: bool, gaps: seq<Range>, left: seq<Range>, found: Option<Entry>)
    requires sink.Valid() && treeSize < TWO63
    requires forall r: Range :: 0 <= r.start < r.end < TWO63 ==> Fills(fetch(r), r)
    modifies sink
    ensures sink.Valid()
    ensures (forall k, n :: io(k, n)) ==> ok
    ensures Kept(old(sink.files), sink.files)
    ensures treeSize > 0 ==> forall x :: Covered(gaps, x) <==>
                                           0 <= x < treeSize && !Written(old(sink.files), sink.nm.parse, x)
    ensures ok ==> left == []
    ensures ok ==> forall x :: Written(sink.files, sink.nm.parse, x) <==>
                                 Written(old(sink.files), sink.nm.parse, x) || Covered(gaps, x)
    ensures ok ==> forall x :: 0 <= x < treeSize ==> Written(sink.files, sink.nm.parse, x)
    ensures ok && treeSize <= 0 ==> forall x, y :: 0 <= x < y && Written(sink.files, sink.nm.parse, y) ==>
                                                     Written(sink.files, sink.nm.parse, x)
    ensures ok ==> (found.Some? <==> Written(old(sink.files), sink.nm.parse, probe) || Covered(gaps, probe))
    ensures ok && 0 <= probe < treeSize ==> found.Some? && found.value.index == probe
  {
    found, left := None, [];
    var order := Walk(sink.files);
    var stored, frontier, contiguous, count;
    stored, frontier, contiguous, gaps, count := CheckCoverage(sink.files, sink.nm.parse, order, treeSize);
    FrontierInRange(sink.files, sink.nm.parse, frontier);
    GapsInRange(gaps, Bound(frontier, treeSize));
    var batches := seq(|gaps|, i requires 0 <= i < |gaps| => fetch(gaps[i]));
    GapBatches(gaps, batches, sink.files, sink.nm.parse);
    ok := WriteAll(sink, batches, day, io);
    if !ok {
      return;
    }
    order := Walk(sink.files);
    var stored', frontier', contiguous', count';
    stored', frontier', contiguous', left, count' := CheckCoverage(sink.files, sink.nm.parse, order, treeSize);
    NothingCovered(left);
    found := FindEntry(sink.files, sink.nm.parse, order, probe);
  }

  lemma FrontierInRange(files: Files, parse: string -> Option<Range>, frontier: int)
    requires StoreInv(files, parse) && (frontier > 0 ==> Written(files, parse, frontier - 1))
    ensures frontier < TWO63
  {
    if frontier > 0 {
      var p :| Holds(files, parse, p, frontier - 1);
      assert WellNamed(p, files[p], parse);
    }
  }
}
