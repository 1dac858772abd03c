/** The shared issuer store: concurrent `put` calls mark a fingerprint as seen
    under the mutex, then write the certificate outside it, and take the mark
    back when the write fails. There is no resolver.

    The calls, the in-memory mark set and the files are one state; any call may
    take the next step, new calls may start at any time, and another job may
    write the same content-addressed file.
  */
module IssuerStore {
  import opened Octets
  import Hex

  /** A chain certificate with the fingerprint it is addressed by. */
  datatype ChainCert = ChainCert(hash: Bytes, der: Bytes)

  datatype Pc =
    | At(cert: nat)         // about to take the mutex for this certificate, or to return
    | Writing(cert: nat)    // marked by this call, write in progress
    | Unmarking(cert: nat)  // the write failed, the mark not yet taken back
    | Succeeded
    | Failed(cert: nat)

  datatype Call = Call(certs: seq<ChainCert>, pc: Pc)

  /** `failed` records the calls whose write failed, `lost` the fingerprints they failed on. */
  datatype State = State(
    calls: seq<Call>,
    seen: set<Bytes>,
    files: map<string, Bytes>,
    failed: set<nat>,
    lost: set<Bytes>)

  const EMPTY := State([], {}, map[], {}, {})

  datatype Step =
    | Begin(certs: seq<ChainCert>)
    | Check(call: nat)
    | WriteDone(call: nat)
    | WriteError(call: nat)
    | Unmark(call: nat)
    | ReturnNil(call: nat)
    | OtherJob(hash: Bytes, der: Bytes)

  function IssuerPath(hash: Bytes): (path: string) {
    "issuers/" + Hex.Encode(hash) + ".der"
  }

  lemma PathInjective(a: Bytes, b: Bytes)
    requires IssuerPath(a) == IssuerPath(b)
    ensures a == b
  {
    var pre, n := |"issuers/"|, |IssuerPath(a)| - |".der"|;
    assert IssuerPath(a)[pre..n] == Hex.Encode(a);
    assert IssuerPath(b)[pre..n] == Hex.Encode(b);
    Hex.EncodeInjective(a, b);
  }

  predicate Stored(s: State, h: Bytes) {
    IssuerPath(h) in s.files
  }

  /** The write-once contract of the writer: present files are left alone. */
  function PutIfAbsent(files: map<string, Bytes>, path: string, der: Bytes): (files': map<string, Bytes>)
    ensures path in files'
    ensures forall p :: p in files ==> p in files' && files'[p] == files[p]
    ensures forall p :: p in files' && p !in files ==> p == path && files'[p] == der
  {
    if path in files then files else files[path := der]
  }

  predicate Enabled(s: State, step: Step) {
    match step
    case Begin(_) => true
    case Check(c) => c < |s.calls| && s.calls[c].pc.At? && s.calls[c].pc.cert < |s.calls[c].certs|
    case WriteDone(c) => c < |s.calls| && s.calls[c].pc.Writing? && s.calls[c].pc.cert < |s.calls[c].certs|
    case WriteError(c) => c < |s.calls| && s.calls[c].pc.Writing? && s.calls[c].pc.cert < |s.calls[c].certs|
    case Unmark(c) => c < |s.calls| && s.calls[c].pc.Unmarking? && s.calls[c].pc.cert < |s.calls[c].certs|
    case ReturnNil(c) => c < |s.calls| && s.calls[c].pc.At? && s.calls[c].pc.cert == |s.calls[c].certs|
    case OtherJob(_, _) => true
  }

  function Move(s: State, c: nat, pc: Pc): (s': State)
    requires c < |s.calls|
  {
    s.(calls := s.calls[c := s.calls[c].(pc := pc)])
  }

  function Apply(s: State, step: Step): (s': State)
    requires Enabled(s, step)
  {
    match step
    case Begin(certs) => s.(calls := s.calls + [Call(certs, At(0))])
    case Check(c) =>
      var i := s.calls[c].pc.cert;
      var h := s.calls[c].certs[i].hash;
      if h in s.seen then Move(s, c, At(i + 1))
      else Move(s, c, Writing(i)).(seen := s.seen + {h})
    case WriteDone(c) =>
      var i := s.calls[c].pc.cert;
      var cert := s.calls[c].certs[i];
      Move(s, c, At(i + 1)).(files := PutIfAbsent(s.files, IssuerPath(cert.hash), cert.der))
    case WriteError(c) =>
      var i := s.calls[c].pc.cert;
      Move(s, c, Unmarking(i)).(failed := s.failed + {c}, lost := s.lost + {s.calls[c].certs[i].hash})
    case Unmark(c) =>
      var i := s.calls[c].pc.cert;
      Move(s, c, Failed(i)).(seen := s.seen - {s.calls[c].certs[i].hash})
    case ReturnNil(c) => Move(s, c, Succeeded)
    case OtherJob(h, der) => s.(files := PutIfAbsent(s.files, IssuerPath(h), der))
  }

  predicate Legal(s: State, steps: seq<Step>)
    decreases |steps|
  {
    steps == [] || (Enabled(s, steps[0]) && Legal(Apply(s, steps[0]), steps[1..]))
  }

  function After(s: State, steps: seq<Step>): (s': State)
    requires Legal(s, steps)
    decreases |steps|
  {
    if steps == [] then s else After(Apply(s, steps[0]), steps[1..])
  }

  // ---- the invariant ----------------------------------------------------------

  /** How many of its certificates a call has dealt with. */
  function Passed(c: Call): (n: nat) {
    match c.pc
    case At(i) => i
    case Writing(i) => i
    case Unmarking(i) => i
    case Succeeded => |c.certs|
    case Failed(i) => i
  }

  predicate OnHash(c: Call, h: Bytes) {
    (c.pc.Writing? || c.pc.Unmarking?) && c.pc.cert < |c.certs| && c.certs[c.pc.cert].hash == h
  }

  /** Some call has marked this fingerprint and not yet settled it. */
  ghost predicate Pending(s: State, h: Bytes) {
    exists c :: 0 <= c < |s.calls| && OnHash(s.calls[c], h)
  }

  /** The call's write of this fingerprint failed; its error is out or on its way. */
  predicate FailedOn(c: Call, h: Bytes) {
    (c.pc.Unmarking? || c.pc.Failed?) && c.pc.cert < |c.certs| && c.certs[c.pc.cert].hash == h
  }

  ghost predicate Settled(s: State, h: Bytes) {
    Stored(s, h) || Pending(s, h)
  }

  ghost predicate CallInv(s: State, c: nat)
    requires c < |s.calls|
  {
    var call := s.calls[c];
    && Passed(call) <= |call.certs|
    && (call.pc.Writing? || call.pc.Unmarking? || call.pc.Failed? ==> call.pc.cert < |call.certs|)
    && (call.pc.Unmarking? || call.pc.Failed? ==> call.certs[call.pc.cert].hash in s.lost)
    && (forall j :: 0 <= j < Passed(call) ==> Answered(s, call.certs[j].hash))
    && (c in s.failed <==> call.pc.Unmarking? || call.pc.Failed?)
  }

  ghost predicate Inv(s: State) {
    && (forall h :: h in s.seen ==> Settled(s, h))
    && (forall c :: 0 <= c < |s.calls| ==> CallInv(s, c))
    && (forall c :: c in s.failed ==> c < |s.calls|)
    && (forall h :: h in s.lost ==> exists c :: 0 <= c < |s.calls| && FailedOn(s.calls[c], h))
  }

  /** Only taking back a mark can unsettle a fingerprint, and only that one. */
  lemma StaysSettled(s: State, step: Step, h: Bytes)
    requires Enabled(s, step) && Settled(s, h)
    requires step.Unmark? ==> !OnHash(s.calls[step.call], h)
    ensures Settled(Apply(s, step), h)
  {
    var s' := Apply(s, step);
    if !Stored(s, h) {
      var c :| 0 <= c < |s.calls| && OnHash(s.calls[c], h);
      if !step.WriteDone? || step.call != c {
        assert OnHash(s'.calls[c], h);
      }
    }
  }

  ghost predicate Answered(s: State, h: Bytes) {
    Settled(s, h) || h in s.lost
  }

  lemma StaysAnswered(s: State, step: Step, h: Bytes)
    requires Inv(s) && Enabled(s, step) && Answered(s, h)
    ensures Answered(Apply(s, step), h)
  {
    if h !in s.lost {
      if step.Unmark? {
        assert CallInv(s, step.call);
      }
      StaysSettled(s, step, h);
    }
  }

  /** What a step does to one call; all that the call had dealt with stays answered for. */
  lemma CallKept(s: State, step: Step, c: nat)
    requires Inv(s) && Enabled(s, step) && c < |s.calls|
    ensures CallInv(Apply(s, step), c)
  {
    var s' := Apply(s, step);
    var call, call' := s.calls[c], s'.calls[c];
    assert CallInv(s, c);
    assert call'.certs == call.certs;
    assert c in s'.failed <==> call'.pc.Unmarking? || call'.pc.Failed?;
    forall j | 0 <= j < Passed(call') ensures Answered(s', call.certs[j].hash) {
      if j < Passed(call) {
        StaysAnswered(s, step, call.certs[j].hash);
      } else if step == Check(c) {
        StaysAnswered(s, step, call.certs[j].hash);
      }
    }
  }

  lemma StepKeepsInv(s: State, step: Step)
    requires Inv(s) && Enabled(s, step)
    ensures Inv(Apply(s, step))
  {
    var s' := Apply(s, step);
    forall c | 0 <= c < |s'.calls| ensures CallInv(s', c) {
      if c < |s.calls| {
        CallKept(s, step, c);
      }
    }
    forall h | h in s'.seen ensures Settled(s', h) {
      if h in s.seen {
        StaysSettled(s, step, h);
      } else {
        assert OnHash(s'.calls[step.call], h);
      }
    }
    forall h | h in s'.lost ensures exists c :: 0 <= c < |s'.calls| && FailedOn(s'.calls[c], h) {
      LossStaysOwned(s, step, h);
    }
  }

  /** A failed write is and stays some call's failure. */
  lemma LossStaysOwned(s: State, step: Step, h: Bytes)
    requires Inv(s) && Enabled(s, step) && h in Apply(s, step).lost
    ensures exists c :: 0 <= c < |Apply(s, step).calls| && FailedOn(Apply(s, step).calls[c], h)
  {
    if h in s.lost {
      var c :| 0 <= c < |s.calls| && FailedOn(s.calls[c], h);
      assert FailedOn(Apply(s, step).calls[c], h);
    } else {
      assert FailedOn(Apply(s, step).calls[step.call], h);
    }
  }

  lemma {:induction false} RunKeepsInv(s: State, steps: seq<Step>)
    requires Inv(s) && Legal(s, steps)
    ensures Inv(After(s, steps))
    decreases |steps|
  {
    if steps != [] {
      StepKeepsInv(s, steps[0]);
      RunKeepsInv(Apply(s, steps[0]), steps[1..]);
    }
  }

  // ---- what every interleaving guarantees ---------------------------------------

  ghost predicate AllReturned(s: State) {
    forall c :: 0 <= c < |s.calls| ==> s.calls[c].pc.Succeeded? || s.calls[c].pc.Failed?
  }

  /** Once every call has returned, a certificate that a successful call was handed and that is
      not in the store is one whose write failed, every failed write is the error of a call that
      failed on that very certificate, and a call returns an error only for a failed write. */
  lemma MissingMeansReported(steps: seq<Step>)
    requires Legal(EMPTY, steps) && AllReturned(After(EMPTY, steps))
    ensures
      var s := After(EMPTY, steps);
      && (forall c, j :: 0 <= c < |s.calls| && s.calls[c].pc.Succeeded? && 0 <= j < |s.calls[c].certs|
           ==> Stored(s, s.calls[c].certs[j].hash) || s.calls[c].certs[j].hash in s.lost)
      && (forall c :: 0 <= c < |s.calls| ==> (c in s.failed <==> s.calls[c].pc.Failed?))
      && (forall h :: h in s.lost ==>
            exists c :: 0 <= c < |s.calls| && s.calls[c].pc.Failed? && FailedOn(s.calls[c], h))
      && (forall c :: 0 <= c < |s.calls| && s.calls[c].pc.Failed?
           ==> s.calls[c].pc.cert < |s.calls[c].certs| && s.calls[c].certs[s.calls[c].pc.cert].hash in s.lost)
  {
    RunKeepsInv(EMPTY, steps);
    var s := After(EMPTY, steps);
    forall c | 0 <= c < |s.calls|
      ensures c in s.failed <==> s.calls[c].pc.Failed?
      ensures s.calls[c].pc.Failed? ==>
                s.calls[c].pc.cert < |s.calls[c].certs| && s.calls[c].certs[s.calls[c].pc.cert].hash in s.lost
    {
      assert CallInv(s, c);
    }
    forall c, j | 0 <= c < |s.calls| && s.calls[c].pc.Succeeded? && 0 <= j < |s.calls[c].certs|
      ensures Stored(s, s.calls[c].certs[j].hash) || s.calls[c].certs[j].hash in s.lost
    {
      assert CallInv(s, c);
      assert Answered(s, s.calls[c].certs[j].hash);
    }
    forall h | h in s.lost
      ensures exists c :: 0 <= c < |s.calls| && s.calls[c].pc.Failed? && FailedOn(s.calls[c], h)
    {
      var c :| 0 <= c < |s.calls| && FailedOn(s.calls[c], h);
      assert s.calls[c].pc.Failed? && FailedOn(s.calls[c], h);
    }
  }

  /** At any moment of any run, a certificate that a successful call was handed
      is missing only while another call is between mark and write on it, or
      because a write of it failed. */
  lemma MissingMeansUnderWay(steps: seq<Step>, c: nat, j: nat)
    requires Legal(EMPTY, steps)
    requires var s := After(EMPTY, steps);
             c < |s.calls| && s.calls[c].pc.Succeeded? && j < |s.calls[c].certs| && !Stored(s, s.calls[c].certs[j].hash)
    ensures var s := After(EMPTY, steps);
            var h := s.calls[c].certs[j].hash;
            h in s.lost || exists d :: 0 <= d < |s.calls| && d != c && OnHash(s.calls[d], h)
  {
    RunKeepsInv(EMPTY, steps);
    var s := After(EMPTY, steps);
    assert CallInv(s, c);
    assert Answered(s, s.calls[c].certs[j].hash);
  }

  // ---- exactly what is stored ---------------------------------------------------

  /** The fingerprints another job has written. */
  function Others(steps: seq<Step>): (hs: set<Bytes>) {
    set i | 0 <= i < |steps| && steps[i].OtherJob? :: steps[i].hash
  }

  /** Whoever is writing holds the only claim, and what is stored but was not
      written by another job is marked with no claim left on it. */
  ghost predicate ExactInv(s: State, others: set<Bytes>) {
    && Inv(s)
    && (forall h :: Pending(s, h) ==> h in s.seen)
    && (forall c, d, h :: ClaimedTwice(s, c, d, h) ==> c == d)
    && (forall h :: Stored(s, h) && h !in others ==> h in s.seen && !Pending(s, h))
    && (forall h :: h in others ==> Stored(s, h))
  }

  ghost predicate ClaimedTwice(s: State, c: nat, d: nat, h: Bytes) {
    c < |s.calls| && d < |s.calls| && OnHash(s.calls[c], h) && OnHash(s.calls[d], h)
  }

  function OtherOf(step: Step): (hs: set<Bytes>) {
    if step.OtherJob? then {step.hash} else {}
  }

  lemma StoredAfter(s: State, step: Step, h: Bytes)
    requires Enabled(s, step)
    ensures Stored(Apply(s, step), h) <==>
            Stored(s, h)
            || (step.WriteDone? && s.calls[step.call].certs[s.calls[step.call].pc.cert].hash == h)
            || (step.OtherJob? && step.hash == h)
  {
    if step.WriteDone? {
      var g := s.calls[step.call].certs[s.calls[step.call].pc.cert].hash;
      if IssuerPath(g) == IssuerPath(h) {
        PathInjective(g, h);
      }
    } else if step.OtherJob? {
      if IssuerPath(step.hash) == IssuerPath(h) {
        PathInjective(step.hash, h);
      }
    }
  }

  /** A call comes to claim a fingerprint only by marking it. */
  lemma ClaimAfter(s: State, step: Step, c: nat, h: Bytes)
    requires Enabled(s, step) && c < |Apply(s, step).calls| && OnHash(Apply(s, step).calls[c], h)
    ensures (c < |s.calls| && OnHash(s.calls[c], h)) || (step == Check(c) && h !in s.seen && h in Apply(s, step).seen)
  {
  }

  lemma StepKeepsExact(s: State, step: Step, others: set<Bytes>)
    requires ExactInv(s, others) && Enabled(s, step)
    ensures ExactInv(Apply(s, step), others + OtherOf(step))
  {
    var s' := Apply(s, step);
    StepKeepsInv(s, step);
    forall h ensures Pending(s', h) ==> h in s'.seen {
      PendingMarked(s, step, others, h);
    }
    forall c, d, h ensures ClaimedTwice(s', c, d, h) ==> c == d {
      ClaimedOnce(s, step, others, c, d, h);
    }
    forall h ensures Stored(s', h) && h !in others + OtherOf(step) ==> h in s'.seen && !Pending(s', h) {
      StoredUnclaimed(s, step, others, h);
    }
    forall h ensures h in others + OtherOf(step) ==> Stored(s', h) {
      StoredAfter(s, step, h);
    }
  }

  lemma PendingMarked(s: State, step: Step, others: set<Bytes>, h: Bytes)
    requires ExactInv(s, others) && Enabled(s, step)
    ensures Pending(Apply(s, step), h) ==> h in Apply(s, step).seen
  {
    var s' := Apply(s, step);
    if Pending(s', h) {
      var c: nat :| c < |s'.calls| && OnHash(s'.calls[c], h);
      ClaimAfter(s, step, c, h);
      if c < |s.calls| && OnHash(s.calls[c], h) && step.Unmark? {
        assert step.call == c || !ClaimedTwice(s, c, step.call, h);
      }
    }
  }

  lemma ClaimedOnce(s: State, step: Step, others: set<Bytes>, c: nat, d: nat, h: Bytes)
    requires ExactInv(s, others) && Enabled(s, step)
    ensures ClaimedTwice(Apply(s, step), c, d, h) ==> c == d
  {
    if ClaimedTwice(Apply(s, step), c, d, h) {
      ClaimAfter(s, step, c, h);
      ClaimAfter(s, step, d, h);
      if c < |s.calls| && OnHash(s.calls[c], h) && d < |s.calls| && OnHash(s.calls[d], h) {
        assert ClaimedTwice(s, c, d, h);
      }
    }
  }

  lemma StoredUnclaimed(s: State, step: Step, others: set<Bytes>, h: Bytes)
    requires ExactInv(s, others) && Enabled(s, step)
    ensures var s' := Apply(s, step);
            Stored(s', h) && h !in others + OtherOf(step) ==> h in s'.seen && !Pending(s', h)
  {
    var s' := Apply(s, step);
    if Stored(s', h) && h !in others + OtherOf(step) {
      StoredAfter(s, step, h);
      if Pending(s', h) {
        var c: nat :| c < |s'.calls| && OnHash(s'.calls[c], h);
        ClaimAfter(s, step, c, h);
        if step.WriteDone? && ClaimedTwice(s, c, step.call, h) {
          assert false;
        }
      }
    }
  }

  lemma {:induction false} RunKeepsExact(s: State, steps: seq<Step>, others: set<Bytes>)
    requires ExactInv(s, others) && Legal(s, steps)
    ensures ExactInv(After(s, steps), others + Others(steps))
    decreases |steps|
  {
    if steps == [] {
      assert others + Others(steps) == others;
    } else {
      StepKeepsExact(s, steps[0], others);
      RunKeepsExact(Apply(s, steps[0]), steps[1..], others + OtherOf(steps[0]));
      OthersSplit(steps);
      assert others + Others(steps) == others + OtherOf(steps[0]) + Others(steps[1..]);
    }
  }

  lemma OthersSplit(steps: seq<Step>)
    requires steps != []
    ensures Others(steps) == OtherOf(steps[0]) + Others(steps[1..])
  {
    forall h | h in Others(steps) ensures h in OtherOf(steps[0]) + Others(steps[1..]) {
      var i :| 0 <= i < |steps| && steps[i].OtherJob? && steps[i].hash == h;
      if i > 0 {
        assert steps[1..][i - 1] == steps[i];
      }
    }
    forall h | h in Others(steps[1..]) ensures h in Others(steps) {
      var i :| 0 <= i < |steps[1..]| && steps[1..][i].OtherJob? && steps[1..][i].hash == h;
      assert steps[i + 1] == steps[1..][i];
    }
  }

  /** The exact condition, at every moment of every run: a certificate is in the store if and
      only if another job wrote it, or it is marked and no call is between mark and write on it. */
  lemma StoredExactly(steps: seq<Step>, h: Bytes)
    requires Legal(EMPTY, steps)
    ensures var s := After(EMPTY, steps);
            Stored(s, h) <==> h in Others(steps) || (h in s.seen && !Pending(s, h))
  {
    RunKeepsExact(EMPTY, steps, {});
    assert {} + Others(steps) == Others(steps);
  }

  /** What a nil return is worth, exactly: the certificates a call was handed are there unless
      one is still another call's to write, or has been lost and not written since. */
  lemma NilMeansStoredExactly(steps: seq<Step>, c: nat, j: nat)
    requires Legal(EMPTY, steps) && Others(steps) == {}
    requires var s := After(EMPTY, steps);
             c < |s.calls| && s.calls[c].pc.Succeeded? && j < |s.calls[c].certs|
    ensures var s := After(EMPTY, steps);
            var h := s.calls[c].certs[j].hash;
            !Stored(s, h) <==> Pending(s, h) || (h in s.lost && h !in s.seen)
  {
    StoredExactly(steps, After(EMPTY, steps).calls[c].certs[j].hash);
    RunKeepsInv(EMPTY, steps);
    var s := After(EMPTY, steps);
    assert CallInv(s, c);
    assert Answered(s, s.calls[c].certs[j].hash);
  }

  /** If all calls returned nil, every certificate handed in is in the store under its own fingerprint. */
  lemma AllNilMeansAllStored(steps: seq<Step>)
    requires Legal(EMPTY, steps)
    requires forall c :: 0 <= c < |After(EMPTY, steps).calls| ==> After(EMPTY, steps).calls[c].pc.Succeeded?
    ensures
      var s := After(EMPTY, steps);
      forall c, j :: 0 <= c < |s.calls| && 0 <= j < |s.calls[c].certs| ==> Stored(s, s.calls[c].certs[j].hash)
  {
    MissingMeansReported(steps);
  }

  // ---- the bytes ------------------------------------------------------------------

  ghost predicate HonestStep(step: Step, digest: Bytes -> Bytes) {
    match step
    case Begin(certs) => forall j :: 0 <= j < |certs| ==> certs[j].hash == digest(certs[j].der)
    case OtherJob(h, der) => h == digest(der)
    case _ => true
  }

  ghost predicate HonestState(s: State, digest: Bytes -> Bytes) {
    && (forall c, j :: 0 <= c < |s.calls| && 0 <= j < |s.calls[c].certs|
         ==> s.calls[c].certs[j].hash == digest(s.calls[c].certs[j].der))
    && (forall p :: p in s.files ==> p == IssuerPath(digest(s.files[p])))
  }

  lemma {:induction false} RunKeepsHonest(s: State, steps: seq<Step>, digest: Bytes -> Bytes)
    requires HonestState(s, digest) && Legal(s, steps)
    requires forall i :: 0 <= i < |steps| ==> HonestStep(steps[i], digest)
    ensures HonestState(After(s, steps), digest)
    decreases |steps|
  {
    if steps != [] {
      HonestNext(s, steps[0], digest);
      RunKeepsHonest(Apply(s, steps[0]), steps[1..], digest);
    }
  }

  lemma HonestNext(s: State, step: Step, digest: Bytes -> Bytes)
    requires HonestState(s, digest) && Enabled(s, step) && HonestStep(step, digest)
    ensures HonestState(Apply(s, step), digest)
  {
    var s' := Apply(s, step);
    forall c, j | 0 <= c < |s'.calls| && 0 <= j < |s'.calls[c].certs|
      ensures s'.calls[c].certs[j].hash == digest(s'.calls[c].certs[j].der)
    {
      if c < |s.calls| {
        assert s'.calls[c].certs == s.calls[c].certs;
      }
    }
  }

  /** What is stored for a fingerprint is a certificate with that fingerprint, whoever wrote it. */
  lemma StoredBytesMatch(steps: seq<Step>, digest: Bytes -> Bytes, h: Bytes)
    requires Legal(EMPTY, steps) && forall i :: 0 <= i < |steps| ==> HonestStep(steps[i], digest)
    requires Stored(After(EMPTY, steps), h)
    ensures digest(After(EMPTY, steps).files[IssuerPath(h)]) == h
  {
    RunKeepsHonest(EMPTY, steps, digest);
    PathInjective(h, digest(After(EMPTY, steps).files[IssuerPath(h)]));
  }

  // ---- every call ends ----------------------------------------------------------------

  /** The call whose step this is, if it is a call's. */
  predicate IsOf(step: Step, c: nat) {
    match step
    case Begin(_) => false
    case OtherJob(_, _) => false
    case Check(k) => k == c
    case WriteDone(k) => k == c
    case WriteError(k) => k == c
    case Unmark(k) => k == c
    case ReturnNil(k) => k == c
  }

  function CallRank(call: Call): (r: int) {
    match call.pc
    case At(i) => 3 * (|call.certs| - i) + 1
    case Writing(i) => 3 * (|call.certs| - i)
    case Unmarking(i) => 1
    case Succeeded => 0
    case Failed(_) => 0
  }

  function StepsOf(steps: seq<Step>, c: nat): (n: nat) {
    if steps == [] then 0 else (if IsOf(steps[0], c) then 1 else 0) + StepsOf(steps[1..], c)
  }

  lemma StepIsProgress(s: State, step: Step, c: nat)
    requires Enabled(s, step) && c < |s.calls|
    requires s.calls[c].pc.Writing? ==> s.calls[c].pc.cert < |s.calls[c].certs|
    ensures c < |Apply(s, step).calls| && Apply(s, step).calls[c].certs == s.calls[c].certs
    ensures IsOf(step, c) ==> CallRank(Apply(s, step).calls[c]) <= CallRank(s.calls[c]) - 1
    ensures !IsOf(step, c) ==> Apply(s, step).calls[c] == s.calls[c]
  {
  }

  /** Whatever the other calls do, a call on n certificates is through after at most 3n + 1 steps of its own. */
  lemma {:induction false} CallsEnd(s: State, steps: seq<Step>, c: nat)
    requires Inv(s) && Legal(s, steps) && c < |s.calls|
    ensures c < |After(s, steps).calls|
    ensures StepsOf(steps, c) + CallRank(After(s, steps).calls[c]) <= CallRank(s.calls[c])
    ensures s.calls[c].pc == At(0) ==> StepsOf(steps, c) <= 3 * |s.calls[c].certs| + 1
    decreases |steps|
  {
    if steps != [] {
      assert CallInv(s, c);
      StepIsProgress(s, steps[0], c);
      StepKeepsInv(s, steps[0]);
      CallsEnd(Apply(s, steps[0]), steps[1..], c);
    }
    RunKeepsInv(s, steps);
    assert CallInv(After(s, steps), c);
  }

  /** Nor does it ever have to wait for one: until it is through, it can take a step. */
  lemma CallCanMove(s: State, c: nat)
    requires Inv(s) && c < |s.calls| && !s.calls[c].pc.Succeeded? && !s.calls[c].pc.Failed?
    ensures exists step :: IsOf(step, c) && Enabled(s, step)
  {
    assert CallInv(s, c);
    var step := match s.calls[c].pc
      case At(i) => if i < |s.calls[c].certs| then Check(c) else ReturnNil(c)
      case Writing(_) => WriteDone(c)
      case _ => Unmark(c);
    assert IsOf(step, c) && Enabled(s, step);
  }

  // ---- what is not promised ---------------------------------------------------------

  /** A call may return nil while the certificate it was handed is still on another
      call's way to the store: the guarantee holds only once all calls are back. */
  lemma EarlyNilMayDangle(c: ChainCert)
    ensures
      var steps := [Begin([c]), Begin([c]), Check(0), Check(1), ReturnNil(1)];
      && Legal(EMPTY, steps)
      && |After(EMPTY, steps).calls| == 2 && After(EMPTY, steps).calls[1].pc.Succeeded?
      && !Stored(After(EMPTY, steps), c.hash)
  {
    var steps := [Begin([c]), Begin([c]), Check(0), Check(1), ReturnNil(1)];
    var s1 := Apply(EMPTY, steps[0]);
    var s2 := Apply(s1, steps[1]);
    var s3 := Apply(s2, steps[2]);
    var s4 := Apply(s3, steps[3]);
    var s5 := Apply(s4, steps[4]);
    Unroll(s4, steps, 4);
    Unroll(s3, steps, 3);
    Unroll(s2, steps, 2);
    Unroll(s1, steps, 1);
    Unroll(EMPTY, steps, 0);
    assert steps[0..] == steps;
  }

  lemma Unroll(s: State, steps: seq<Step>, i: nat)
    requires i < |steps| && Enabled(s, steps[i]) && Legal(Apply(s, steps[i]), steps[i + 1..])
    ensures Legal(s, steps[i..]) && After(s, steps[i..]) == After(Apply(s, steps[i]), steps[i + 1..])
  {
    assert steps[i..][1..] == steps[i + 1..];
  }
}
