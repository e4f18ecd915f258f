/** Processes sharing one cache: the lock, transactions on disk, crashes and reopening. A process
    acts on its own program position; only taking the lock looks at the lock. */
module CacheProtocol {
  import opened Prelude
  import opened CacheAddress
  import opened CacheStore

  type Process = nat
  type Ticket = nat

  /** A transaction on disk, with whatever has been written to it so far. */
  datatype Transaction =
    | ObjectFile(bytes: Bytes)
    | BundleDirectory(ciphertext: Option<Bytes>, envelope: Option<Bytes>)

  /** What a live process is in the middle of. */
  datatype Job =
    | Idle
    | Opening(todo: set<Ticket>)
    | Locked
    | StoringObject(bytes: Bytes, txn: Ticket, sent: nat)
    | StoringBundle(key: Text, ciphertext: Bytes, envelope: Bytes, txn: Ticket, copied: Option<nat>, written: Option<nat>)

  datatype State = State(
    objects: Objects,
    artifacts: Artifacts,
    txns: map<Ticket, Transaction>,
    lock: Option<Process>,
    jobs: map<Process, Job>)

  datatype Step =
    | Open(p: Process)
    | RecoverOne(p: Process, txn: Ticket)
    | OpenDone(p: Process)
    | OpenFails(p: Process)
    | Acquire(p: Process)
    | Release(p: Process)
    | BeginObject(p: Process, bytes: Bytes, txn: Ticket)
    | WriteObject(p: Process, n: nat)
    | PublishObject(p: Process)
    | BeginBundle(p: Process, key: Text, ciphertext: Bytes, envelope: Bytes, txn: Ticket)
    | CreateCiphertext(p: Process)
    | WriteCiphertext(p: Process, n: nat)
    | CreateEnvelope(p: Process)
    | WriteEnvelope(p: Process, n: nat)
    | PublishBundle(p: Process)
    | Abort(p: Process, cleaned: bool)
    | Collect(p: Process, objects: set<Text>, artifacts: set<Text>)
    | Crash(p: Process)

  const EMPTY := State(map[], map[], map[], None, map[])

  function JobOf(s: State, p: Process): (j: Job)
  {
    if p in s.jobs then s.jobs[p] else Idle
  }

  /** The transaction a job is writing to. */
  function Own(j: Job): (t: Option<Ticket>)
  {
    match j
    case StoringObject(_, t, _) => Some(t)
    case StoringBundle(_, _, _, t, _, _) => Some(t)
    case _ => None
  }

  // ---------- one step ----------

  predicate Enabled(h: HashFunction, s: State, a: Step)
  {
    match a
    case Open(p) => p !in s.jobs && s.lock.None?
    case RecoverOne(p, t) => JobOf(s, p).Opening? && t in JobOf(s, p).todo
    case OpenDone(p) => JobOf(s, p) == Opening({})
    case OpenFails(p) => JobOf(s, p).Opening?
    case Acquire(p) => p in s.jobs && s.jobs[p].Idle? && s.lock.None?
    case Release(p) => JobOf(s, p).Locked?
    case BeginObject(p, bytes, t) =>
      JobOf(s, p).Locked? && |bytes| <= MAX_CIPHERTEXT && h(bytes) !in s.objects && t !in s.txns
    case WriteObject(p, n) => JobOf(s, p).StoringObject? && JobOf(s, p).sent <= n <= |JobOf(s, p).bytes| && HasFile(s, p)
    case PublishObject(p) =>
      var j := JobOf(s, p);
      j.StoringObject? && j.sent == |j.bytes| && HasFile(s, p) && h(j.bytes) !in s.objects
    case BeginBundle(p, key, ciphertext, envelope, t) =>
      JobOf(s, p).Locked? && IsDigest(key) && |envelope| <= MAX_ENVELOPE && key !in s.artifacts && t !in s.txns
    case CreateCiphertext(p) => JobOf(s, p).StoringBundle? && JobOf(s, p).copied.None? && HasDirectory(s, p)
    case WriteCiphertext(p, n) =>
      var j := JobOf(s, p);
      j.StoringBundle? && j.copied.Some? && j.written.None? && j.copied.value <= n <= |j.ciphertext| && HasDirectory(s, p) && s.txns[j.txn].ciphertext.Some?
    case CreateEnvelope(p) =>
      var j := JobOf(s, p);
      j.StoringBundle? && j.copied == Some(|j.ciphertext|) && |j.ciphertext| <= MAX_CIPHERTEXT && j.written.None? && HasDirectory(s, p)
    case WriteEnvelope(p, n) =>
      var j := JobOf(s, p);
      j.StoringBundle? && j.written.Some? && j.written.value <= n <= |j.envelope| && HasDirectory(s, p) && s.txns[j.txn].envelope.Some?
    case PublishBundle(p) =>
      var j := JobOf(s, p);
      j.StoringBundle? && j.written == Some(|j.envelope|) && HasDirectory(s, p) && j.key !in s.artifacts
    case Abort(p, _) => Own(JobOf(s, p)).Some?
    case Collect(p, _, _) => JobOf(s, p).Locked?
    case Crash(p) => p in s.jobs
  }

  predicate HasFile(s: State, p: Process)
  {
    var j := JobOf(s, p);
    j.StoringObject? && j.txn in s.txns && s.txns[j.txn].ObjectFile?
  }

  predicate HasDirectory(s: State, p: Process)
  {
    var j := JobOf(s, p);
    j.StoringBundle? && j.txn in s.txns && s.txns[j.txn].BundleDirectory?
  }

  /** What a directory looks like to readers once it has been renamed into place. */
  function Published(t: Transaction): (e: Entry)
    requires t.BundleDirectory?
  {
    if t.ciphertext.Some? && t.envelope.Some? then Bundle(t.ciphertext.value, t.envelope.value) else Malformed
  }

  function Turn(s: State, p: Process, j: Job): (r: State)
  {
    s.(jobs := s.jobs[p := j])
  }

  function Unlock(s: State): (r: State)
  {
    s.(lock := None)
  }

  function After(h: HashFunction, s: State, a: Step): (r: State)
    requires Enabled(h, s, a)
  {
    match a
    case Open(p) => Turn(s, p, Opening(s.txns.Keys)).(lock := Some(p))
    case RecoverOne(p, t) => Turn(s, p, Opening(JobOf(s, p).todo - {t})).(txns := s.txns - {t})
    case OpenDone(p) => Unlock(Turn(s, p, Idle))
    case OpenFails(p) => Unlock(s.(jobs := s.jobs - {p}))
    case Acquire(p) => Turn(s, p, Locked).(lock := Some(p))
    case Release(p) => Unlock(Turn(s, p, Idle))
    case BeginObject(p, bytes, t) => Turn(s, p, StoringObject(bytes, t, 0)).(txns := s.txns[t := ObjectFile([])])
    case WriteObject(p, n) =>
      var j := JobOf(s, p);
      Turn(s, p, j.(sent := n)).(txns := s.txns[j.txn := ObjectFile(s.txns[j.txn].bytes + j.bytes[j.sent..n])])
    case PublishObject(p) =>
      var j := JobOf(s, p);
      Turn(s, p, Locked).(objects := s.objects[h(j.bytes) := s.txns[j.txn].bytes], txns := s.txns - {j.txn})
    case BeginBundle(p, key, ciphertext, envelope, t) =>
      Turn(s, p, StoringBundle(key, ciphertext, envelope, t, None, None)).(txns := s.txns[t := BundleDirectory(None, None)])
    case CreateCiphertext(p) =>
      var j := JobOf(s, p);
      Turn(s, p, j.(copied := Some(0))).(txns := s.txns[j.txn := s.txns[j.txn].(ciphertext := Some([]))])
    case WriteCiphertext(p, n) =>
      var j := JobOf(s, p);
      var file := s.txns[j.txn].ciphertext.value + j.ciphertext[j.copied.value..n];
      Turn(s, p, j.(copied := Some(n))).(txns := s.txns[j.txn := s.txns[j.txn].(ciphertext := Some(file))])
    case CreateEnvelope(p) =>
      var j := JobOf(s, p);
      Turn(s, p, j.(written := Some(0))).(txns := s.txns[j.txn := s.txns[j.txn].(envelope := Some([]))])
    case WriteEnvelope(p, n) =>
      var j := JobOf(s, p);
      var file := s.txns[j.txn].envelope.value + j.envelope[j.written.value..n];
      Turn(s, p, j.(written := Some(n))).(txns := s.txns[j.txn := s.txns[j.txn].(envelope := Some(file))])
    case PublishBundle(p) =>
      var j := JobOf(s, p);
      Turn(s, p, Locked).(artifacts := s.artifacts[j.key := Published(s.txns[j.txn])], txns := s.txns - {j.txn})
    case Abort(p, cleaned) =>
      Turn(s, p, Locked).(txns := if cleaned then s.txns - {Own(JobOf(s, p)).value} else s.txns)
    case Collect(p, objects, artifacts) => s.(objects := s.objects - objects, artifacts := s.artifacts - artifacts)
    case Crash(p) => s.(jobs := s.jobs - {p}, lock := if s.lock == Some(p) then None else s.lock)
  }

  // ---------- the invariant ----------

  /** At most the holder of the lock is busy, and the holder is alive. */
  ghost predicate Exclusive(s: State)
  {
    && (forall p | p in s.jobs && !s.jobs[p].Idle? :: s.lock == Some(p))
    && (s.lock.Some? ==> s.lock.value in s.jobs)
  }

  /** What is on disk is what the job believes it has written. */
  predicate JobFits(txns: map<Ticket, Transaction>, j: Job)
  {
    match j
    case Idle => true
    case Locked => true
    case Opening(todo) => txns.Keys == todo
    case StoringObject(bytes, t, sent) =>
      |bytes| <= MAX_CIPHERTEXT && sent <= |bytes| && Lookup(txns, t) == Some(ObjectFile(bytes[..sent]))
    case StoringBundle(key, ciphertext, envelope, t, copied, written) =>
      && IsDigest(key) && |envelope| <= MAX_ENVELOPE
      && (copied.Some? ==> copied.value <= |ciphertext|)
      && (written.Some? ==> copied == Some(|ciphertext|) && |ciphertext| <= MAX_CIPHERTEXT && written.value <= |envelope|)
      && Lookup(txns, t) == Some(BundleDirectory(Prefix(ciphertext, copied), Prefix(envelope, written)))
  }

  function Prefix(b: Bytes, n: Option<nat>): (r: Option<Bytes>)
  {
    if n.Some? && n.value <= |b| then Some(b[..n.value]) else None
  }

  ghost predicate WorkFits(s: State)
  {
    forall p | p in s.jobs :: JobFits(s.txns, s.jobs[p])
  }

  ghost predicate ObjectsSound(h: HashFunction, objects: Objects)
  {
    forall k | k in objects :: ObjectReads(h, k, objects[k])
  }

  /** Every bundle is complete and is exactly what some process asked to store under that key. */
  ghost predicate BundlesSound(asked: set<(Text, Entry)>, artifacts: Artifacts)
  {
    forall k | k in artifacts :: IsDigest(k) && BundleReads(artifacts[k]) && (k, artifacts[k]) in asked
  }

  /** What a busy process is storing has been asked for. */
  predicate JobAsked(asked: set<(Text, Entry)>, j: Job)
  {
    j.StoringBundle? ==> (j.key, Bundle(j.ciphertext, j.envelope)) in asked
  }

  ghost predicate WorkAsked(asked: set<(Text, Entry)>, s: State)
  {
    forall p | p in s.jobs :: JobAsked(asked, s.jobs[p])
  }

  ghost predicate Invariant(h: HashFunction, asked: set<(Text, Entry)>, s: State)
  {
    && Exclusive(s)
    && WorkFits(s)
    && WorkAsked(asked, s)
    && ObjectsSound(h, s.objects)
    && BundlesSound(asked, s.artifacts)
  }

  // ---------- runs ----------

  ghost predicate Runs(h: HashFunction, steps: seq<Step>, n: nat)
    requires n <= |steps|
  {
    n == 0 || (Runs(h, steps, n - 1) && Enabled(h, At(h, steps, n - 1), steps[n - 1]))
  }

  /** The state after the first `n` steps of a run from the empty cache. */
  ghost function At(h: HashFunction, steps: seq<Step>, n: nat): (s: State)
    requires n <= |steps|
  {
    if n == 0 then EMPTY
    else
      var s := At(h, steps, n - 1);
      if Enabled(h, s, steps[n - 1]) then After(h, s, steps[n - 1]) else s
  }

  function Asks(a: Step): (r: set<(Text, Entry)>)
  {
    if a.BeginBundle? then {(a.key, Bundle(a.ciphertext, a.envelope))} else {}
  }

  /** The bundles processes asked to store in the first `n` steps. */
  function Asked(steps: seq<Step>, n: nat): (r: set<(Text, Entry)>)
    requires n <= |steps|
  {
    if n == 0 then {} else Asked(steps, n - 1) + Asks(steps[n - 1])
  }

  // ---------- every step keeps the invariant ----------

  /** The holder of the lock moves; it may give the lock up when it becomes idle. */
  lemma HolderMoves(s: State, p: Process, j: Job, txns: map<Ticket, Transaction>, lock: Option<Process>)
    requires Exclusive(s) && p in s.jobs && !s.jobs[p].Idle?
    requires JobFits(txns, j) && (lock == s.lock || (lock.None? && j.Idle?))
    ensures var r := Turn(s, p, j).(txns := txns, lock := lock); Exclusive(r) && WorkFits(r)
  {
    var r := Turn(s, p, j).(txns := txns, lock := lock);
    forall q | q in r.jobs ensures JobFits(txns, r.jobs[q]) && (r.jobs[q].Idle? || r.lock == Some(q))
    {
      if q != p {
        assert s.jobs[q].Idle?;
      }
    }
  }

  lemma PrefixGrows(b: Bytes, m: nat, n: nat)
    requires m <= n <= |b|
    ensures b[..m] + b[m..n] == b[..n]
  {
  }

  /** The job part of every step of a process that holds the lock. */
  lemma WriterFits(h: HashFunction, s: State, a: Step)
    requires Exclusive(s) && WorkFits(s) && Enabled(h, s, a)
    requires a.WriteObject? || a.WriteCiphertext? || a.WriteEnvelope? || a.CreateCiphertext? || a.CreateEnvelope?
    ensures JobFits(After(h, s, a).txns, JobOf(After(h, s, a), a.p))
  {
    var j := JobOf(s, a.p);
    assert JobFits(s.txns, j);
    match a
    case WriteObject(p, n) => PrefixGrows(j.bytes, j.sent, n);
    case WriteCiphertext(p, n) => PrefixGrows(j.ciphertext, j.copied.value, n);
    case WriteEnvelope(p, n) => PrefixGrows(j.envelope, j.written.value, n);
    case CreateCiphertext(p) =>
    case CreateEnvelope(p) =>
  }

  lemma WriterKeeps(h: HashFunction, s: State, a: Step)
    requires Exclusive(s) && WorkFits(s) && Enabled(h, s, a)
    requires a.WriteObject? || a.WriteCiphertext? || a.WriteEnvelope? || a.CreateCiphertext? || a.CreateEnvelope?
    ensures Exclusive(After(h, s, a)) && WorkFits(After(h, s, a))
  {
    WriterFits(h, s, a);
    var r := After(h, s, a);
    HolderMoves(s, a.p, JobOf(r, a.p), r.txns, r.lock);
  }

  lemma LockKeeps(h: HashFunction, s: State, a: Step)
    requires Exclusive(s) && WorkFits(s) && Enabled(h, s, a)
    requires a.RecoverOne? || a.OpenDone? || a.Release? || a.Abort?
    ensures Exclusive(After(h, s, a)) && WorkFits(After(h, s, a))
  {
    var r := After(h, s, a);
    HolderMoves(s, a.p, JobOf(r, a.p), r.txns, r.lock);
  }

  lemma PublishKeeps(h: HashFunction, s: State, a: Step)
    requires Exclusive(s) && WorkFits(s) && Enabled(h, s, a)
    requires a.BeginObject? || a.BeginBundle? || a.PublishObject? || a.PublishBundle?
    ensures Exclusive(After(h, s, a)) && WorkFits(After(h, s, a))
  {
    var r := After(h, s, a);
    HolderMoves(s, a.p, JobOf(r, a.p), r.txns, r.lock);
    assert r == Turn(s, a.p, JobOf(r, a.p)).(txns := r.txns, lock := r.lock, objects := r.objects, artifacts := r.artifacts);
  }

  lemma ArrivalKeeps(h: HashFunction, s: State, a: Step)
    requires Exclusive(s) && WorkFits(s) && Enabled(h, s, a)
    requires a.Open? || a.Acquire? || a.OpenFails? || a.Crash? || a.Collect?
    ensures Exclusive(After(h, s, a)) && WorkFits(After(h, s, a))
  {
    var r := After(h, s, a);
    forall q | q in r.jobs ensures JobFits(r.txns, r.jobs[q]) && (r.jobs[q].Idle? || r.lock == Some(q))
    {
      if q in s.jobs {
        assert JobFits(s.txns, s.jobs[q]);
      }
    }
  }

  lemma StepKeepsWork(h: HashFunction, s: State, a: Step)
    requires Exclusive(s) && WorkFits(s) && Enabled(h, s, a)
    ensures Exclusive(After(h, s, a)) && WorkFits(After(h, s, a))
  {
    if a.RecoverOne? || a.OpenDone? || a.Release? || a.Abort? {
      LockKeeps(h, s, a);
    } else if a.BeginObject? || a.BeginBundle? || a.PublishObject? || a.PublishBundle? {
      PublishKeeps(h, s, a);
    } else if a.Open? || a.Acquire? || a.OpenFails? || a.Crash? || a.Collect? {
      ArrivalKeeps(h, s, a);
    } else {
      WriterKeeps(h, s, a);
    }
  }

  /** A step changes its own process's job only, and asks for what it then stores. */
  lemma StepAsks(h: HashFunction, asked: set<(Text, Entry)>, s: State, a: Step)
    requires WorkAsked(asked, s) && Enabled(h, s, a)
    ensures WorkAsked(asked + Asks(a), After(h, s, a))
  {
    var r := After(h, s, a);
    forall q | q in r.jobs ensures JobAsked(asked + Asks(a), r.jobs[q])
    {
      if q in s.jobs {
        assert JobAsked(asked, s.jobs[q]);
      }
    }
  }

  lemma StepKeepsObjects(h: HashFunction, s: State, a: Step)
    requires WorkFits(s) && ObjectsSound(h, s.objects) && Enabled(h, s, a)
    ensures ObjectsSound(h, After(h, s, a).objects)
  {
    if a.PublishObject? {
      var j := JobOf(s, a.p);
      assert JobFits(s.txns, j) && j.bytes[..j.sent] == j.bytes;
    }
  }

  lemma StepKeepsBundles(h: HashFunction, asked: set<(Text, Entry)>, s: State, a: Step)
    requires WorkFits(s) && WorkAsked(asked, s) && BundlesSound(asked, s.artifacts) && Enabled(h, s, a)
    ensures BundlesSound(asked + Asks(a), After(h, s, a).artifacts)
  {
    if a.PublishBundle? {
      var j := JobOf(s, a.p);
      assert JobFits(s.txns, j) && JobAsked(asked, j);
      assert j.ciphertext[..|j.ciphertext|] == j.ciphertext && j.envelope[..|j.envelope|] == j.envelope;
    }
  }

  /** Safety over whole runs: with any interleaving of writers, crashes, failed clean-ups, reopenings
      and collections, every published object is named by the digest of its bytes, and every published
      bundle is complete and exactly what some process asked to store under that key. */
  lemma {:induction false} Safety(h: HashFunction, steps: seq<Step>, n: nat)
    requires n <= |steps| && Runs(h, steps, n)
    ensures Invariant(h, Asked(steps, n), At(h, steps, n))
  {
    if n > 0 {
      Safety(h, steps, n - 1);
      var s, a, asked := At(h, steps, n - 1), steps[n - 1], Asked(steps, n - 1);
      StepKeepsWork(h, s, a);
      StepAsks(h, asked, s, a);
      StepKeepsObjects(h, s, a);
      StepKeepsBundles(h, asked, s, a);
    }
  }

  // ---------- what processes can do to each other ----------

  /** While a process is busy, the only thing another process can do is die: nobody else can touch the
      lock, a transaction or a published entry. */
  lemma NoInterference(h: HashFunction, steps: seq<Step>, n: nat, p: Process)
    requires n < |steps| && Runs(h, steps, n + 1) && steps[n].p != p && !JobOf(At(h, steps, n), p).Idle?
    ensures steps[n].Crash?
    ensures At(h, steps, n + 1) == At(h, steps, n).(jobs := At(h, steps, n).jobs - {steps[n].p})
  {
    Safety(h, steps, n);
    var s := At(h, steps, n);
    assert p in s.jobs && s.lock == Some(p);
    assert JobOf(s, steps[n].p).Idle?;
  }

  /** Recovery removes no transaction that a live process is still writing. */
  lemma RecoveryRemovesOrphans(h: HashFunction, steps: seq<Step>, n: nat, q: Process)
    requires n < |steps| && Runs(h, steps, n + 1) && steps[n].RecoverOne?
    ensures Own(JobOf(At(h, steps, n), q)) != Some(steps[n].txn)
  {
    if q != steps[n].p && !JobOf(At(h, steps, n), q).Idle? {
      NoInterference(h, steps, n, q);
    }
  }

  /** A successful open leaves no transaction behind, whatever crashed before. */
  lemma OpenLeavesNoTransaction(h: HashFunction, steps: seq<Step>, n: nat)
    requires n < |steps| && Runs(h, steps, n + 1) && steps[n].OpenDone?
    ensures At(h, steps, n + 1).txns == map[]
  {
    Safety(h, steps, n);
    var s := At(h, steps, n);
    assert JobFits(s.txns, s.jobs[steps[n].p]);
  }

  /** Does some step in the range collect this bundle? */
  predicate CollectsBundle(steps: seq<Step>, i: nat, j: nat, k: Text)
    requires i <= j <= |steps|
  {
    exists m | i <= m < j :: steps[m].Collect? && k in steps[m].artifacts
  }

  predicate CollectsObject(steps: seq<Step>, i: nat, j: nat, k: Text)
    requires i <= j <= |steps|
  {
    exists m | i <= m < j :: steps[m].Collect? && k in steps[m].objects
  }

  lemma StepKeepsEntries(h: HashFunction, s: State, a: Step, k: Text)
    requires Enabled(h, s, a)
    ensures k in s.artifacts && !(a.Collect? && k in a.artifacts) ==> Lookup(After(h, s, a).artifacts, k) == Some(s.artifacts[k])
    ensures k in s.objects && !(a.Collect? && k in a.objects) ==> Lookup(After(h, s, a).objects, k) == Some(s.objects[k])
  {
  }

  /** Published bundles are never overwritten: until it is collected, a bundle stays as it is. */
  lemma {:induction false} BundleNeverOverwritten(h: HashFunction, steps: seq<Step>, i: nat, j: nat, k: Text)
    requires i <= j <= |steps| && Runs(h, steps, j) && k in At(h, steps, i).artifacts
    requires !CollectsBundle(steps, i, j, k)
    ensures Lookup(At(h, steps, j).artifacts, k) == Some(At(h, steps, i).artifacts[k])
  {
    if i < j {
      BundleNeverOverwritten(h, steps, i, j - 1, k);
      StepKeepsEntries(h, At(h, steps, j - 1), steps[j - 1], k);
    }
  }

  lemma {:induction false} ObjectNeverOverwritten(h: HashFunction, steps: seq<Step>, i: nat, j: nat, k: Text)
    requires i <= j <= |steps| && Runs(h, steps, j) && k in At(h, steps, i).objects
    requires !CollectsObject(steps, i, j, k)
    ensures Lookup(At(h, steps, j).objects, k) == Some(At(h, steps, i).objects[k])
  {
    if i < j {
      ObjectNeverOverwritten(h, steps, i, j - 1, k);
      StepKeepsEntries(h, At(h, steps, j - 1), steps[j - 1], k);
    }
  }

  // ---------- what processes achieve ----------

  /** In every run, publishing files exactly what was asked for and ends the transaction, and a collection
      removes exactly what it names. */
  lemma StepsTakeEffect(h: HashFunction, steps: seq<Step>, n: nat)
    requires n < |steps| && Runs(h, steps, n + 1)
    ensures var s, r, a := At(h, steps, n), At(h, steps, n + 1), steps[n];
      match a
      case PublishObject(p) =>
        var j := JobOf(s, p);
        r.objects == s.objects[h(j.bytes) := j.bytes] && r.artifacts == s.artifacts && r.txns == s.txns - {j.txn}
      case PublishBundle(p) =>
        var j := JobOf(s, p);
        r.artifacts == s.artifacts[j.key := Bundle(j.ciphertext, j.envelope)] && r.objects == s.objects && r.txns == s.txns - {j.txn}
      case Collect(_, objects, artifacts) =>
        r.objects == s.objects - objects && r.artifacts == s.artifacts - artifacts && r.txns == s.txns
      case _ => r.objects == s.objects && r.artifacts == s.artifacts
  {
    Safety(h, steps, n);
    var s, a := At(h, steps, n), steps[n];
    var j := JobOf(s, a.p);
    assert JobFits(s.txns, j);
    match a
    case PublishObject(_) => assert j.bytes[..j.sent] == j.bytes;
    case PublishBundle(_) =>
      assert j.ciphertext[..|j.ciphertext|] == j.ciphertext && j.envelope[..|j.envelope|] == j.envelope;
    case _ =>
  }

  /** Several steps in a row, where each is possible. */
  function Execute(h: HashFunction, s: State, steps: seq<Step>): (r: Option<State>)
    decreases |steps|
  {
    if steps == [] then Some(s)
    else if !Enabled(h, s, steps[0]) then None
    else Execute(h, After(h, s, steps[0]), steps[1..])
  }

  lemma ExecuteOne(h: HashFunction, s: State, a: Step, rest: seq<Step>)
    requires Enabled(h, s, a)
    ensures Execute(h, s, [a] + rest) == Execute(h, After(h, s, a), rest)
  {
    assert ([a] + rest)[0] == a && ([a] + rest)[1..] == rest;
  }

  /** Whoever holds the lock can store an object that is not there yet; nothing else changes. */
  lemma StoresObject(h: HashFunction, s: State, p: Process, bytes: Bytes, t: Ticket)
    requires JobOf(s, p).Locked? && |bytes| <= MAX_CIPHERTEXT && h(bytes) !in s.objects && t !in s.txns
    ensures Execute(h, s, [BeginObject(p, bytes, t)] + ([WriteObject(p, |bytes|)] + ([PublishObject(p)] + []))) ==
      Some(s.(objects := s.objects[h(bytes) := bytes]))
  {
    var begun := After(h, s, BeginObject(p, bytes, t));
    var written := After(h, begun, WriteObject(p, |bytes|));
    assert [] + bytes[0..|bytes|] == bytes;
    assert written.txns == s.txns[t := ObjectFile(bytes)];
    var done := After(h, written, PublishObject(p));
    assert done.jobs == s.jobs && done.txns == s.txns;
    ExecuteOne(h, written, PublishObject(p), []);
    ExecuteOne(h, begun, WriteObject(p, |bytes|), [PublishObject(p)] + []);
    ExecuteOne(h, s, BeginObject(p, bytes, t), [WriteObject(p, |bytes|)] + ([PublishObject(p)] + []));
  }

  lemma {:induction false} ExecuteBoth(h: HashFunction, s: State, first: seq<Step>, second: seq<Step>)
    requires Execute(h, s, first).Some?
    ensures Execute(h, s, first + second) == Execute(h, Execute(h, s, first).value, second)
    decreases |first|
  {
    if first == [] {
      assert first + second == second;
    } else {
      ExecuteBoth(h, After(h, s, first[0]), first[1..], second);
      assert (first + second)[0] == first[0] && (first + second)[1..] == first[1..] + second;
    }
  }

  function WriteBoth(p: Process, ciphertext: Bytes, envelope: Bytes): (steps: seq<Step>)
  {
    ([CreateCiphertext(p)] + ([WriteCiphertext(p, |ciphertext|)] + []))
    + ([CreateEnvelope(p)] + ([WriteEnvelope(p, |envelope|)] + []))
  }

  lemma WritesCiphertext(h: HashFunction, s: State, p: Process, key: Text, ciphertext: Bytes, envelope: Bytes, t: Ticket)
    requires JobOf(s, p) == StoringBundle(key, ciphertext, envelope, t, None, None)
    requires Lookup(s.txns, t) == Some(BundleDirectory(None, None))
    ensures Execute(h, s, [CreateCiphertext(p)] + ([WriteCiphertext(p, |ciphertext|)] + [])) ==
      Some(Turn(s, p, StoringBundle(key, ciphertext, envelope, t, Some(|ciphertext|), None))
        .(txns := s.txns[t := BundleDirectory(Some(ciphertext), None)]))
  {
    var made := After(h, s, CreateCiphertext(p));
    var filled := After(h, made, WriteCiphertext(p, |ciphertext|));
    assert [] + ciphertext[0..|ciphertext|] == ciphertext;
    assert filled.txns == s.txns[t := BundleDirectory(Some(ciphertext), None)];
    assert filled.jobs == s.jobs[p := StoringBundle(key, ciphertext, envelope, t, Some(|ciphertext|), None)];
    ExecuteOne(h, made, WriteCiphertext(p, |ciphertext|), []);
    ExecuteOne(h, s, CreateCiphertext(p), [WriteCiphertext(p, |ciphertext|)] + []);
  }

  lemma WritesEnvelope(h: HashFunction, s: State, p: Process, key: Text, ciphertext: Bytes, envelope: Bytes, t: Ticket)
    requires JobOf(s, p) == StoringBundle(key, ciphertext, envelope, t, Some(|ciphertext|), None)
    requires |ciphertext| <= MAX_CIPHERTEXT && Lookup(s.txns, t) == Some(BundleDirectory(Some(ciphertext), None))
    ensures Execute(h, s, [CreateEnvelope(p)] + ([WriteEnvelope(p, |envelope|)] + [])) ==
      Some(Turn(s, p, StoringBundle(key, ciphertext, envelope, t, Some(|ciphertext|), Some(|envelope|)))
        .(txns := s.txns[t := BundleDirectory(Some(ciphertext), Some(envelope))]))
  {
    var made := After(h, s, CreateEnvelope(p));
    var filled := After(h, made, WriteEnvelope(p, |envelope|));
    assert [] + envelope[0..|envelope|] == envelope;
    assert filled.txns == s.txns[t := BundleDirectory(Some(ciphertext), Some(envelope))];
    assert filled.jobs == s.jobs[p := StoringBundle(key, ciphertext, envelope, t, Some(|ciphertext|), Some(|envelope|))];
    ExecuteOne(h, made, WriteEnvelope(p, |envelope|), []);
    ExecuteOne(h, s, CreateEnvelope(p), [WriteEnvelope(p, |envelope|)] + []);
  }

  lemma WritesBoth(h: HashFunction, s: State, p: Process, key: Text, ciphertext: Bytes, envelope: Bytes, t: Ticket)
    requires JobOf(s, p) == StoringBundle(key, ciphertext, envelope, t, None, None)
    requires |ciphertext| <= MAX_CIPHERTEXT && Lookup(s.txns, t) == Some(BundleDirectory(None, None))
    ensures Execute(h, s, WriteBoth(p, ciphertext, envelope)) ==
      Some(Turn(s, p, StoringBundle(key, ciphertext, envelope, t, Some(|ciphertext|), Some(|envelope|)))
        .(txns := s.txns[t := BundleDirectory(Some(ciphertext), Some(envelope))]))
  {
    var first, second := [CreateCiphertext(p)] + ([WriteCiphertext(p, |ciphertext|)] + []), [CreateEnvelope(p)] + ([WriteEnvelope(p, |envelope|)] + []);
    WritesCiphertext(h, s, p, key, ciphertext, envelope, t);
    var middle := Execute(h, s, first).value;
    WritesEnvelope(h, middle, p, key, ciphertext, envelope, t);
    ExecuteBoth(h, s, first, second);
    var done := Execute(h, middle, second).value;
    assert done.jobs == s.jobs[p := StoringBundle(key, ciphertext, envelope, t, Some(|ciphertext|), Some(|envelope|))];
    assert done.txns == s.txns[t := BundleDirectory(Some(ciphertext), Some(envelope))];
  }

  lemma PublishesBundle(h: HashFunction, s: State, p: Process, key: Text, ciphertext: Bytes, envelope: Bytes, t: Ticket)
    requires JobOf(s, p) == StoringBundle(key, ciphertext, envelope, t, Some(|ciphertext|), Some(|envelope|)) && key !in s.artifacts
    requires Lookup(s.txns, t) == Some(BundleDirectory(Some(ciphertext), Some(envelope)))
    ensures Execute(h, s, [PublishBundle(p)] + []) ==
      Some(Turn(s, p, Locked).(artifacts := s.artifacts[key := Bundle(ciphertext, envelope)], txns := s.txns - {t}))
  {
    ExecuteOne(h, s, PublishBundle(p), []);
  }

  /** Whoever holds the lock can store a bundle under a free name; nothing else changes. */
  lemma StoresBundle(h: HashFunction, s: State, p: Process, key: Text, ciphertext: Bytes, envelope: Bytes, t: Ticket)
    requires JobOf(s, p).Locked? && IsDigest(key) && key !in s.artifacts && t !in s.txns
    requires |ciphertext| <= MAX_CIPHERTEXT && |envelope| <= MAX_ENVELOPE
    ensures Execute(h, s, [BeginBundle(p, key, ciphertext, envelope, t)] + (WriteBoth(p, ciphertext, envelope) + ([PublishBundle(p)] + []))) ==
      Some(s.(artifacts := s.artifacts[key := Bundle(ciphertext, envelope)]))
  {
    var begun := After(h, s, BeginBundle(p, key, ciphertext, envelope, t));
    WritesBoth(h, begun, p, key, ciphertext, envelope, t);
    var written := Execute(h, begun, WriteBoth(p, ciphertext, envelope)).value;
    PublishesBundle(h, written, p, key, ciphertext, envelope, t);
    var done := Execute(h, written, [PublishBundle(p)] + []).value;
    assert done.jobs == s.jobs && done.txns == s.txns;
    ExecuteBoth(h, begun, WriteBoth(p, ciphertext, envelope), [PublishBundle(p)] + []);
    ExecuteOne(h, s, BeginBundle(p, key, ciphertext, envelope, t), WriteBoth(p, ciphertext, envelope) + ([PublishBundle(p)] + []));
  }

  lemma {:induction false} Recovers(h: HashFunction, s: State, p: Process, todo: set<Ticket>) returns (steps: seq<Step>)
    requires p in s.jobs && s.jobs[p] == Opening(todo) && s.txns.Keys == todo
    ensures Execute(h, s, steps) == Some(s.(txns := map[], jobs := s.jobs[p := Idle], lock := None))
    decreases |todo|
  {
    if todo == {} {
      assert s.txns == map[] && After(h, s, OpenDone(p)).jobs == s.jobs[p := Idle];
      ExecuteOne(h, s, OpenDone(p), []);
      steps := [OpenDone(p)] + [];
    } else {
      var t :| t in todo;
      var after := After(h, s, RecoverOne(p, t));
      assert after.txns.Keys == todo - {t} && after.jobs[p := Idle] == s.jobs[p := Idle];
      var rest := Recovers(h, after, p, todo - {t});
      ExecuteOne(h, s, RecoverOne(p, t), rest);
      steps := [RecoverOne(p, t)] + rest;
    }
  }

  /** When nobody holds the lock, a new process can open the cache: it removes every transaction left on disk,
      keeps everything that was published, and gives the lock back. */
  lemma Reopens(h: HashFunction, s: State, p: Process) returns (steps: seq<Step>)
    requires p !in s.jobs && s.lock.None?
    ensures Execute(h, s, steps) == Some(s.(txns := map[], jobs := s.jobs[p := Idle]))
  {
    var opening := After(h, s, Open(p));
    var rest := Recovers(h, opening, p, s.txns.Keys);
    assert opening.jobs[p := Idle] == s.jobs[p := Idle];
    ExecuteOne(h, s, Open(p), rest);
    steps := [Open(p)] + rest;
  }

  // ---------- readers that take no lock ----------

  /** The names a reader sees under `artifacts`, with transaction directories under dotted names. */
  ghost predicate ListingAccepted(name: Ticket -> Text, s: State)
  {
    && (forall k | k in s.artifacts :: IsDigest(k))
    && (forall t | t in s.txns && s.txns[t].BundleDirectory? :: IsDigest(name(t)))
  }

  lemma DottedIsNoDigest(t: Text)
    requires t != [] && t[0] == DOT
    ensures !IsDigest(t)
  {
    if |t| == 64 {
      HexFirst(t, 64);
    }
  }

  lemma {:induction false} HexFirst(t: Text, n: nat)
    requires 0 < n <= |t| && t[0] == DOT
    ensures !IsHex(t, n)
  {
    if n > 1 {
      HexFirst(t, n - 1);
    }
  }

  /** artifact_records takes no lock, so it is refused exactly while a bundle transaction is on disk,
      whether its writer is alive or not. */
  lemma ReaderRefusedIff(h: HashFunction, steps: seq<Step>, n: nat, name: Ticket -> Text)
    requires n <= |steps| && Runs(h, steps, n) && forall t :: name(t) != [] && name(t)[0] == DOT
    ensures ListingAccepted(name, At(h, steps, n)) <==>
      forall t | t in At(h, steps, n).txns :: At(h, steps, n).txns[t].ObjectFile?
  {
    Safety(h, steps, n);
    forall t ensures !IsDigest(name(t))
    {
      DottedIsNoDigest(name(t));
    }
  }
}
