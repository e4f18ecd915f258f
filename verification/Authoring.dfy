/** The batch authoring transaction: what a batch asks for, what may go wrong, and where a run
    ends up. This module is the reference; module AuthoringTransaction runs the loops. */
module Authoring {
  import opened Prelude

  type Path = string

  datatype Mode = Create | Replace

  /** One requested output; `contents` is what the staged file holds when it is published. */
  datatype Write =
    | Secret(destination: Path, contents: Bytes)
    | Public(destination: Path, contents: Bytes)
    | Private(destination: Path, contents: Bytes)
    | Delete(destination: Path)

  /** Where a plain I/O error was raised; the source reports all of them as one error. */
  datatype Moment = Rechecking | CreatingBackup | Publishing

  /** `Staging` stands for every failure to encrypt, verify or write one staged file. */
  datatype Error =
    | UnsafePath
    | DestinationState
    | Staging
    | Io(moment: Moment)
    | DurabilityUnknown
    | BatchRolledBack
    | BatchRecoveryUnknown

  type Outcome = Result<(), Error>

  /** The file operations that fail in one run, by position in the batch. Each operation happens
      at most once per position, so every possible run is one value of this type. */
  datatype Faults = Faults(
    stage: set<nat>,
    recheck: set<nat>,
    createBackup: set<nat>,
    moveAside: set<nat>,
    setPublic: set<nat>,
    persist: set<nat>,
    removeCommitted: set<nat>,
    putBack: set<nat>,
    sync: bool)

  const NO_FAULTS := Faults({}, {}, {}, {}, {}, {}, {}, {}, false)

  const MAX_BATCH: nat := 10_000

  /** Public and private contents are bounded; the plaintext of a secret is not. */
  const MAX_PAYLOAD: nat := 64 * 1024 * 1024

  type Files = map<Path, Bytes>

  // ---------- admission ----------

  predicate Canonical(w: Write)
  {
    w.Secret? || w.Public?
  }

  predicate Oversized(w: Write)
  {
    (w.Public? || w.Private?) && |w.contents| > MAX_PAYLOAD
  }

  /** Create needs an absent destination, replace a present one; private files may be either. */
  predicate Placeable(files: Files, w: Write, mode: Mode)
  {
    Canonical(w) ==> (w.destination in files <==> mode == Replace)
  }

  predicate NeedsBackup(files: Files, w: Write, mode: Mode)
  {
    if Canonical(w) then mode == Replace else w.destination in files
  }

  predicate Duplicate(ws: seq<Write>, i: nat)
    requires i < |ws|
  {
    exists j | 0 <= j < i :: ws[j].destination == ws[i].destination
  }

  /** First reason to refuse the batch while staging position `i` and later, if there is one. */
  function PrepareError(files: Files, ws: seq<Write>, mode: Mode, faults: Faults, i: nat): (r: Option<Error>)
    requires i <= |ws|
    decreases |ws| - i
  {
    if i == |ws| then None
    else if Oversized(ws[i]) then Some(UnsafePath)
    else if Duplicate(ws, i) || !Placeable(files, ws[i], mode) then Some(DestinationState)
    else if i in faults.stage then Some(Staging)
    else PrepareError(files, ws, mode, faults, i + 1)
  }

  /** Only files that already existed are compared with their earlier metadata. */
  predicate RecheckFails(files: Files, ws: seq<Write>, faults: Faults)
  {
    exists i | 0 <= i < |ws| :: ws[i].destination in files && i in faults.recheck
  }

  predicate DistinctDestinations(ws: seq<Write>)
  {
    forall i, j | 0 <= i < j < |ws| :: ws[i].destination != ws[j].destination
  }

  predicate Admissible(files: Files, ws: seq<Write>, mode: Mode)
  {
    && DistinctDestinations(ws)
    && forall i | 0 <= i < |ws| :: Placeable(files, ws[i], mode) && !Oversized(ws[i])
  }

  function Destinations(ws: seq<Write>): (r: set<Path>)
  {
    set i | 0 <= i < |ws| :: ws[i].destination
  }

  // ---------- where a run stops ----------

  predicate BackupFails(files: Files, w: Write, mode: Mode, faults: Faults, i: nat)
  {
    NeedsBackup(files, w, mode) && (i in faults.createBackup || i in faults.moveAside)
  }

  predicate PublishFails(w: Write, faults: Faults, i: nat)
  {
    !w.Delete? && ((w.Public? && i in faults.setPublic) || i in faults.persist)
  }

  /** The first position, from `i` on, whose original cannot be moved aside; |ws| if none. */
  function BackupStop(files: Files, ws: seq<Write>, mode: Mode, faults: Faults, i: nat): (k: nat)
    requires i <= |ws|
    ensures i <= k <= |ws|
    ensures k < |ws| ==> BackupFails(files, ws[k], mode, faults, k)
    ensures forall j | i <= j < k :: !BackupFails(files, ws[j], mode, faults, j)
    decreases |ws| - i
  {
    if i == |ws| || BackupFails(files, ws[i], mode, faults, i) then i
    else BackupStop(files, ws, mode, faults, i + 1)
  }

  /** The first position, from `i` on, that cannot be published; |ws| if none. */
  function PublishStop(ws: seq<Write>, faults: Faults, i: nat): (k: nat)
    requires i <= |ws|
    ensures i <= k <= |ws|
    ensures k < |ws| ==> PublishFails(ws[k], faults, k)
    ensures forall j | i <= j < k :: !PublishFails(ws[j], faults, j)
    decreases |ws| - i
  {
    if i == |ws| || PublishFails(ws[i], faults, i) then i else PublishStop(ws, faults, i + 1)
  }

  /** Restoring positions below `m`, of which those below `p` were published, meets no failure. */
  predicate Restores(files: Files, ws: seq<Write>, mode: Mode, faults: Faults, m: nat, p: nat)
    requires m <= |ws|
  {
    forall i | 0 <= i < m ::
      && (i < p && !ws[i].Delete? ==> i !in faults.removeCommitted)
      && (NeedsBackup(files, ws[i], mode) ==> i !in faults.putBack)
  }

  datatype Stop =
    | Refused(error: Error)
    | BackupNotCreated(position: nat)
    | MoveAsideFailed(position: nat)
    | PublishFailed(position: nat)
    | Completed

  function StopOf(files: Files, ws: seq<Write>, mode: Mode, faults: Faults): (s: Stop)
    ensures (s.BackupNotCreated? || s.MoveAsideFailed? || s.PublishFailed?) ==> s.position < |ws|
  {
    if ws == [] || |ws| > MAX_BATCH then Refused(UnsafePath)
    else
      var e := PrepareError(files, ws, mode, faults, 0);
      if e.Some? then Refused(e.value)
      else if RecheckFails(files, ws, faults) then Refused(Io(Rechecking))
      else
        var k := BackupStop(files, ws, mode, faults, 0);
        if k < |ws| then
          if k in faults.createBackup then BackupNotCreated(k) else MoveAsideFailed(k)
        else
          var p := PublishStop(ws, faults, 0);
          if p < |ws| then PublishFailed(p) else Completed
  }

  /** What the caller is told. */
  function OutcomeOf(files: Files, ws: seq<Write>, mode: Mode, faults: Faults): (r: Outcome)
  {
    match StopOf(files, ws, mode, faults)
    case Refused(e) => Failure(e)
    case BackupNotCreated(_) => Failure(Io(CreatingBackup))
    case MoveAsideFailed(k) =>
      if Restores(files, ws, mode, faults, k, 0) then Failure(BatchRolledBack)
      else Failure(BatchRecoveryUnknown)
    case PublishFailed(p) =>
      if Restores(files, ws, mode, faults, |ws|, p) then Failure(BatchRolledBack)
      else if ws[p].Public? && p in faults.setPublic then Failure(Io(Publishing))
      else Failure(BatchRecoveryUnknown)
    case Completed => if faults.sync then Failure(DurabilityUnknown) else Success(())
  }

  // ---------- what each destination holds afterwards ----------

  function Requested(w: Write): (r: Option<Bytes>)
  {
    if w.Delete? then None else Some(w.contents)
  }

  /** While originals below `moved` are aside and positions below `published` are in place. */
  function Underway(files: Files, ws: seq<Write>, mode: Mode, moved: nat, published: nat, i: nat): (r: Option<Bytes>)
    requires i < |ws|
  {
    if i < published && !ws[i].Delete? then Some(ws[i].contents)
    else if i < moved && NeedsBackup(files, ws[i], mode) then None
    else Lookup(files, ws[i].destination)
  }

  /** After the restore loop passed position `i`: a backup that came back wins; otherwise a
      published file that could not be removed stays; otherwise nothing is left. */
  function AfterRestore(files: Files, ws: seq<Write>, mode: Mode, faults: Faults, published: nat, i: nat): (r: Option<Bytes>)
    requires i < |ws|
  {
    if NeedsBackup(files, ws[i], mode) && i !in faults.putBack then Lookup(files, ws[i].destination)
    else if i < published && !ws[i].Delete? && i in faults.removeCommitted then Some(ws[i].contents)
    else None
  }

  function Fate(files: Files, ws: seq<Write>, mode: Mode, faults: Faults, i: nat): (r: Option<Bytes>)
    requires i < |ws|
  {
    match StopOf(files, ws, mode, faults)
    case Refused(_) => Lookup(files, ws[i].destination)
    case BackupNotCreated(k) => Underway(files, ws, mode, k, 0, i)
    case MoveAsideFailed(k) =>
      if i < k then AfterRestore(files, ws, mode, faults, 0, i) else Lookup(files, ws[i].destination)
    case PublishFailed(p) => AfterRestore(files, ws, mode, faults, p, i)
    case Completed => Requested(ws[i])
  }

  /** First position writing to `q`, or |ws|. */
  function PositionOf(ws: seq<Write>, q: Path, i: nat): (k: nat)
    requires i <= |ws|
    ensures i <= k <= |ws|
    ensures k < |ws| ==> ws[k].destination == q
    ensures forall j | i <= j < k :: ws[j].destination != q
    decreases |ws| - i
  {
    if i == |ws| || ws[i].destination == q then i else PositionOf(ws, q, i + 1)
  }

  function FinalAt(files: Files, ws: seq<Write>, mode: Mode, faults: Faults, q: Path): (r: Option<Bytes>)
  {
    var i := PositionOf(ws, q, 0);
    if i < |ws| then Fate(files, ws, mode, faults, i) else Lookup(files, q)
  }

  function Put(files: Files, q: Path, contents: Option<Bytes>): (r: Files)
  {
    if contents.Some? then files[q := contents.value] else files - {q}
  }

  /** The files with the first `k` destinations in their final state. */
  function Settled(files: Files, ws: seq<Write>, mode: Mode, faults: Faults, k: nat): (r: Files)
    requires k <= |ws|
  {
    if k == 0 then files
    else Put(Settled(files, ws, mode, faults, k - 1), ws[k - 1].destination, Fate(files, ws, mode, faults, k - 1))
  }

  /** The repository files after the run. */
  function FinalFiles(files: Files, ws: seq<Write>, mode: Mode, faults: Faults): (r: Files)
  {
    Settled(files, ws, mode, faults, |ws|)
  }

  // ---------- facts about admission ----------

  lemma {:induction false} PrepareErrorFree(files: Files, ws: seq<Write>, mode: Mode, faults: Faults, i: nat)
    requires i <= |ws|
    ensures PrepareError(files, ws, mode, faults, i).None? <==>
      forall j | i <= j < |ws| :: !Oversized(ws[j]) && !Duplicate(ws, j) && Placeable(files, ws[j], mode) && j !in faults.stage
    decreases |ws| - i
  {
    if i < |ws| {
      PrepareErrorFree(files, ws, mode, faults, i + 1);
    }
  }

  /** A batch that gets as far as moving files is admissible. */
  lemma PastPreparation(files: Files, ws: seq<Write>, mode: Mode, faults: Faults)
    requires PrepareError(files, ws, mode, faults, 0).None?
    ensures Admissible(files, ws, mode)
  {
    PrepareErrorFree(files, ws, mode, faults, 0);
    forall i, j | 0 <= i < j < |ws| ensures ws[i].destination != ws[j].destination
    {
      assert !Duplicate(ws, j);
    }
  }

  /** An admissible batch is staged unless staging itself fails. */
  lemma AdmissibleIsStaged(files: Files, ws: seq<Write>, mode: Mode, faults: Faults)
    requires Admissible(files, ws, mode) && faults.stage == {}
    ensures PrepareError(files, ws, mode, faults, 0).None?
  {
    PrepareErrorFree(files, ws, mode, faults, 0);
    forall i | 0 <= i < |ws| ensures !Oversized(ws[i]) && !Duplicate(ws, i) && Placeable(files, ws[i], mode)
    {
    }
  }

  /** In an admissible batch a backup is taken exactly for the destinations that exist. */
  lemma BackupExactlyExisting(files: Files, ws: seq<Write>, mode: Mode, i: nat)
    requires Admissible(files, ws, mode) && i < |ws|
    ensures NeedsBackup(files, ws[i], mode) <==> ws[i].destination in files
  {
    assert Placeable(files, ws[i], mode);
  }

  lemma PutLookup(files: Files, q: Path, contents: Option<Bytes>, p: Path)
    ensures Lookup(Put(files, q, contents), p) == if p == q then contents else Lookup(files, p)
  {
  }

  lemma {:induction false} SettledLookup(files: Files, ws: seq<Write>, mode: Mode, faults: Faults, k: nat, q: Path)
    requires k <= |ws|
    requires DistinctDestinations(ws) || StopOf(files, ws, mode, faults).Refused?
    ensures Lookup(Settled(files, ws, mode, faults, k), q) ==
      var i := PositionOf(ws, q, 0);
      if i < k then Fate(files, ws, mode, faults, i) else Lookup(files, q)
  {
    if k > 0 {
      SettledLookup(files, ws, mode, faults, k - 1, q);
      PutLookup(Settled(files, ws, mode, faults, k - 1), ws[k - 1].destination, Fate(files, ws, mode, faults, k - 1), q);
    }
  }

  /** What the run leaves at one path. */
  lemma FinalLookup(files: Files, ws: seq<Write>, mode: Mode, faults: Faults, q: Path)
    ensures Lookup(FinalFiles(files, ws, mode, faults), q) == FinalAt(files, ws, mode, faults, q)
  {
    if !StopOf(files, ws, mode, faults).Refused? {
      PastPreparation(files, ws, mode, faults);
    }
    SettledLookup(files, ws, mode, faults, |ws|, q);
  }
}
