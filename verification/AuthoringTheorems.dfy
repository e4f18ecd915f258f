/** What the authoring transaction promises, for every batch, mode and combination of failures. */
module AuthoringTheorems {
  import opened Prelude
  import opened Authoring

  ghost predicate Untouched(files: Files, ws: seq<Write>, mode: Mode, faults: Faults)
  {
    FinalFiles(files, ws, mode, faults) == files
  }

  /** Every destination holds what was asked for and no other path changed. */
  ghost predicate CarriedOut(files: Files, ws: seq<Write>, mode: Mode, faults: Faults)
  {
    var after := FinalFiles(files, ws, mode, faults);
    && (forall i | 0 <= i < |ws| :: Lookup(after, ws[i].destination) == Requested(ws[i]))
    && (forall q | q !in Destinations(ws) :: Lookup(after, q) == Lookup(files, q))
  }

  lemma UntouchedIfFatesAreOld(files: Files, ws: seq<Write>, mode: Mode, faults: Faults)
    requires forall i | 0 <= i < |ws| :: Fate(files, ws, mode, faults, i) == Lookup(files, ws[i].destination)
    ensures Untouched(files, ws, mode, faults)
  {
    forall q ensures Lookup(FinalFiles(files, ws, mode, faults), q) == Lookup(files, q)
    {
      FinalLookup(files, ws, mode, faults, q);
    }
    MapsEqual(FinalFiles(files, ws, mode, faults), files);
  }

  lemma FateAtDestination(files: Files, ws: seq<Write>, mode: Mode, faults: Faults, i: nat)
    requires DistinctDestinations(ws) && i < |ws|
    ensures Lookup(FinalFiles(files, ws, mode, faults), ws[i].destination) == Fate(files, ws, mode, faults, i)
  {
    FinalLookup(files, ws, mode, faults, ws[i].destination);
    var k := PositionOf(ws, ws[i].destination, 0);
    assert k == i;
  }

  lemma MovedOnMeansAdmissible(files: Files, ws: seq<Write>, mode: Mode, faults: Faults)
    requires !StopOf(files, ws, mode, faults).Refused?
    ensures Admissible(files, ws, mode)
  {
    PastPreparation(files, ws, mode, faults);
  }

  /** BatchRolledBack leaves every path exactly as it was. */
  lemma RolledBackIsExact(files: Files, ws: seq<Write>, mode: Mode, faults: Faults)
    requires OutcomeOf(files, ws, mode, faults) == Failure(BatchRolledBack)
    ensures Untouched(files, ws, mode, faults)
  {
    RefusalsAreNotRollbacks(files, ws, mode, faults, 0);
    MovedOnMeansAdmissible(files, ws, mode, faults);
    forall i | 0 <= i < |ws| ensures Fate(files, ws, mode, faults, i) == Lookup(files, ws[i].destination)
    {
      BackupExactlyExisting(files, ws, mode, i);
    }
    UntouchedIfFatesAreOld(files, ws, mode, faults);
  }

  lemma {:induction false} RefusalsAreNotRollbacks(files: Files, ws: seq<Write>, mode: Mode, faults: Faults, i: nat)
    requires i <= |ws|
    ensures PrepareError(files, ws, mode, faults, i) in {None, Some(UnsafePath), Some(DestinationState), Some(Staging)}
    decreases |ws| - i
  {
    if i < |ws| {
      RefusalsAreNotRollbacks(files, ws, mode, faults, i + 1);
    }
  }

  /** Success and DurabilityUnknown are exactly the outcomes of a batch that was carried out. */
  lemma CompletionIsTotal(files: Files, ws: seq<Write>, mode: Mode, faults: Faults)
    ensures OutcomeOf(files, ws, mode, faults) in {Success(()), Failure(DurabilityUnknown)}
      <==> StopOf(files, ws, mode, faults).Completed?
    ensures StopOf(files, ws, mode, faults).Completed? ==> CarriedOut(files, ws, mode, faults)
  {
    RefusalsAreNotRollbacks(files, ws, mode, faults, 0);
    if StopOf(files, ws, mode, faults).Completed? {
      MovedOnMeansAdmissible(files, ws, mode, faults);
      forall i | 0 <= i < |ws| ensures Lookup(FinalFiles(files, ws, mode, faults), ws[i].destination) == Requested(ws[i])
      {
        FateAtDestination(files, ws, mode, faults, i);
      }
      forall q | q !in Destinations(ws) ensures Lookup(FinalFiles(files, ws, mode, faults), q) == Lookup(files, q)
      {
        FinalLookup(files, ws, mode, faults, q);
        var i := PositionOf(ws, q, 0);
        assert i == |ws|;
      }
    }
  }

  predicate MayBeMixed(r: Outcome)
  {
    r in {Failure(BatchRecoveryUnknown), Failure(Io(CreatingBackup)), Failure(Io(Publishing))}
  }

  /** Every other outcome is all or nothing. */
  lemma ExitClassification(files: Files, ws: seq<Write>, mode: Mode, faults: Faults)
    requires !MayBeMixed(OutcomeOf(files, ws, mode, faults))
    ensures OutcomeOf(files, ws, mode, faults) in {Success(()), Failure(DurabilityUnknown)} ==> CarriedOut(files, ws, mode, faults)
    ensures OutcomeOf(files, ws, mode, faults) !in {Success(()), Failure(DurabilityUnknown)} ==> Untouched(files, ws, mode, faults)
  {
    CompletionIsTotal(files, ws, mode, faults);
    match StopOf(files, ws, mode, faults)
    case Refused(_) => UntouchedIfFatesAreOld(files, ws, mode, faults);
    case MoveAsideFailed(_) => RolledBackIsExact(files, ws, mode, faults);
    case PublishFailed(_) => RolledBackIsExact(files, ws, mode, faults);
    case Completed =>
  }

  /** Even a mixed exit only ever leaves the original, the requested bytes or nothing at a
      destination, and leaves every other path alone. */
  lemma MixedStatesAreBounded(files: Files, ws: seq<Write>, mode: Mode, faults: Faults, q: Path)
    ensures q !in Destinations(ws) ==> Lookup(FinalFiles(files, ws, mode, faults), q) == Lookup(files, q)
    ensures q in Destinations(ws) ==>
      || Lookup(FinalFiles(files, ws, mode, faults), q) in {Lookup(files, q), None}
      || exists i | 0 <= i < |ws| :: ws[i].destination == q && Lookup(FinalFiles(files, ws, mode, faults), q) == Requested(ws[i])
  {
    FinalLookup(files, ws, mode, faults, q);
    var i := PositionOf(ws, q, 0);
    if q in Destinations(ws) {
      assert i < |ws|;
    }
  }

  /** When taking back published files and putting back originals both work, a started batch is
      either carried out, undone, or ends in the backup-creation exit. */
  lemma WorkingRollback(files: Files, ws: seq<Write>, mode: Mode, faults: Faults)
    requires faults.removeCommitted == {} && faults.putBack == {}
    ensures OutcomeOf(files, ws, mode, faults) != Failure(BatchRecoveryUnknown)
    ensures OutcomeOf(files, ws, mode, faults) != Failure(Io(Publishing))
  {
    RefusalsAreNotRollbacks(files, ws, mode, faults, 0);
  }

  // ---------- when a batch succeeds, and why it does not ----------

  /** The write at position `i` is allowed, and none of the operations it needs fails. */
  ghost predicate Unhindered(files: Files, w: Write, mode: Mode, faults: Faults, i: nat)
  {
    && i !in faults.stage
    && (w.destination in files ==> i !in faults.recheck && i !in faults.createBackup && i !in faults.moveAside)
    && match w
       case Secret(d, _) => (d in files <==> mode == Replace) && i !in faults.persist
       case Public(d, bytes) =>
         (d in files <==> mode == Replace) && |bytes| <= 67_108_864 && i !in faults.setPublic && i !in faults.persist
       case Private(_, bytes) => |bytes| <= 67_108_864 && i !in faults.persist
       case Delete(_) => true
  }

  lemma UnhinderedMeans(files: Files, ws: seq<Write>, mode: Mode, faults: Faults, i: nat)
    requires i < |ws|
    ensures Unhindered(files, ws[i], mode, faults, i) <==>
      && !Oversized(ws[i]) && Placeable(files, ws[i], mode) && i !in faults.stage
      && !(ws[i].destination in files && i in faults.recheck)
      && !BackupFails(files, ws[i], mode, faults, i) && !PublishFails(ws[i], faults, i)
  {
  }

  /** A batch is reported as written exactly when it is not empty, not too large, writes no file twice,
      every write is allowed, and no operation it needs fails. */
  lemma SucceedsIff(files: Files, ws: seq<Write>, mode: Mode, faults: Faults)
    ensures OutcomeOf(files, ws, mode, faults) == Success(()) <==>
      && 0 < |ws| <= 10_000
      && (forall i, j | 0 <= i < j < |ws| :: ws[i].destination != ws[j].destination)
      && (forall i | 0 <= i < |ws| :: Unhindered(files, ws[i], mode, faults, i))
      && !faults.sync
  {
    if 0 < |ws| <= MAX_BATCH {
      CompletesIff(files, ws, mode, faults);
    }
    CompletionIsTotal(files, ws, mode, faults);
  }

  lemma CompletesIff(files: Files, ws: seq<Write>, mode: Mode, faults: Faults)
    requires 0 < |ws| <= MAX_BATCH
    ensures StopOf(files, ws, mode, faults).Completed? <==>
      DistinctDestinations(ws) && forall i | 0 <= i < |ws| :: Unhindered(files, ws[i], mode, faults, i)
  {
    PrepareErrorFree(files, ws, mode, faults, 0);
    if StopOf(files, ws, mode, faults).Completed? {
      MovedOnMeansAdmissible(files, ws, mode, faults);
      forall i | 0 <= i < |ws| ensures Unhindered(files, ws[i], mode, faults, i)
      {
        UnhinderedMeans(files, ws, mode, faults, i);
      }
    } else if DistinctDestinations(ws) && forall i | 0 <= i < |ws| :: Unhindered(files, ws[i], mode, faults, i) {
      forall i | 0 <= i < |ws|
        ensures !Oversized(ws[i]) && !Duplicate(ws, i) && Placeable(files, ws[i], mode) && i !in faults.stage
        ensures !(ws[i].destination in files && i in faults.recheck)
        ensures !BackupFails(files, ws[i], mode, faults, i) && !PublishFails(ws[i], faults, i)
      {
        UnhinderedMeans(files, ws, mode, faults, i);
      }
      assert false;
    }
  }

  /** A destination that existed and was changed after it was staged stops the batch before it
      touches anything. */
  lemma ChangedDestinationRefuses(files: Files, ws: seq<Write>, mode: Mode, faults: Faults, i: nat)
    requires i < |ws| && ws[i].destination in files && i in faults.recheck
    ensures OutcomeOf(files, ws, mode, faults).Failure?
    ensures FinalFiles(files, ws, mode, faults) == files
  {
    assert RecheckFails(files, ws, faults);
    UntouchedIfFatesAreOld(files, ws, mode, faults);
  }

  /** Destinations are compared only after every write was staged without an error. */
  lemma ComparedAfterStaging(files: Files, ws: seq<Write>, mode: Mode, faults: Faults)
    requires OutcomeOf(files, ws, mode, faults) == Failure(Io(Rechecking))
    ensures 0 < |ws| <= 10_000 && Admissible(files, ws, mode) && forall i | 0 <= i < |ws| :: i !in faults.stage
  {
    RefusalsAreNotRollbacks(files, ws, mode, faults, 0);
    PastPreparation(files, ws, mode, faults);
    PrepareErrorFree(files, ws, mode, faults, 0);
  }

  /** What must be the case for a batch to be refused before it moves a file. */
  ghost predicate RefusalReason(files: Files, ws: seq<Write>, mode: Mode, faults: Faults, e: Error)
  {
    match e
    case UnsafePath =>
      || ws == [] || |ws| > 10_000
      || exists i | 0 <= i < |ws| :: (ws[i].Public? || ws[i].Private?) && |ws[i].contents| > 67_108_864
    case DestinationState =>
      || (exists i, j | 0 <= i < j < |ws| :: ws[i].destination == ws[j].destination)
      || exists i | 0 <= i < |ws| :: (ws[i].Secret? || ws[i].Public?) && (ws[i].destination in files <==> mode == Create)
    case Staging => exists i | 0 <= i < |ws| :: i in faults.stage
    case Io(Rechecking) => exists i | 0 <= i < |ws| :: ws[i].destination in files && i in faults.recheck
    case _ => false
  }

  ghost predicate UndoFails(files: Files, ws: seq<Write>, faults: Faults)
  {
    || (exists i | 0 <= i < |ws| :: ws[i].destination in files && i in faults.putBack)
    || exists i | 0 <= i < |ws| :: !ws[i].Delete? && i in faults.removeCommitted
  }

  ghost predicate PublicModeFails(ws: seq<Write>, faults: Faults)
  {
    exists i | 0 <= i < |ws| :: ws[i].Public? && i in faults.setPublic
  }

  ghost predicate MoveFails(files: Files, ws: seq<Write>, faults: Faults)
  {
    || (exists i | 0 <= i < |ws| :: ws[i].destination in files && i in faults.moveAside)
    || (exists i | 0 <= i < |ws| :: !ws[i].Delete? && i in faults.persist)
    || PublicModeFails(ws, faults)
  }

  /** What must be the case for a batch to fail after it began to move files. */
  ghost predicate FailureReason(files: Files, ws: seq<Write>, faults: Faults, e: Error)
  {
    match e
    case Io(CreatingBackup) => exists i | 0 <= i < |ws| :: ws[i].destination in files && i in faults.createBackup
    case Io(Publishing) => PublicModeFails(ws, faults) && UndoFails(files, ws, faults)
    case BatchRolledBack => MoveFails(files, ws, faults)
    case BatchRecoveryUnknown => MoveFails(files, ws, faults) && UndoFails(files, ws, faults)
    case DurabilityUnknown => faults.sync
    case _ => false
  }

  lemma {:induction false} PrepareErrorReason(files: Files, ws: seq<Write>, mode: Mode, faults: Faults, i: nat)
    requires i <= |ws| && PrepareError(files, ws, mode, faults, i).Some?
    ensures RefusalReason(files, ws, mode, faults, PrepareError(files, ws, mode, faults, i).value)
    decreases |ws| - i
  {
    if !Oversized(ws[i]) && !Duplicate(ws, i) && Placeable(files, ws[i], mode) && i !in faults.stage {
      PrepareErrorReason(files, ws, mode, faults, i + 1);
    }
  }

  ghost predicate Large(w: Write)
  {
    (w.Public? || w.Private?) && |w.contents| > 67_108_864
  }

  ghost predicate Taken(ws: seq<Write>, i: nat)
    requires i < |ws|
  {
    exists j | 0 <= j < i :: ws[j].destination == ws[i].destination
  }

  ghost predicate Misplaced(files: Files, w: Write, mode: Mode)
  {
    (w.Secret? || w.Public?) && (w.destination in files <==> mode == Create)
  }

  /** Staging is refused at the first write that is too large, repeats a destination, is misplaced or fails, and
      the error is the first of these reasons. */
  lemma {:induction false} RefusedAtTheFirst(files: Files, ws: seq<Write>, mode: Mode, faults: Faults, from: nat) returns (i: nat)
    requires from <= |ws| && PrepareError(files, ws, mode, faults, from).Some?
    ensures from <= i < |ws|
    ensures forall j | from <= j < i :: !Large(ws[j]) && !Taken(ws, j) && !Misplaced(files, ws[j], mode) && j !in faults.stage
    ensures Large(ws[i]) || Taken(ws, i) || Misplaced(files, ws[i], mode) || i in faults.stage
    ensures PrepareError(files, ws, mode, faults, from) == Some(
      if Large(ws[i]) then UnsafePath
      else if Taken(ws, i) || Misplaced(files, ws[i], mode) then DestinationState
      else Staging)
    decreases |ws| - from
  {
    if Oversized(ws[from]) || Duplicate(ws, from) || !Placeable(files, ws[from], mode) || from in faults.stage {
      i := from;
    } else {
      i := RefusedAtTheFirst(files, ws, mode, faults, from + 1);
    }
  }

  lemma UndoneOrReasoned(files: Files, ws: seq<Write>, mode: Mode, faults: Faults, m: nat, p: nat)
    requires m <= |ws| && Admissible(files, ws, mode) && !Restores(files, ws, mode, faults, m, p)
    ensures UndoFails(files, ws, faults)
  {
    var i :| 0 <= i < m && ((i < p && !ws[i].Delete? && i in faults.removeCommitted)
      || (NeedsBackup(files, ws[i], mode) && i in faults.putBack));
    BackupExactlyExisting(files, ws, mode, i);
  }

  /** A batch that began to move files stops at the first position whose operation fails. */
  lemma StopsAtTheFirstFailure(files: Files, ws: seq<Write>, mode: Mode, faults: Faults)
    ensures match StopOf(files, ws, mode, faults)
      case Refused(e) => RefusalReason(files, ws, mode, faults, e)
      case BackupNotCreated(k) => k in faults.createBackup && ws[k].destination in files && MovesBelow(files, ws, faults, k)
      case MoveAsideFailed(k) =>
        k in faults.moveAside && k !in faults.createBackup && ws[k].destination in files && MovesBelow(files, ws, faults, k)
      case PublishFailed(p) =>
        && MovesBelow(files, ws, faults, |ws|) && PublishesBelow(ws, faults, p)
        && !ws[p].Delete? && (p in faults.persist || (ws[p].Public? && p in faults.setPublic))
      case Completed => MovesBelow(files, ws, faults, |ws|) && PublishesBelow(ws, faults, |ws|)
  {
    var stop := StopOf(files, ws, mode, faults);
    if stop.Refused? {
      if 0 < |ws| <= MAX_BATCH && PrepareError(files, ws, mode, faults, 0).Some? {
        PrepareErrorReason(files, ws, mode, faults, 0);
      }
    } else {
      MovedOnMeansAdmissible(files, ws, mode, faults);
      forall i | 0 <= i < |ws| ensures NeedsBackup(files, ws[i], mode) <==> ws[i].destination in files
      {
        BackupExactlyExisting(files, ws, mode, i);
      }
    }
  }

  ghost predicate MovesBelow(files: Files, ws: seq<Write>, faults: Faults, k: nat)
    requires k <= |ws|
  {
    forall i | 0 <= i < k :: ws[i].destination in files ==> i !in faults.createBackup && i !in faults.moveAside
  }

  ghost predicate PublishesBelow(ws: seq<Write>, faults: Faults, k: nat)
    requires k <= |ws|
  {
    forall i | 0 <= i < k :: !ws[i].Delete? ==> i !in faults.persist && (ws[i].Public? ==> i !in faults.setPublic)
  }

  /** A batch that stopped while moving or publishing is reported as rolled back exactly when every original
      moved aside can be put back and every file published can be removed. */
  lemma RolledBackIff(files: Files, ws: seq<Write>, mode: Mode, faults: Faults)
    requires StopOf(files, ws, mode, faults).MoveAsideFailed? || StopOf(files, ws, mode, faults).PublishFailed?
    ensures OutcomeOf(files, ws, mode, faults) == Failure(BatchRolledBack) <==>
      match StopOf(files, ws, mode, faults)
      case MoveAsideFailed(k) => forall i | 0 <= i < k :: ws[i].destination in files ==> i !in faults.putBack
      case PublishFailed(p) =>
        && (forall i | 0 <= i < |ws| :: ws[i].destination in files ==> i !in faults.putBack)
        && (forall i | 0 <= i < p :: !ws[i].Delete? ==> i !in faults.removeCommitted)
    ensures OutcomeOf(files, ws, mode, faults) != Failure(BatchRolledBack) ==>
      var stop := StopOf(files, ws, mode, faults);
      OutcomeOf(files, ws, mode, faults) == Failure(
        if stop.PublishFailed? && ws[stop.position].Public? && stop.position in faults.setPublic then Io(Publishing)
        else BatchRecoveryUnknown)
  {
    MovedOnMeansAdmissible(files, ws, mode, faults);
    forall i | 0 <= i < |ws| ensures NeedsBackup(files, ws[i], mode) <==> ws[i].destination in files
    {
      BackupExactlyExisting(files, ws, mode, i);
    }
  }

  /** Every failure names its cause: something about the request, the files or a failed operation. */
  lemma FailuresAreReasoned(files: Files, ws: seq<Write>, mode: Mode, faults: Faults)
    requires OutcomeOf(files, ws, mode, faults).Failure?
    ensures RefusalReason(files, ws, mode, faults, OutcomeOf(files, ws, mode, faults).error)
      || FailureReason(files, ws, faults, OutcomeOf(files, ws, mode, faults).error)
  {
    StopsAtTheFirstFailure(files, ws, mode, faults);
    match StopOf(files, ws, mode, faults)
    case Refused(_) =>
    case BackupNotCreated(_) =>
    case MoveAsideFailed(k) =>
      MovedOnMeansAdmissible(files, ws, mode, faults);
      if !Restores(files, ws, mode, faults, k, 0) {
        UndoneOrReasoned(files, ws, mode, faults, k, 0);
      }
    case PublishFailed(p) =>
      MovedOnMeansAdmissible(files, ws, mode, faults);
      if !Restores(files, ws, mode, faults, |ws|, p) {
        UndoneOrReasoned(files, ws, mode, faults, |ws|, p);
      }
    case Completed =>
  }

  // ---------- the durability exit ----------

  ghost predicate DurabilityExitHarmless(files: Files, ws: seq<Write>, mode: Mode, faults: Faults)
  {
    OutcomeOf(files, ws, mode, faults) == Failure(DurabilityUnknown) ==> Untouched(files, ws, mode, faults)
  }

  /** The batch asks for nothing but what is there already. */
  predicate AsksForNothingNew(files: Files, ws: seq<Write>)
  {
    forall i | 0 <= i < |ws| :: Requested(ws[i]) == Lookup(files, ws[i].destination)
  }

  /** A run in which only the final directory sync fails: every destination is new all the same. */
  lemma UnsyncedRun(files: Files, ws: seq<Write>, mode: Mode)
    requires 0 < |ws| <= MAX_BATCH && Admissible(files, ws, mode)
    ensures OutcomeOf(files, ws, mode, NO_FAULTS.(sync := true)) == Failure(DurabilityUnknown)
    ensures CarriedOut(files, ws, mode, NO_FAULTS.(sync := true))
  {
    var faults := NO_FAULTS.(sync := true);
    AdmissibleIsStaged(files, ws, mode, faults);
    CompletionIsTotal(files, ws, mode, faults);
  }

  /** A failed sync restores the earlier files, for every run, exactly when the batch is refused
      anyway or asks for nothing new. */
  lemma DurabilityExitHarmlessIff(files: Files, ws: seq<Write>, mode: Mode)
    ensures (forall faults :: DurabilityExitHarmless(files, ws, mode, faults)) <==>
      (!(0 < |ws| <= MAX_BATCH && Admissible(files, ws, mode)) || AsksForNothingNew(files, ws))
  {
    if 0 < |ws| <= MAX_BATCH && Admissible(files, ws, mode) && !AsksForNothingNew(files, ws) {
      UnsyncedRun(files, ws, mode);
      assert !DurabilityExitHarmless(files, ws, mode, NO_FAULTS.(sync := true));
    } else {
      forall faults ensures DurabilityExitHarmless(files, ws, mode, faults)
      {
        if OutcomeOf(files, ws, mode, faults) == Failure(DurabilityUnknown) {
          CompletionIsTotal(files, ws, mode, faults);
          MovedOnMeansAdmissible(files, ws, mode, faults);
          UntouchedIfFatesAreOld(files, ws, mode, faults);
        }
      }
    }
  }

  // ---------- the backup-creation exit ----------

  /** What the backup-creation exit at position `k` leaves: the originals before `k` are gone. */
  lemma BackupCreationExit(files: Files, ws: seq<Write>, mode: Mode, faults: Faults)
    requires StopOf(files, ws, mode, faults).BackupNotCreated?
    ensures var k := StopOf(files, ws, mode, faults).position;
      FinalFiles(files, ws, mode, faults) == files - Destinations(ws[..k])
  {
    MovedOnMeansAdmissible(files, ws, mode, faults);
    var k := StopOf(files, ws, mode, faults).position;
    var left := files - Destinations(ws[..k]);
    forall q ensures Lookup(FinalFiles(files, ws, mode, faults), q) == Lookup(left, q)
    {
      FinalLookup(files, ws, mode, faults, q);
      var i := PositionOf(ws, q, 0);
      if i < k {
        assert ws[..k][i].destination == q;
        BackupExactlyExisting(files, ws, mode, i);
      } else {
        assert q !in Destinations(ws[..k]);
      }
    }
    MapsEqual(FinalFiles(files, ws, mode, faults), left);
  }

  ghost predicate AtMostOneExists(files: Files, ws: seq<Write>)
  {
    forall i, j | 0 <= i < j < |ws| :: !(ws[i].destination in files && ws[j].destination in files)
  }

  ghost predicate BackupExitHarmless(files: Files, ws: seq<Write>, mode: Mode, faults: Faults)
  {
    OutcomeOf(files, ws, mode, faults) == Failure(Io(CreatingBackup)) ==> Untouched(files, ws, mode, faults)
  }

  /** A run in which only the backup of position `j` cannot be created. */
  lemma LosingRun(files: Files, ws: seq<Write>, mode: Mode, i: nat, j: nat)
    requires 0 < |ws| <= MAX_BATCH && Admissible(files, ws, mode)
    requires i < j < |ws| && ws[i].destination in files && ws[j].destination in files
    ensures !BackupExitHarmless(files, ws, mode, NO_FAULTS.(createBackup := {j}))
  {
    var faults := NO_FAULTS.(createBackup := {j});
    AdmissibleIsStaged(files, ws, mode, faults);
    BackupExactlyExisting(files, ws, mode, j);
    assert BackupFails(files, ws[j], mode, faults, j);
    assert StopOf(files, ws, mode, faults) == BackupNotCreated(j);
    BackupCreationExit(files, ws, mode, faults);
    assert ws[..j][i].destination in Destinations(ws[..j]);
  }

  /** The backup-creation exit is harmless for every possible failure exactly when the batch is
      refused anyway or touches at most one existing file. */
  lemma BackupExitHarmlessIff(files: Files, ws: seq<Write>, mode: Mode)
    ensures (forall faults :: BackupExitHarmless(files, ws, mode, faults)) <==>
      (!(0 < |ws| <= MAX_BATCH && Admissible(files, ws, mode)) || AtMostOneExists(files, ws))
  {
    if 0 < |ws| <= MAX_BATCH && Admissible(files, ws, mode) && !AtMostOneExists(files, ws) {
      var i, j :| 0 <= i < j < |ws| && ws[i].destination in files && ws[j].destination in files;
      LosingRun(files, ws, mode, i, j);
    } else {
      forall faults ensures BackupExitHarmless(files, ws, mode, faults)
      {
        OneBackupIsHarmless(files, ws, mode, faults);
      }
    }
  }

  lemma OneBackupIsHarmless(files: Files, ws: seq<Write>, mode: Mode, faults: Faults)
    requires !(0 < |ws| <= MAX_BATCH && Admissible(files, ws, mode)) || AtMostOneExists(files, ws)
    ensures BackupExitHarmless(files, ws, mode, faults)
  {
    RefusalsAreNotRollbacks(files, ws, mode, faults, 0);
    if OutcomeOf(files, ws, mode, faults) == Failure(Io(CreatingBackup)) {
      MovedOnMeansAdmissible(files, ws, mode, faults);
      var k := StopOf(files, ws, mode, faults).position;
      BackupExactlyExisting(files, ws, mode, k);
      forall i | 0 <= i < |ws| ensures Fate(files, ws, mode, faults, i) == Lookup(files, ws[i].destination)
      {
        BackupExactlyExisting(files, ws, mode, i);
      }
      UntouchedIfFatesAreOld(files, ws, mode, faults);
    }
  }

  // ---------- the loop with the missing restore added ----------

  /** Handling a backup that cannot be created as one that cannot be moved. */
  function Repaired(faults: Faults): (r: Faults)
  {
    faults.(createBackup := {}, moveAside := faults.moveAside + faults.createBackup)
  }

  /** With that change every failure is all or nothing as long as rolling back works. */
  lemma RepairedLoopIsAtomic(files: Files, ws: seq<Write>, mode: Mode, faults: Faults)
    ensures OutcomeOf(files, ws, mode, Repaired(faults)) != Failure(Io(CreatingBackup))
    ensures faults.removeCommitted == {} && faults.putBack == {} ==>
      Untouched(files, ws, mode, Repaired(faults)) || CarriedOut(files, ws, mode, Repaired(faults))
  {
    RefusalsAreNotRollbacks(files, ws, mode, Repaired(faults), 0);
    if faults.removeCommitted == {} && faults.putBack == {} {
      WorkingRollback(files, ws, mode, Repaired(faults));
      ExitClassification(files, ws, mode, Repaired(faults));
    }
  }
}
