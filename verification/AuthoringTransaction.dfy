/** The authoring transaction as it runs: destinations, staged files and backups of one repository,
    changed in place, one file operation at a time. A temporary file is known by the batch position
    it belongs to. */
module AuthoringTransaction {
  import opened Prelude
  import opened Authoring

  /** A staged output. `existed` records the metadata seen during preparation. */
  datatype Prepared = Prepared(write: Write, existed: bool)

  datatype RekeyRequest = RekeyRequest(source: Path, destination: Path, rekeyed: Bytes)

  datatype BackupEnd = AllAside | CannotCreate | CannotMove

  ghost predicate Describes(prepared: seq<Prepared>, ws: seq<Write>, files: Files)
  {
    && |prepared| == |ws|
    && forall i | 0 <= i < |ws| :: prepared[i].write == ws[i] && (prepared[i].existed <==> ws[i].destination in files)
  }

  /** The decision the backup loop takes, from the metadata recorded while preparing. */
  predicate BackupWanted(item: Prepared, mode: Mode)
  {
    if Canonical(item.write) then mode == Replace else item.existed
  }

  // ---------- the store between two operations ----------

  function StagedBelow(ws: seq<Write>, k: nat): (r: map<nat, Bytes>)
    requires k <= |ws|
  {
    if k == 0 then map[]
    else if ws[k - 1].Delete? then StagedBelow(ws, k - 1)
    else StagedBelow(ws, k - 1)[k - 1 := ws[k - 1].contents]
  }

  function StagedFrom(ws: seq<Write>, k: nat): (r: map<nat, Bytes>)
    requires k <= |ws|
    ensures forall i | i in r :: k <= i
    decreases |ws| - k
  {
    if k == |ws| then map[]
    else if ws[k].Delete? then StagedFrom(ws, k + 1)
    else StagedFrom(ws, k + 1)[k := ws[k].contents]
  }

  /** The files with the originals below `k` moved aside. */
  function Aside(files: Files, ws: seq<Write>, mode: Mode, k: nat): (r: Files)
    requires k <= |ws|
  {
    if k == 0 then files
    else if NeedsBackup(files, ws[k - 1], mode) then Aside(files, ws, mode, k - 1) - {ws[k - 1].destination}
    else Aside(files, ws, mode, k - 1)
  }

  /** The backups taken below `k`. */
  function BackupsBelow(files: Files, ws: seq<Write>, mode: Mode, k: nat): (r: map<nat, Bytes>)
    requires k <= |ws|
    ensures forall i | i in r :: i < k
  {
    if k == 0 then map[]
    else if NeedsBackup(files, ws[k - 1], mode) && ws[k - 1].destination in files then
      BackupsBelow(files, ws, mode, k - 1)[k - 1 := files[ws[k - 1].destination]]
    else BackupsBelow(files, ws, mode, k - 1)
  }

  /** The files with the outputs below `p` published. */
  function InPlace(files: Files, ws: seq<Write>, mode: Mode, m: nat, p: nat): (r: Files)
    requires p <= m <= |ws|
  {
    if p == 0 then Aside(files, ws, mode, m)
    else if ws[p - 1].Delete? then InPlace(files, ws, mode, m, p - 1)
    else InPlace(files, ws, mode, m, p - 1)[ws[p - 1].destination := ws[p - 1].contents]
  }

  /** The files after the restore loop passed the positions from `j` up to `m`. */
  function TakenBack(files: Files, ws: seq<Write>, mode: Mode, faults: Faults, m: nat, p: nat, j: nat): (r: Files)
    requires p <= m <= |ws| && j <= m
    decreases m - j
  {
    if j == m then InPlace(files, ws, mode, m, p)
    else Put(TakenBack(files, ws, mode, faults, m, p, j + 1), ws[j].destination, AfterRestore(files, ws, mode, faults, p, j))
  }

  function CommittedPaths(ws: seq<Write>, p: nat): (r: set<Path>)
    requires p <= |ws|
  {
    set i | 0 <= i < p && !ws[i].Delete? :: ws[i].destination
  }

  predicate RestoresFrom(files: Files, ws: seq<Write>, mode: Mode, faults: Faults, m: nat, p: nat, j: nat)
    requires m <= |ws|
  {
    forall i | j <= i < m ::
      && (i < p && !ws[i].Delete? ==> i !in faults.removeCommitted)
      && (NeedsBackup(files, ws[i], mode) ==> i !in faults.putBack)
  }

  // ---------- what those stores hold at each path ----------

  lemma PositionIs(ws: seq<Write>, i: nat)
    requires DistinctDestinations(ws) && i < |ws|
    ensures PositionOf(ws, ws[i].destination, 0) == i
  {
  }

  lemma {:induction false} StagedBelowLookup(ws: seq<Write>, k: nat, i: nat)
    requires k <= |ws|
    ensures Lookup(StagedBelow(ws, k), i) == if i < k && !ws[i].Delete? then Some(ws[i].contents) else None
  {
    if k > 0 {
      StagedBelowLookup(ws, k - 1, i);
    }
  }

  lemma {:induction false} StagedFromLookup(ws: seq<Write>, k: nat, i: nat)
    requires k <= |ws|
    ensures Lookup(StagedFrom(ws, k), i) == if k <= i < |ws| && !ws[i].Delete? then Some(ws[i].contents) else None
    decreases |ws| - k
  {
    if k < |ws| {
      StagedFromLookup(ws, k + 1, i);
    }
  }

  lemma AllStaged(ws: seq<Write>)
    ensures StagedBelow(ws, |ws|) == StagedFrom(ws, 0)
  {
    forall i: nat ensures Lookup(StagedBelow(ws, |ws|), i) == Lookup(StagedFrom(ws, 0), i)
    {
      StagedBelowLookup(ws, |ws|, i);
      StagedFromLookup(ws, 0, i);
    }
    MapsEqual(StagedBelow(ws, |ws|), StagedFrom(ws, 0));
  }

  lemma {:induction false} AsideLookup(files: Files, ws: seq<Write>, mode: Mode, k: nat, q: Path)
    requires DistinctDestinations(ws) && k <= |ws|
    ensures Lookup(Aside(files, ws, mode, k), q) ==
      var i := PositionOf(ws, q, 0);
      if i < k && NeedsBackup(files, ws[i], mode) then None else Lookup(files, q)
  {
    if k > 0 {
      AsideLookup(files, ws, mode, k - 1, q);
      PositionIs(ws, k - 1);
    }
  }

  lemma {:induction false} InPlaceLookup(files: Files, ws: seq<Write>, mode: Mode, m: nat, p: nat, q: Path)
    requires DistinctDestinations(ws) && p <= m <= |ws|
    ensures Lookup(InPlace(files, ws, mode, m, p), q) ==
      var i := PositionOf(ws, q, 0);
      if i < |ws| then Underway(files, ws, mode, m, p, i) else Lookup(files, q)
  {
    if p == 0 {
      AsideLookup(files, ws, mode, m, q);
    } else {
      InPlaceLookup(files, ws, mode, m, p - 1, q);
      PositionIs(ws, p - 1);
    }
  }

  lemma {:induction false} TakenBackLookup(files: Files, ws: seq<Write>, mode: Mode, faults: Faults, m: nat, p: nat, j: nat, q: Path)
    requires DistinctDestinations(ws) && p <= m <= |ws| && j <= m
    ensures Lookup(TakenBack(files, ws, mode, faults, m, p, j), q) ==
      var i := PositionOf(ws, q, 0);
      if i >= |ws| then Lookup(files, q)
      else if j <= i < m then AfterRestore(files, ws, mode, faults, p, i)
      else Underway(files, ws, mode, m, p, i)
    decreases m - j
  {
    if j == m {
      InPlaceLookup(files, ws, mode, m, p, q);
    } else {
      TakenBackLookup(files, ws, mode, faults, m, p, j + 1, q);
      PutLookup(TakenBack(files, ws, mode, faults, m, p, j + 1), ws[j].destination, AfterRestore(files, ws, mode, faults, p, j), q);
      PositionIs(ws, j);
    }
  }

  // ---------- facts a step needs ----------

  /** An original is in place until its own turn to be moved aside. */
  lemma StillThere(files: Files, ws: seq<Write>, mode: Mode, i: nat)
    requires Admissible(files, ws, mode) && i < |ws|
    ensures NeedsBackup(files, ws[i], mode) <==> ws[i].destination in files
    ensures Lookup(Aside(files, ws, mode, i), ws[i].destination) == Lookup(files, ws[i].destination)
  {
    BackupExactlyExisting(files, ws, mode, i);
    PositionIs(ws, i);
    AsideLookup(files, ws, mode, i, ws[i].destination);
  }

  /** When its turn to be published comes, a destination is free. */
  lemma FreeToPublish(files: Files, ws: seq<Write>, mode: Mode, i: nat)
    requires Admissible(files, ws, mode) && i < |ws|
    ensures ws[i].destination !in InPlace(files, ws, mode, |ws|, i)
  {
    BackupExactlyExisting(files, ws, mode, i);
    PositionIs(ws, i);
    InPlaceLookup(files, ws, mode, |ws|, i, ws[i].destination);
  }

  lemma CommittedGrows(ws: seq<Write>, i: nat)
    requires i < |ws|
    ensures CommittedPaths(ws, i + 1) == CommittedPaths(ws, i) + if ws[i].Delete? then {} else {ws[i].destination}
  {
  }

  /** Before its turn in the restore loop a destination holds its published file or nothing. */
  lemma BeforeRestore(files: Files, ws: seq<Write>, mode: Mode, faults: Faults, m: nat, p: nat, j: nat)
    requires Admissible(files, ws, mode) && p <= m <= |ws| && j < m
    ensures NeedsBackup(files, ws[j], mode) <==> ws[j].destination in files
    ensures Lookup(TakenBack(files, ws, mode, faults, m, p, j + 1), ws[j].destination) ==
      if j < p && !ws[j].Delete? then Some(ws[j].contents) else None
    ensures ws[j].destination in CommittedPaths(ws, p) <==> j < p && !ws[j].Delete?
  {
    PositionIs(ws, j);
    BackupExactlyExisting(files, ws, mode, j);
    TakenBackLookup(files, ws, mode, faults, m, p, j + 1, ws[j].destination);
  }

  lemma BackupsTurn(files: Files, ws: seq<Write>, mode: Mode, j: nat)
    requires j < |ws|
    ensures j in BackupsBelow(files, ws, mode, j + 1) <==> NeedsBackup(files, ws[j], mode) && ws[j].destination in files
    ensures BackupsBelow(files, ws, mode, j) == BackupsBelow(files, ws, mode, j + 1) - {j}
  {
  }

  /** One turn of the restore loop, as a step of the store. */
  lemma RestoreTurn(files: Files, ws: seq<Write>, mode: Mode, faults: Faults, m: nat, p: nat, j: nat)
    requires Admissible(files, ws, mode) && p <= m <= |ws| && j < m
    ensures var was, d := TakenBack(files, ws, mode, faults, m, p, j + 1), ws[j].destination;
      var held := BackupsBelow(files, ws, mode, j + 1);
      && (d in CommittedPaths(ws, p) <==> d in was)
      && (j in held <==> NeedsBackup(files, ws[j], mode))
      && BackupsBelow(files, ws, mode, j) == held - {j}
      && TakenBack(files, ws, mode, faults, m, p, j) ==
           Put(was, d, if j in held && j !in faults.putBack then Some(held[j])
                       else if j in faults.removeCommitted then Lookup(was, d) else None)
      && (RestoresFrom(files, ws, mode, faults, m, p, j) <==>
           && RestoresFrom(files, ws, mode, faults, m, p, j + 1)
           && (d in was ==> j !in faults.removeCommitted) && (j in held ==> j !in faults.putBack))
  {
    BeforeRestore(files, ws, mode, faults, m, p, j);
    BackupsTurn(files, ws, mode, j);
  }

  // ---------- where the run ends ----------

  lemma FinalIs(files: Files, ws: seq<Write>, mode: Mode, faults: Faults, now: Files)
    requires forall q :: Lookup(now, q) == FinalAt(files, ws, mode, faults, q)
    ensures now == FinalFiles(files, ws, mode, faults)
  {
    forall q ensures Lookup(now, q) == Lookup(FinalFiles(files, ws, mode, faults), q)
    {
      FinalLookup(files, ws, mode, faults, q);
    }
    MapsEqual(now, FinalFiles(files, ws, mode, faults));
  }

  lemma RefusedEnd(files: Files, ws: seq<Write>, mode: Mode, faults: Faults)
    requires StopOf(files, ws, mode, faults).Refused?
    ensures FinalFiles(files, ws, mode, faults) == files
  {
    FinalIs(files, ws, mode, faults, files);
  }

  lemma NotCreatedEnd(files: Files, ws: seq<Write>, mode: Mode, faults: Faults, k: nat)
    requires StopOf(files, ws, mode, faults) == BackupNotCreated(k) && DistinctDestinations(ws)
    ensures Aside(files, ws, mode, k) == FinalFiles(files, ws, mode, faults)
    ensures OutcomeOf(files, ws, mode, faults) == Failure(Io(CreatingBackup))
  {
    forall q ensures Lookup(Aside(files, ws, mode, k), q) == FinalAt(files, ws, mode, faults, q)
    {
      AsideLookup(files, ws, mode, k, q);
    }
    FinalIs(files, ws, mode, faults, Aside(files, ws, mode, k));
  }

  lemma MoveAsideEnd(files: Files, ws: seq<Write>, mode: Mode, faults: Faults, k: nat, restored: bool)
    requires StopOf(files, ws, mode, faults) == MoveAsideFailed(k) && DistinctDestinations(ws)
    requires restored == Restores(files, ws, mode, faults, k, 0)
    ensures TakenBack(files, ws, mode, faults, k, 0, 0) == FinalFiles(files, ws, mode, faults)
    ensures OutcomeOf(files, ws, mode, faults) == Failure(if restored then BatchRolledBack else BatchRecoveryUnknown)
  {
    forall q ensures Lookup(TakenBack(files, ws, mode, faults, k, 0, 0), q) == FinalAt(files, ws, mode, faults, q)
    {
      TakenBackLookup(files, ws, mode, faults, k, 0, 0, q);
    }
    FinalIs(files, ws, mode, faults, TakenBack(files, ws, mode, faults, k, 0, 0));
  }

  lemma PublishEnd(files: Files, ws: seq<Write>, mode: Mode, faults: Faults, p: nat, restored: bool)
    requires StopOf(files, ws, mode, faults) == PublishFailed(p) && DistinctDestinations(ws)
    requires restored == Restores(files, ws, mode, faults, |ws|, p)
    ensures TakenBack(files, ws, mode, faults, |ws|, p, 0) == FinalFiles(files, ws, mode, faults)
    ensures OutcomeOf(files, ws, mode, faults) ==
      Failure(if restored then BatchRolledBack
              else if ws[p].Public? && p in faults.setPublic then Io(Publishing) else BatchRecoveryUnknown)
  {
    forall q ensures Lookup(TakenBack(files, ws, mode, faults, |ws|, p, 0), q) == FinalAt(files, ws, mode, faults, q)
    {
      TakenBackLookup(files, ws, mode, faults, |ws|, p, 0, q);
    }
    FinalIs(files, ws, mode, faults, TakenBack(files, ws, mode, faults, |ws|, p, 0));
  }

  lemma CompletedEnd(files: Files, ws: seq<Write>, mode: Mode, faults: Faults)
    requires StopOf(files, ws, mode, faults).Completed? && Admissible(files, ws, mode)
    ensures InPlace(files, ws, mode, |ws|, |ws|) == FinalFiles(files, ws, mode, faults)
  {
    forall q ensures Lookup(InPlace(files, ws, mode, |ws|, |ws|), q) == FinalAt(files, ws, mode, faults, q)
    {
      InPlaceLookup(files, ws, mode, |ws|, |ws|, q);
      var i := PositionOf(ws, q, 0);
      if i < |ws| {
        BackupExactlyExisting(files, ws, mode, i);
      }
    }
    FinalIs(files, ws, mode, faults, InPlace(files, ws, mode, |ws|, |ws|));
  }

  class Repository {
    var files: Files
    var staged: map<nat, Bytes>
    var backups: map<nat, Bytes>

    constructor (initial: Files)
      ensures files == initial && Quiet()
    {
      files, staged, backups := initial, map[], map[];
    }

    /** No temporary file of a batch is left over. */
    ghost predicate Quiet()
      reads this
    {
      staged == map[] && backups == map[]
    }

    /** Every staged file and every backup still held is deleted when its owner goes out of scope. */
    method DropTemporaries()
      modifies this
      ensures Quiet() && files == old(files)
    {
      staged, backups := map[], map[];
    }

    // ---------- single file operations ----------

    /** rename(destination, backup) */
    method MoveAside(i: nat, destination: Path, fails: bool) returns (ok: bool)
      modifies this`files, this`backups
      ensures ok <==> !fails && destination in old(files)
      ensures ok ==> files == old(files) - {destination} && backups == old(backups)[i := old(files)[destination]]
      ensures !ok ==> files == old(files) && backups == old(backups)
    {
      ok := !fails && destination in files;
      if ok {
        backups := backups[i := files[destination]];
        files := files - {destination};
      }
    }

    /** rename(backup, destination); the backup is gone afterwards whether or not that worked. */
    method PutBack(i: nat, destination: Path, fails: bool) returns (ok: bool)
      modifies this`files, this`backups
      ensures ok <==> !fails && i in old(backups)
      ensures files == if ok then old(files)[destination := old(backups)[i]] else old(files)
      ensures backups == old(backups) - {i}
    {
      ok := !fails && i in backups;
      if ok {
        files := files[destination := backups[i]];
      }
      backups := backups - {i};
    }

    /** persist or persist_noclobber; a staged file that was not published is deleted. */
    method Persist(i: nat, destination: Path, noclobber: bool, fails: bool) returns (ok: bool)
      requires i in staged
      modifies this`files, this`staged
      ensures ok <==> !fails && (noclobber ==> destination !in old(files))
      ensures files == if ok then old(files)[destination := old(staged)[i]] else old(files)
      ensures staged == old(staged) - {i}
    {
      ok := !fails && (noclobber ==> destination !in files);
      if ok {
        files := files[destination := staged[i]];
      }
      staged := staged - {i};
    }

    method RemoveFile(destination: Path, fails: bool) returns (ok: bool)
      modifies this`files
      ensures ok <==> !fails && destination in old(files)
      ensures files == if ok then old(files) - {destination} else old(files)
    {
      ok := !fails && destination in files;
      if ok {
        files := files - {destination};
      }
    }

    // ---------- the phases of a batch ----------

    /** Checks and stages every output; no destination changes. */
    method Prepare(ws: seq<Write>, mode: Mode, faults: Faults) returns (r: Result<seq<Prepared>, Error>)
      requires Quiet()
      modifies this`staged
      ensures r.Failure? <==> PrepareError(files, ws, mode, faults, 0).Some?
      ensures r.Failure? ==> PrepareError(files, ws, mode, faults, 0) == Some(r.error)
      ensures r.Success? ==> Describes(r.value, ws, files) && staged == StagedFrom(ws, 0)
    {
      var prepared: seq<Prepared> := [];
      var destinations: set<Path> := {};
      var i := 0;
      while i < |ws|
        invariant 0 <= i <= |ws|
        invariant Describes(prepared, ws[..i], files)
        invariant destinations == Destinations(ws[..i])
        invariant staged == StagedBelow(ws, i)
        invariant PrepareError(files, ws, mode, faults, 0) == PrepareError(files, ws, mode, faults, i)
      {
        var w := ws[i];
        assert w.destination in destinations <==> Duplicate(ws, i);
        if Oversized(w) {
          return Failure(UnsafePath);
        }
        if w.destination in destinations || !Placeable(files, w, mode) {
          return Failure(DestinationState);
        }
        if i in faults.stage {
          return Failure(Staging);
        }
        if !w.Delete? {
          staged := staged[i := w.contents];
        }
        assert ws[..i + 1] == ws[..i] + [w];
        prepared := prepared + [Prepared(w, w.destination in files)];
        destinations := destinations + {w.destination};
        i := i + 1;
      }
      assert ws[..|ws|] == ws;
      AllStaged(ws);
      r := Success(prepared);
    }

    /** Moves each existing destination into a private backup beside it. */
    method BackUp(prepared: seq<Prepared>, ghost ws: seq<Write>, mode: Mode, faults: Faults) returns (k: nat, end: BackupEnd)
      requires backups == map[] && Describes(prepared, ws, files) && Admissible(files, ws, mode)
      modifies this`files, this`backups
      ensures k == BackupStop(old(files), ws, mode, faults, 0)
      ensures end == if k == |ws| then AllAside else if k in faults.createBackup then CannotCreate else CannotMove
      ensures files == Aside(old(files), ws, mode, k)
      ensures backups == BackupsBelow(old(files), ws, mode, k)
    {
      k := 0;
      while k < |prepared|
        invariant 0 <= k <= |ws|
        invariant BackupStop(old(files), ws, mode, faults, 0) == BackupStop(old(files), ws, mode, faults, k)
        invariant files == Aside(old(files), ws, mode, k)
        invariant backups == BackupsBelow(old(files), ws, mode, k)
      {
        var item := prepared[k];
        StillThere(old(files), ws, mode, k);
        if BackupWanted(item, mode) {
          if k in faults.createBackup {
            end := CannotCreate;
            return;
          }
          var ok := MoveAside(k, item.write.destination, k in faults.moveAside);
          if !ok {
            end := CannotMove;
            return;
          }
        }
        k := k + 1;
      }
      end := AllAside;
    }

    /** Publishes the staged files in order, stopping at the first that fails. */
    method Publish(prepared: seq<Prepared>, ghost before: Files, ghost ws: seq<Write>, mode: Mode, faults: Faults)
      returns (p: nat, committed: set<Path>)
      requires Describes(prepared, ws, before) && Admissible(before, ws, mode)
      requires staged == StagedFrom(ws, 0)
      requires files == InPlace(before, ws, mode, |ws|, 0)
      modifies this`files, this`staged
      ensures p == PublishStop(ws, faults, 0)
      ensures committed == CommittedPaths(ws, p)
      ensures files == InPlace(before, ws, mode, |ws|, p)
    {
      p, committed := 0, {};
      while p < |prepared|
        invariant 0 <= p <= |ws|
        invariant PublishStop(ws, faults, 0) == PublishStop(ws, faults, p)
        invariant committed == CommittedPaths(ws, p)
        invariant files == InPlace(before, ws, mode, |ws|, p)
        invariant staged == StagedFrom(ws, p)
      {
        var w := prepared[p].write;
        CommittedGrows(ws, p);
        var ok := PublishOne(w, p, before, ws, mode, faults);
        if !ok {
          return;
        }
        committed := if w.Delete? then committed else committed + {w.destination};
        p := p + 1;
      }
    }

    /** One turn of the publish loop: a deletion publishes nothing, a public file gets its mode first. */
    method PublishOne(w: Write, p: nat, ghost before: Files, ghost ws: seq<Write>, mode: Mode, faults: Faults) returns (ok: bool)
      requires p < |ws| && w == ws[p] && Admissible(before, ws, mode)
      requires files == InPlace(before, ws, mode, |ws|, p) && staged == StagedFrom(ws, p)
      modifies this`files, this`staged
      ensures if ok then PublishStop(ws, faults, p) == PublishStop(ws, faults, p + 1) else PublishStop(ws, faults, p) == p
      ensures files == InPlace(before, ws, mode, |ws|, if ok then p + 1 else p)
      ensures ok ==> staged == StagedFrom(ws, p + 1)
    {
      if w.Delete? {
        return true;
      }
      if w.Public? && p in faults.setPublic {
        return false;
      }
      FreeToPublish(before, ws, mode, p);
      ok := Persist(p, w.destination, Canonical(w) && mode == Create, p in faults.persist);
    }

    /** One turn of the restore loop: remove what was published, then rename the backup over it. */
    method RestoreOne(j: nat, destination: Path, published: bool, removeFails: bool, backFails: bool) returns (ok: bool)
      requires published <==> destination in files
      modifies this`files, this`backups
      ensures files == Put(old(files), destination,
        if j in old(backups) && !backFails then Some(old(backups)[j])
        else if removeFails then Lookup(old(files), destination) else None)
      ensures ok <==> (published ==> !removeFails) && (j in old(backups) ==> !backFails)
      ensures backups == old(backups) - {j}
    {
      ok := true;
      if published {
        ok := RemoveFile(destination, removeFails);
      }
      if j in backups {
        var back := PutBack(j, destination, backFails);
        ok := ok && back;
      }
    }

    /** restore_batch / restore_combined: walk back over the first `m` positions, never stopping
        early, and report whether every operation worked. */
    method Restore(prepared: seq<Prepared>, m: nat, committed: set<Path>,
                   ghost before: Files, ghost ws: seq<Write>, mode: Mode, faults: Faults, ghost p: nat)
      returns (restored: bool)
      requires Describes(prepared, ws, before) && Admissible(before, ws, mode)
      requires p <= m <= |ws|
      requires files == InPlace(before, ws, mode, m, p)
      requires backups == BackupsBelow(before, ws, mode, m)
      requires committed == CommittedPaths(ws, p)
      modifies this`files, this`backups
      ensures files == TakenBack(before, ws, mode, faults, m, p, 0)
      ensures restored <==> Restores(before, ws, mode, faults, m, p)
    {
      restored := true;
      var j := m;
      while j > 0
        invariant 0 <= j <= m
        invariant files == TakenBack(before, ws, mode, faults, m, p, j)
        invariant backups == BackupsBelow(before, ws, mode, j)
        invariant restored <==> RestoresFrom(before, ws, mode, faults, m, p, j)
      {
        j := j - 1;
        RestoreTurn(before, ws, mode, faults, m, p, j);
        var destination := prepared[j].write.destination;
        var ok := RestoreOne(j, destination, destination in committed, j in faults.removeCommitted, j in faults.putBack);
        restored := restored && ok;
      }
    }

    /** A rename into a backup failed: everything moved so far is put back. */
    method UndoMoves(prepared: seq<Prepared>, ghost before: Files, ghost ws: seq<Write>, mode: Mode, faults: Faults, k: nat) returns (r: Outcome)
      requires Describes(prepared, ws, before) && Admissible(before, ws, mode)
      requires k < |ws| && StopOf(before, ws, mode, faults) == MoveAsideFailed(k)
      requires files == Aside(before, ws, mode, k) && backups == BackupsBelow(before, ws, mode, k)
      modifies this`files, this`backups
      ensures r == OutcomeOf(before, ws, mode, faults) && files == FinalFiles(before, ws, mode, faults)
    {
      var restored := Restore(prepared, k, {}, before, ws, mode, faults, 0);
      r := Failure(if restored then BatchRolledBack else BatchRecoveryUnknown);
      MoveAsideEnd(before, ws, mode, faults, k, restored);
    }

    /** A file could not be published: what was is taken back and every original put back. */
    method UndoPublications(prepared: seq<Prepared>, committed: set<Path>, ghost before: Files, ghost ws: seq<Write>, mode: Mode, faults: Faults, p: nat) returns (r: Outcome)
      requires Describes(prepared, ws, before) && Admissible(before, ws, mode)
      requires p < |ws| && StopOf(before, ws, mode, faults) == PublishFailed(p) && committed == CommittedPaths(ws, p)
      requires files == InPlace(before, ws, mode, |ws|, p) && backups == BackupsBelow(before, ws, mode, |ws|)
      modifies this`files, this`backups
      ensures r == OutcomeOf(before, ws, mode, faults) && files == FinalFiles(before, ws, mode, faults)
    {
      var restored := Restore(prepared, |prepared|, committed, before, ws, mode, faults, p);
      var chmod := prepared[p].write.Public? && p in faults.setPublic;
      r := Failure(if restored then BatchRolledBack else if chmod then Io(Publishing) else BatchRecoveryUnknown);
      PublishEnd(before, ws, mode, faults, p, restored);
    }

    /** Every original is aside: the publish loop and what follows it. */
    method PublishOrUndo(prepared: seq<Prepared>, ghost before: Files, ghost ws: seq<Write>, mode: Mode, faults: Faults) returns (r: Outcome)
      requires Describes(prepared, ws, before) && Admissible(before, ws, mode) && staged == StagedFrom(ws, 0)
      requires files == Aside(before, ws, mode, |ws|) && backups == BackupsBelow(before, ws, mode, |ws|)
      requires var p := PublishStop(ws, faults, 0); StopOf(before, ws, mode, faults) == if p < |ws| then PublishFailed(p) else Completed
      modifies this
      ensures r == OutcomeOf(before, ws, mode, faults) && files == FinalFiles(before, ws, mode, faults)
    {
      var p, committed := Publish(prepared, before, ws, mode, faults);
      if p < |prepared| {
        r := UndoPublications(prepared, committed, before, ws, mode, faults, p);
      } else {
        r := if faults.sync then Failure(DurabilityUnknown) else Success(());
        CompletedEnd(before, ws, mode, faults);
      }
    }

    /** From the backup loop to the return, every temporary file being deleted on the way out. */
    method Commit(prepared: seq<Prepared>, ghost ws: seq<Write>, mode: Mode, faults: Faults) returns (r: Outcome)
      requires 0 < |ws| <= MAX_BATCH && Describes(prepared, ws, files)
      requires staged == StagedFrom(ws, 0) && backups == map[]
      requires PrepareError(files, ws, mode, faults, 0).None? && !RecheckFails(files, ws, faults)
      modifies this
      ensures r == OutcomeOf(old(files), ws, mode, faults)
      ensures files == FinalFiles(old(files), ws, mode, faults)
      ensures Quiet()
    {
      ghost var before := files;
      PastPreparation(files, ws, mode, faults);
      var k, end := BackUp(prepared, ws, mode, faults);
      if end == CannotCreate {
        r := Failure(Io(CreatingBackup));
        NotCreatedEnd(before, ws, mode, faults, k);
      } else if end == CannotMove {
        r := UndoMoves(prepared, before, ws, mode, faults, k);
      } else {
        r := PublishOrUndo(prepared, before, ws, mode, faults);
      }
      DropTemporaries();
    }

    /** write_secret_public_private_batch over the requested outputs in order. */
    method WriteBatch(ws: seq<Write>, mode: Mode, faults: Faults) returns (r: Outcome)
      requires Quiet()
      modifies this
      ensures Quiet()
      ensures r == OutcomeOf(old(files), ws, mode, faults)
      ensures files == FinalFiles(old(files), ws, mode, faults)
    {
      if ws == [] || |ws| > MAX_BATCH {
        RefusedEnd(files, ws, mode, faults);
        return Failure(UnsafePath);
      }
      var prepared := Prepare(ws, mode, faults);
      if prepared.Failure? {
        DropTemporaries();
        RefusedEnd(files, ws, mode, faults);
        return Failure(prepared.error);
      }
      if exists i | 0 <= i < |prepared.value| :: prepared.value[i].existed && i in faults.recheck {
        DropTemporaries();
        RefusedEnd(files, ws, mode, faults);
        return Failure(Io(Rechecking));
      }
      r := Commit(prepared.value, ws, mode, faults);
    }

    // ---------- side-by-side rekeying ----------

    method CheckSources(requests: seq<RekeyRequest>) returns (r: Result<set<Path>, Error>)
      ensures r.Success? <==> SourcesUsable(files, requests)
      ensures r.Success? ==> r.value == Sources(requests)
    {
      var sources: set<Path> := {};
      for i := 0 to |requests|
        invariant sources == Sources(requests[..i])
        invariant SourcesUsable(files, requests[..i])
      {
        var source := requests[i].source;
        assert requests[..i + 1] == requests[..i] + [requests[i]];
        if source !in files {
          return Failure(Staging);
        }
        if source in sources {
          return Failure(DestinationState);
        }
        sources := sources + {source};
      }
      assert requests[..|requests|] == requests;
      r := Success(sources);
    }

    /** rekey_secret_batch_inner. Sources are checked and read first, then the destinations go
        through the same transaction. `sourceChanged` says that some source no longer had its
        recorded metadata just before the commit. */
    method RekeyBatch(requests: seq<RekeyRequest>, mode: Mode, faults: Faults, sourceChanged: bool) returns (r: Outcome)
      requires Quiet()
      modifies this
      ensures Quiet()
      ensures forall i | 0 <= i < |requests| :: Lookup(files, requests[i].source) == Lookup(old(files), requests[i].source)
      ensures RekeyAdmitted(old(files), requests) && !sourceChanged ==>
        && r == OutcomeOf(old(files), WritesOf(requests), mode, faults)
        && files == FinalFiles(old(files), WritesOf(requests), mode, faults)
      ensures !(RekeyAdmitted(old(files), requests) && !sourceChanged) ==> r.Failure? && files == old(files)
    {
      var ws := WritesOf(requests);
      if ws == [] || |ws| > MAX_BATCH {
        RefusedEnd(files, ws, mode, faults);
        return Failure(UnsafePath);
      }
      var usable := CheckSources(requests);
      if usable.Failure? {
        return Failure(usable.error);
      }
      var prepared := Prepare(ws, mode, faults);
      if prepared.Failure? {
        DropTemporaries();
        RefusedEnd(files, ws, mode, faults);
        return Failure(prepared.error);
      }
      if usable.value * Destinations(ws) != {} || sourceChanged {
        DropTemporaries();
        return Failure(if sourceChanged then Io(Rechecking) else UnsafePath);
      }
      if exists i | 0 <= i < |prepared.value| :: prepared.value[i].existed && i in faults.recheck {
        DropTemporaries();
        RefusedEnd(files, ws, mode, faults);
        return Failure(Io(Rechecking));
      }
      SourcesKept(files, requests, mode, faults);
      r := Commit(prepared.value, ws, mode, faults);
    }
  }

  function WritesOf(requests: seq<RekeyRequest>): (ws: seq<Write>)
    ensures |ws| == |requests|
    ensures forall i | 0 <= i < |ws| :: ws[i] == Secret(requests[i].destination, requests[i].rekeyed)
  {
    seq(|requests|, i requires 0 <= i < |requests| => Secret(requests[i].destination, requests[i].rekeyed))
  }

  function Sources(requests: seq<RekeyRequest>): (r: set<Path>)
  {
    set i | 0 <= i < |requests| :: requests[i].source
  }

  predicate SourcesUsable(files: Files, requests: seq<RekeyRequest>)
  {
    && (forall i | 0 <= i < |requests| :: requests[i].source in files)
    && (forall i, j | 0 <= i < j < |requests| :: requests[i].source != requests[j].source)
  }

  /** Every source is an existing file of its own, and none of them is also a destination. */
  predicate RekeyAdmitted(files: Files, requests: seq<RekeyRequest>)
  {
    && SourcesUsable(files, requests)
    && Sources(requests) * Destinations(WritesOf(requests)) == {}
  }

  lemma RekeyAdmittedIff(files: Files, requests: seq<RekeyRequest>)
    ensures RekeyAdmitted(files, requests) <==>
      && (forall i | 0 <= i < |requests| :: requests[i].source in files)
      && (forall i, j | 0 <= i < j < |requests| :: requests[i].source != requests[j].source)
      && (forall i, j | 0 <= i < |requests| && 0 <= j < |requests| :: requests[i].source != requests[j].destination)
  {
    var ws := WritesOf(requests);
    if RekeyAdmitted(files, requests) {
      forall i, j | 0 <= i < |requests| && 0 <= j < |requests| ensures requests[i].source != requests[j].destination
      {
        assert ws[j].destination in Destinations(ws);
        assert requests[i].source in Sources(requests);
        assert requests[i].source !in Sources(requests) * Destinations(ws);
      }
    }
  }

  lemma SourcesKept(files: Files, requests: seq<RekeyRequest>, mode: Mode, faults: Faults)
    requires RekeyAdmitted(files, requests)
    ensures forall i | 0 <= i < |requests| ::
      Lookup(FinalFiles(files, WritesOf(requests), mode, faults), requests[i].source) == Lookup(files, requests[i].source)
  {
    forall i | 0 <= i < |requests|
      ensures Lookup(FinalFiles(files, WritesOf(requests), mode, faults), requests[i].source) == Lookup(files, requests[i].source)
    {
      var ws, q := WritesOf(requests), requests[i].source;
      assert q !in Destinations(ws) by {
        assert q in Sources(requests);
        assert q in Destinations(ws) ==> q in Sources(requests) * Destinations(ws);
      }
      FinalLookup(files, ws, mode, faults, q);
      assert PositionOf(ws, q, 0) == |ws|;
    }
  }
}
