/** What the generator loop promises: it settles, it never rotates an existing output by itself,
    and which broken output sets it can and cannot leave behind or repair. */
module GeneratorTheorems {
  import opened Prelude
  import opened Authoring
  import opened AuthoringTheorems
  import opened Generators

  /** The turn reaches the transaction, and the transaction carries the batch out. */
  ghost predicate Writes(codec: Codec, files: Files, g: Generator, replace: bool, values: Values, faults: Faults)
  {
    var a := Decide(codec, files, g, replace);
    && a.Success? && a.value != Unchanged && Fits(g, values)
    && StopOf(files, Batch(codec, g, values), ModeOf(a.value), faults).Completed?
  }

  /** Every output's file holds the bytes produced for it, in declaration order. */
  ghost predicate Received(files: Files, outputs: seq<Output>, contents: seq<Bytes>)
  {
    && |contents| == |outputs|
    && forall i | 0 <= i < |outputs| :: Lookup(files, outputs[i].path) == Some(contents[i])
  }

  ghost predicate AllReceived(files: Files, g: Generator, values: Values)
  {
    Received(files, g.outputs, values.secrets) && Received(files, g.publicOutputs, values.publics)
  }

  /** A turn that writes gives every secret its own ciphertext and every public output its own bytes. */
  lemma EachOutputGetsItsOwn(codec: Codec, files: Files, g: Generator, replace: bool, values: Values, faults: Faults)
    requires Writes(codec, files, g, replace, values, faults)
    ensures AllReceived(StepFiles(codec, files, g, replace, values, faults), g, values)
  {
    var ws := Batch(codec, g, values);
    var mode := ModeOf(Decide(codec, files, g, replace).value);
    CompletionIsTotal(files, ws, mode, faults);
    var after := StepFiles(codec, files, g, replace, values, faults);
    forall i | 0 <= i < |g.outputs| ensures Lookup(after, g.outputs[i].path) == Some(values.secrets[i])
    {
      assert ws[i] == Secret(g.outputs[i].path, values.secrets[i]);
    }
    forall i | 0 <= i < |g.publicOutputs| ensures Lookup(after, g.publicOutputs[i].path) == Some(values.publics[i])
    {
      assert ws[|g.outputs| + i] == Public(g.publicOutputs[i].path, values.publics[i]);
    }
  }

  /** A turn writes only if each public output can be made public and is at most 64 MiB; neither is asked of
      a secret. */
  lemma PublicOutputsArePublic(codec: Codec, files: Files, g: Generator, replace: bool, values: Values, faults: Faults, i: nat)
    requires Writes(codec, files, g, replace, values, faults) && i < |g.publicOutputs|
    ensures |g.outputs| + i !in faults.setPublic && |values.publics[i]| <= 67_108_864
  {
    var ws := Batch(codec, g, values);
    var mode := ModeOf(Decide(codec, files, g, replace).value);
    CompletesIff(files, ws, mode, faults);
    assert ws[|g.outputs| + i] == Public(g.publicOutputs[i].path, values.publics[i]);
    assert Unhindered(files, ws[|g.outputs| + i], mode, faults, |g.outputs| + i);
  }

  lemma SecretsAreUnbounded(codec: Codec, g: Generator, values: Values, i: nat)
    requires Fits(g, values) && i < |g.outputs|
    ensures Batch(codec, g, values)[i] == Secret(g.outputs[i].path, values.secrets[i])
    ensures !Oversized(Batch(codec, g, values)[i])
  {
  }

  /** After a batch was carried out every output and the state file are in place. */
  lemma WrittenFiles(codec: Codec, files: Files, g: Generator, replace: bool, values: Values, faults: Faults)
    requires Writes(codec, files, g, replace, values, faults)
    ensures var after := StepFiles(codec, files, g, replace, values, faults);
      && (forall i | 0 <= i < |Outputs(g)| :: Outputs(g)[i].path in after)
      && Lookup(after, StatePath(g.id)) == if g.validation.Some? then Some(codec.serialize(CurrentState(g))) else None
  {
    var ws := Batch(codec, g, values);
    var mode := ModeOf(Decide(codec, files, g, replace).value);
    CompletionIsTotal(files, ws, mode, faults);
    var after := StepFiles(codec, files, g, replace, values, faults);
    forall i | 0 <= i < |Outputs(g)| ensures Outputs(g)[i].path in after
    {
      assert Lookup(after, ws[i].destination) == Requested(ws[i]);
    }
    assert Lookup(after, ws[|Outputs(g)|].destination) == Requested(ws[|Outputs(g)|]);
  }

  lemma AllPresent(files: Files, g: Generator)
    requires forall i | 0 <= i < |Outputs(g)| :: Outputs(g)[i].path in files
    ensures PresentCount(files, g.outputs) == |g.outputs| && PresentCount(files, g.publicOutputs) == |g.publicOutputs|
  {
    forall i | 0 <= i < |g.outputs| ensures g.outputs[i].path in files
    {
      assert Outputs(g)[i] == g.outputs[i];
    }
    forall i | 0 <= i < |g.publicOutputs| ensures g.publicOutputs[i].path in files
    {
      assert Outputs(g)[|g.outputs| + i] == g.publicOutputs[i];
    }
  }

  /** After a write, a generator with a validation value is left alone exactly when its recorded
      state fits the 64 KiB the reader accepts; otherwise it is refused from then on. */
  lemma ConvergesIff(codec: Codec, files: Files, g: Generator, replace: bool, values: Values, faults: Faults)
    requires RoundTrips(codec) && g.validation.Some?
    requires Writes(codec, files, g, replace, values, faults)
    ensures Decide(codec, StepFiles(codec, files, g, replace, values, faults), g, false) ==
      if |codec.serialize(CurrentState(g))| <= STATE_LIMIT then Success(Unchanged) else Failure(BadState)
  {
    WrittenFiles(codec, files, g, replace, values, faults);
    DecideOnRecorded(codec, StepFiles(codec, files, g, replace, values, faults), g);
  }

  lemma DecideOnRecorded(codec: Codec, files: Files, g: Generator)
    requires RoundTrips(codec) && g.validation.Some?
    requires forall i | 0 <= i < |Outputs(g)| :: Outputs(g)[i].path in files
    requires Lookup(files, StatePath(g.id)) == Some(codec.serialize(CurrentState(g)))
    ensures Decide(codec, files, g, false) ==
      if |codec.serialize(CurrentState(g))| <= STATE_LIMIT then Success(Unchanged) else Failure(BadState)
  {
    AllPresent(files, g);
    assert codec.parse(codec.serialize(CurrentState(g))) == Some(CurrentState(g));
  }

  function IdLength(ids: seq<Id>): (n: nat)
  {
    if ids == [] then 0 else |ids[0]| + IdLength(ids[1..])
  }

  /** A serialised state names every output. */
  ghost predicate NamesOutputs(codec: Codec)
  {
    forall s: State :: IdLength(s.outputs) + IdLength(s.publicOutputs) <= |codec.serialize(s)|
  }

  /** A generator whose output names alone exceed the reader's limit can be run once: nothing fails,
      everything is written, and from then on it is refused. */
  lemma LargeStateIsRefused(codec: Codec, files: Files, g: Generator, values: Values)
    requires RoundTrips(codec) && NamesOutputs(codec) && g.validation.Some?
    requires IdLength(Ids(g.outputs)) + IdLength(Ids(g.publicOutputs)) > STATE_LIMIT
    requires Fits(g, values) && |Outputs(g)| < MAX_BATCH
    requires Admissible(files, Batch(codec, g, values), Create) && StatePath(g.id) !in files
    ensures StepResult(codec, files, g, false, values, NO_FAULTS) == Success(CreateOutputs)
    ensures Decide(codec, StepFiles(codec, files, g, false, values, NO_FAULTS), g, false) == Failure(BadState)
  {
    var ws := Batch(codec, g, values);
    forall i | 0 <= i < |Outputs(g)| ensures Outputs(g)[i].path !in files
    {
      assert Placeable(files, ws[i], Create);
    }
    NonePresent(files, g);
    AdmissibleIsStaged(files, ws, Create, NO_FAULTS);
    assert OutcomeOf(files, ws, Create, NO_FAULTS) == Success(());
    ConvergesIff(codec, files, g, false, values, NO_FAULTS);
    assert CurrentState(g) == State(g.id, g.validation.value, Ids(g.outputs), Ids(g.publicOutputs));
  }

  lemma NonePresent(files: Files, g: Generator)
    requires forall i | 0 <= i < |Outputs(g)| :: Outputs(g)[i].path !in files
    ensures PresentCount(files, g.outputs) == 0 && PresentCount(files, g.publicOutputs) == 0
  {
    forall i | 0 <= i < |g.outputs| ensures g.outputs[i].path !in files
    {
      assert Outputs(g)[i] == g.outputs[i];
    }
    forall i | 0 <= i < |g.publicOutputs| ensures g.publicOutputs[i].path !in files
    {
      assert Outputs(g)[|g.outputs| + i] == g.publicOutputs[i];
    }
  }

  /** One output with a name of 65537 characters. */
  function WideGenerator(): (g: Generator)
  {
    Generator("wide", [Output(seq(STATE_LIMIT + 1, _ => 'a'), "secret")], [], Some("v1"))
  }

  /** Such generators exist: in an empty repository this one writes its output and is then refused,
      under every codec that names outputs and does not blow the state up past what may be written. */
  lemma WideGeneratorIsRefused(codec: Codec, ciphertext: Bytes)
    requires RoundTrips(codec) && NamesOutputs(codec) && |codec.serialize(CurrentState(WideGenerator()))| <= MAX_PAYLOAD
    ensures var values := Values([ciphertext], []);
      && StepResult(codec, map[], WideGenerator(), false, values, NO_FAULTS) == Success(CreateOutputs)
      && Decide(codec, StepFiles(codec, map[], WideGenerator(), false, values, NO_FAULTS), WideGenerator(), false) == Failure(BadState)
  {
    var g, values := WideGenerator(), Values([ciphertext], []);
    var ws := Batch(codec, g, values);
    assert ws[0].destination == "secret" && ws[1].destination == StatePath("wide");
    assert |ws[0].destination| == 6 && |ws[1].destination| > 6;
    assert Ids(g.outputs) == [g.outputs[0].id] && IdLength(Ids(g.outputs)) == |g.outputs[0].id| + IdLength(Ids(g.outputs)[1..]);
    LargeStateIsRefused(codec, map[], g, values);
  }

  /** With the state file, a generator of as many outputs as a batch may have writes makes one too many:
      every attempt is refused, in either mode, with any values and whatever fails, and changes nothing. */
  lemma CrowdedGeneratorIsRefused(codec: Codec, files: Files, g: Generator, replace: bool, values: Values, faults: Faults)
    requires |Outputs(g)| >= MAX_BATCH
    ensures StepFiles(codec, files, g, replace, values, faults) == files
    ensures var d := Decide(codec, files, g, replace);
      StepResult(codec, files, g, replace, values, faults) ==
        if d.Failure? || d.value == Unchanged then d
        else if !Fits(g, values) then Failure(OutputCount)
        else Failure(Authoring(UnsafePath))
  {
    if Fits(g, values) && Decide(codec, files, g, replace).Success? && Decide(codec, files, g, replace).value != Unchanged {
      ExitClassification(files, Batch(codec, g, values), ModeOf(Decide(codec, files, g, replace).value), faults);
    }
  }

  /** Plan validation accepts up to ten thousand outputs, so this one's too. */
  function CrowdedGenerator(): (g: Generator)
  {
    Generator("crowded", seq(MAX_BATCH, i requires 0 <= i < MAX_BATCH => Output(Decimal(i), "secret/" + Decimal(i))), [], Some("v1"))
  }

  lemma NothingDecidesToCreate(codec: Codec, g: Generator, replace: bool)
    ensures Decide(codec, map[], g, replace) == Success(if replace then ReplaceOutputs else CreateOutputs)
  {
    NonePresent(map[], g);
  }

  /** It has all its outputs to create in an empty repository, and never creates one. */
  lemma CrowdedGeneratorCreatesNothing(codec: Codec, replace: bool, values: Values, faults: Faults)
    requires Fits(CrowdedGenerator(), values)
    ensures StepFiles(codec, map[], CrowdedGenerator(), replace, values, faults) == map[]
    ensures StepResult(codec, map[], CrowdedGenerator(), replace, values, faults) == Failure(Authoring(UnsafePath))
  {
    CrowdedGeneratorIsRefused(codec, map[], CrowdedGenerator(), replace, values, faults);
    NothingDecidesToCreate(codec, CrowdedGenerator(), replace);
  }

  /** A turn that failed in an all-or-nothing way changes no later decision of any generator. */
  lemma FailedTurnForgets(codec: Codec, files: Files, g: Generator, replace: bool, values: Values, faults: Faults, other: Generator, again: bool)
    requires StepResult(codec, files, g, replace, values, faults).Failure?
    requires var e := StepResult(codec, files, g, replace, values, faults).error;
      e.Authoring? ==> !MayBeMixed(Failure(e.error)) && e.error != DurabilityUnknown
    ensures StepFiles(codec, files, g, replace, values, faults) == files
    ensures Decide(codec, StepFiles(codec, files, g, replace, values, faults), other, again) == Decide(codec, files, other, again)
  {
    var a := Decide(codec, files, g, replace);
    if a.Success? && a.value != Unchanged && Fits(g, values) {
      ExitClassification(files, Batch(codec, g, values), ModeOf(a.value), faults);
    }
  }

  // ---------- what is decided ----------

  ghost predicate AllOutputsPresent(files: Files, g: Generator)
  {
    forall i | 0 <= i < |Outputs(g)| :: Outputs(g)[i].path in files
  }

  ghost predicate NoOutputPresent(files: Files, g: Generator)
  {
    forall i | 0 <= i < |Outputs(g)| :: Outputs(g)[i].path !in files
  }

  /** A state file is read as the state it holds if it is small enough, parses and is the generator's own;
      a missing one is no state, and any other one is refused. */
  lemma ReadStateMeans(codec: Codec, files: Files, id: Id)
    ensures ReadState(codec, files, id) == Success(None) <==> StatePath(id) !in files
    ensures forall s :: ReadState(codec, files, id) == Success(Some(s)) <==>
      && StatePath(id) in files && |files[StatePath(id)]| <= 65_536
      && codec.parse(files[StatePath(id)]) == Some(s) && s.generatorId == id
    ensures ReadState(codec, files, id) in {Success(None), Failure(BadState)} || ReadState(codec, files, id).value.Some?
  {
  }

  lemma StatePathsDiffer(a: Id, b: Id)
    requires StatePath(a) == StatePath(b)
    ensures a == b
  {
    var n := |".nix-seal/generator-state/v1/"|;
    assert |StatePath(a)| == n + |a| + |"/state.json"| && |StatePath(b)| == n + |b| + |"/state.json"|;
    assert a == StatePath(a)[n..n + |a|] && b == StatePath(b)[n..n + |b|];
  }

  /** Without --replace: a mixture of present and missing outputs is refused; without a validation value
      the outputs are created; otherwise the recorded state decides. Outputs that are all there are
      replaced exactly when they were recorded for another declaration. */
  lemma DecisionIsExact(codec: Codec, files: Files, g: Generator)
    ensures Partial(files, g) ==> Decide(codec, files, g, false) == Failure(PartialOutputs)
    ensures !Partial(files, g) && g.validation.None? ==> Decide(codec, files, g, false) == Success(CreateOutputs)
    ensures !Partial(files, g) && g.validation.Some? ==>
      var d, read := Decide(codec, files, g, false), ReadState(codec, files, g.id);
      && (read.Failure? ==> d == Failure(read.error))
      && (read == Success(None) ==>
            d == if NoOutputPresent(files, g) then Success(CreateOutputs) else Failure(NoBaseline))
      && (read.Success? && read.value.Some? ==>
            d == if !AllOutputsPresent(files, g) then Success(CreateOutputs)
                 else if read.value.value == CurrentState(g) then Success(Unchanged)
                 else Success(ReplaceOutputs))
    ensures Decide(codec, files, g, true) == Success(ReplaceOutputs)
  {
    PresentMeansAll(files, g);
  }

  // ---------- no silent rotation ----------

  /** A batch one of whose canonical outputs is misplaced for the mode is refused untouched. */
  lemma MisplacedOutputRefuses(codec: Codec, files: Files, g: Generator, values: Values, mode: Mode, faults: Faults, i: nat)
    requires Fits(g, values) && i < |Outputs(g)|
    requires Outputs(g)[i].path in files <==> mode == Create
    ensures FinalFiles(files, Batch(codec, g, values), mode, faults) == files
    ensures OutcomeOf(files, Batch(codec, g, values), mode, faults) in
      {Failure(DestinationState), Failure(Staging), Failure(UnsafePath)}
  {
    var ws := Batch(codec, g, values);
    PrepareErrorFree(files, ws, mode, faults, 0);
    RefusalsAreNotRollbacks(files, ws, mode, faults, 0);
    assert !Placeable(files, ws[i], mode);
    ExitClassification(files, ws, mode, faults);
  }

  /** Without --replace, an existing output changes only if every output exists and the recorded
      state differs from the declared one, whatever fails on the way. */
  lemma NoSilentRotation(codec: Codec, files: Files, g: Generator, values: Values, faults: Faults, i: nat)
    requires i < |Outputs(g)| && Outputs(g)[i].path in files
    requires Lookup(StepFiles(codec, files, g, false, values, faults), Outputs(g)[i].path) != Lookup(files, Outputs(g)[i].path)
    ensures AllOutputsPresent(files, g) && g.validation.Some?
    ensures ReadState(codec, files, g.id).Success? && ReadState(codec, files, g.id).value.Some?
    ensures ReadState(codec, files, g.id).value.value != CurrentState(g)
  {
    var a := Decide(codec, files, g, false);
    if a.value == CreateOutputs {
      MisplacedOutputRefuses(codec, files, g, values, Create, faults, i);
      assert false;
    }
    PresentMeansAll(files, g);
  }

  lemma PresentMeansAll(files: Files, g: Generator)
    ensures PresentCount(files, g.outputs) + PresentCount(files, g.publicOutputs) == |Outputs(g)| <==> AllOutputsPresent(files, g)
    ensures PresentCount(files, g.outputs) + PresentCount(files, g.publicOutputs) == 0 <==>
      forall i | 0 <= i < |Outputs(g)| :: Outputs(g)[i].path !in files
  {
    if AllOutputsPresent(files, g) {
      AllPresent(files, g);
    }
    if forall i | 0 <= i < |Outputs(g)| :: Outputs(g)[i].path !in files {
      forall i | 0 <= i < |g.outputs| ensures g.outputs[i].path !in files
      {
        assert Outputs(g)[i] == g.outputs[i];
      }
      forall i | 0 <= i < |g.publicOutputs| ensures g.publicOutputs[i].path !in files
      {
        assert Outputs(g)[|g.outputs| + i] == g.publicOutputs[i];
      }
    }
  }

  // ---------- partial output sets ----------

  ghost predicate Partial(files: Files, g: Generator)
  {
    && (exists i | 0 <= i < |Outputs(g)| :: Outputs(g)[i].path in files)
    && (exists i | 0 <= i < |Outputs(g)| :: Outputs(g)[i].path !in files)
  }

  lemma PartialIsReported(codec: Codec, files: Files, g: Generator)
    requires Partial(files, g)
    ensures Decide(codec, files, g, false) == Failure(PartialOutputs)
  {
    PresentMeansAll(files, g);
  }

  /** A partial output set stays as it is, with or without --replace. */
  lemma PartialSetIsStuck(codec: Codec, files: Files, g: Generator, replace: bool, values: Values, faults: Faults)
    requires Partial(files, g)
    ensures StepResult(codec, files, g, replace, values, faults).Failure?
    ensures StepFiles(codec, files, g, replace, values, faults) == files
  {
    if !replace {
      PartialIsReported(codec, files, g);
    } else if Fits(g, values) {
      var i :| 0 <= i < |Outputs(g)| && Outputs(g)[i].path !in files;
      MisplacedOutputRefuses(codec, files, g, values, Replace, faults, i);
    }
  }

  /** One attempt at running a generator. */
  datatype Attempt = Attempt(replace: bool, values: Values, faults: Faults)

  function AttemptAll(codec: Codec, files: Files, g: Generator, attempts: seq<Attempt>): (r: Files)
    decreases |attempts|
  {
    if attempts == [] then files
    else
      var t := attempts[0];
      AttemptAll(codec, StepFiles(codec, files, g, t.replace, t.values, t.faults), g, attempts[1..])
  }

  /** No sequence of attempts, of either kind, ever repairs a partial output set. */
  lemma {:induction false} PartialSetIsNeverRepaired(codec: Codec, files: Files, g: Generator, attempts: seq<Attempt>)
    requires Partial(files, g)
    ensures AttemptAll(codec, files, g, attempts) == files
    decreases |attempts|
  {
    if attempts != [] {
      var t := attempts[0];
      PartialSetIsStuck(codec, files, g, t.replace, t.values, t.faults);
      PartialSetIsNeverRepaired(codec, files, g, attempts[1..]);
    }
  }

  predicate SomeOversized(ws: seq<Write>)
  {
    exists i | 0 <= i < |ws| :: Oversized(ws[i])
  }

  lemma ReplaceNeeds(codec: Codec, files: Files, g: Generator, values: Values)
    requires Fits(g, values) && StepResult(codec, files, g, true, values, NO_FAULTS).Success?
    ensures |Outputs(g)| < MAX_BATCH && AllOutputsPresent(files, g) && DistinctDestinations(Batch(codec, g, values))
    ensures !SomeOversized(Batch(codec, g, values))
  {
    var ws := Batch(codec, g, values);
    PastPreparation(files, ws, Replace, NO_FAULTS);
    forall i | 0 <= i < |Outputs(g)| ensures Outputs(g)[i].path in files
    {
      assert Placeable(files, ws[i], Replace);
    }
  }

  lemma ReplaceWorks(codec: Codec, files: Files, g: Generator, values: Values)
    requires Fits(g, values) && |Outputs(g)| < MAX_BATCH && AllOutputsPresent(files, g) && DistinctDestinations(Batch(codec, g, values))
    requires !SomeOversized(Batch(codec, g, values))
    ensures StepResult(codec, files, g, true, values, NO_FAULTS).Success?
  {
    var ws := Batch(codec, g, values);
    forall j | 0 <= j < |ws| ensures Placeable(files, ws[j], Replace) && !Oversized(ws[j])
    {
      if j < |Outputs(g)| {
        assert Outputs(g)[j].path in files;
      }
    }
    AdmissibleIsStaged(files, ws, Replace, NO_FAULTS);
    assert OutcomeOf(files, ws, Replace, NO_FAULTS) == Success(());
  }

  /** Given that nothing fails, --replace succeeds exactly when there are few enough outputs, all of them
      exist, no two files coincide and none is too large. */
  lemma ReplaceWorksIff(codec: Codec, files: Files, g: Generator, values: Values)
    requires Fits(g, values)
    ensures StepResult(codec, files, g, true, values, NO_FAULTS).Success? <==>
      && |Outputs(g)| < MAX_BATCH && AllOutputsPresent(files, g) && DistinctDestinations(Batch(codec, g, values))
      && !SomeOversized(Batch(codec, g, values))
  {
    if StepResult(codec, files, g, true, values, NO_FAULTS).Success? {
      ReplaceNeeds(codec, files, g, values);
    } else if |Outputs(g)| < MAX_BATCH && AllOutputsPresent(files, g) && DistinctDestinations(Batch(codec, g, values))
      && !SomeOversized(Batch(codec, g, values)) {
      ReplaceWorks(codec, files, g, values);
    }
  }

  /** The backup-creation exit at a position strictly between the first and last output leaves a
      partial set, so the generator can never be run again: the two defects compound. */
  lemma LostBackupWedgesGenerator(codec: Codec, files: Files, g: Generator, replace: bool, values: Values, faults: Faults, attempts: seq<Attempt>)
    requires Decide(codec, files, g, replace) == Success(ReplaceOutputs) && Fits(g, values)
    requires StopOf(files, Batch(codec, g, values), Replace, faults).BackupNotCreated?
    requires 0 < StopOf(files, Batch(codec, g, values), Replace, faults).position < |Outputs(g)|
    ensures var after := StepFiles(codec, files, g, replace, values, faults);
      Partial(after, g) && AttemptAll(codec, after, g, attempts) == after
  {
    var ws := Batch(codec, g, values);
    var k := StopOf(files, ws, Replace, faults).position;
    var after := StepFiles(codec, files, g, replace, values, faults);
    BackupCreationExit(files, ws, Replace, faults);
    MovedOnMeansAdmissible(files, ws, Replace, faults);
    assert ws[..k][0].destination in Destinations(ws[..k]);
    assert Outputs(g)[0].path !in after;
    assert Placeable(files, ws[k], Replace);
    assert Outputs(g)[k].path in after by {
      assert forall j | 0 <= j < k :: ws[..k][j].destination != ws[k].destination;
    }
    PartialSetIsNeverRepaired(codec, after, g, attempts);
  }

  // ---------- whole runs ----------

  function OwnPaths(g: Generator): (r: set<Path>)
  {
    (set i | 0 <= i < |Outputs(g)| :: Outputs(g)[i].path) + {StatePath(g.id)}
  }

  ghost predicate Agree(a: Files, b: Files, paths: set<Path>)
  {
    forall q | q in paths :: Lookup(a, q) == Lookup(b, q)
  }

  lemma {:induction false} PresentCountFrame(a: Files, b: Files, outputs: seq<Output>)
    requires forall i | 0 <= i < |outputs| :: Lookup(a, outputs[i].path) == Lookup(b, outputs[i].path)
    ensures PresentCount(a, outputs) == PresentCount(b, outputs)
  {
    if outputs != [] {
      assert Lookup(a, outputs[0].path) == Lookup(b, outputs[0].path);
      PresentCountFrame(a, b, outputs[1..]);
    }
  }

  lemma CountsFrame(a: Files, b: Files, g: Generator)
    requires Agree(a, b, OwnPaths(g))
    ensures PresentCount(a, g.outputs) == PresentCount(b, g.outputs)
    ensures PresentCount(a, g.publicOutputs) == PresentCount(b, g.publicOutputs)
  {
    forall i | 0 <= i < |Outputs(g)| ensures Lookup(a, Outputs(g)[i].path) == Lookup(b, Outputs(g)[i].path)
    {
      assert Outputs(g)[i].path in OwnPaths(g);
    }
    forall i | 0 <= i < |g.outputs| ensures Lookup(a, g.outputs[i].path) == Lookup(b, g.outputs[i].path)
    {
      assert Outputs(g)[i] == g.outputs[i];
    }
    forall i | 0 <= i < |g.publicOutputs| ensures Lookup(a, g.publicOutputs[i].path) == Lookup(b, g.publicOutputs[i].path)
    {
      assert Outputs(g)[|g.outputs| + i] == g.publicOutputs[i];
    }
    PresentCountFrame(a, b, g.outputs);
    PresentCountFrame(a, b, g.publicOutputs);
  }

  /** A decision depends on the generator's own files only. */
  lemma DecideFrame(codec: Codec, a: Files, b: Files, g: Generator, replace: bool)
    requires Agree(a, b, OwnPaths(g))
    ensures Decide(codec, a, g, replace) == Decide(codec, b, g, replace)
  {
    CountsFrame(a, b, g);
    assert ReadState(codec, a, g.id) == ReadState(codec, b, g.id) by {
      assert StatePath(g.id) in OwnPaths(g);
      assert Lookup(a, StatePath(g.id)) == Lookup(b, StatePath(g.id));
    }
  }

  /** A turn changes the generator's own files only, whatever fails. */
  lemma StepFrame(codec: Codec, files: Files, g: Generator, replace: bool, values: Values, faults: Faults, q: Path)
    requires q !in OwnPaths(g)
    ensures Lookup(StepFiles(codec, files, g, replace, values, faults), q) == Lookup(files, q)
  {
    var a := Decide(codec, files, g, replace);
    if a.Success? && a.value != Unchanged && Fits(g, values) {
      var ws := Batch(codec, g, values);
      forall i | 0 <= i < |ws| ensures ws[i].destination in OwnPaths(g)
      {
        if i < |Outputs(g)| {
          assert Outputs(g)[i].path in OwnPaths(g);
        }
      }
      MixedStatesAreBounded(files, ws, ModeOf(a.value), faults, q);
    }
  }

  ghost predicate Apart(turns: seq<Turn>)
  {
    forall i, j | 0 <= i < j < |turns| :: OwnPaths(turns[i].generator) !! OwnPaths(turns[j].generator)
  }

  lemma {:induction false} RunFrame(codec: Codec, files: Files, turns: seq<Turn>, replace: bool, q: Path)
    requires forall i | 0 <= i < |turns| :: q !in OwnPaths(turns[i].generator)
    ensures Lookup(RunFiles(codec, files, turns, replace), q) == Lookup(files, q)
    decreases |turns|
  {
    if turns != [] {
      var t := turns[0];
      StepFrame(codec, files, t.generator, replace, t.values, t.faults, q);
      RunFrame(codec, StepFiles(codec, files, t.generator, replace, t.values, t.faults), turns[1..], replace, q);
    }
  }

  ghost predicate Recordable(codec: Codec, turns: seq<Turn>)
  {
    forall i | 0 <= i < |turns| ::
      && turns[i].generator.validation.Some?
      && |codec.serialize(CurrentState(turns[i].generator))| <= STATE_LIMIT
  }

  ghost predicate AllSettled(codec: Codec, files: Files, turns: seq<Turn>)
  {
    forall i | 0 <= i < |turns| :: Decide(codec, files, turns[i].generator, false) == Success(Unchanged)
  }

  lemma SuccessWrites(codec: Codec, files: Files, g: Generator, replace: bool, values: Values, faults: Faults)
    requires StepResult(codec, files, g, replace, values, faults).Success?
    requires Decide(codec, files, g, replace) != Success(Unchanged)
    ensures Writes(codec, files, g, replace, values, faults)
  {
    var a := Decide(codec, files, g, replace);
    CompletionIsTotal(files, Batch(codec, g, values), ModeOf(a.value), faults);
  }

  lemma IdleKeepsFiles(codec: Codec, files: Files, g: Generator, replace: bool, values: Values, faults: Faults)
    requires Decide(codec, files, g, replace) == Success(Unchanged)
    ensures !replace && StepFiles(codec, files, g, replace, values, faults) == files
  {
  }

  lemma SettledAfterStep(codec: Codec, files: Files, g: Generator, replace: bool, values: Values, faults: Faults)
    requires RoundTrips(codec) && g.validation.Some? && |codec.serialize(CurrentState(g))| <= STATE_LIMIT
    requires StepResult(codec, files, g, replace, values, faults).Success?
    ensures Decide(codec, StepFiles(codec, files, g, replace, values, faults), g, false) == Success(Unchanged)
  {
    if Decide(codec, files, g, replace) == Success(Unchanged) {
      IdleKeepsFiles(codec, files, g, replace, values, faults);
    } else {
      SuccessWrites(codec, files, g, replace, values, faults);
      ConvergesIff(codec, files, g, replace, values, faults);
    }
  }

  /** After a successful run over generators with separate files, every one of them is settled. */
  lemma {:induction false} RunSettles(codec: Codec, files: Files, turns: seq<Turn>, replace: bool)
    requires RoundTrips(codec) && Recordable(codec, turns) && Apart(turns)
    requires RunResult(codec, files, turns, replace).Success?
    ensures AllSettled(codec, RunFiles(codec, files, turns, replace), turns)
    decreases |turns|
  {
    if turns != [] {
      var t, rest := turns[0], turns[1..];
      var mid := StepFiles(codec, files, t.generator, replace, t.values, t.faults);
      var end := RunFiles(codec, mid, rest, replace);
      SettledAfterStep(codec, files, t.generator, replace, t.values, t.faults);
      assert Recordable(codec, rest) && Apart(rest) by {
        assert forall i | 0 <= i < |rest| :: rest[i] == turns[i + 1];
      }
      RunSettles(codec, mid, rest, replace);
      forall q | q in OwnPaths(t.generator) ensures Lookup(mid, q) == Lookup(end, q)
      {
        assert forall i | 0 <= i < |rest| :: rest[i] == turns[i + 1];
        RunFrame(codec, mid, rest, replace, q);
      }
      DecideFrame(codec, mid, end, t.generator, false);
      forall i | 0 <= i < |turns| ensures Decide(codec, end, turns[i].generator, false) == Success(Unchanged)
      {
        if i > 0 {
          assert turns[i] == rest[i - 1];
        }
      }
    }
  }

  lemma {:induction false} SettledRunIsIdle(codec: Codec, files: Files, turns: seq<Turn>)
    requires AllSettled(codec, files, turns)
    ensures RunFiles(codec, files, turns, false) == files
    ensures RunResult(codec, files, turns, false) == Success(seq(|turns|, _ => Unchanged))
    decreases |turns|
  {
    if turns != [] {
      assert Decide(codec, files, turns[0].generator, false) == Success(Unchanged);
      assert AllSettled(codec, files, turns[1..]) by {
        assert forall i | 0 <= i < |turns[1..]| :: turns[1..][i] == turns[i + 1];
      }
      SettledRunIsIdle(codec, files, turns[1..]);
      assert [Unchanged] + seq(|turns| - 1, _ => Unchanged) == seq(|turns|, _ => Unchanged);
    } else {
      assert seq(0, _ => Unchanged) == [];
    }
  }

  /** A turn that did something left its values in place; one that left the generator alone changed none of
      its files. */
  ghost predicate TurnDelivered(before: Files, after: Files, t: Turn, a: Action)
  {
    match a
    case Unchanged => Agree(after, before, OwnPaths(t.generator))
    case _ => AllReceived(after, t.generator, t.values)
  }

  lemma DeliveredSince(before: Files, mid: Files, after: Files, t: Turn, a: Action)
    requires Agree(mid, before, OwnPaths(t.generator)) && TurnDelivered(mid, after, t, a)
    ensures TurnDelivered(before, after, t, a)
  {
  }

  /** After a successful run over generators with separate files, every generator that was run has the
      values of its turn in place, and every one left alone has its files as they were. */
  lemma {:induction false} RunDelivers(codec: Codec, files: Files, turns: seq<Turn>, replace: bool, i: nat)
    requires Apart(turns) && RunResult(codec, files, turns, replace).Success? && i < |turns|
    ensures |RunResult(codec, files, turns, replace).value| == |turns|
    ensures TurnDelivered(files, RunFiles(codec, files, turns, replace), turns[i], RunResult(codec, files, turns, replace).value[i])
    decreases |turns|
  {
    OneActionPerTurn(codec, files, turns, replace);
    if i == 0 {
      FirstTurnDelivers(codec, files, turns, replace);
    } else {
      var t, rest := turns[0], turns[1..];
      var mid := StepFiles(codec, files, t.generator, replace, t.values, t.faults);
      ApartLater(turns);
      RunDelivers(codec, mid, rest, replace, i - 1);
      assert rest[i - 1] == turns[i];
      OthersUntouched(codec, files, turns, replace, i);
      LaterTurn(codec, files, turns, replace, i);
      DeliveredSince(files, mid, RunFiles(codec, files, turns, replace), turns[i], RunResult(codec, files, turns, replace).value[i]);
    }
  }

  /** A later turn of a run is a turn of the run after the first one. */
  lemma LaterTurn(codec: Codec, files: Files, turns: seq<Turn>, replace: bool, i: nat)
    requires 0 < i < |turns| && RunResult(codec, files, turns, replace).Success?
    requires |RunResult(codec, files, turns, replace).value| == |turns|
    ensures var t := turns[0];
      var mid := StepFiles(codec, files, t.generator, replace, t.values, t.faults);
      && RunResult(codec, mid, turns[1..], replace).Success? && |RunResult(codec, mid, turns[1..], replace).value| == |turns| - 1
      && RunResult(codec, mid, turns[1..], replace).value[i - 1] == RunResult(codec, files, turns, replace).value[i]
      && RunFiles(codec, mid, turns[1..], replace) == RunFiles(codec, files, turns, replace)
  {
    var t := turns[0];
    var mid := StepFiles(codec, files, t.generator, replace, t.values, t.faults);
    var a, rest := StepResult(codec, files, t.generator, replace, t.values, t.faults), RunResult(codec, mid, turns[1..], replace);
    assert a.Success? && RunResult(codec, files, turns, replace) == After([a.value], rest);
    AfterLater(a.value, rest, i);
  }

  lemma AfterLater(a: Action, rest: Result<seq<Action>, Refusal>, i: nat)
    requires After([a], rest).Success? && 0 < i < |After([a], rest).value|
    ensures rest.Success? && |rest.value| == |After([a], rest).value| - 1 && rest.value[i - 1] == After([a], rest).value[i]
  {
  }

  lemma ApartLater(turns: seq<Turn>)
    requires turns != [] && Apart(turns)
    ensures Apart(turns[1..])
  {
    assert forall j | 0 <= j < |turns[1..]| :: turns[1..][j] == turns[j + 1];
  }

  /** The first turn leaves the files of a later generator alone. */
  lemma OthersUntouched(codec: Codec, files: Files, turns: seq<Turn>, replace: bool, i: nat)
    requires 0 < i < |turns| && Apart(turns)
    ensures var t := turns[0];
      Agree(StepFiles(codec, files, t.generator, replace, t.values, t.faults), files, OwnPaths(turns[i].generator))
  {
    var t := turns[0];
    forall q | q in OwnPaths(turns[i].generator)
      ensures Lookup(StepFiles(codec, files, t.generator, replace, t.values, t.faults), q) == Lookup(files, q)
    {
      StepFrame(codec, files, t.generator, replace, t.values, t.faults, q);
    }
  }

  /** The later turns leave the first generator's files alone. */
  lemma FirstTurnDelivers(codec: Codec, files: Files, turns: seq<Turn>, replace: bool)
    requires turns != [] && Apart(turns) && RunResult(codec, files, turns, replace).Success?
    requires |RunResult(codec, files, turns, replace).value| == |turns|
    ensures TurnDelivered(files, RunFiles(codec, files, turns, replace), turns[0], RunResult(codec, files, turns, replace).value[0])
  {
    var t, rest := turns[0], turns[1..];
    var mid := StepFiles(codec, files, t.generator, replace, t.values, t.faults);
    forall q | q in OwnPaths(t.generator) ensures Lookup(RunFiles(codec, mid, rest, replace), q) == Lookup(mid, q)
    {
      assert forall j | 0 <= j < |rest| :: rest[j] == turns[j + 1];
      RunFrame(codec, mid, rest, replace, q);
    }
    StepDelivers(codec, files, t, replace, RunFiles(codec, mid, rest, replace));
  }

  lemma {:induction false} OneActionPerTurn(codec: Codec, files: Files, turns: seq<Turn>, replace: bool)
    requires RunResult(codec, files, turns, replace).Success?
    ensures |RunResult(codec, files, turns, replace).value| == |turns|
    decreases |turns|
  {
    if turns != [] {
      var t := turns[0];
      OneActionPerTurn(codec, StepFiles(codec, files, t.generator, replace, t.values, t.faults), turns[1..], replace);
    }
  }

  /** What a successful turn leaves in the generator's own files, there still in any later state that
      agrees on them. */
  lemma StepDelivers(codec: Codec, files: Files, t: Turn, replace: bool, after: Files)
    requires StepResult(codec, files, t.generator, replace, t.values, t.faults).Success?
    requires Agree(after, StepFiles(codec, files, t.generator, replace, t.values, t.faults), OwnPaths(t.generator))
    ensures TurnDelivered(files, after, t, StepResult(codec, files, t.generator, replace, t.values, t.faults).value)
  {
    var g := t.generator;
    if StepResult(codec, files, g, replace, t.values, t.faults).value != Unchanged {
      SuccessWrites(codec, files, g, replace, t.values, t.faults);
      EachOutputGetsItsOwn(codec, files, g, replace, t.values, t.faults);
      ReceivedIsKept(StepFiles(codec, files, g, replace, t.values, t.faults), after, g, t.values);
    }
  }

  lemma ReceivedIsKept(before: Files, after: Files, g: Generator, values: Values)
    requires AllReceived(before, g, values) && Agree(after, before, OwnPaths(g))
    ensures AllReceived(after, g, values)
  {
    forall i | 0 <= i < |g.outputs| ensures Lookup(after, g.outputs[i].path) == Some(values.secrets[i])
    {
      assert Outputs(g)[i].path in OwnPaths(g);
    }
    forall i | 0 <= i < |g.publicOutputs| ensures Lookup(after, g.publicOutputs[i].path) == Some(values.publics[i])
    {
      assert Outputs(g)[|g.outputs| + i].path in OwnPaths(g);
    }
  }

  /** A run that fails has finished the turns before the failing one and done nothing after it. */
  lemma {:induction false} RunStopsAtTheFailure(codec: Codec, files: Files, turns: seq<Turn>, replace: bool) returns (k: nat)
    requires RunResult(codec, files, turns, replace).Failure?
    ensures k < |turns| && RunResult(codec, files, turns[..k], replace).Success?
    ensures var mid := RunFiles(codec, files, turns[..k], replace);
      var t := turns[k];
      && StepResult(codec, mid, t.generator, replace, t.values, t.faults)
           == Failure(RunResult(codec, files, turns, replace).error)
      && RunFiles(codec, files, turns, replace) == StepFiles(codec, mid, t.generator, replace, t.values, t.faults)
    decreases |turns|
  {
    var t := turns[0];
    var mid := StepFiles(codec, files, t.generator, replace, t.values, t.faults);
    if StepResult(codec, files, t.generator, replace, t.values, t.faults).Failure? {
      k := 0;
    } else {
      k := RunStopsAtTheFailure(codec, mid, turns[1..], replace);
      assert turns[1..][k] == turns[k + 1];
      k := k + 1;
      FirstTurnsRun(codec, files, turns, replace, k);
    }
  }

  /** Running the first `k` turns is running the first one and then the others. */
  lemma FirstTurnsRun(codec: Codec, files: Files, turns: seq<Turn>, replace: bool, k: nat)
    requires 0 < k <= |turns|
    requires var t := turns[0]; StepResult(codec, files, t.generator, replace, t.values, t.faults).Success?
    ensures var t := turns[0];
      var mid := StepFiles(codec, files, t.generator, replace, t.values, t.faults);
      && RunFiles(codec, files, turns[..k], replace) == RunFiles(codec, mid, turns[1..][..k - 1], replace)
      && (RunResult(codec, files, turns[..k], replace).Success? <==> RunResult(codec, mid, turns[1..][..k - 1], replace).Success?)
  {
    assert turns[..k][0] == turns[0] && turns[..k][1..] == turns[1..][..k - 1];
  }

  /** Running the same generators again, with any values and any failures, is a no-op. */
  lemma RunIsIdempotent(codec: Codec, files: Files, turns: seq<Turn>, replace: bool, again: seq<Turn>)
    requires RoundTrips(codec) && Recordable(codec, turns) && Apart(turns)
    requires RunResult(codec, files, turns, replace).Success?
    requires |again| == |turns| && forall i | 0 <= i < |turns| :: again[i].generator == turns[i].generator
    ensures var after := RunFiles(codec, files, turns, replace);
      && RunFiles(codec, after, again, false) == after
      && RunResult(codec, after, again, false) == Success(seq(|turns|, _ => Unchanged))
  {
    RunSettles(codec, files, turns, replace);
    SettledRunIsIdle(codec, RunFiles(codec, files, turns, replace), again);
  }
}
