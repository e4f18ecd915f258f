/** Generators: deciding between create, replace and leave alone, and committing the result through
    the authoring transaction. */
module Generators {
  import opened Prelude
  import opened Authoring

  type Id = string

  /** A declared secret (its canonical source) or public output (its destination). */
  datatype Output = Output(id: Id, path: Path)

  datatype Generator = Generator(
    id: Id,
    outputs: seq<Output>,
    publicOutputs: seq<Output>,
    validation: Option<string>)

  /** The private record of what produced the outputs last. */
  datatype State = State(generatorId: Id, validation: string, outputs: seq<Id>, publicOutputs: seq<Id>)

  /** How states become file contents and back; reading may meet foreign bytes. */
  datatype Codec = Codec(serialize: State -> Bytes, parse: Bytes -> Option<State>)

  ghost predicate RoundTrips(codec: Codec)
  {
    forall s :: codec.parse(codec.serialize(s)) == Some(s)
  }

  const STATE_LIMIT: nat := 64 * 1024

  function StatePath(id: Id): (p: Path)
  {
    ".nix-seal/generator-state/v1/" + id + "/state.json"
  }

  function Ids(outputs: seq<Output>): (r: seq<Id>)
  {
    seq(|outputs|, i requires 0 <= i < |outputs| => outputs[i].id)
  }

  datatype Refusal = PartialOutputs | NoBaseline | BadState | OutputCount | Authoring(error: Error)

  datatype Action = CreateOutputs | ReplaceOutputs | Unchanged

  function ReadState(codec: Codec, files: Files, id: Id): (r: Result<Option<State>, Refusal>)
  {
    if StatePath(id) !in files then Success(None)
    else
      var bytes := files[StatePath(id)];
      if |bytes| > STATE_LIMIT then Failure(BadState)
      else
        match codec.parse(bytes)
        case None => Failure(BadState)
        case Some(s) => if s.generatorId == id then Success(Some(s)) else Failure(BadState)
  }

  function PresentCount(files: Files, outputs: seq<Output>): (n: nat)
    ensures n <= |outputs|
    ensures n == |outputs| <==> forall i | 0 <= i < |outputs| :: outputs[i].path in files
    ensures n == 0 <==> forall i | 0 <= i < |outputs| :: outputs[i].path !in files
  {
    if outputs == [] then 0
    else
      var rest := PresentCount(files, outputs[1..]);
      assert outputs == [outputs[0]] + outputs[1..];
      rest + if outputs[0].path in files then 1 else 0
  }

  function CurrentState(g: Generator): (s: State)
    requires g.validation.Some?
  {
    State(g.id, g.validation.value, Ids(g.outputs), Ids(g.publicOutputs))
  }

  /** generator_action */
  function Decide(codec: Codec, files: Files, g: Generator, replace: bool): (r: Result<Action, Refusal>)
  {
    if replace then Success(ReplaceOutputs)
    else
      var present := PresentCount(files, g.outputs) + PresentCount(files, g.publicOutputs);
      var total := |g.outputs| + |g.publicOutputs|;
      if present != 0 && present != total then Failure(PartialOutputs)
      else if g.validation.None? then Success(CreateOutputs)
      else
        match ReadState(codec, files, g.id)
        case Failure(e) => Failure(e)
        case Success(Some(s)) =>
          if s.validation == g.validation.value && s.outputs == Ids(g.outputs) && s.publicOutputs == Ids(g.publicOutputs) then
            Success(if present == total then Unchanged else CreateOutputs)
          else
            Success(if present == total then ReplaceOutputs else CreateOutputs)
        case Success(None) => if present == 0 then Success(CreateOutputs) else Failure(NoBaseline)
  }

  /** Ciphertexts and public bytes produced for one run. */
  datatype Values = Values(secrets: seq<Bytes>, publics: seq<Bytes>)

  predicate Fits(g: Generator, values: Values)
  {
    |values.secrets| == |g.outputs| && |values.publics| == |g.publicOutputs|
  }

  function Outputs(g: Generator): (r: seq<Output>)
  {
    g.outputs + g.publicOutputs
  }

  /** The transaction for one generator: every output, then the state file or its removal. */
  function Batch(codec: Codec, g: Generator, values: Values): (ws: seq<Write>)
    requires Fits(g, values)
    ensures |ws| == |Outputs(g)| + 1
    ensures forall i | 0 <= i < |Outputs(g)| :: Canonical(ws[i]) && ws[i].destination == Outputs(g)[i].path
    ensures !Canonical(ws[|Outputs(g)|]) && ws[|Outputs(g)|].destination == StatePath(g.id)
  {
    seq(|g.outputs|, i requires 0 <= i < |g.outputs| => Secret(g.outputs[i].path, values.secrets[i]))
    + seq(|g.publicOutputs|, i requires 0 <= i < |g.publicOutputs| => Public(g.publicOutputs[i].path, values.publics[i]))
    + [if g.validation.Some? then Private(StatePath(g.id), codec.serialize(CurrentState(g))) else Delete(StatePath(g.id))]
  }

  function ModeOf(a: Action): (m: Mode)
  {
    if a == ReplaceOutputs then Replace else Create
  }

  /** One generator of `run_generate`: the files afterwards and what was done or refused. */
  function StepFiles(codec: Codec, files: Files, g: Generator, replace: bool, values: Values, faults: Faults): (r: Files)
  {
    var a := Decide(codec, files, g, replace);
    if a.Failure? || a.value == Unchanged || !Fits(g, values) then files
    else FinalFiles(files, Batch(codec, g, values), ModeOf(a.value), faults)
  }

  function StepResult(codec: Codec, files: Files, g: Generator, replace: bool, values: Values, faults: Faults): (r: Result<Action, Refusal>)
  {
    var a := Decide(codec, files, g, replace);
    if a.Failure? || a.value == Unchanged then a
    else if !Fits(g, values) then Failure(OutputCount)
    else
      match OutcomeOf(files, Batch(codec, g, values), ModeOf(a.value), faults)
      case Success(_) => a
      case Failure(e) => Failure(Authoring(e))
  }

  /** One requested generator of a run with the bytes it produced and the operations that fail. */
  datatype Turn = Turn(generator: Generator, values: Values, faults: Faults)

  /** Files after working through `turns` until the first refusal. */
  function RunFiles(codec: Codec, files: Files, turns: seq<Turn>, replace: bool): (r: Files)
    decreases |turns|
  {
    if turns == [] then files
    else
      var t := turns[0];
      var after := StepFiles(codec, files, t.generator, replace, t.values, t.faults);
      if StepResult(codec, files, t.generator, replace, t.values, t.faults).Failure? then after
      else RunFiles(codec, after, turns[1..], replace)
  }

  /** The actions taken, or the first refusal. */
  function RunResult(codec: Codec, files: Files, turns: seq<Turn>, replace: bool): (r: Result<seq<Action>, Refusal>)
    decreases |turns|
  {
    if turns == [] then Success([])
    else
      var t := turns[0];
      match StepResult(codec, files, t.generator, replace, t.values, t.faults)
      case Failure(e) => Failure(e)
      case Success(a) =>
        After([a], RunResult(codec, StepFiles(codec, files, t.generator, replace, t.values, t.faults), turns[1..], replace))
  }

  function After(done: seq<Action>, r: Result<seq<Action>, Refusal>): (all: Result<seq<Action>, Refusal>)
  {
    if r.Failure? then r else Success(done + r.value)
  }
}

/** run_generate's loop over the ordered generators, acting on the repository itself. */
module GeneratorRun {
  import opened Prelude
  import opened Authoring
  import opened AuthoringTransaction
  import opened Generators
  import opened GeneratorTheorems

  method GenerateOne(repository: Repository, codec: Codec, t: Turn, replace: bool) returns (r: Result<Action, Refusal>)
    requires repository.Quiet()
    modifies repository
    ensures repository.Quiet()
    ensures repository.files == StepFiles(codec, old(repository.files), t.generator, replace, t.values, t.faults)
    ensures r == StepResult(codec, old(repository.files), t.generator, replace, t.values, t.faults)
    ensures r.Success? && r.value == Unchanged ==> repository.files == old(repository.files)
    ensures r.Success? && r.value != Unchanged ==> AllReceived(repository.files, t.generator, t.values)
  {
    r := Decide(codec, repository.files, t.generator, replace);
    if r.Failure? || r.value == Unchanged {
      return;
    }
    if !Fits(t.generator, t.values) {
      return Failure(OutputCount);
    }
    var outcome := repository.WriteBatch(Batch(codec, t.generator, t.values), ModeOf(r.value), t.faults);
    if outcome.Failure? {
      r := Failure(Authoring(outcome.error));
    } else {
      StepDelivers(codec, old(repository.files), t, replace, repository.files);
    }
  }

  lemma AfterAfter(done: seq<Action>, a: Action, r: Result<seq<Action>, Refusal>)
    ensures After(done, After([a], r)) == After(done + [a], r)
  {
    if r.Success? {
      assert done + ([a] + r.value) == done + [a] + r.value;
    }
  }

  lemma ReportedIsReceived(codec: Codec, files: Files, turns: seq<Turn>, replace: bool)
    requires RunResult(codec, files, turns, replace).Success?
    ensures Apart(turns) ==>
      var actions := RunResult(codec, files, turns, replace).value;
      |actions| == |turns| && forall i | 0 <= i < |turns| :: actions[i] != Unchanged ==>
        AllReceived(RunFiles(codec, files, turns, replace), turns[i].generator, turns[i].values)
  {
    OneActionPerTurn(codec, files, turns, replace);
    if Apart(turns) {
      forall i | 0 <= i < |turns| && RunResult(codec, files, turns, replace).value[i] != Unchanged
        ensures AllReceived(RunFiles(codec, files, turns, replace), turns[i].generator, turns[i].values)
      {
        RunDelivers(codec, files, turns, replace, i);
      }
    }
  }

  method Generate(repository: Repository, codec: Codec, turns: seq<Turn>, replace: bool) returns (r: Result<seq<Action>, Refusal>)
    requires repository.Quiet()
    modifies repository
    ensures repository.Quiet()
    ensures repository.files == RunFiles(codec, old(repository.files), turns, replace)
    ensures r == RunResult(codec, old(repository.files), turns, replace)
    ensures r.Success? && Apart(turns) ==> |r.value| == |turns| && forall i | 0 <= i < |turns| :: r.value[i] != Unchanged ==>
      AllReceived(repository.files, turns[i].generator, turns[i].values)
  {
    var actions: seq<Action> := [];
    var left := turns;
    ghost var whole := RunResult(codec, repository.files, turns, replace);
    assert whole.Success? ==> [] + whole.value == whole.value;
    while left != []
      invariant repository.Quiet()
      invariant RunFiles(codec, old(repository.files), turns, replace) == RunFiles(codec, repository.files, left, replace)
      invariant whole == After(actions, RunResult(codec, repository.files, left, replace))
      decreases |left|
    {
      var t := left[0];
      ghost var before := repository.files;
      var a := GenerateOne(repository, codec, t, replace);
      if a.Failure? {
        return Failure(a.error);
      }
      AfterAfter(actions, a.value, RunResult(codec, repository.files, left[1..], replace));
      actions := actions + [a.value];
      left := left[1..];
    }
    assert actions + [] == actions;
    r := Success(actions);
    ReportedIsReceived(codec, old(repository.files), turns, replace);
  }
}
