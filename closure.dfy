/** Closures: an ordered list of job definitions plus an optional captured
    scope, the binding step (Unbound to Bound), named-argument binding into a
    fresh child scope, the stage-by-stage orchestration of an invocation, and
    the display string. Spawning a job and what its worker reports when
    joined are parameters; the orchestration is recorded as a trace of
    spawn and join events. */
module Closures {
  import opened Data

  /** A scope: local bindings and a non-owning link to the enclosing scope. */
  class Namespace {
    var local: map<string, Cell>
    const parent: Namespace?

    constructor Root()
      ensures local == map[] && parent == null
    {
      local := map[];
      parent := null;
    }

    constructor Child(enclosing: Namespace)
      ensures local == map[] && parent == enclosing
    {
      local := map[];
      parent := enclosing;
    }

    /** `create_child`: a new, empty scope whose parent is this one. */
    method CreateChild() returns (child: Namespace)
      ensures fresh(child) && child.local == map[] && child.parent == this
    {
      child := new Namespace.Child(this);
    }

    /** `declare`: binds `name` in this scope only, replacing any earlier binding. */
    method Declare(name: string, value: Cell)
      modifies this
      ensures local == old(local)[name := value]
    {
      local := local[name := value];
    }
  }

  /** A job definition. What a definition holds is not part of this model;
      the model only needs to tell definitions apart. */
  datatype Job = Job(id: nat)

  datatype Closure = Closure(jobDefinitions: seq<Job>, env: Option<Namespace>)

  /** A closure is Bound once it carries a scope. */
  predicate IsBound(c: Closure)
  {
    c.env.Some?
  }

  /** `Closure::new`: an Unbound closure over the given definitions. */
  function New(jobDefinitions: seq<Job>): (c: Closure)
    ensures !IsBound(c) && c.jobDefinitions == jobDefinitions
  {
    Closure(jobDefinitions, None)
  }

  /** `with_env`: a Bound closure with the same definitions, in the same
      order, sharing (not copying) the given scope. */
  function WithEnv(c: Closure, env: Namespace): (b: Closure)
    ensures IsBound(b) && b.env.value == env && b.jobDefinitions == c.jobDefinitions
  {
    Closure(c.jobDefinitions, Some(env))
  }

  const MissingEnv := "Closure without env"
  const EmptyClosure := "Empty closures not supported"

  /** `spawn_stream`: only checks that the closure is Bound. */
  function SpawnStream(c: Closure): (r: Result<Unit>)
    ensures r.Ok? <==> IsBound(c)
    ensures r.Err? ==> r.error == GenericError(MissingEnv)
  {
    if c.env.None? then Err(GenericError(MissingEnv)) else Ok(Unit)
  }

  /** Binding replaces the scope and nothing else: binding twice is binding
      once to the later scope, and binding keeps the display string. */
  lemma RebindReplacesEnv(c: Closure, first: Namespace, second: Namespace, jobString: Job -> string)
    ensures WithEnv(WithEnv(c, first), second) == WithEnv(c, second)
    ensures ToString(WithEnv(c, first), jobString) == ToString(c, jobString)
    ensures SpawnStream(New(c.jobDefinitions)).Err? && SpawnStream(WithEnv(c, first)).Ok?
  {
  }

  // ---------------------------------------------------------------------
  // Named-argument binding

  /** The scope's bindings after declaring, in argument order, every named
      argument; unnamed arguments are skipped. */
  function BindNamed(bindings: map<string, Cell>, arguments: seq<Argument>): map<string, Cell>
    decreases |arguments|
  {
    if arguments == [] then bindings
    else
      var before := BindNamed(bindings, arguments[..|arguments| - 1]);
      var last := arguments[|arguments| - 1];
      match last.name
      case Some(name) => before[name := last.cell]
      case None => before
  }

  /** The bindings of a fresh child scope once the arguments are pushed. */
  function ChildBindings(arguments: seq<Argument>): map<string, Cell>
  {
    BindNamed(map[], arguments)
  }

  /** `push_arguments_to_env`. */
  method PushArgumentsToEnv(arguments: seq<Argument>, env: Namespace)
    modifies env
    ensures env.local == BindNamed(old(env.local), arguments)
  {
    var i := 0;
    while i < |arguments|
      invariant 0 <= i <= |arguments|
      invariant env.local == BindNamed(old(env.local), arguments[..i])
    {
      var arg := arguments[i];
      assert arguments[..i + 1][..i] == arguments[..i];
      match arg.name {
        case Some(name) => env.Declare(name, arg.cell);
        case None =>
      }
      i := i + 1;
    }
    assert arguments[..|arguments|] == arguments;
  }

  /** Some argument carries this name. */
  predicate Names(arguments: seq<Argument>, name: string)
  {
    exists i :: 0 <= i < |arguments| && arguments[i].name == Some(name)
  }

  /** A name is bound afterwards iff it was bound before or some argument
      carries it. */
  lemma {:induction false} BindNamedDomain(bindings: map<string, Cell>, arguments: seq<Argument>, name: string)
    ensures name in BindNamed(bindings, arguments) <==> name in bindings || Names(arguments, name)
    decreases |arguments|
  {
    if arguments != [] {
      var init := arguments[..|arguments| - 1];
      var last := arguments[|arguments| - 1];
      BindNamedDomain(bindings, init, name);
      assert Names(arguments, name) <==> Names(init, name) || last.name == Some(name) by {
        if Names(arguments, name) {
          var i :| 0 <= i < |arguments| && arguments[i].name == Some(name);
          if i < |init| {
            assert init[i] == arguments[i];
          }
        }
        if Names(init, name) {
          var i :| 0 <= i < |init| && init[i].name == Some(name);
          assert arguments[i] == init[i];
        }
      }
    }
  }

  /** A name carried by argument i and by no later argument is bound to
      argument i's value: later arguments overwrite earlier ones. */
  lemma {:induction false} BindNamedLastWins(bindings: map<string, Cell>, arguments: seq<Argument>, name: string, i: nat)
    requires i < |arguments| && arguments[i].name == Some(name)
    requires forall j :: i < j < |arguments| ==> arguments[j].name != Some(name)
    ensures name in BindNamed(bindings, arguments)
    ensures BindNamed(bindings, arguments)[name] == arguments[i].cell
    decreases |arguments|
  {
    var init := arguments[..|arguments| - 1];
    if i < |arguments| - 1 {
      forall j | i < j < |init| ensures init[j].name != Some(name) {
        assert init[j] == arguments[j];
      }
      BindNamedLastWins(bindings, init, name, i);
    }
  }

  /** A name no argument carries keeps its earlier binding. */
  lemma {:induction false} BindNamedKeepsOthers(bindings: map<string, Cell>, arguments: seq<Argument>, name: string)
    requires !Names(arguments, name) && name in bindings
    ensures name in BindNamed(bindings, arguments)
    ensures BindNamed(bindings, arguments)[name] == bindings[name]
    decreases |arguments|
  {
    if arguments != [] {
      var init := arguments[..|arguments| - 1];
      assert !Names(init, name) by {
        forall j | 0 <= j < |init| ensures init[j].name != Some(name) {
          assert init[j] == arguments[j];
        }
      }
      BindNamedKeepsOthers(bindings, init, name);
      assert arguments[|arguments| - 1].name != Some(name);
    }
  }

  /** An unnamed argument, wherever it stands, binds nothing. */
  lemma {:induction false} UnnamedArgumentIgnored(bindings: map<string, Cell>, front: seq<Argument>, a: Argument, back: seq<Argument>)
    requires a.name.None?
    ensures BindNamed(bindings, front + [a] + back) == BindNamed(bindings, front + back)
    decreases |back|
  {
    if back == [] {
      assert (front + [a])[..|front + [a]| - 1] == front;
      assert front + [a] + back == front + [a];
      assert front + back == front;
    } else {
      var init := back[..|back| - 1];
      var last := back[|back| - 1];
      UnnamedArgumentIgnored(bindings, front, a, init);
      assert (front + [a] + back)[..|front + [a] + back| - 1] == front + [a] + init;
      assert (front + back)[..|front + back| - 1] == front + init;
      assert (front + [a] + back)[|front + [a] + back| - 1] == last;
      assert (front + back)[|front + back| - 1] == last;
    }
  }

  // ---------------------------------------------------------------------
  // Stage orchestration

  /** Where a stage reads from. */
  datatype InputKind = RealInput | EmptyChannel

  /** Where a stage writes to. */
  datatype OutputKind = RealOutput | PrintSink

  /** One step of an invocation: stage i spawned with its endpoints, or
      stage i joined, with whatever its worker reported to the printer. */
  datatype Event =
    | Spawn(stage: nat, input: InputKind, output: OutputKind)
    | Join(stage: nat, reported: Option<JobError>)

  /** Spawning a job in a scope with the given bindings, on the given
      endpoints; it may fail. */
  type SpawnFn = (Job, map<string, Cell>, InputKind, OutputKind) -> Result<Unit>

  /** The error, if any, a job spawned in a scope with the given bindings
      reports when joined. */
  type WorkerFn = (Job, map<string, Cell>, InputKind, OutputKind) -> Option<JobError>

  /** An invocation's events and return value. */
  datatype Run = Run(trace: seq<Event>, result: Result<Unit>)

  /** Only the first stage reads the invocation's real input. */
  function StageInput(i: nat): InputKind
  {
    if i == 0 then RealInput else EmptyChannel
  }

  /** Only the last stage writes the invocation's real output. */
  function StageOutput(i: nat, n: nat): OutputKind
  {
    if i + 1 == n then RealOutput else PrintSink
  }

  /** Running stages i.. of `jobs` one after another, each in a scope whose
      bindings are `scope`: spawn, then join, then the next; a failed spawn ends
      the run with its error. */
  function Stages(jobs: seq<Job>, scope: map<string, Cell>, spawn: SpawnFn, worker: WorkerFn, i: nat): Run
    decreases |jobs| - i
  {
    if i >= |jobs| then Run([], Ok(Unit))
    else
      var input := StageInput(i);
      var output := StageOutput(i, |jobs|);
      match spawn(jobs[i], scope, input, output)
      case Err(e) => Run([Spawn(i, input, output)], Err(e))
      case Ok(_) =>
        var rest := Stages(jobs, scope, spawn, worker, i + 1);
        Run([Spawn(i, input, output), Join(i, worker(jobs[i], scope, input, output))] + rest.trace, rest.result)
  }

  /** A whole invocation of `spawn_and_execute`: every stage runs in the
      child scope, which holds the named arguments. */
  function Execute(c: Closure, arguments: seq<Argument>, spawn: SpawnFn, worker: WorkerFn): Run
  {
    if c.env.None? then Run([], Err(GenericError(MissingEnv)))
    else if |c.jobDefinitions| == 0 then Run([], Err(GenericError(EmptyClosure)))
    else Stages(c.jobDefinitions, ChildBindings(arguments), spawn, worker, 0)
  }

  /** `prefix` happened before `run`. */
  function After(prefix: seq<Event>, run: Run): Run
  {
    Run(prefix + run.trace, run.result)
  }

  /** `spawn_and_execute`. Also returns the child scope it created (null when
      the closure is Unbound). */
  method SpawnAndExecute(c: Closure, arguments: seq<Argument>, spawn: SpawnFn, worker: WorkerFn)
    returns (result: Result<Unit>, trace: seq<Event>, env: Namespace?)
    ensures Run(trace, result) == Execute(c, arguments, spawn, worker)
    ensures env == null <==> !IsBound(c)
    ensures env != null ==> fresh(env)
    ensures env != null ==> env.parent == c.env.value && env.local == ChildBindings(arguments)
  {
    trace := [];
    env := null;
    if c.env.None? {
      result := Err(GenericError(MissingEnv));
      return;
    }
    var jobs := c.jobDefinitions;
    var parentEnv := c.env.value;
    env := parentEnv.CreateChild();
    PushArgumentsToEnv(arguments, env);
    var scope := env.local;
    var n := |jobs|;
    if n == 0 {
      result := Err(GenericError(EmptyClosure));
      return;
    } else if n == 1 {
      var spawned := spawn(jobs[0], scope, RealInput, RealOutput);
      trace := [Spawn(0, RealInput, RealOutput)];
      if spawned.Err? {
        result := Err(spawned.error);
        return;
      }
      trace := trace + [Join(0, worker(jobs[0], scope, RealInput, RealOutput))];
      assert Stages(jobs, scope, spawn, worker, 1) == Run([], Ok(Unit));
    } else {
      var spawned := spawn(jobs[0], scope, RealInput, PrintSink);
      trace := [Spawn(0, RealInput, PrintSink)];
      if spawned.Err? {
        result := Err(spawned.error);
        return;
      }
      trace := trace + [Join(0, worker(jobs[0], scope, RealInput, PrintSink))];

      var i := 1;
      while i < n - 1
        invariant 1 <= i <= n - 1
        invariant Stages(jobs, scope, spawn, worker, 0) == After(trace, Stages(jobs, scope, spawn, worker, i))
      {
        spawned := spawn(jobs[i], scope, EmptyChannel, PrintSink);
        if spawned.Err? {
          trace := trace + [Spawn(i, EmptyChannel, PrintSink)];
          result := Err(spawned.error);
          return;
        }
        trace := trace + [Spawn(i, EmptyChannel, PrintSink), Join(i, worker(jobs[i], scope, EmptyChannel, PrintSink))];
        i := i + 1;
      }

      spawned := spawn(jobs[n - 1], scope, EmptyChannel, RealOutput);
      trace := trace + [Spawn(n - 1, EmptyChannel, RealOutput)];
      if spawned.Err? {
        result := Err(spawned.error);
        return;
      }
      trace := trace + [Join(n - 1, worker(jobs[n - 1], scope, EmptyChannel, RealOutput))];
      assert Stages(jobs, scope, spawn, worker, n) == Run([], Ok(Unit));
    }
    result := Ok(Unit);
  }

  /** Stage j's spawn succeeds. */
  predicate SpawnsOk(jobs: seq<Job>, scope: map<string, Cell>, spawn: SpawnFn, j: nat)
    requires j < |jobs|
  {
    spawn(jobs[j], scope, StageInput(j), StageOutput(j, |jobs|)).Ok?
  }

  /** The run succeeds iff every stage spawns. */
  lemma {:induction false} StagesSucceedIff(jobs: seq<Job>, scope: map<string, Cell>, spawn: SpawnFn, worker: WorkerFn, i: nat)
    ensures Stages(jobs, scope, spawn, worker, i).result.Ok? <==>
      forall j :: i <= j < |jobs| ==> SpawnsOk(jobs, scope, spawn, j)
    decreases |jobs| - i
  {
    if i < |jobs| {
      StagesSucceedIff(jobs, scope, spawn, worker, i + 1);
      if SpawnsOk(jobs, scope, spawn, i) {
        assert (forall j :: i <= j < |jobs| ==> SpawnsOk(jobs, scope, spawn, j)) <==>
          (forall j :: i + 1 <= j < |jobs| ==> SpawnsOk(jobs, scope, spawn, j));
      }
    }
  }

  /** What workers report when joined never changes the return value. */
  lemma {:induction false} StagesResultIgnoresWorkers(jobs: seq<Job>, scope: map<string, Cell>, spawn: SpawnFn, w1: WorkerFn, w2: WorkerFn, i: nat)
    ensures Stages(jobs, scope, spawn, w1, i).result == Stages(jobs, scope, spawn, w2, i).result
    decreases |jobs| - i
  {
    if i < |jobs| {
      StagesResultIgnoresWorkers(jobs, scope, spawn, w1, w2, i + 1);
    }
  }

  /** When every stage spawns, stage i is spawned at position 2(i - from)
      and joined right after, with its wiring, and nothing else happens. */
  lemma {:induction false} StagesSuccessTrace(jobs: seq<Job>, scope: map<string, Cell>, spawn: SpawnFn, worker: WorkerFn, from: nat)
    requires from <= |jobs|
    requires forall j :: from <= j < |jobs| ==> SpawnsOk(jobs, scope, spawn, j)
    ensures |Stages(jobs, scope, spawn, worker, from).trace| == 2 * (|jobs| - from)
    ensures forall i :: from <= i < |jobs| ==>
      Stages(jobs, scope, spawn, worker, from).trace[2 * (i - from)] == Spawn(i, StageInput(i), StageOutput(i, |jobs|)) &&
      Stages(jobs, scope, spawn, worker, from).trace[2 * (i - from) + 1] == Join(i, worker(jobs[i], scope, StageInput(i), StageOutput(i, |jobs|)))
    decreases |jobs| - from
  {
    if from < |jobs| {
      assert SpawnsOk(jobs, scope, spawn, from);
      StagesSuccessTrace(jobs, scope, spawn, worker, from + 1);
      var rest := Stages(jobs, scope, spawn, worker, from + 1).trace;
      var t := Stages(jobs, scope, spawn, worker, from).trace;
      assert t == [Spawn(from, StageInput(from), StageOutput(from, |jobs|)),
                   Join(from, worker(jobs[from], scope, StageInput(from), StageOutput(from, |jobs|)))] + rest;
    }
  }

  /** When stage k is the first that fails to spawn, the run returns its
      error, stages before it were each spawned and joined in order, stage k
      was attempted last, and no later stage was touched. */
  lemma {:induction false} StagesFirstFailure(jobs: seq<Job>, scope: map<string, Cell>, spawn: SpawnFn, worker: WorkerFn, from: nat, k: nat)
    requires from <= k < |jobs|
    requires forall j :: from <= j < k ==> SpawnsOk(jobs, scope, spawn, j)
    requires !SpawnsOk(jobs, scope, spawn, k)
    ensures Stages(jobs, scope, spawn, worker, from).result == Err(spawn(jobs[k], scope, StageInput(k), StageOutput(k, |jobs|)).error)
    ensures |Stages(jobs, scope, spawn, worker, from).trace| == 2 * (k - from) + 1
    ensures Stages(jobs, scope, spawn, worker, from).trace[2 * (k - from)] == Spawn(k, StageInput(k), StageOutput(k, |jobs|))
    ensures forall i :: from <= i < k ==>
      Stages(jobs, scope, spawn, worker, from).trace[2 * (i - from)] == Spawn(i, StageInput(i), StageOutput(i, |jobs|)) &&
      Stages(jobs, scope, spawn, worker, from).trace[2 * (i - from) + 1] == Join(i, worker(jobs[i], scope, StageInput(i), StageOutput(i, |jobs|)))
    decreases k - from
  {
    if from < k {
      assert SpawnsOk(jobs, scope, spawn, from);
      StagesFirstFailure(jobs, scope, spawn, worker, from + 1, k);
      var rest := Stages(jobs, scope, spawn, worker, from + 1).trace;
      var t := Stages(jobs, scope, spawn, worker, from).trace;
      assert t == [Spawn(from, StageInput(from), StageOutput(from, |jobs|)),
                   Join(from, worker(jobs[from], scope, StageInput(from), StageOutput(from, |jobs|)))] + rest;
    }
  }

  /** An invocation on an Unbound or empty closure spawns nothing and
      returns its setup error; otherwise it succeeds iff every stage spawns,
      whatever the workers report. */
  lemma ExecuteOutcome(c: Closure, arguments: seq<Argument>, spawn: SpawnFn, worker: WorkerFn, other: WorkerFn)
    ensures !IsBound(c) ==> Execute(c, arguments, spawn, worker) == Run([], Err(GenericError(MissingEnv)))
    ensures IsBound(c) && |c.jobDefinitions| == 0 ==> Execute(c, arguments, spawn, worker) == Run([], Err(GenericError(EmptyClosure)))
    ensures IsBound(c) && |c.jobDefinitions| > 0 ==>
      (Execute(c, arguments, spawn, worker).result.Ok? <==>
        forall j :: 0 <= j < |c.jobDefinitions| ==> SpawnsOk(c.jobDefinitions, ChildBindings(arguments), spawn, j))
    ensures Execute(c, arguments, spawn, worker).result == Execute(c, arguments, spawn, other).result
  {
    var scope := ChildBindings(arguments);
    StagesSucceedIff(c.jobDefinitions, scope, spawn, worker, 0);
    StagesResultIgnoresWorkers(c.jobDefinitions, scope, spawn, worker, other, 0);
  }

  // ---------------------------------------------------------------------
  // Display string

  /** The parts joined with `sep` between neighbours. */
  function JoinWith(parts: seq<string>, sep: string): string
  {
    if |parts| == 0 then ""
    else if |parts| == 1 then parts[0]
    else parts[0] + sep + JoinWith(parts[1..], sep)
  }

  function TotalLength(parts: seq<string>): nat
  {
    if parts == [] then 0 else |parts[0]| + TotalLength(parts[1..])
  }

  /** Joining adds exactly one separator between each pair of neighbours. */
  lemma {:induction false} JoinWithLength(parts: seq<string>, sep: string)
    requires |parts| > 0
    ensures |JoinWith(parts, sep)| == TotalLength(parts) + |sep| * (|parts| - 1)
  {
    if |parts| > 1 {
      JoinWithLength(parts[1..], sep);
    }
  }

  /** Joining a longer list appends a separator and the new part. */
  lemma {:induction false} JoinWithSnoc(parts: seq<string>, sep: string, p: string)
    requires |parts| > 0
    ensures JoinWith(parts + [p], sep) == JoinWith(parts, sep) + sep + p
  {
    if |parts| == 1 {
      assert (parts + [p])[1..] == [p];
    } else {
      assert (parts + [p])[1..] == parts[1..] + [p];
      JoinWithSnoc(parts[1..], sep, p);
    }
  }

  /** `to_string`. */
  function ToString(c: Closure, jobString: Job -> string): string
  {
    JoinWith(Map(c.jobDefinitions, jobString), "; ")
  }

  /** The display string of a closure with one more definition is the old
      string, `"; "`, and the new definition's string; a single definition
      shows as its own string and no definition as the empty string. */
  lemma ToStringShape(jobs: seq<Job>, env: Option<Namespace>, jobString: Job -> string, j: Job)
    ensures ToString(Closure([], env), jobString) == ""
    ensures ToString(Closure([j], env), jobString) == jobString(j)
    ensures |jobs| > 0 ==>
      ToString(Closure(jobs + [j], env), jobString) == ToString(Closure(jobs, env), jobString) + "; " + jobString(j)
  {
    if |jobs| > 0 {
      var strs := Map(jobs, jobString);
      assert Map(jobs + [j], jobString) == strs + [jobString(j)];
      JoinWithSnoc(strs, "; ", jobString(j));
    }
  }
}
