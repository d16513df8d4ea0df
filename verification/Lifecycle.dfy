/** The life of a microservice under create, run, stop, delete and device-information
    requests: which contents it holds in which state. */
module Lifecycle {
  import opened ServiceTypes
  import opened Parameters

  /** A task as far as requests see it; `task_t` says whether it has a kernel task. */
  datatype Task = Task(task_idx: nat, offloading: bool, initial_state: State, state: State, task_t: bool,
                       user_params: seq<Param>, static_params: seq<Param>, flexible_params: seq<Param>)

  /** The entries of the lists of a service, and whether it has a decision tree. */
  datatype Contents = Contents(tasks: seq<Task>, lines: seq<string>, params: seq<string>, linked: bool)

  const EMPTY := Contents([], [], [], false)

  datatype Slot = Slot(state: State, contents: Contents)

  /** Running carries the positions of the tasks whose initialisation aborts. */
  datatype Request = Create | Run(aborts: set<nat>) | Stop | Delete | DeviceInfo

  /** A task as the create function of a service defines it. */
  datatype NewTask = NewTask(offloading: bool, onoff: bool,
                             user_params: seq<Param>, static_params: seq<Param>, flexible_params: seq<Param>)

  /** What the create function adds, in list order. */
  datatype Recipe = Recipe(tasks: seq<NewTask>, lines: seq<string>, params: seq<string>)

  /** A task added when the list had idx entries. */
  function Added(t: NewTask, idx: nat): Task {
    Task(idx % 256, t.offloading, if t.onoff then I_S_READY else I_S_STOP, NOT_READY, false,
         t.user_params, t.static_params, t.flexible_params)
  }

  /** The tasks that create prepends to a list of `base` entries: the last of them is added first. */
  function AddedAll(tasks: seq<NewTask>, base: nat): (r: seq<Task>)
    ensures |r| == |tasks|
    ensures forall i :: 0 <= i < |tasks| ==> r[i] == Added(tasks[i], base + |tasks| - 1 - i)
  {
    seq(|tasks|, i requires 0 <= i < |tasks| => Added(tasks[i], base + |tasks| - 1 - i))
  }

  /** create prepends; make_task_links leaves a tree as soon as there are two tasks. */
  function Created(recipe: Recipe, c: Contents): Contents {
    Contents(AddedAll(recipe.tasks, |c.tasks|) + c.tasks, recipe.lines + c.lines, recipe.params + c.params,
             c.linked || |recipe.tasks| + |c.tasks| >= 2)
  }

  /** What a delete-all loop leaves: its 8-bit count only sees the length modulo 256. */
  function Drained<X>(s: seq<X>): seq<X> {
    s[|s| % 256..]
  }

  function Cleared(c: Contents): Contents {
    Contents(Drained(c.tasks), Drained(c.lines), Drained(c.params), false)
  }

  // ----- running -----

  /** The task is to be started with the service. */
  predicate IsOn(t: Task) {
    t.initial_state != I_S_STOP
  }

  /** run_task: an active task is refused as it is, one whose initialisation aborts is left
      stopped. */
  function RunTask(t: Task, aborts: bool): (r: (Task, bool))
    ensures r.1 <==> t.state in {NOT_READY, STOPPED} && !aborts
  {
    if IsActiveState(t.state) then (t, false)
    else if aborts then (t.(state := STOPPED, task_t := false), false)
    else (t.(state := CREATED, task_t := true), true)
  }

  /** Runs the tasks that are on, from a position on, up to the first failure. */
  function StartTasks(tasks: seq<Task>, aborts: set<nat>, from: nat): (r: (seq<Task>, bool))
    ensures |r.0| == |tasks|
    decreases |tasks| - from
  {
    if from >= |tasks| then (tasks, true)
    else if !IsOn(tasks[from]) then StartTasks(tasks, aborts, from + 1)
    else
      var (t, ok) := RunTask(tasks[from], from in aborts);
      if ok then StartTasks(tasks[from := t], aborts, from + 1) else (tasks[from := t], false)
  }

  function Resumed(t: Task): Task {
    if t.state == STOPPED then t.(state := RUNNING) else t
  }

  function ResumeTasks(tasks: seq<Task>): (r: seq<Task>)
    ensures |r| == |tasks| && forall i :: 0 <= i < |tasks| ==> r[i] == Resumed(tasks[i])
  {
    seq(|tasks|, i requires 0 <= i < |tasks| => Resumed(tasks[i]))
  }

  /** The contents with another task list. */
  function Holding(c: Contents, tasks: seq<Task>): Contents {
    c.(tasks := tasks)
  }

  /** The first task from a position on that does not start, or the number of tasks. */
  function FirstFailure(tasks: seq<Task>, aborts: set<nat>, from: nat): (n: nat)
    requires from <= |tasks|
    ensures from <= n <= |tasks|
    ensures forall i :: from <= i < n && IsOn(tasks[i]) ==> RunTask(tasks[i], i in aborts).1
    ensures n < |tasks| ==> IsOn(tasks[n]) && !RunTask(tasks[n], n in aborts).1
    decreases |tasks| - from
  {
    if from == |tasks| || (IsOn(tasks[from]) && !RunTask(tasks[from], from in aborts).1) then from
    else FirstFailure(tasks, aborts, from + 1)
  }

  /** Starting succeeds exactly when every task that is on starts. */
  lemma {:induction false} StartsExactly(tasks: seq<Task>, aborts: set<nat>, from: nat)
    requires from <= |tasks|
    ensures StartTasks(tasks, aborts, from).1 <==> FirstFailure(tasks, aborts, from) == |tasks|
    decreases |tasks| - from
  {
    if from < |tasks| {
      if !IsOn(tasks[from]) {
        StartsExactly(tasks, aborts, from + 1);
      } else if RunTask(tasks[from], from in aborts).1 {
        var next := tasks[from := RunTask(tasks[from], from in aborts).0];
        StartsExactly(next, aborts, from + 1);
        SameFailure(tasks, next, aborts, from + 1);
      }
    }
  }

  /** The tasks that are on are run up to and including the first failure; those behind it, and
      those that are off, stay as they are. */
  lemma {:induction false} StartExact(tasks: seq<Task>, aborts: set<nat>, from: nat, j: nat)
    requires from <= |tasks| && j < |tasks|
    ensures StartTasks(tasks, aborts, from).0[j] ==
            if from <= j <= FirstFailure(tasks, aborts, from) && IsOn(tasks[j]) then
              RunTask(tasks[j], j in aborts).0
            else tasks[j]
    decreases |tasks| - from
  {
    if from < |tasks| {
      if !IsOn(tasks[from]) {
        StartExact(tasks, aborts, from + 1, j);
      } else if RunTask(tasks[from], from in aborts).1 {
        var next := tasks[from := RunTask(tasks[from], from in aborts).0];
        StartExact(next, aborts, from + 1, j);
        SameFailure(tasks, next, aborts, from + 1);
      }
    }
  }

  lemma {:induction false} SameFailure(a: seq<Task>, b: seq<Task>, aborts: set<nat>, from: nat)
    requires |a| == |b| && from <= |a| && a[from..] == b[from..]
    ensures FirstFailure(a, aborts, from) == FirstFailure(b, aborts, from)
    decreases |a| - from
  {
    if from < |a| {
      assert a[from] == a[from..][0] && b[from] == b[from..][0];
      assert a[from + 1..] == a[from..][1..] && b[from + 1..] == b[from..][1..];
      SameFailure(a, b, aborts, from + 1);
    }
  }

  /** run_micro_service: a created service starts its tasks, a stopped one resumes them. */
  function RunSlot(s: Slot, aborts: set<nat>): Slot {
    if s.state == CREATED then
      var (tasks, ok) := StartTasks(s.contents.tasks, aborts, 0);
      Slot(if ok then RUNNING else STOPPED, Holding(s.contents, tasks))
    else if s.state == STOPPED then Slot(RUNNING, Holding(s.contents, ResumeTasks(s.contents.tasks)))
    else s
  }

  /** task_onoff: whether the task lets itself be switched, and the task afterwards. */
  function OnOff(t: Task, on: bool): (bool, Task) {
    if !t.offloading then (false, t)
    else if on then
      if IsActiveState(t.state) then (false, t) else (true, t.(initial_state := I_S_ACTIVE))
    else (true, t.(state := STOPPED, initial_state := I_S_STOP, task_t := false))
  }

  /** A task without its parameters, which play no part in running and switching. */
  function Bare(t: Task): Task {
    t.(user_params := [], static_params := [], flexible_params := [])
  }

  function BareAll(tasks: seq<Task>): (r: seq<Task>)
    ensures |r| == |tasks| && forall i :: 0 <= i < |tasks| ==> r[i] == Bare(tasks[i])
  {
    seq(|tasks|, i requires 0 <= i < |tasks| => Bare(tasks[i]))
  }

  function BareSlot(s: Slot): Slot {
    Slot(s.state, Holding(s.contents, BareAll(s.contents.tasks)))
  }

  lemma {:induction false} StartBare(tasks: seq<Task>, aborts: set<nat>, from: nat)
    ensures var (r, ok) := StartTasks(tasks, aborts, from); StartTasks(BareAll(tasks), aborts, from) == (BareAll(r), ok)
    decreases |tasks| - from
  {
    if from < |tasks| {
      var t := RunTask(tasks[from], from in aborts).0;
      assert BareAll(tasks[from := t]) == BareAll(tasks)[from := Bare(t)];
      if !IsOn(tasks[from]) {
        StartBare(tasks, aborts, from + 1);
      } else if RunTask(tasks[from], from in aborts).1 {
        StartBare(tasks[from := t], aborts, from + 1);
      }
    }
  }

  /** So leaving parameters out commutes with running a service and with switching a task. */
  lemma RunBare(s: Slot, aborts: set<nat>)
    ensures RunSlot(BareSlot(s), aborts) == BareSlot(RunSlot(s, aborts))
    ensures Succeeds(BareSlot(s), Run(aborts)) == Succeeds(s, Run(aborts))
  {
    StartBare(s.contents.tasks, aborts, 0);
    assert ResumeTasks(BareAll(s.contents.tasks)) == BareAll(ResumeTasks(s.contents.tasks));
  }

  lemma OnOffBare(t: Task, on: bool)
    ensures OnOff(Bare(t), on) == (OnOff(t, on).0, Bare(OnOff(t, on).1))
  {
  }

  // ----- requests -----

  function Step(recipe: Recipe, s: Slot, request: Request): Slot {
    match request
    case Create =>
      if s.state == NOT_READY then Slot(CREATED, Created(recipe, s.contents)) else s
    case Run(aborts) => RunSlot(s, aborts)
    case Stop => Slot(CREATED, Created(recipe, Cleared(s.contents)))
    case Delete => Slot(NOT_READY, Cleared(s.contents))
    case DeviceInfo =>
      if s.state == RUNNING then s else Slot(NOT_READY, Cleared(Created(recipe, s.contents)))
  }

  /** What a request returns to its caller. */
  predicate Succeeds(s: Slot, request: Request) {
    match request
    case Create => s.state == NOT_READY
    case Run(aborts) => s.state == STOPPED || (s.state == CREATED && StartTasks(s.contents.tasks, aborts, 0).1)
    case _ => true
  }

  /** The record of a service, changed in place by the requests. */
  class Record {
    const recipe: Recipe
    var state: State
    var contents: Contents

    function Now(): Slot
      reads this
    {
      Slot(state, contents)
    }

    constructor (recipe: Recipe)
      ensures this.recipe == recipe && Now() == Slot(NOT_READY, EMPTY)
    {
      this.recipe, state, contents := recipe, NOT_READY, EMPTY;
    }

    method CreateMicroService() returns (rtn: bool)
      modifies this
      ensures Now() == Step(recipe, old(Now()), Create)
      ensures rtn == old(Succeeds(Now(), Create)) == (old(state) == NOT_READY)
      ensures !rtn ==> Now() == old(Now())
      ensures rtn && Small(recipe) && old(contents) == EMPTY ==> IsNewSlot(recipe, Now())
    {
      if Small(recipe) {
        CreatedIsNew(recipe);
      }
      if state != NOT_READY {
        return false;
      }
      contents := Created(recipe, contents);
      state := CREATED;
      rtn := true;
    }

    /** A created service starts its tasks, a stopped one resumes them. */
    method RunMicroService(aborts: set<nat>) returns (rtn: bool)
      modifies this
      ensures Now() == Step(recipe, old(Now()), Run(aborts))
      ensures rtn == old(Succeeds(Now(), Run(aborts)))
    {
      if state == CREATED {
        state := RUNNING;
        rtn := RunTasks(aborts);
        if !rtn {
          StopTask();
        }
      } else if state == STOPPED {
        state := RUNNING;
        Resume();
        rtn := true;
      } else {
        rtn := false;
      }
    }

    method RunTasks(aborts: set<nat>) returns (ok: bool)
      modifies this`contents
      ensures var (tasks, started) := StartTasks(old(contents.tasks), aborts, 0);
              contents == Holding(old(contents), tasks) && ok == started
    {
      for i := 0 to |contents.tasks|
        invariant contents == Holding(old(contents), contents.tasks) && |contents.tasks| == |old(contents.tasks)|
        invariant StartTasks(contents.tasks, aborts, i) == StartTasks(old(contents.tasks), aborts, 0)
      {
        if IsOn(contents.tasks[i]) {
          var (t, started) := RunTask(contents.tasks[i], i in aborts);
          contents := Holding(contents, contents.tasks[i := t]);
          if !started {
            return false;
          }
        }
      }
      ok := true;
    }

    method Resume()
      modifies this`contents
      ensures contents == Holding(old(contents), ResumeTasks(old(contents.tasks)))
    {
      for i := 0 to |contents.tasks|
        invariant contents == Holding(old(contents), contents.tasks) && |contents.tasks| == |old(contents.tasks)|
        invariant forall k :: 0 <= k < |contents.tasks| ==>
                    contents.tasks[k] == if k < i then Resumed(old(contents.tasks)[k]) else old(contents.tasks)[k]
      {
        if contents.tasks[i].state == STOPPED {
          contents := Holding(contents, contents.tasks[i := contents.tasks[i].(state := RUNNING)]);
        }
      }
      assert contents.tasks == ResumeTasks(old(contents.tasks));
    }

    method StopTask()
      modifies this`state
      ensures state == if old(state) == RUNNING then STOPPED else old(state)
    {
      if state == RUNNING || state == STOPPED {
        state := STOPPED;
      }
    }

    method StopMicroService() returns (rtn: bool)
      modifies this
      ensures Now() == Step(recipe, old(Now()), Stop) && rtn
      ensures Small(recipe) && Inv(recipe, old(Now())) ==> IsNewSlot(recipe, Now())
    {
      if Small(recipe) && Inv(recipe, Now()) {
        StepKeepsInv(recipe, Now(), Stop);
      }
      if state == RUNNING {
        StopTask();
      }
      state := NOT_READY;
      Clear();
      contents := Created(recipe, contents);
      state := CREATED;
      rtn := true;
    }

    method DelMicroService() returns (rtn: bool)
      modifies this
      ensures Now() == Step(recipe, old(Now()), Delete) && rtn
      ensures state == NOT_READY && !contents.linked &&
              contents.tasks == old(contents.tasks)[|old(contents.tasks)| % 256..]
      ensures contents.lines == old(contents.lines)[|old(contents.lines)| % 256..]
      ensures contents.params == old(contents.params)[|old(contents.params)| % 256..]
      ensures Small(recipe) && Inv(recipe, old(Now())) ==> Now() == Slot(NOT_READY, EMPTY)
    {
      if Small(recipe) && Inv(recipe, Now()) {
        StepKeepsInv(recipe, Now(), Delete);
      }
      if state == RUNNING {
        StopTask();
      }
      state := NOT_READY;
      Clear();
      rtn := true;
    }

    method Clear()
      modifies this`contents
      ensures contents == Cleared(old(contents))
    {
      var tasks := DeleteAll(contents.tasks);
      var params := DeleteAll(contents.params);
      var lines := DeleteAll(contents.lines);
      contents := Contents(tasks, lines, params, false);
    }

    /** What a device-information request does to the service while it is reported. */
    method DeviceInformation()
      modifies this
      ensures Now() == Step(recipe, old(Now()), DeviceInfo)
      ensures Small(recipe) && Inv(recipe, old(Now())) ==>
                Now() == if old(state) == RUNNING then old(Now()) else Slot(NOT_READY, EMPTY)
    {
      if Small(recipe) && Inv(recipe, Now()) {
        StepKeepsInv(recipe, Now(), DeviceInfo);
      }
      var isRunning := state == RUNNING;
      if !isRunning {
        contents := Created(recipe, contents);
      }
      if !isRunning {
        var deleted := DelMicroService();
      }
    }
  }

  method DeleteAll<X>(s: seq<X>) returns (rest: seq<X>)
    ensures rest == Drained(s)
  {
    rest := s;
    var nodeNum := |s| % 256;
    while nodeNum != 0
      invariant 0 <= nodeNum <= |s| % 256
      invariant rest == s[|s| % 256 - nodeNum..]
    {
      rest := rest[1..];
      nodeNum := nodeNum - 1;
    }
  }

  function RunAll(recipe: Recipe, s: Slot, requests: seq<Request>): Slot
    decreases |requests|
  {
    if requests == [] then s else RunAll(recipe, Step(recipe, s, requests[0]), requests[1..])
  }

  // ----- the invariant -----

  /** The same task, up to its switching state and the values of its flexible parameters. */
  predicate SameTask(a: Task, b: Task) {
    && a.task_idx == b.task_idx && a.offloading == b.offloading
    && a.user_params == b.user_params && a.static_params == b.static_params
    && SameKinds(a.flexible_params, b.flexible_params)
  }

  predicate SameTasks(a: seq<Task>, b: seq<Task>) {
    |a| == |b| && forall i :: 0 <= i < |a| ==> SameTask(a[i], b[i])
  }

  lemma SameTransitive(a: seq<Task>, b: seq<Task>, c: seq<Task>)
    requires SameTasks(a, b) && SameTasks(b, c)
    ensures SameTasks(a, c)
  {
    forall i | 0 <= i < |a| ensures SameTask(a[i], c[i]) {
      assert SameTask(a[i], b[i]) && SameTask(b[i], c[i]);
      SameKindsTransitive(a[i].flexible_params, b[i].flexible_params, c[i].flexible_params);
    }
  }

  /** No task is active, and none has a kernel task. */
  predicate Idle(tasks: seq<Task>) {
    forall t <- tasks :: t.state in {NOT_READY, STOPPED} && !t.task_t
  }

  /** A service that is not ready holds nothing. Any other holds the tasks of one create, none
      twice and none missing, with their user and static parameters untouched; until it runs,
      they are idle. */
  predicate Inv(recipe: Recipe, s: Slot) {
    if s.state == NOT_READY then s.contents == EMPTY
    else
      var created := Created(recipe, EMPTY);
      && SameTasks(s.contents.tasks, created.tasks) && s.contents == Holding(created, s.contents.tasks)
      && (s.state == CREATED ==> Idle(s.contents.tasks))
  }

  /** The invariant after these requests to a new service. */
  ghost predicate HoldsAfter(recipe: Recipe, requests: seq<Request>) {
    Inv(recipe, RunAll(recipe, Slot(NOT_READY, EMPTY), requests))
  }

  /** Two create's worth of every list fit the 8-bit count. */
  predicate Small(recipe: Recipe) {
    |recipe.tasks| <= 127 && |recipe.lines| <= 127 && |recipe.params| <= 127
  }

  lemma ClearedIsEmpty(c: Contents)
    requires |c.tasks| <= 255 && |c.lines| <= 255 && |c.params| <= 255
    ensures Cleared(c) == EMPTY
  {
    DrainedIsEmpty(c.tasks);
    DrainedIsEmpty(c.lines);
    DrainedIsEmpty(c.params);
  }

  lemma DrainedIsEmpty<X>(s: seq<X>)
    requires |s| <= 255
    ensures Drained(s) == []
  {
    assert |s| % 256 == |s|;
  }

  lemma CreatedKeepsInv(recipe: Recipe)
    ensures Inv(recipe, Slot(CREATED, Created(recipe, EMPTY)))
  {
  }

  /** A task as its recipe defines it, with the given index: not started yet, and to be started with
      the service if it is defined to be on. */
  predicate NewAt(t: Task, n: NewTask, idx: int) {
    && t.task_idx == idx && t.offloading == n.offloading
    && t.initial_state == (if n.onoff then CREATED else STOPPED) && t.state == NOT_READY && !t.task_t
    && t.user_params == n.user_params && t.static_params == n.static_params && t.flexible_params == n.flexible_params
  }

  /** A service just created: one entry for each in the recipe, in order. The task added first is the
      last of the list and has index 0. */
  predicate IsNewSlot(recipe: Recipe, s: Slot) {
    && s.state == CREATED && |s.contents.tasks| == |recipe.tasks|
    && (forall i :: 0 <= i < |recipe.tasks| ==> NewAt(s.contents.tasks[i], recipe.tasks[i], |recipe.tasks| - 1 - i))
    && s.contents.lines == recipe.lines && s.contents.params == recipe.params
    && (s.contents.linked <==> |recipe.tasks| >= 2)
  }

  lemma CreatedIsNew(recipe: Recipe)
    requires Small(recipe)
    ensures IsNewSlot(recipe, Slot(CREATED, Created(recipe, EMPTY)))
  {
  }

  lemma RunSame(tasks: seq<Task>, aborts: set<nat>)
    ensures SameTasks(StartTasks(tasks, aborts, 0).0, tasks) && SameTasks(ResumeTasks(tasks), tasks)
  {
    forall j | 0 <= j < |tasks| ensures SameTask(StartTasks(tasks, aborts, 0).0[j], tasks[j]) {
      StartExact(tasks, aborts, 0, j);
    }
  }

  lemma RunStepKeepsInv(recipe: Recipe, s: Slot, aborts: set<nat>)
    requires Inv(recipe, s)
    ensures Inv(recipe, Step(recipe, s, Run(aborts)))
  {
    RunSame(s.contents.tasks, aborts);
    if s.state == CREATED || s.state == STOPPED {
      SameTransitive(Step(recipe, s, Run(aborts)).contents.tasks, s.contents.tasks, Created(recipe, EMPTY).tasks);
    }
  }

  lemma StepKeepsInv(recipe: Recipe, s: Slot, request: Request)
    requires Small(recipe) && Inv(recipe, s)
    ensures Inv(recipe, Step(recipe, s, request))
    ensures request == Create ==>
              if s.state == NOT_READY then IsNewSlot(recipe, Step(recipe, s, request))
              else Step(recipe, s, request) == s
    ensures request == Stop ==> IsNewSlot(recipe, Step(recipe, s, request))
    ensures request == Delete ==> Step(recipe, s, request) == Slot(NOT_READY, EMPTY)
    ensures request == DeviceInfo ==>
            Step(recipe, s, request) == if s.state == RUNNING then s else Slot(NOT_READY, EMPTY)
  {
    CreatedKeepsInv(recipe);
    CreatedIsNew(recipe);
    match request {
      case Create =>
      case Run(aborts) => RunStepKeepsInv(recipe, s, aborts);
      case Stop => ClearedIsEmpty(s.contents);
      case Delete => ClearedIsEmpty(s.contents);
      case DeviceInfo => ClearedIsEmpty(Created(recipe, s.contents));
    }
  }

  /** A service as create left it, or with tasks switched since, starts exactly when no task
      that is on aborts; then just these have a kernel task. */
  lemma CreatedStarts(recipe: Recipe, s: Slot, aborts: set<nat>)
    requires Inv(recipe, s) && s.state == CREATED
    ensures var tasks, next := s.contents.tasks, Step(recipe, s, Run(aborts));
            && |next.contents.tasks| == |tasks|
            && (next.state == if AbortsOn(tasks, aborts) then STOPPED else RUNNING)
            && (next.state == RUNNING ==> forall i :: 0 <= i < |tasks| ==>
                  next.contents.tasks[i] == if tasks[i].initial_state == STOPPED then tasks[i]
                                            else tasks[i].(state := CREATED, task_t := true))
  {
    var tasks := s.contents.tasks;
    StartsExactly(tasks, aborts, 0);
    forall i | 0 <= i < |tasks| ensures tasks[i] in tasks && StartTasks(tasks, aborts, 0).0[i] ==
        if i <= FirstFailure(tasks, aborts, 0) && IsOn(tasks[i]) then RunTask(tasks[i], i in aborts).0 else tasks[i]
    {
      StartExact(tasks, aborts, 0, i);
    }
  }

  /** One of the tasks that are to be started aborts. */
  predicate AbortsOn(tasks: seq<Task>, aborts: set<nat>) {
    exists i :: 0 <= i < |tasks| && tasks[i].initial_state != STOPPED && i in aborts
  }

  /** Creating a service that is not ready and running it leaves one task for each in the recipe, of
      which exactly those defined to be on have started. */
  lemma CreateThenRun(recipe: Recipe, aborts: set<nat>)
    requires Small(recipe) && forall i :: 0 <= i < |recipe.tasks| && recipe.tasks[i].onoff ==> i !in aborts
    ensures var s := Step(recipe, Step(recipe, Slot(NOT_READY, EMPTY), Create), Run(aborts));
            && s.state == RUNNING && |s.contents.tasks| == |recipe.tasks|
            && forall i :: 0 <= i < |recipe.tasks| ==>
                 && s.contents.tasks[i].state == (if recipe.tasks[i].onoff then CREATED else NOT_READY)
                 && s.contents.tasks[i].task_t == recipe.tasks[i].onoff
  {
    var created := Step(recipe, Slot(NOT_READY, EMPTY), Create);
    StepKeepsInv(recipe, Slot(NOT_READY, EMPTY), Create);
    CreatedStarts(recipe, created, aborts);
    forall i | 0 <= i < |recipe.tasks|
        ensures NewAt(created.contents.tasks[i], recipe.tasks[i], |recipe.tasks| - 1 - i) {
    }
  }

  /** Switching a task of a created service on or off decides whether it starts with the service. */
  lemma SwitchDecidesStart(recipe: Recipe, s: Slot, j: nat, on: bool, aborts: set<nat>)
    requires Inv(recipe, s) && s.state == CREATED && j < |s.contents.tasks| && s.contents.tasks[j].offloading
    requires forall i :: 0 <= i < |s.contents.tasks| ==> i !in aborts
    ensures OnOff(s.contents.tasks[j], on).0
    ensures var switched := Holding(s.contents, s.contents.tasks[j := OnOff(s.contents.tasks[j], on).1]);
            var t := Step(recipe, Slot(CREATED, switched), Run(aborts)).contents.tasks[j];
            t.task_t == on && t.state == (if on then CREATED else STOPPED)
  {
    var tasks := s.contents.tasks;
    assert tasks[j] in tasks;
    var next := tasks[j := OnOff(tasks[j], on).1];
    var switched := Slot(CREATED, Holding(s.contents, next));
    assert SameTasks(next, tasks);
    SameTransitive(next, tasks, Created(recipe, EMPTY).tasks);
    assert Idle(next);
    CreatedStarts(recipe, switched, aborts);
  }

  /** Resuming a stopped service makes the tasks that were stopped run: they cannot be switched on,
      unlike those that never ran. */
  lemma ResumeThenOn(recipe: Recipe, s: Slot, aborts: set<nat>, j: nat)
    requires s.state == STOPPED && j < |s.contents.tasks|
    ensures var next := Step(recipe, s, Run(aborts));
            var was, t := s.contents.tasks[j], next.contents.tasks[j];
            && next.state == RUNNING
            && t == was.(state := if was.state == STOPPED then RUNNING else was.state)
            && (OnOff(t, true).0 <==> t.offloading && was.state == NOT_READY)
            && (OnOff(t, false).0 <==> t.offloading)
  {
  }

  lemma {:induction false} RunKeepsInv(recipe: Recipe, s: Slot, requests: seq<Request>)
    requires Small(recipe) && Inv(recipe, s)
    ensures Inv(recipe, RunAll(recipe, s, requests))
    decreases |requests|
  {
    if requests != [] {
      StepKeepsInv(recipe, s, requests[0]);
      RunKeepsInv(recipe, Step(recipe, s, requests[0]), requests[1..]);
    }
  }

  /** The invariant holds over every sequence of requests exactly when create adds at most
      127 entries to each list. Beyond that, create and then device-information, which
      creates a second time before deleting, leaves entries behind. */
  lemma InvariantIffSmall(recipe: Recipe)
    ensures (forall requests :: HoldsAfter(recipe, requests)) <==> Small(recipe)
  {
    var start := Slot(NOT_READY, EMPTY);
    if Small(recipe) {
      forall requests ensures HoldsAfter(recipe, requests) {
        RunKeepsInv(recipe, start, requests);
      }
    } else {
      var requests := [Create, DeviceInfo];
      var s1 := Step(recipe, start, Create);
      assert requests[1..] == [DeviceInfo];
      assert RunAll(recipe, start, requests) == Step(recipe, s1, DeviceInfo) by {
        assert RunAll(recipe, s1, [DeviceInfo]) == RunAll(recipe, Step(recipe, s1, DeviceInfo), []);
      }
      assert !HoldsAfter(recipe, requests);
    }
  }
}
