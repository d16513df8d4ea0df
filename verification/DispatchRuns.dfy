/** What every run of the dispatcher keeps of the services, and how it answers. */
module DispatchRuns {
  import opened Basics
  import opened ServiceTypes
  import opened Lifecycle
  import opened Parameters
  import opened Dispatch
  import opened DispatchRequests

  /** Every service meets the lifecycle invariant, and its recipe is small enough for the 8-bit
      counts. */
  predicate AllInv(services: seq<Service>) {
    forall k :: 0 <= k < |services| ==> Small(services[k].recipe) && Inv(services[k].recipe, services[k].slot)
  }

  lemma {:induction false} OperateKeepsInv(services: seq<Service>, items: seq<Obj>, iface: int,
      aborts: nat -> set<nat>, n: nat)
    requires AllInv(services) && n <= |items|
    ensures AllInv(OperateServices(services, items, iface, aborts, n))
  {
    hide AllInv, Stepped, RequestOf;
    if n > 0 {
      var was, request := OperateServices(services, items, iface, aborts, n - 1), RequestOf(iface, aborts(n - 1));
      OperateKeepsInv(services, items, iface, aborts, n - 1);
      SteppedKeepsInv(was, items[n - 1], request);
      assert OperateServices(services, items, iface, aborts, n) == Stepped(was, items[n - 1], request);
    }
  }

  lemma SteppedKeepsInv(services: seq<Service>, item: Obj, request: Request)
    requires AllInv(services)
    ensures AllInv(Stepped(services, item, request))
  {
    match FindService(services, TextOr(item)) {
      case None =>
      case Some(k) => StepKeepsInv(services[k].recipe, services[k].slot, request);
    }
  }

  /** Replacing the tasks of a service by the same tasks keeps its invariant; if it has not run
      yet, they must be idle. */
  lemma WithTasksKeepsInv(services: seq<Service>, k: nat, tasks: seq<Task>)
    requires AllInv(services) && k < |services| && SameTasks(tasks, Tasks(services, k))
    requires services[k].slot.state == CREATED ==> Idle(tasks)
    ensures AllInv(WithTasks(services, k, tasks))
  {
    var s := services[k];
    if s.slot.state == NOT_READY {
      assert tasks == [];
      assert Holding(s.slot.contents, tasks) == EMPTY;
    } else {
      SameTransitive(tasks, s.slot.contents.tasks, Created(s.recipe, EMPTY).tasks);
    }
  }

  lemma {:induction false} InformKeepsInv(services: seq<Service>)
    requires AllInv(services)
    ensures AllInv(InformAll(services))
  {
    if services != [] {
      StepKeepsInv(services[0].recipe, services[0].slot, DeviceInfo);
      assert AllInv(services[1..]);
      InformKeepsInv(services[1..]);
    }
  }

  lemma SetIdle(env: Env, tasks: seq<Task>, tis: seq<Obj>, pairs: seq<Entry>)
    requires Reaches(env, tasks, tis, pairs) && Idle(tasks)
    ensures Idle(SetTasks(env, tasks, tis, pairs, false, 400).0)
  {
    var r := SetTasks(env, tasks, tis, pairs, false, 400).0;
    forall j | 0 <= j < |r| ensures r[j].state in {NOT_READY, STOPPED} && !r[j].task_t {
      SetTasksExact(env, tasks, tis, pairs, false, 400, j);
      assert tasks[j] in tasks;
    }
  }

  lemma SwitchIdle(env: Env, tasks: seq<Task>, tis: seq<Obj>, on: bool)
    requires Idle(tasks)
    ensures Idle(SwitchTasks(env, tasks, tis, on, 400).0)
  {
    var r := SwitchTasks(env, tasks, tis, on, 400).0;
    forall j | 0 <= j < |r| ensures r[j].state in {NOT_READY, STOPPED} && !r[j].task_t {
      SwitchTasksExact(env, tasks, tis, on, 400, j);
      assert tasks[j] in tasks;
    }
  }

  lemma ParamSetKeepsInv(env: Env, services: seq<Service>, body: seq<Entry>)
    requires AllInv(services) && SafeSet(env, services, body)
    ensures AllInv(ParamSet(env, services, body).services)
  {
    match (TheService(services, body), Items(body, "tis"), Get(body, "fp")) {
      case (Some(k), Some(tis), Some(Dict(pairs))) =>
        var tasks := Tasks(services, k);
        SetTasksSame(env, tasks, tis, pairs);
        if services[k].slot.state == CREATED {
          SetIdle(env, tasks, tis, pairs);
        }
        WithTasksKeepsInv(services, k, SetTasks(env, tasks, tis, pairs, false, 400).0);
      case _ =>
    }
  }

  lemma OffloadingKeepsInv(env: Env, services: seq<Service>, body: seq<Entry>, iface: int)
    requires AllInv(services)
    ensures AllInv(Offloading(env, services, body, iface).services)
  {
    match (TheService(services, body), Items(body, "tis")) {
      case (Some(k), Some(tis)) =>
        var tasks, on := Tasks(services, k), iface != IF_TASK_OFF;
        SwitchTasksSame(env, tasks, tis, on);
        if services[k].slot.state == CREATED {
          SwitchIdle(env, tasks, tis, on);
        }
        WithTasksKeepsInv(services, k, SwitchTasks(env, tasks, tis, on, 400).0);
      case _ =>
    }
  }

  lemma HandledKeepsInv(env: Env, services: seq<Service>, iface: int, body: seq<Entry>, aborts: nat -> set<nat>)
    requires AllInv(services) && SafeRequest(env, services, iface, body)
    ensures AllInv(Handled(env, services, iface, body, aborts).services)
  {
    if iface == IF_TASK_INFO_REQUEST {
      InformKeepsInv(services);
    } else if iface in {IF_MS_CREATION, IF_MS_RUN, IF_MS_STOP, IF_MS_DELETE} {
      if Items(body, "mis").Some? {
        var items := Items(body, "mis").value;
        OperateKeepsInv(services, items, iface, aborts, |items|);
      }
    } else if iface == IF_TASK_PARAM_SET {
      ParamSetKeepsInv(env, services, body);
    } else if iface in {IF_TASK_ON, IF_TASK_OFF} {
      OffloadingKeepsInv(env, services, body, iface);
    }
  }

  /** A kernel task that sets its state belongs to a service that has run. */
  lemma TaskSetsKeepsInv(env: Env, services: seq<Service>, k: nat, j: nat, state: State)
    requires AllInv(services) && Safe(env, services, TaskSets(k, j, state))
    ensures AllInv(After(env, services, TaskSets(k, j, state)))
  {
    assert Tasks(services, k)[j] in Tasks(services, k);
    WithTasksKeepsInv(services, k, Tasks(services, k)[j := Tasks(services, k)[j].(state := state)]);
  }

  lemma EventKeepsInv(env: Env, services: seq<Service>, e: Event)
    requires AllInv(services) && Safe(env, services, e)
    ensures AllInv(After(env, services, e))
  {
    match e {
      case Received(m, aborts) =>
        if Address(m).Some? {
          HandledKeepsInv(env, services, env.atoi(Address(m).value.0), m.value.body, aborts);
        }
      case TaskSets(k, j, state) => TaskSetsKeepsInv(env, services, k, j, state);
    }
  }

  /** Over any run of the requests considered, every service that is not ready is empty, and every
      other one holds exactly the tasks of one create with the user and static parameters
      they were created with; before it runs, none of them is active. */
  lemma {:induction false} RunsKeepInv(env: Env, services: seq<Service>, queue: seq<Event>)
    requires AllInv(services) && SafeRun(env, services, queue)
    ensures AllInv(AfterAll(env, services, queue))
    decreases |queue|
  {
    if queue != [] {
      EventKeepsInv(env, services, queue[0]);
      RunsKeepInv(env, After(env, services, queue[0]), queue[1..]);
    }
  }

  /** After a service has been started, a task lets itself be switched on exactly when it was off,
      or has been stopped since: by its own kernel task. */
  lemma RunThenOn(s: Service, aborts: set<nat>, j: nat)
    requires Inv(s.recipe, s.slot) && s.slot.state == CREATED && j < |s.slot.contents.tasks| &&
             s.slot.contents.tasks[j].offloading
    requires Step(s.recipe, s.slot, Run(aborts)).state == RUNNING
    ensures var t := Step(s.recipe, s.slot, Run(aborts)).contents.tasks[j];
            && (OnOff(t, true).0 <==> s.slot.contents.tasks[j].initial_state == STOPPED)
            && OnOff(t.(state := STOPPED), true).0
  {
    CreatedStarts(s.recipe, s.slot, aborts);
    RunSame(s.slot.contents.tasks, aborts);
  }

  // ----- answers -----

  /** The dris of the addressed messages that have one, in order. */
  function Dris(queue: seq<Event>): seq<string> {
    if queue == [] then []
    else
      (match queue[0]
       case Received(m, _) =>
         if Address(m).Some? && Address(m).value.1.Some? then [Address(m).value.1.value] else []
       case TaskSets(_, _, _) => [])
      + Dris(queue[1..])
  }

  /** The dris of the responses that have one, in order. */
  function Answered(replies: seq<Response>): seq<string> {
    if replies == [] then []
    else (if replies[0].dri.Some? then [replies[0].dri.value] else []) + Answered(replies[1..])
  }

  lemma {:induction false} AnsweredAppend(a: seq<Response>, b: seq<Response>)
    ensures Answered(a + b) == Answered(a) + Answered(b)
  {
    if a == [] {
      assert a + b == b;
    } else {
      assert (a + b)[1..] == a[1..] + b;
      AnsweredAppend(a[1..], b);
      Regroup(if a[0].dri.Some? then [a[0].dri.value] else [], Answered(a[1..]), Answered(b));
    }
  }

  /** Over any run each addressed request with a dri is answered exactly once, in order, under its
      own dri. No answer carries the internal code 300, and only the handlers that respond
      themselves answer a request without a dri. */
  lemma {:induction false} OneReplyEach(env: Env, services: seq<Service>, queue: seq<Event>)
    requires SafeRun(env, services, queue)
    ensures Answered(Replies(env, services, queue)) == Dris(queue)
    ensures forall r <- Replies(env, services, queue) :: r.rsc != 300 && (r.dri.None? ==> r.rsc == 200)
    decreases |queue|
  {
    if queue != [] {
      var next := After(env, services, queue[0]);
      OneReplyEach(env, next, queue[1..]);
      AnsweredAppend(Reply(env, services, queue[0]), Replies(env, next, queue[1..]));
      OneReply(env, services, queue[0]);
    }
  }

  lemma OneReply(env: Env, services: seq<Service>, e: Event)
    requires Safe(env, services, e)
    ensures Answered(Reply(env, services, e)) == Dris([e])
    ensures forall r <- Reply(env, services, e) :: r.rsc != 300 && (r.dri.None? ==> r.rsc == 200)
  {
    assert [e][1..] == [];
    match e {
      case Received(m, aborts) =>
        if Address(m).Some? {
          var dri := Address(m).value.1;
          assert forall r: Response :: [r][1..] == [];
        }
      case TaskSets(_, _, _) =>
    }
  }
}
