/** How each request is answered and what it leaves, over the runs of the dispatcher and told by
    the number of its interface: which code is sent for which reason. */
module DispatchAnswers {
  import opened Basics
  import opened ServiceTypes
  import opened Lifecycle
  import opened Parameters
  import opened Dispatch
  import opened DispatchRequests
  import opened DispatchRuns

  // ----- requests and answers -----

  /** A message with the interface n, this dri (none when it is no text) and this body. */
  ghost predicate IsRequest(env: Env, e: Event, n: int, dri: Option<string>, body: seq<Entry>) {
    && e.Received? && e.message.Some? && |e.message.value.header| % 256 != 0
    && Get(e.message.value.header, "if").Some? && Get(e.message.value.header, "if").value.Str?
    && env.atoi(Get(e.message.value.header, "if").value.s) == n
    && Get(e.message.value.header, "dri").Some?
    && dri == (var d := Get(e.message.value.header, "dri").value; if d.Str? then Some(d.s) else None)
    && e.message.value.body == body
  }

  /** The event is answered by the dispatcher with the code, under its dri if it has one. */
  ghost predicate AnsweredBy(env: Env, services: seq<Service>, e: Event, dri: Option<string>, code: int)
    requires Safe(env, services, e)
  {
    Replies(env, services, [e]) == if dri.Some? then [Response(dri, code, map[])] else []
  }

  /** The event leaves these services. */
  ghost predicate Leaves(env: Env, services: seq<Service>, e: Event, after: seq<Service>)
    requires Safe(env, services, e)
  {
    AfterAll(env, services, [e]) == after
  }

  lemma OneEvent(env: Env, services: seq<Service>, e: Event)
    requires Safe(env, services, e)
    ensures Replies(env, services, [e]) == Reply(env, services, e)
    ensures AfterAll(env, services, [e]) == After(env, services, e)
  {
    var next := After(env, services, e);
    assert [e][1..] == [];
    assert Replies(env, next, []) == [] && AfterAll(env, next, []) == next;
    assert Reply(env, services, e) + [] == Reply(env, services, e);
  }

  /** A run answers each of its events in the state that the events before it leave, so that what
      follows about single events holds for each event of every run. */
  lemma {:induction false} RunSplit(env: Env, services: seq<Service>, queue: seq<Event>, i: nat)
      returns (before: seq<Service>)
    requires SafeRun(env, services, queue) && i < |queue|
    ensures SafeRun(env, services, queue[..i]) && before == AfterAll(env, services, queue[..i])
    ensures Safe(env, before, queue[i]) && SafeRun(env, AfterAll(env, before, [queue[i]]), queue[i + 1..])
    ensures Replies(env, services, queue) ==
            Replies(env, services, queue[..i]) + (Replies(env, before, [queue[i]]) +
            Replies(env, AfterAll(env, before, [queue[i]]), queue[i + 1..]))
    ensures AfterAll(env, services, queue) ==
            AfterAll(env, AfterAll(env, before, [queue[i]]), queue[i + 1..])
    decreases i
  {
    if i == 0 {
      before := services;
      FirstSplit(env, services, queue);
    } else {
      var next := After(env, services, queue[0]);
      hide Safe, Reply, After;
      before := RunSplit(env, next, queue[1..], i - 1);
      Slices(queue, i);
      Regroup(Reply(env, services, queue[0]), Replies(env, next, queue[1..][..i - 1]),
              Replies(env, before, [queue[i]]) + Replies(env, AfterAll(env, before, [queue[i]]), queue[i + 1..]));
    }
  }

  lemma FirstSplit(env: Env, services: seq<Service>, queue: seq<Event>)
    requires SafeRun(env, services, queue) && queue != []
    ensures queue[..0] == [] && SafeRun(env, services, []) && Safe(env, services, queue[0])
    ensures AfterAll(env, services, []) == services && Replies(env, services, []) == []
    ensures var next := AfterAll(env, services, [queue[0]]);
            && SafeRun(env, next, queue[1..]) && AfterAll(env, services, queue) == AfterAll(env, next, queue[1..])
            && Replies(env, services, queue) ==
               [] + (Replies(env, services, [queue[0]]) + Replies(env, next, queue[1..]))
  {
    hide Safe, Reply, After;
    OneEvent(env, services, queue[0]);
    var next := After(env, services, queue[0]);
    var all := Reply(env, services, queue[0]) + Replies(env, next, queue[1..]);
    assert [] + all == all;
  }

  lemma Slices<X>(s: seq<X>, i: nat)
    requires 0 < i < |s|
    ensures s[..i] != [] && s[..i][0] == s[0] && s[..i][1..] == s[1..][..i - 1]
    ensures s[1..][i - 1] == s[i] && s[1..][i..] == s[i + 1..]
  {
  }

  lemma AddressIs(env: Env, e: Event, n: int, dri: Option<string>, body: seq<Entry>)
    requires IsRequest(env, e, n, dri, body)
    ensures Address(e.message).Some? && env.atoi(Address(e.message).value.0) == n
    ensures Address(e.message).value.1 == dri && e.message.value.body == body
  {
  }

  /** What the handler leaves is what the event leaves, and its code is sent unless it is 300. */
  lemma Answer(env: Env, services: seq<Service>, e: Event, n: int, dri: Option<string>, body: seq<Entry>)
    requires Safe(env, services, e) && IsRequest(env, e, n, dri, body)
    ensures SafeRequest(env, services, n, body)
    ensures var o := Handled(env, services, n, body, e.aborts);
            && Leaves(env, services, e, o.services)
            && (if o.rsc == 300 then Replies(env, services, [e]) == [Response(dri, 200, o.body)]
                else AnsweredBy(env, services, e, dri, o.rsc))
  {
    AddressIs(env, e, n, dri, body);
    OneEvent(env, services, e);
  }

  /** A message that lacks an interface or a dri has no effect and no answer. */
  lemma NotAddressed(env: Env, services: seq<Service>, m: Option<Message>, aborts: nat -> set<nat>)
    requires m.None? || |m.value.header| % 256 == 0 || Get(m.value.header, "if").None? ||
             Get(m.value.header, "dri").None?
    ensures Safe(env, services, Received(m, aborts))
    ensures Replies(env, services, [Received(m, aborts)]) == []
    ensures Leaves(env, services, Received(m, aborts), services)
  {
    OneEvent(env, services, Received(m, aborts));
  }

  /** A kernel task that sets its state changes that alone, and nothing is sent. */
  lemma KernelTaskSets(env: Env, services: seq<Service>, k: nat, j: nat, state: State)
    requires Safe(env, services, TaskSets(k, j, state))
    ensures Replies(env, services, [TaskSets(k, j, state)]) == []
    ensures var tasks := Tasks(services, k);
            OnlyTasks(services, AfterAll(env, services, [TaskSets(k, j, state)]), k,
                tasks[j := tasks[j].(state := state)])
  {
    OneEvent(env, services, TaskSets(k, j, state));
  }

  /** An interface that is none of these is answered by 400. */
  lemma OtherInterface(env: Env, services: seq<Service>, e: Event, n: int, dri: Option<string>, body: seq<Entry>)
    requires Safe(env, services, e) && IsRequest(env, e, n, dri, body)
    requires n !in {3, 10, 11, 13, 15, 16, 20, 21, 22, 23, 24}
    ensures AnsweredBy(env, services, e, dri, 400) && Leaves(env, services, e, services)
  {
    Answer(env, services, e, n, dri, body);
  }

  /** Interface 3, device information, empties every service that is not running. */
  lemma DeviceInformation(env: Env, services: seq<Service>, e: Event, dri: Option<string>, body: seq<Entry>)
    requires Safe(env, services, e) && IsRequest(env, e, 3, dri, body) && AllInv(services)
    ensures Replies(env, services, [e]) == [Response(dri, 200, map[])]
    ensures var after := AfterAll(env, services, [e]);
            |after| == |services| && forall k :: 0 <= k < |services| ==>
              after[k] == if services[k].slot.state == RUNNING then services[k]
                          else services[k].(slot := Slot(NOT_READY, EMPTY))
  {
    Answer(env, services, e, 3, dri, body);
    InformExact(services);
  }

  lemma {:induction false} InformExact(services: seq<Service>)
    requires AllInv(services)
    ensures var after := InformAll(services);
            forall k :: 0 <= k < |services| ==>
              after[k] == if services[k].slot.state == RUNNING then services[k]
                          else services[k].(slot := Slot(NOT_READY, EMPTY))
  {
    if services != [] {
      StepKeepsInv(services[0].recipe, services[0].slot, DeviceInfo);
      InformExact(services[1..]);
    }
  }

  /** A key of a dictionary stands for the value of its first entry. */
  lemma {:induction false} GetExact(entries: seq<Entry>, key: string)
    ensures match Get(entries, key)
            case None => forall i :: 0 <= i < |entries| ==> entries[i].key != key
            case Some(v) => exists i :: 0 <= i < |entries| && entries[i] == Entry(key, v) &&
                                        forall h :: 0 <= h < i ==> entries[h].key != key
  {
    if entries != [] {
      if entries[0].key == key {
        assert entries[0] == Entry(key, entries[0].value);
      } else {
        GetExact(entries[1..], key);
        if Get(entries[1..], key).Some? {
          var i :| 0 <= i < |entries[1..]| && entries[1..][i] == Entry(key, Get(entries[1..], key).value) &&
                   forall h :: 0 <= h < i ==> entries[1..][h].key != key;
          assert entries[i + 1] == entries[1..][i];
          forall h | 0 <= h < i + 1 ensures entries[h].key != key {
            assert h > 0 ==> entries[h] == entries[1..][h - 1];
          }
        }
      }
    }
  }

  // ----- naming services -----

  /** The item is the id of service k, and of none before it. */
  ghost predicate NamesService(services: seq<Service>, item: Obj, k: nat) {
    && item.Str? && item.s != "" && k < |services| && services[k].id == item.s
    && forall i :: 0 <= i < k ==> services[i].id != item.s
  }

  ghost predicate NamesNone(services: seq<Service>, item: Obj) {
    !item.Str? || item.s == "" || forall i :: 0 <= i < |services| ==> services[i].id != item.s
  }

  lemma {:induction false} FindServiceExact(services: seq<Service>, id: string)
    ensures match FindService(services, id)
            case None => id == "" || forall i :: 0 <= i < |services| ==> services[i].id != id
            case Some(k) => id != "" && services[k].id == id && forall i :: 0 <= i < k ==> services[i].id != id
  {
    if services != [] && id != "" && services[0].id != id {
      FindServiceExact(services[1..], id);
    }
  }

  lemma NamedExact(services: seq<Service>, item: Obj)
    ensures match FindService(services, TextOr(item))
            case None => NamesNone(services, item)
            case Some(k) => NamesService(services, item, k)
    ensures forall k: nat :: NamesService(services, item, k) ==> FindService(services, TextOr(item)) == Some(k)
    ensures NamesNone(services, item) ==> FindService(services, TextOr(item)) == None
  {
    FindServiceExact(services, TextOr(item));
  }

  /** Only the slot of service k may differ. */
  ghost predicate OnlySlot(services: seq<Service>, after: seq<Service>, k: nat) {
    k < |services| && |after| == |services| && after == services[k := services[k].(slot := after[k].slot)]
  }

  // ----- interfaces 10, 11, 15 and 16: create, run, stop, delete -----

  ghost predicate IsOperation(n: int) {
    n == 10 || n == 11 || n == 15 || n == 16
  }

  /** Without a list of services, or with an empty one, they are answered by 400. */
  lemma OperateNone(env: Env, services: seq<Service>, e: Event, n: int, dri: Option<string>, body: seq<Entry>)
    requires Safe(env, services, e) && IsRequest(env, e, n, dri, body) && IsOperation(n)
    requires Get(body, "mis").None? || !Get(body, "mis").value.Arr? || Get(body, "mis").value.items == []
    ensures AnsweredBy(env, services, e, dri, 400) && Leaves(env, services, e, services)
  {
    Answer(env, services, e, n, dri, body);
  }

  /** The code and the services after a list of services has been operated on. */
  function Operated(services: seq<Service>, items: seq<Obj>, n: int, aborts: nat -> set<nat>): (seq<Service>, int) {
    (OperateServices(services, items, n, aborts, |items|), LastCode(Codes(services, items, n, aborts, |items|)))
  }

  lemma OperateAnswer(env: Env, services: seq<Service>, e: Event, n: int, dri: Option<string>, body: seq<Entry>,
      items: seq<Obj>)
    requires Safe(env, services, e) && IsRequest(env, e, n, dri, body) && IsOperation(n)
    requires Get(body, "mis") == Some(Arr(items))
    ensures Leaves(env, services, e, Operated(services, items, n, e.aborts).0)
    ensures AnsweredBy(env, services, e, dri, Operated(services, items, n, e.aborts).1)
  {
    Answer(env, services, e, n, dri, body);
    OperateNotOwn(services, body, n, e.aborts);
  }

  lemma {:induction false} OperatePrefix(services: seq<Service>, items: seq<Obj>, x: Obj, n: int,
      aborts: nat -> set<nat>, i: nat)
    requires i <= |items|
    ensures OperateServices(services, items + [x], n, aborts, i) == OperateServices(services, items, n, aborts, i)
  {
    if i > 0 {
      OperatePrefix(services, items, x, n, aborts, i - 1);
    }
  }

  lemma OperateOne(services: seq<Service>, x: Obj, n: int, aborts: nat -> set<nat>)
    ensures var request := RequestOf(n, aborts(0)); var code := Code(services, x, request);
            Operated(services, [x], n, aborts) ==
                (Stepped(services, x, request), if code.Some? then code.value else 400)
  {
    CodesNext(services, [x], n, aborts, 0);
    assert OperateServices(services, [x], n, aborts, 1) ==
           Stepped(OperateServices(services, [x], n, aborts, 0), x, RequestOf(n, aborts(0)));
  }

  lemma OperateLast(services: seq<Service>, xs: seq<Obj>, x: Obj, n: int, aborts: nat -> set<nat>,
      first: nat -> set<nat>, second: nat -> set<nat>)
    requires first == aborts && second(0) == aborts(|xs|)
    ensures var (middle, c1) := Operated(services, xs, n, first);
            var (after, c2) := Operated(middle, [x], n, second);
            Operated(services, xs + [x], n, aborts) == (after, if c2 == 400 then c1 else c2)
  {
    var items := xs + [x];
    var middle := OperateServices(services, xs, n, aborts, |xs|);
    OperatePrefix(services, xs, x, n, aborts, |xs|);
    OperateOne(middle, x, n, second);
    CodesNext(services, items, n, aborts, |xs|);
    CodesPrefix(services, xs, x, n, aborts);
  }

  lemma CodesPrefix(services: seq<Service>, items: seq<Obj>, x: Obj, n: int, aborts: nat -> set<nat>)
    ensures Codes(services, items + [x], n, aborts, |items|) == Codes(services, items, n, aborts, |items|)
  {
    forall i | 0 <= i < |items|
      ensures CodeAt(services, items + [x], n, aborts, i) == CodeAt(services, items, n, aborts, i)
    {
      OperatePrefix(services, items, x, n, aborts, i);
    }
  }

  /** A request that names several services does what a request with all but the last of them and then
      one with the last would do. Its code is that of the second unless that is 400, else that of
      the first. */
  lemma OneByOne(env: Env, services: seq<Service>, e: Event, e1: Event, e2: Event, n: int, dri: string,
      body: seq<Entry>, body1: seq<Entry>, body2: seq<Entry>, xs: seq<Obj>, x: Obj) returns (c1: int, c2: int)
    requires IsOperation(n) && Safe(env, services, e) && Safe(env, services, e1)
    requires Safe(env, AfterAll(env, services, [e1]), e2)
    requires IsRequest(env, e, n, Some(dri), body) && Get(body, "mis") == Some(Arr(xs + [x]))
    requires IsRequest(env, e1, n, Some(dri), body1) && Get(body1, "mis") == Some(Arr(xs))
    requires IsRequest(env, e2, n, Some(dri), body2) && Get(body2, "mis") == Some(Arr([x]))
    requires e1.aborts == e.aborts && e2.aborts(0) == e.aborts(|xs|)
    ensures var middle := AfterAll(env, services, [e1]);
            && Leaves(env, services, e, AfterAll(env, middle, [e2]))
            && AnsweredBy(env, services, e1, Some(dri), c1) && AnsweredBy(env, middle, e2, Some(dri), c2)
            && AnsweredBy(env, services, e, Some(dri), if c2 == 400 then c1 else c2)
  {
    var middle := AfterAll(env, services, [e1]);
    OperateAnswer(env, services, e, n, Some(dri), body, xs + [x]);
    OperateAnswer(env, services, e1, n, Some(dri), body1, xs);
    OperateAnswer(env, middle, e2, n, Some(dri), body2, [x]);
    OperateLast(services, xs, x, n, e.aborts, e1.aborts, e2.aborts);
    c1, c2 := Operated(services, xs, n, e1.aborts).1, Operated(middle, [x], n, e2.aborts).1;
  }

  /** The request names just the service that the item is the id of. */
  ghost predicate NamesJust(body: seq<Entry>, item: Obj) {
    Get(body, "mis") == Some(Arr([item]))
  }

  lemma OperateUnknown(env: Env, services: seq<Service>, e: Event, n: int, dri: Option<string>, body: seq<Entry>,
      item: Obj)
    requires Safe(env, services, e) && IsRequest(env, e, n, dri, body) && IsOperation(n)
    requires NamesJust(body, item) && NamesNone(services, item)
    ensures AnsweredBy(env, services, e, dri, 404) && Leaves(env, services, e, services)
  {
    OperateAnswer(env, services, e, n, dri, body, [item]);
    OperateOne(services, item, n, e.aborts);
    NamedExact(services, item);
  }

  lemma OperateKnown(env: Env, services: seq<Service>, e: Event, n: int, dri: Option<string>, body: seq<Entry>,
      item: Obj, k: nat)
    requires Safe(env, services, e) && IsRequest(env, e, n, dri, body) && IsOperation(n)
    requires NamesJust(body, item) && NamesService(services, item, k)
    ensures var s, request := services[k], RequestOf(n, e.aborts(0));
            && Leaves(env, services, e, services[k := s.(slot := Step(s.recipe, s.slot, request))])
            && AnsweredBy(env, services, e, dri, if Succeeds(s.slot, request) then 200 else 400)
  {
    OperateAnswer(env, services, e, n, dri, body, [item]);
    OperateOne(services, item, n, e.aborts);
    NamedExact(services, item);
  }

  /** Interface 10 creates a service that is not ready, and refuses any other. */
  lemma CreateAnswer(env: Env, services: seq<Service>, e: Event, dri: Option<string>, body: seq<Entry>, item: Obj,
      k: nat)
    requires Safe(env, services, e) && IsRequest(env, e, 10, dri, body) && AllInv(services)
    requires NamesJust(body, item) && NamesService(services, item, k)
    ensures var after := AfterAll(env, services, [e]);
            if services[k].slot.state == NOT_READY then
              && AnsweredBy(env, services, e, dri, 200)
              && OnlySlot(services, after, k) && IsNewSlot(services[k].recipe, after[k].slot)
            else AnsweredBy(env, services, e, dri, 400) && after == services
  {
    hide AnsweredBy, Safe, IsRequest, NamesJust;
    OperateKnown(env, services, e, 10, dri, body, item, k);
    StepKeepsInv(services[k].recipe, services[k].slot, Create);
  }

  /** Every task that is to be started with the service has been. */
  function StartedTasks(tasks: seq<Task>): (r: seq<Task>)
    ensures |r| == |tasks|
  {
    seq(|tasks|, i requires 0 <= i < |tasks| =>
      if tasks[i].initial_state == STOPPED then tasks[i] else tasks[i].(state := CREATED, task_t := true))
  }

  /** Every task that was stopped runs. */
  function ResumedTasks(tasks: seq<Task>): (r: seq<Task>)
    ensures |r| == |tasks|
  {
    seq(|tasks|, i requires 0 <= i < |tasks| =>
      if tasks[i].state == STOPPED then tasks[i].(state := RUNNING) else tasks[i])
  }

  /** Running a service: what it leaves of the slot, and whether it succeeds. */
  ghost predicate Runs(was: Slot, aborts: set<nat>, now: Slot, ok: bool) {
    var tasks, fails := was.contents.tasks, AbortsOn(was.contents.tasks, aborts);
    match was.state
    case CREATED =>
      && ok == !fails && now.state == (if fails then STOPPED else RUNNING)
      && (!fails ==> now.contents == Holding(was.contents, StartedTasks(tasks)))
    case STOPPED => ok && now == Slot(RUNNING, Holding(was.contents, ResumedTasks(tasks)))
    case _ => !ok && now == was
  }

  lemma RunRuns(recipe: Recipe, s: Slot, aborts: set<nat>)
    requires Inv(recipe, s)
    ensures Runs(s, aborts, Step(recipe, s, Run(aborts)), Succeeds(s, Run(aborts)))
  {
    if s.state == CREATED {
      hide Inv;
      CreatedStarts(recipe, s, aborts);
      assert !AbortsOn(s.contents.tasks, aborts) ==>
             StartTasks(s.contents.tasks, aborts, 0).0 == StartedTasks(s.contents.tasks);
    } else if s.state == STOPPED {
      assert ResumeTasks(s.contents.tasks) == ResumedTasks(s.contents.tasks);
    }
  }

  /** Interface 11 starts a created service, which fails when a task that is on aborts; resumes a
      stopped one; and refuses any other. It answers 200 when it succeeds, else 400. */
  lemma RunAnswer(env: Env, services: seq<Service>, e: Event, dri: Option<string>, body: seq<Entry>, item: Obj,
      k: nat) returns (ok: bool)
    requires Safe(env, services, e) && IsRequest(env, e, 11, dri, body) && AllInv(services)
    requires NamesJust(body, item) && NamesService(services, item, k)
    ensures AnsweredBy(env, services, e, dri, if ok then 200 else 400)
    ensures var after := AfterAll(env, services, [e]);
            OnlySlot(services, after, k) && Runs(services[k].slot, e.aborts(0), after[k].slot, ok)
  {
    hide AnsweredBy, Safe, NamesJust, Runs, Step, Succeeds;
    OperateKnown(env, services, e, 11, dri, body, item, k);
    RunRuns(services[k].recipe, services[k].slot, e.aborts(0));
    ok := Succeeds(services[k].slot, Run(e.aborts(0)));
  }

  /** Interface 15 leaves a service as just created, whatever it was. */
  lemma StopAnswer(env: Env, services: seq<Service>, e: Event, dri: Option<string>, body: seq<Entry>, item: Obj,
      k: nat)
    requires Safe(env, services, e) && IsRequest(env, e, 15, dri, body) && AllInv(services)
    requires NamesJust(body, item) && NamesService(services, item, k)
    ensures AnsweredBy(env, services, e, dri, 200)
    ensures var after := AfterAll(env, services, [e]);
            OnlySlot(services, after, k) && IsNewSlot(services[k].recipe, after[k].slot)
  {
    hide AnsweredBy, Safe, IsRequest, NamesJust;
    OperateKnown(env, services, e, 15, dri, body, item, k);
    StepKeepsInv(services[k].recipe, services[k].slot, Stop);
  }

  /** Interface 16 empties a service, whatever it was. */
  lemma DeleteAnswer(env: Env, services: seq<Service>, e: Event, dri: Option<string>, body: seq<Entry>, item: Obj,
      k: nat)
    requires Safe(env, services, e) && IsRequest(env, e, 16, dri, body) && AllInv(services)
    requires NamesJust(body, item) && NamesService(services, item, k)
    ensures AnsweredBy(env, services, e, dri, 200)
    ensures Leaves(env, services, e, services[k := services[k].(slot := Slot(NOT_READY, EMPTY))])
  {
    hide AnsweredBy, Safe, IsRequest, NamesJust;
    OperateKnown(env, services, e, 16, dri, body, item, k);
    StepKeepsInv(services[k].recipe, services[k].slot, Delete);
  }

  // ----- finding tasks -----

  /** The item is the index of task j, and of none before it; an index must be below the 8-bit count
      of the tasks. */
  ghost predicate FindsTask(env: Env, tasks: seq<Task>, item: Obj, j: nat) {
    var idx := env.atoi(TextOr(item));
    && 0 <= idx < |tasks| % 256 && j < |tasks| && tasks[j].task_idx == idx
    && forall i :: 0 <= i < j ==> tasks[i].task_idx != idx
  }

  ghost predicate FindsNone(env: Env, tasks: seq<Task>, item: Obj) {
    forall j: nat :: !FindsTask(env, tasks, item, j)
  }

  lemma {:induction false} FirstIndexExact(tasks: seq<Task>, idx: int)
    ensures match FirstIndex(tasks, idx)
            case None => forall i :: 0 <= i < |tasks| ==> tasks[i].task_idx != idx
            case Some(k) => tasks[k].task_idx == idx && forall i :: 0 <= i < k ==> tasks[i].task_idx != idx
  {
    if tasks != [] && tasks[0].task_idx != idx {
      FirstIndexExact(tasks[1..], idx);
    }
  }

  lemma FindTaskExact(env: Env, tasks: seq<Task>, item: Obj)
    ensures match FindTask(tasks, env.atoi(TextOr(item)))
            case None => FindsNone(env, tasks, item)
            case Some(j) => FindsTask(env, tasks, item, j)
    ensures forall j: nat :: FindsTask(env, tasks, item, j) ==> FindTask(tasks, env.atoi(TextOr(item))) == Some(j)
  {
    FirstIndexExact(tasks, env.atoi(TextOr(item)));
  }

  /** One of the items is the index of task j. */
  ghost predicate FoundBy(env: Env, tasks: seq<Task>, items: seq<Obj>, j: nat) {
    exists i :: 0 <= i < |items| && FindsTask(env, tasks, items[i], j)
  }

  lemma ListedIsFound(env: Env, tasks: seq<Task>, items: seq<Obj>, j: nat)
    ensures Listed(env, tasks, items, j) <==> FoundBy(env, tasks, items, j)
  {
    if Listed(env, tasks, items, j) {
      var ti :| ti in items && FindTask(tasks, env.atoi(TextOr(ti))) == Some(j);
      FindTaskExact(env, tasks, ti);
      var i :| 0 <= i < |items| && items[i] == ti;
      assert FindsTask(env, tasks, items[i], j);
    }
    if FoundBy(env, tasks, items, j) {
      var i :| 0 <= i < |items| && FindsTask(env, tasks, items[i], j);
      FindTaskExact(env, tasks, items[i]);
      assert items[i] in items;
    }
  }

  /** The service named by a request to tasks is service k. */
  ghost predicate NamesKnown(services: seq<Service>, body: seq<Entry>, k: nat) {
    exists item :: NamesJust(body, item) && NamesService(services, item, k)
  }

  /** The request names just one service, which does not exist. */
  ghost predicate NamesUnknown(services: seq<Service>, body: seq<Entry>) {
    exists item :: NamesJust(body, item) && NamesNone(services, item)
  }

  /** The request does not name just one service. */
  ghost predicate NamesNotOne(body: seq<Entry>) {
    Get(body, "mis").None? || !Get(body, "mis").value.Arr? || |Get(body, "mis").value.items| != 1
  }

  lemma TheServiceExact(services: seq<Service>, body: seq<Entry>)
    requires Short(body, "mis")
    ensures NamesNotOne(body) ==> Single(body, "mis").None? && TheService(services, body).None?
    ensures NamesUnknown(services, body) ==> Single(body, "mis").Some? && TheService(services, body).None?
    ensures forall k: nat :: NamesKnown(services, body, k) ==> TheService(services, body) == Some(k)
  {
    if !NamesNotOne(body) {
      var item := Get(body, "mis").value.items[0];
      assert Get(body, "mis").value.items == [item];
      NamedExact(services, item);
    }
  }

  /** The tasks of service k are replaced, and nothing else changes. */
  ghost predicate OnlyTasks(services: seq<Service>, after: seq<Service>, k: nat, tasks: seq<Task>) {
    && k < |services|
    && var s := services[k];
       after == services[k := s.(slot := s.slot.(contents := s.slot.contents.(tasks := tasks)))]
  }

  // ----- interfaces 20 and 24: on and off -----

  /** A task that cannot be switched, or that is to be switched on and is active, refuses. */
  ghost predicate Refuses(t: Task, n: int) {
    !t.offloading || (n == 20 && t.state in {CREATED, RUNNING})
  }

  function SwitchedTask(t: Task, n: int): Task {
    if n == 20 then t.(initial_state := NOT_READY)
    else t.(initial_state := STOPPED, state := STOPPED, task_t := false)
  }

  lemma OnOffExact(t: Task, n: int)
    requires n == 20 || n == 24
    ensures OnOff(t, n != 24) == if Refuses(t, n) then (false, t) else (true, SwitchedTask(t, n))
  {
  }

  /** Switching answers 400 for a request that does not name one service, and 404 for one that names a
      service there is not or lists no tasks. */
  lemma SwitchIllFormed(env: Env, services: seq<Service>, e: Event, n: int, dri: Option<string>, body: seq<Entry>)
    requires Safe(env, services, e) && IsRequest(env, e, n, dri, body) && (n == 20 || n == 24)
    requires NamesNotOne(body) || NamesUnknown(services, body) || Get(body, "tis").None? || !Get(body, "tis").value.Arr?
    ensures Leaves(env, services, e, services)
    ensures AnsweredBy(env, services, e, dri, if NamesNotOne(body) then 400 else 404)
  {
    hide AnsweredBy, Safe, IsRequest;
    SwitchOutcome(env, services, e, n, dri, body);
    TheServiceExact(services, body);
    if !NamesNotOne(body) {
      assert Get(body, "mis").value.items == [Get(body, "mis").value.items[0]];
    }
  }

  /** The first m items find tasks that do not refuse. */
  ghost predicate AllSwitch(env: Env, tasks: seq<Task>, items: seq<Obj>, m: nat, n: int) {
    m <= |items| && forall i :: 0 <= i < m ==> Switches(env, tasks, items[i], n)
  }

  ghost predicate Switches(env: Env, tasks: seq<Task>, item: Obj, n: int) {
    exists j: nat :: FindsTask(env, tasks, item, j) && !Refuses(tasks[j], n)
  }

  /** The code of a switching request whose first m items switch: 404 when the next finds no task, 400
      when the task that it finds refuses, 200 when there is no further one, 400 when there is
      none at all. */
  ghost predicate SwitchCode(env: Env, tasks: seq<Task>, items: seq<Obj>, m: nat, n: int, code: int)
    requires m <= |items|
  {
    if items == [] then code == 400
    else if m == |items| then code == 200
    else if FindsNone(env, tasks, items[m]) then code == 404
    else code == 400 && exists j: nat :: FindsTask(env, tasks, items[m], j) && Refuses(tasks[j], n)
  }

  /** The tasks that one of the first m items finds are switched, and the others are as they were. */
  ghost predicate SwitchedBy(env: Env, tasks: seq<Task>, items: seq<Obj>, m: nat, n: int, after: seq<Task>)
    requires m <= |items|
  {
    |after| == |tasks| && forall j :: 0 <= j < |tasks| ==>
      after[j] == if FoundBy(env, tasks, items[..m], j) then SwitchedTask(tasks[j], n) else tasks[j]
  }

  lemma HonouredSwitch(env: Env, tasks: seq<Task>, items: seq<Obj>, n: int) returns (m: nat)
    requires n == 20 || n == 24
    ensures m == Honoured(env, tasks, items, n != 24) && AllSwitch(env, tasks, items, m, n)
    ensures SwitchCode(env, tasks, items, m, n, SwitchTasks(env, tasks, items, n != 24, 400).1)
  {
    hide SwitchTasks;
    m := Honoured(env, tasks, items, n != 24);
    SwitchTasksCode(env, tasks, items, n != 24, 400);
    forall i | 0 <= i < m ensures Switches(env, tasks, items[i], n) {
      FindTaskExact(env, tasks, items[i]);
      assert !Refused(env, tasks, items[i], n != 24);
    }
    if m < |items| {
      FindTaskExact(env, tasks, items[m]);
      assert Refused(env, tasks, items[m], n != 24);
    }
  }

  lemma SwitchedAt(env: Env, tasks: seq<Task>, items: seq<Obj>, m: nat, n: int, j: nat)
    requires (n == 20 || n == 24) && m == Honoured(env, tasks, items, n != 24) && j < |tasks|
    ensures SwitchTasks(env, tasks, items, n != 24, 400).0[j] ==
            if FoundBy(env, tasks, items[..m], j) then SwitchedTask(tasks[j], n) else tasks[j]
  {
    hide SwitchTasks, Honoured;
    SwitchTasksExact(env, tasks, items, n != 24, 400, j);
    ListedIsFound(env, tasks, items[..m], j);
    if FoundBy(env, tasks, items[..m], j) {
      var i :| 0 <= i < |items[..m]| && FindsTask(env, tasks, items[..m][i], j);
      FindTaskExact(env, tasks, items[i]);
      assert !Refused(env, tasks, items[i], n != 24);
      OnOffExact(tasks[j], n);
    }
  }

  lemma SwitchTasksAre(env: Env, tasks: seq<Task>, items: seq<Obj>, n: int)
      returns (m: nat, after: seq<Task>, code: int)
    requires n == 20 || n == 24
    ensures (after, code) == SwitchTasks(env, tasks, items, n != 24, 400)
    ensures AllSwitch(env, tasks, items, m, n) && SwitchCode(env, tasks, items, m, n, code)
    ensures SwitchedBy(env, tasks, items, m, n, after)
  {
    hide AllSwitch, SwitchCode, SwitchTasks, Honoured, FoundBy;
    m := HonouredSwitch(env, tasks, items, n);
    after, code := SwitchTasks(env, tasks, items, n != 24, 400).0, SwitchTasks(env, tasks, items, n != 24, 400).1;
    AllSwitchWithin(env, tasks, items, m, n);
    forall j: nat | j < |tasks|
      ensures after[j] == if FoundBy(env, tasks, items[..m], j) then SwitchedTask(tasks[j], n) else tasks[j]
    {
      SwitchedAt(env, tasks, items, m, n, j);
    }
  }

  lemma AllSwitchWithin(env: Env, tasks: seq<Task>, items: seq<Obj>, m: nat, n: int)
    requires AllSwitch(env, tasks, items, m, n)
    ensures m <= |items|
  {
  }

  /** What a switching request leaves and answers. */
  lemma SwitchOutcome(env: Env, services: seq<Service>, e: Event, n: int, dri: Option<string>, body: seq<Entry>)
    requires Safe(env, services, e) && IsRequest(env, e, n, dri, body) && (n == 20 || n == 24)
    ensures var o := Offloading(env, services, body, n);
            Leaves(env, services, e, o.services) && AnsweredBy(env, services, e, dri, o.rsc)
    ensures Short(body, "mis")
  {
    Answer(env, services, e, n, dri, body);
  }

  /** Interfaces 20 and 24 switch the tasks listed on and off, up to the first item that finds no task
      or one that refuses, which decides the code. */
  lemma SwitchAnswer(env: Env, services: seq<Service>, e: Event, n: int, dri: Option<string>, body: seq<Entry>,
      k: nat, items: seq<Obj>) returns (m: nat, tasks: seq<Task>, code: int)
    requires Safe(env, services, e) && IsRequest(env, e, n, dri, body) && (n == 20 || n == 24)
    requires NamesKnown(services, body, k) && Get(body, "tis") == Some(Arr(items))
    ensures AnsweredBy(env, services, e, dri, code) && OnlyTasks(services, AfterAll(env, services, [e]), k, tasks)
    ensures AllSwitch(env, Tasks(services, k), items, m, n) && SwitchCode(env, Tasks(services, k), items, m, n, code)
    ensures SwitchedBy(env, Tasks(services, k), items, m, n, tasks)
  {
    hide AnsweredBy, Safe, IsRequest, AllSwitch, SwitchCode, SwitchedBy, SwitchTasks;
    SwitchOutcome(env, services, e, n, dri, body);
    TheServiceExact(services, body);
    m, tasks, code := SwitchTasksAre(env, Tasks(services, k), items, n);
  }

  // ----- interface 21: setting parameters -----

  /** Setting answers 400 for a request that does not name one existing service, lists no tasks, or
      has nothing to set them to. */
  lemma SetIllFormed(env: Env, services: seq<Service>, e: Event, dri: Option<string>, body: seq<Entry>)
    requires Safe(env, services, e) && IsRequest(env, e, 21, dri, body)
    requires NamesNotOne(body) || NamesUnknown(services, body) || Get(body, "tis").None? ||
             !Get(body, "tis").value.Arr? || Get(body, "fp").None?
    ensures Leaves(env, services, e, services) && AnsweredBy(env, services, e, dri, 400)
  {
    Answer(env, services, e, 21, dri, body);
    TheServiceExact(services, body);
  }

  /** A task found by one of the items has a parameter that one of the pairs finds. */
  ghost predicate HasParam(env: Env, tasks: seq<Task>, items: seq<Obj>, pairs: seq<Entry>) {
    exists j :: 0 <= j < |tasks| && FoundBy(env, tasks, items, j) && AnyFound(tasks[j].flexible_params, pairs)
  }

  /** The parameters after a list of pairs: each holds what the last pair that finds it says, or what it
      held. */
  ghost predicate SetTo(env: Env, was: seq<Param>, pairs: seq<Entry>, params: seq<Param>) {
    && |params| == |was|
    && (forall p, i :: 0 <= p < |was| && 0 <= i < |pairs| && LastPair(was, pairs, p, i) ==>
          params[p] == SetByString(was[p], TextOr(pairs[i].value), env.lib))
    && forall p :: 0 <= p < |was| && (forall e <- pairs :: FindParam(was, e.key) != Some(p)) ==> params[p] == was[p]
  }

  lemma SetAllSets(env: Env, was: seq<Param>, pairs: seq<Entry>)
    ensures SetTo(env, was, pairs, SetAll(env, was, pairs))
  {
    hide SetAll, SetByString, FindParam, LastPair;
    forall p: nat, i: nat | p < |was| && i < |pairs| && LastPair(was, pairs, p, i)
      ensures SetAll(env, was, pairs)[p] == SetByString(was[p], TextOr(pairs[i].value), env.lib)
    {
      SetByPair(env, was, pairs, p, i);
    }
    forall p: nat | p < |was| && (forall e <- pairs :: FindParam(was, e.key) != Some(p))
      ensures SetAll(env, was, pairs)[p] == was[p]
    {
      var last := LastPairWins(env, was, pairs, p);
      assert last >= 0 ==> pairs[last] in pairs;
    }
  }

  lemma SetByPair(env: Env, was: seq<Param>, pairs: seq<Entry>, p: nat, i: nat)
    requires LastPair(was, pairs, p, i)
    ensures SetAll(env, was, pairs)[p] == SetByString(was[p], TextOr(pairs[i].value), env.lib)
  {
    hide SetAll, SetByString, FindParam;
    var last := LastPairWins(env, was, pairs, p);
  }

  /** The tasks after a set request: those found by one of the items have the pairs set in their flexible
      parameters, and nothing else differs. */
  ghost predicate SetsTasks(env: Env, was: seq<Task>, items: seq<Obj>, pairs: seq<Entry>, tasks: seq<Task>) {
    |tasks| == |was| && forall j :: 0 <= j < |was| ==> SetsTask(env, was, items, pairs, tasks[j], j)
  }

  ghost predicate SetsTask(env: Env, was: seq<Task>, items: seq<Obj>, pairs: seq<Entry>, t: Task, j: nat)
    requires j < |was|
  {
    && t == was[j].(flexible_params := t.flexible_params)
    && if FoundBy(env, was, items, j) then SetTo(env, was[j].flexible_params, pairs, t.flexible_params) else t == was[j]
  }

  lemma SetTasksSet(env: Env, was: seq<Task>, items: seq<Obj>, pairs: seq<Entry>)
    requires Reaches(env, was, items, pairs)
    ensures SetsTasks(env, was, items, pairs, SetTasks(env, was, items, pairs, false, 400).0)
    ensures SetTasks(env, was, items, pairs, false, 400).1 ==
            if items == [] then 400 else if HasParam(env, was, items, pairs) then 200 else 404
  {
    hide SetTasks, SetAll, SetTo, FoundBy, Listed, AnyFound, Reaches;
    var tasks := SetTasks(env, was, items, pairs, false, 400).0;
    SetTasksCode(env, was, items, pairs, false, 400);
    forall j: nat | j < |was|
      ensures Listed(env, was, items, j) <==> FoundBy(env, was, items, j)
      ensures SetsTask(env, was, items, pairs, tasks[j], j)
    {
      ListedIsFound(env, was, items, j);
      SetTasksExact(env, was, items, pairs, false, 400, j);
      SetAllSets(env, was[j].flexible_params, pairs);
    }
  }

  /** Interface 21 sets the pairs in the flexible parameters of every task listed, and answers 200 when
      one of these has one of the parameters, 404 when none has, and 400 when none is listed. */
  lemma SetAnswer(env: Env, services: seq<Service>, e: Event, dri: Option<string>, body: seq<Entry>,
      k: nat, items: seq<Obj>, pairs: seq<Entry>) returns (tasks: seq<Task>)
    requires Safe(env, services, e) && IsRequest(env, e, 21, dri, body)
    requires NamesKnown(services, body, k) && Get(body, "tis") == Some(Arr(items)) &&
             Get(body, "fp") == Some(Dict(pairs))
    ensures AnsweredBy(env, services, e, dri,
                       if items == [] then 400
                       else if HasParam(env, Tasks(services, k), items, pairs) then 200 else 404)
    ensures OnlyTasks(services, AfterAll(env, services, [e]), k, tasks)
    ensures SetsTasks(env, Tasks(services, k), items, pairs, tasks)
  {
    hide AnsweredBy, IsRequest, SetTasks, SetsTasks, HasParam;
    SetOutcome(env, services, e, dri, body);
    TheServiceExact(services, body);
    SetTasksSet(env, Tasks(services, k), items, pairs);
    tasks := SetTasks(env, Tasks(services, k), items, pairs, false, 400).0;
  }

  /** What a set request leaves and answers. */
  lemma SetOutcome(env: Env, services: seq<Service>, e: Event, dri: Option<string>, body: seq<Entry>)
    requires Safe(env, services, e) && IsRequest(env, e, 21, dri, body)
    ensures var o := ParamSet(env, services, body);
            Leaves(env, services, e, o.services) && AnsweredBy(env, services, e, dri, o.rsc)
    ensures Short(body, "mis") && SafeSet(env, services, body)
  {
    Answer(env, services, e, 21, dri, body);
  }

  // ----- interfaces 22 and 23: reading parameters -----

  ghost predicate IsRead(n: int) {
    n == 22 || n == 23
  }

  /** What a reading request leaves and answers. */
  lemma ReadOutcome(env: Env, services: seq<Service>, e: Event, n: int, dri: Option<string>, body: seq<Entry>)
    requires Safe(env, services, e) && IsRequest(env, e, n, dri, body) && IsRead(n)
    ensures Leaves(env, services, e, services) && Short(body, "mis") && Short(body, "tis")
    ensures var o := ParamRead(env, services, body, n);
            if o.rsc == 300 then Replies(env, services, [e]) == [Response(dri, 200, o.body)]
            else AnsweredBy(env, services, e, dri, o.rsc)
  {
    Answer(env, services, e, n, dri, body);
  }

  /** Reading answers 400 for a request that does not name one service, 404 for one that names a service
      there is not, and 403 for one whose service does not run. */
  lemma ReadRefused(env: Env, services: seq<Service>, e: Event, n: int, dri: Option<string>, body: seq<Entry>)
    requires Safe(env, services, e) && IsRequest(env, e, n, dri, body) && IsRead(n)
    ensures Leaves(env, services, e, services)
    ensures NamesNotOne(body) ==> AnsweredBy(env, services, e, dri, 400)
    ensures NamesUnknown(services, body) ==> AnsweredBy(env, services, e, dri, 404)
    ensures forall k: nat :: NamesKnown(services, body, k) && services[k].slot.state != RUNNING ==>
              AnsweredBy(env, services, e, dri, 403)
  {
    hide AnsweredBy, Leaves, Safe, IsRequest;
    ReadOutcome(env, services, e, n, dri, body);
    TheServiceExact(services, body);
  }

  /** The request lists just one task, and not both flexible and static parameters. */
  ghost predicate ReadsOne(body: seq<Entry>, item: Obj) {
    Get(body, "tis") == Some(Arr([item])) && !(Get(body, "fps").Some? && Get(body, "sps").Some?)
  }

  lemma OneOrNone(body: seq<Entry>)
    requires Short(body, "tis")
    ensures Single(body, "tis").None? || (Get(body, "fps").Some? && Get(body, "sps").Some?) ||
            ReadsOne(body, Single(body, "tis").value)
  {
    if Single(body, "tis").Some? {
      assert Get(body, "tis").value.items == [Single(body, "tis").value];
    }
  }

  lemma OneIs(body: seq<Entry>, item: Obj)
    requires ReadsOne(body, item)
    ensures Single(body, "tis") == Some(item) && !(Get(body, "fps").Some? && Get(body, "sps").Some?)
  {
  }

  /** It answers 400 for a running service when the request does not list just one task, or lists both
      kinds of parameters. */
  lemma ReadIllFormed(env: Env, services: seq<Service>, e: Event, n: int, dri: Option<string>, body: seq<Entry>, k: nat)
    requires Safe(env, services, e) && IsRequest(env, e, n, dri, body) && IsRead(n)
    requires NamesKnown(services, body, k) && services[k].slot.state == RUNNING
    requires forall item :: !ReadsOne(body, item)
    ensures AnsweredBy(env, services, e, dri, 400)
  {
    hide AnsweredBy, Leaves, Safe, IsRequest, ReadsOne, NamesKnown, NamesUnknown, NamesNotOne;
    ReadOutcome(env, services, e, n, dri, body);
    TheServiceExact(services, body);
    OneOrNone(body);
  }

  /** And 404 when the task does not exist. */
  lemma ReadNoTask(env: Env, services: seq<Service>, e: Event, n: int, dri: Option<string>, body: seq<Entry>, k: nat,
      item: Obj)
    requires Safe(env, services, e) && IsRequest(env, e, n, dri, body) && IsRead(n)
    requires NamesKnown(services, body, k) && services[k].slot.state == RUNNING
    requires ReadsOne(body, item) && FindsNone(env, Tasks(services, k), item)
    ensures AnsweredBy(env, services, e, dri, 404)
  {
    hide *;
    ReadOutcome(env, services, e, n, dri, body);
    NoTaskOutcome(env, services, body, n, k, item);
  }

  lemma NoTaskOutcome(env: Env, services: seq<Service>, body: seq<Entry>, n: int, k: nat, item: Obj)
    requires Short(body, "mis") && NamesKnown(services, body, k) && services[k].slot.state == RUNNING
    requires ReadsOne(body, item) && FindsNone(env, Tasks(services, k), item)
    ensures ParamRead(env, services, body, n) == Outcome(services, 404, map[])
  {
    hide NamesKnown, NamesUnknown, NamesNotOne, FindTask, ReadList, ReportOf, Names, ReadsOne;
    OneIs(body, item);
    TheServiceExact(services, body);
    FindTaskExact(env, Tasks(services, k), item);
  }

  /** Reading a task of a running service. */
  lemma ReadOutcomeAt(env: Env, services: seq<Service>, body: seq<Entry>, n: int, k: nat, item: Obj, j: nat)
    requires Short(body, "mis") && NamesKnown(services, body, k) && services[k].slot.state == RUNNING
    requires ReadsOne(body, item) && FindsTask(env, Tasks(services, k), item, j)
    ensures var t := Tasks(services, k)[j];
            ParamRead(env, services, body, n) ==
            if n == 23 || LastFound(t, Names(body), ReadList(t, body)) then Outcome(services, 300, ReportOf(t, body, n))
            else Outcome(services, 404, map[])
  {
    hide NamesKnown, NamesUnknown, NamesNotOne, FindTask, LastFound, ReadList, ReportOf, Names, ReadsOne;
    OneIs(body, item);
    TheServiceExact(services, body);
    FindTaskExact(env, Tasks(services, k), item);
  }

  /** Interface 23 reports all flexible and all static parameters of the task. */
  lemma ReadAllAnswer(env: Env, services: seq<Service>, e: Event, dri: Option<string>, body: seq<Entry>, k: nat,
      item: Obj, j: nat)
    requires Safe(env, services, e) && IsRequest(env, e, 23, dri, body)
    requires NamesKnown(services, body, k) && services[k].slot.state == RUNNING
    requires ReadsOne(body, item) && FindsTask(env, Tasks(services, k), item, j)
    ensures var t := Tasks(services, k)[j];
            Replies(env, services, [e]) ==
            [Response(dri, 200, map["fp" := ReportAll(t.flexible_params), "sp" := ReportAll(t.static_params)])]
  {
    hide AnsweredBy, Leaves, Safe, IsRequest, NamesKnown, ReadsOne, FindsTask, ParamRead;
    ReadOutcome(env, services, e, 23, dri, body);
    ReadOutcomeAt(env, services, body, 23, k, item, j);
  }

  /** The names that a request lists under a key. */
  ghost predicate ListsNames(body: seq<Entry>, key: string, names: seq<string>) {
    Items(body, key).Some? && names == Texts(Items(body, key).value)
  }

  lemma TheyExist(env: Env, services: seq<Service>, body: seq<Entry>, k: nat, item: Obj, j: nat)
    requires NamesKnown(services, body, k)
    ensures k < |services| && (FindsTask(env, Tasks(services, k), item, j) ==> j < |Tasks(services, k)|)
  {
  }

  lemma ReadsNames(t: Task, body: seq<Entry>, flexible: bool, names: seq<string>)
    requires ListsNames(body, if flexible then "fps" else "sps", names)
    requires !(Get(body, "fps").Some? && Get(body, "sps").Some?)
    ensures var params := if flexible then t.flexible_params else t.static_params;
            && (LastFound(t, Names(body), ReadList(t, body)) <==>
                names != [] && FindParam(params, names[|names| - 1]).Some?)
            && ReportOf(t, body, 22) == map[if flexible then "fp" else "sp" := ReportNamed(params, names)]
  {
    hide FindParam, ReportNamed;
    var key := if flexible then "fps" else "sps";
    assert Get(body, "fps").Some? == flexible;
    assert Names(body) == Items(body, key).value && names == Texts(Names(body));
    if names != [] {
      assert names[|names| - 1] == TextOr(Names(body)[|names| - 1]);
    }
  }

  /** Interface 22 reports the flexible parameters listed under "fps", or the static ones listed under
      "sps", when the last of them exists, and answers 404 when it does not. */
  lemma ReadAnswer(env: Env, services: seq<Service>, e: Event, dri: Option<string>, body: seq<Entry>, k: nat,
      item: Obj, j: nat, flexible: bool, names: seq<string>)
    requires Safe(env, services, e) && IsRequest(env, e, 22, dri, body)
    requires NamesKnown(services, body, k) && services[k].slot.state == RUNNING
    requires ReadsOne(body, item) && FindsTask(env, Tasks(services, k), item, j)
    requires ListsNames(body, if flexible then "fps" else "sps", names)
    ensures var t := Tasks(services, k)[j];
            var params := if flexible then t.flexible_params else t.static_params;
            if names != [] && FindParam(params, names[|names| - 1]).Some? then
              Replies(env, services, [e]) ==
              [Response(dri, 200, map[if flexible then "fp" else "sp" := ReportNamed(params, names)])]
            else AnsweredBy(env, services, e, dri, 404)
  {
    hide AnsweredBy, Leaves, Safe, IsRequest, NamesKnown, FindsTask, ParamRead, ReadsOne, LastFound, ReadList, ReportOf,
      ListsNames;
    OneIs(body, item);
    TheyExist(env, services, body, k, item, j);
    ReadsNames(Tasks(services, k)[j], body, flexible, names);
    ReadOutcome(env, services, e, 22, dri, body);
    ReadOutcomeAt(env, services, body, 22, k, item, j);
  }
}
