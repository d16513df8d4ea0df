/** What single requests to the dispatcher amount to: which tasks and parameters they reach, and
    which codes they report. */
module DispatchRequests {
  import opened Basics
  import opened ServiceTypes
  import opened Lifecycle
  import opened Parameters
  import opened Dispatch

  // ----- setting parameters -----

  /** A parameter holds what the last pair that finds it says, or what it held. */
  lemma {:induction false} LastPairWins(env: Env, params: seq<Param>, pairs: seq<Entry>, p: nat) returns (i: int)
    requires p < |params|
    ensures -1 <= i < |pairs|
    ensures forall j :: i < j < |pairs| ==> FindParam(params, pairs[j].key) != Some(p)
    ensures i >= 0 ==>
              && FindParam(params, pairs[i].key) == Some(p)
              && SetAll(env, params, pairs)[p] == SetByString(params[p], TextOr(pairs[i].value), env.lib)
    ensures i < 0 ==> SetAll(env, params, pairs)[p] == params[p]
    decreases pairs
  {
    i := -1;
    if pairs != [] {
      var next := SetParam(params, pairs[0].key, TextOr(pairs[0].value), env.lib);
      forall key ensures FindParam(next, key) == FindParam(params, key) {
        SetThenFind(params, pairs[0].key, TextOr(pairs[0].value), env.lib, key);
      }
      i := LastPairWins(env, next, pairs[1..], p);
      if i >= 0 || FindParam(params, pairs[0].key) == Some(p) {
        i := i + 1;
      }
    }
  }

  /** A task is listed when an index in the request finds it. */
  predicate Listed(env: Env, tasks: seq<Task>, tis: seq<Obj>, j: nat) {
    exists ti <- tis :: FindTask(tasks, env.atoi(TextOr(ti))) == Some(j)
  }

  lemma ListedCons(env: Env, a: seq<Task>, b: seq<Task>, ti: Obj, rest: seq<Obj>, j: nat)
    requires forall idx :: FindTask(a, idx) == FindTask(b, idx)
    ensures Listed(env, a, [ti] + rest, j) <==> FindTask(a, env.atoi(TextOr(ti))) == Some(j) || Listed(env, b, rest, j)
  {
    assert forall x :: x in [ti] + rest <==> x == ti || x in rest;
  }

  lemma SetAllTwice(env: Env, params: seq<Param>, pairs: seq<Entry>)
    ensures SetAll(env, SetAll(env, params, pairs), pairs) == SetAll(env, params, pairs)
  {
    var once := SetAll(env, params, pairs);
    forall key ensures FindParam(once, key) == FindParam(params, key) {
      SetAllKeepsAliases(env, params, pairs, key);
    }
    forall p | 0 <= p < |params| ensures SetAll(env, once, pairs)[p] == once[p] {
      var i := LastPairWins(env, params, pairs, p);
      var j := LastPairWins(env, once, pairs, p);
    }
  }

  lemma {:induction false} SetAllKeepsAliases(env: Env, params: seq<Param>, pairs: seq<Entry>, key: string)
    ensures FindParam(SetAll(env, params, pairs), key) == FindParam(params, key)
    decreases pairs
  {
    if pairs != [] {
      SetThenFind(params, pairs[0].key, TextOr(pairs[0].value), env.lib, key);
      SetAllKeepsAliases(env, SetParam(params, pairs[0].key, TextOr(pairs[0].value), env.lib), pairs[1..], key);
    }
  }

  lemma {:induction false} SetAllSameKinds(env: Env, params: seq<Param>, pairs: seq<Entry>)
    ensures SameKinds(SetAll(env, params, pairs), params)
    decreases pairs
  {
    if pairs != [] {
      SetAllSameKinds(env, SetParam(params, pairs[0].key, TextOr(pairs[0].value), env.lib), pairs[1..]);
    }
  }

  function WithFlexible(tasks: seq<Task>, h: nat, params: seq<Param>): seq<Task>
    requires h < |tasks|
  {
    tasks[h := tasks[h].(flexible_params := params)]
  }

  lemma FlexibleFinds(tasks: seq<Task>, h: nat, params: seq<Param>)
    requires h < |tasks|
    ensures forall idx :: FindTask(WithFlexible(tasks, h, params), idx) == FindTask(tasks, idx)
  {
    forall idx ensures FindTask(WithFlexible(tasks, h, params), idx) == FindTask(tasks, idx) {
      SameIndexes(WithFlexible(tasks, h, params), tasks, idx);
    }
  }

  /** A set request reaches the tasks: there is nothing to set, or all it lists are known. */
  predicate Reaches(env: Env, tasks: seq<Task>, tis: seq<Obj>, pairs: seq<Entry>) {
    pairs != [] ==> KnownTasks(env, tasks, tis)
  }

  lemma ReachesRest(env: Env, a: seq<Task>, b: seq<Task>, tis: seq<Obj>, pairs: seq<Entry>)
    requires Reaches(env, a, tis, pairs) && tis != [] && forall idx :: FindTask(a, idx) == FindTask(b, idx)
    ensures Reaches(env, b, tis[1..], pairs)
    ensures pairs != [] ==> FindTask(a, env.atoi(TextOr(tis[0]))).Some?
  {
    assert tis[0] in tis && forall ti <- tis[1..] :: ti in tis;
  }

  /** A set request writes its pairs to the flexible parameters of exactly the tasks listed.
      User and static parameters, and every other task, are unchanged. */
  lemma {:induction false} SetTasksExact(env: Env, tasks: seq<Task>, tis: seq<Obj>, pairs: seq<Entry>, found: bool,
      rsc: int, j: nat)
    requires Reaches(env, tasks, tis, pairs) && j < |tasks|
    ensures SetTasks(env, tasks, tis, pairs, found, rsc).0[j] ==
            if Listed(env, tasks, tis, j) then
              tasks[j].(flexible_params := SetAll(env, tasks[j].flexible_params, pairs))
            else tasks[j]
    decreases tis
  {
    if tis != [] {
      assert tis == [tis[0]] + tis[1..];
      match FindTask(tasks, env.atoi(TextOr(tis[0]))) {
        case None =>
          ReachesRest(env, tasks, tasks, tis, pairs);
          SetTasksExact(env, tasks, tis[1..], pairs, found, if found then 200 else 404, j);
          ListedCons(env, tasks, tasks, tis[0], tis[1..], j);
        case Some(h) =>
          var params := SetAll(env, tasks[h].flexible_params, pairs);
          var next, found' := WithFlexible(tasks, h, params), found || AnyFound(tasks[h].flexible_params, pairs);
          FlexibleFinds(tasks, h, params);
          ReachesRest(env, tasks, next, tis, pairs);
          SetTasksExact(env, next, tis[1..], pairs, found', if found' then 200 else 404, j);
          SetAllTwice(env, tasks[h].flexible_params, pairs);
          ListedCons(env, tasks, next, tis[0], tis[1..], j);
      }
    }
  }

  /** One of the tasks listed has a parameter that one of the pairs finds. */
  predicate SomeFound(env: Env, tasks: seq<Task>, tis: seq<Obj>, pairs: seq<Entry>) {
    exists j :: 0 <= j < |tasks| && Listed(env, tasks, tis, j) && AnyFound(tasks[j].flexible_params, pairs)
  }

  lemma AnyFoundKept(env: Env, params: seq<Param>, pairs: seq<Entry>)
    ensures AnyFound(SetAll(env, params, pairs), pairs) == AnyFound(params, pairs)
  {
    forall e <- pairs ensures FindParam(SetAll(env, params, pairs), e.key) == FindParam(params, e.key) {
      SetAllKeepsAliases(env, params, pairs, e.key);
    }
  }

  lemma SomeFoundCons(env: Env, tasks: seq<Task>, next: seq<Task>, tis: seq<Obj>, pairs: seq<Entry>, h: Option<nat>)
    requires tis != [] && h == FindTask(tasks, env.atoi(TextOr(tis[0])))
    requires forall idx :: FindTask(next, idx) == FindTask(tasks, idx)
    requires |next| == |tasks| && forall j :: 0 <= j < |tasks| ==>
               AnyFound(next[j].flexible_params, pairs) == AnyFound(tasks[j].flexible_params, pairs)
    ensures SomeFound(env, tasks, tis, pairs) <==>
            (h.Some? && AnyFound(tasks[h.value].flexible_params, pairs)) || SomeFound(env, next, tis[1..], pairs)
  {
    assert tis == [tis[0]] + tis[1..];
    forall j: nat ensures Listed(env, tasks, tis, j) <==> h == Some(j) || Listed(env, next, tis[1..], j) {
      ListedCons(env, tasks, next, tis[0], tis[1..], j);
    }
    if h.Some? {
      assert Listed(env, tasks, tis, h.value);
    }
  }

  /** A set request reports 200 when one of the listed tasks has one of the parameters, and 404
      when none has; if it lists no task, its code is that of an ill-formed request. */
  lemma {:induction false} SetTasksCode(env: Env, tasks: seq<Task>, tis: seq<Obj>, pairs: seq<Entry>, found: bool,
      rsc: int)
    requires Reaches(env, tasks, tis, pairs)
    ensures SetTasks(env, tasks, tis, pairs, found, rsc).1 ==
            if tis == [] then rsc else if found || SomeFound(env, tasks, tis, pairs) then 200 else 404
    decreases tis
  {
    if tis != [] {
      var h := FindTask(tasks, env.atoi(TextOr(tis[0])));
      match h {
        case None =>
          ReachesRest(env, tasks, tasks, tis, pairs);
          SetTasksCode(env, tasks, tis[1..], pairs, found, if found then 200 else 404);
          SomeFoundCons(env, tasks, tasks, tis, pairs, h);
        case Some(k) =>
          var params := SetAll(env, tasks[k].flexible_params, pairs);
          var next, found' := WithFlexible(tasks, k, params), found || AnyFound(tasks[k].flexible_params, pairs);
          FlexibleFinds(tasks, k, params);
          ReachesRest(env, tasks, next, tis, pairs);
          SetTasksCode(env, next, tis[1..], pairs, found', if found' then 200 else 404);
          AnyFoundKept(env, tasks[k].flexible_params, pairs);
          SomeFoundCons(env, tasks, next, tis, pairs, h);
      }
      assert tis[1..] == [] ==> !SomeFound(env, tasks, tis[1..], pairs);
    }
  }

  /** A set request neither adds, drops nor reorders tasks, nor touches anything of them but the
      values of flexible parameters. */
  lemma SetTasksSame(env: Env, tasks: seq<Task>, tis: seq<Obj>, pairs: seq<Entry>)
    requires Reaches(env, tasks, tis, pairs)
    ensures SameTasks(SetTasks(env, tasks, tis, pairs, false, 400).0, tasks)
  {
    forall j | 0 <= j < |tasks| ensures SameTask(SetTasks(env, tasks, tis, pairs, false, 400).0[j], tasks[j]) {
      SetTasksExact(env, tasks, tis, pairs, false, 400, j);
      SetAllSameKinds(env, tasks[j].flexible_params, pairs);
    }
  }

  // ----- setting, then reading -----

  /** The request sets the pairs in task j of service k. */
  predicate Sets(env: Env, services: seq<Service>, body: seq<Entry>, k: nat, j: nat, pairs: seq<Entry>) {
    && TheService(services, body) == Some(k) && Get(body, "fp") == Some(Dict(pairs))
    && Items(body, "tis").Some? && j < |Tasks(services, k)|
    && Listed(env, Tasks(services, k), Items(body, "tis").value, j)
  }

  /** The request reads flexible parameters of task j of service k by names that include the
      alias, and the last of which is found. */
  predicate ReadsFlexible(env: Env, services: seq<Service>, body: seq<Entry>, k: nat, j: nat, alias: string) {
    && TheService(services, body) == Some(k) && j < |Tasks(services, k)|
    && Single(body, "tis").Some? && FindTask(Tasks(services, k), env.atoi(TextOr(Single(body, "tis").value))) == Some(j)
    && Items(body, "fps").Some? && Get(body, "sps").None?
    && alias in Texts(Names(body))
    && LastFound(Tasks(services, k)[j], Names(body), Tasks(services, k)[j].flexible_params)
  }

  /** The last pair that finds parameter p of the list is pair i. */
  predicate LastPair(params: seq<Param>, pairs: seq<Entry>, p: nat, i: nat) {
    && p < |params| && i < |pairs| && FindParam(params, pairs[i].key) == Some(p)
    && forall h :: i < h < |pairs| ==> FindParam(params, pairs[h].key) != Some(p)
  }

  /** The flexible parameters after a set request, of a task that it lists. */
  lemma SetServices(env: Env, services: seq<Service>, body: seq<Entry>, k: nat, j: nat, pairs: seq<Entry>)
    requires SafeSet(env, services, body) && Sets(env, services, body, k, j, pairs)
    ensures var after := ParamSet(env, services, body).services;
            && |after| == |services| && after[k].slot.state == services[k].slot.state
            && |Tasks(after, k)| == |Tasks(services, k)|
            && (forall i :: 0 <= i < |services| ==> after[i].id == services[i].id)
            && (forall i :: 0 <= i < |Tasks(services, k)| ==>
                Tasks(after, k)[i].task_idx == Tasks(services, k)[i].task_idx)
            && Tasks(after, k)[j].flexible_params == SetAll(env, Tasks(services, k)[j].flexible_params, pairs)
  {
    var tasks, tis := Tasks(services, k), Items(body, "tis").value;
    SetTasksExact(env, tasks, tis, pairs, false, 400, j);
    SetTasksSame(env, tasks, tis, pairs);
  }

  lemma {:induction false} SameIds(a: seq<Service>, b: seq<Service>, id: string)
    requires |a| == |b| && forall i :: 0 <= i < |a| ==> a[i].id == b[i].id
    ensures FindService(a, id) == FindService(b, id)
  {
    if a != [] {
      SameIds(a[1..], b[1..], id);
    }
  }

  /** A read request finds the same task in services that differ only in parameter values, and is
      answered with what that task holds. */
  lemma ReadAnswered(env: Env, services: seq<Service>, after: seq<Service>, body: seq<Entry>, k: nat, j: nat,
      alias: string)
    requires ReadsFlexible(env, services, body, k, j, alias) && services[k].slot.state == RUNNING
    requires |after| == |services| && after[k].slot.state == RUNNING && |Tasks(after, k)| == |Tasks(services, k)|
    requires forall i :: 0 <= i < |services| ==> after[i].id == services[i].id
    requires forall i :: 0 <= i < |Tasks(services, k)| ==> Tasks(after, k)[i].task_idx == Tasks(services, k)[i].task_idx
    requires forall key ::
               FindParam(Tasks(after, k)[j].flexible_params, key) ==
               FindParam(Tasks(services, k)[j].flexible_params, key)
    ensures var o := ParamRead(env, after, body, IF_TASK_PARAM_READ);
            o.rsc == 300 && o.body == map["fp" := ReportNamed(Tasks(after, k)[j].flexible_params, Texts(Names(body)))]
  {
    var t := Tasks(after, k)[j];
    SameIds(after, services, TextOr(Single(body, "mis").value));
    SameIndexes(Tasks(after, k), Tasks(services, k), env.atoi(TextOr(Single(body, "tis").value)));
    assert LastFound(t, Names(body), ReadList(t, body));
  }

  /** The report of a parameter that pairs have set. */
  lemma SetReports(env: Env, was: seq<Param>, pairs: seq<Entry>, aliases: seq<string>, p: nat, i: nat)
    requires LastPair(was, pairs, p, i) && IsDecimal(was[p].ptype) && pairs[i].key in aliases
    ensures var report := ReportNamed(SetAll(env, was, pairs), aliases);
            && pairs[i].key in report && report[pairs[i].key].Int?
            && Reports(was[p].ptype, env.lib.atol(TextOr(pairs[i].value)), report[pairs[i].key].n)
  {
    SetAllKeepsAliases(env, was, pairs, pairs[i].key);
    ReportNamedExact(SetAll(env, was, pairs), aliases, pairs[i].key);
    var last := LastPairWins(env, was, pairs, p);
    WriteThenRead(was[p], TextOr(pairs[i].value), env.lib);
  }

  /** After a set request, a read request of the same parameter is answered, and its response
      reports the number that the text of the last pair stands for, brought into the range
      of the type. */
  lemma SetThenRead(env: Env, services: seq<Service>, setting: seq<Entry>, reading: seq<Entry>,
                    k: nat, j: nat, pairs: seq<Entry>, p: nat, i: nat)
    requires SafeSet(env, services, setting) && Sets(env, services, setting, k, j, pairs) &&
             services[k].slot.state == RUNNING
    requires LastPair(Tasks(services, k)[j].flexible_params, pairs, p, i)
    requires IsDecimal(Tasks(services, k)[j].flexible_params[p].ptype)
    requires ReadsFlexible(env, services, reading, k, j, pairs[i].key)
    ensures var o := ParamRead(env, ParamSet(env, services, setting).services, reading, IF_TASK_PARAM_READ);
            var alias := pairs[i].key;
            && o.rsc == 300 && "fp" in o.body && alias in o.body["fp"] && o.body["fp"][alias].Int?
            && Reports(Tasks(services, k)[j].flexible_params[p].ptype, env.lib.atol(TextOr(pairs[i].value)),
                o.body["fp"][alias].n)
  {
    var was := Tasks(services, k)[j].flexible_params;
    SetServices(env, services, setting, k, j, pairs);
    forall key ensures FindParam(SetAll(env, was, pairs), key) == FindParam(was, key) {
      SetAllKeepsAliases(env, was, pairs, key);
    }
    ReadAnswered(env, services, ParamSet(env, services, setting).services, reading, k, j, pairs[i].key);
    SetReports(env, was, pairs, Texts(Names(reading)), p, i);
  }

  // ----- switching tasks -----

  /** The task listed is unknown, or does not let itself be switched. */
  predicate Refused(env: Env, tasks: seq<Task>, ti: Obj, on: bool) {
    var k := FindTask(tasks, env.atoi(TextOr(ti)));
    k.None? || !OnOff(tasks[k.value], on).0
  }

  /** The items of a switching request before the first that is refused. */
  function Honoured(env: Env, tasks: seq<Task>, tis: seq<Obj>, on: bool): (n: nat)
    ensures n <= |tis|
    ensures forall i :: 0 <= i < n ==> !Refused(env, tasks, tis[i], on)
    ensures n < |tis| ==> Refused(env, tasks, tis[n], on)
  {
    if tis == [] || Refused(env, tasks, tis[0], on) then 0
    else
      var rest := tis[1..];
      assert forall i :: 0 < i < |tis| ==> tis[i] == rest[i - 1];
      1 + Honoured(env, tasks, rest, on)
  }

  /** A switching request switches each task listed before the first refused item, once, and no
      other. What it refuses depends on the tasks before the request alone, so that naming
      a task twice is as naming it once. */
  lemma {:induction false} SwitchTasksExact(env: Env, tasks: seq<Task>, tis: seq<Obj>, on: bool, rsc: int, j: nat)
    requires j < |tasks|
    ensures SwitchTasks(env, tasks, tis, on, rsc).0[j] ==
            if Listed(env, tasks, tis[..Honoured(env, tasks, tis, on)], j) then OnOff(tasks[j], on).1 else tasks[j]
    decreases tis
  {
    if tis != [] && !Refused(env, tasks, tis[0], on) {
      var h := FindTask(tasks, env.atoi(TextOr(tis[0]))).value;
      var next, rest := Switched(tasks, h, on), tis[1..];
      SwitchNext(env, tasks, tis, on, rsc);
      HonouredNext(env, tasks, tis, on);
      SwitchTasksExact(env, next, rest, on, 200, j);
      TakeNext(tis, Honoured(env, next, rest, on));
      ListedCons(env, tasks, next, tis[0], rest[..Honoured(env, next, rest, on)], j);
    }
  }

  /** A first item that is not refused is switched, and the others follow. */
  lemma SwitchNext(env: Env, tasks: seq<Task>, tis: seq<Obj>, on: bool, rsc: int)
    requires tis != [] && !Refused(env, tasks, tis[0], on)
    ensures var h := FindTask(tasks, env.atoi(TextOr(tis[0]))).value;
            SwitchTasks(env, tasks, tis, on, rsc) == SwitchTasks(env, Switched(tasks, h, on), tis[1..], on, 200)
  {
  }

  lemma TakeNext<X>(s: seq<X>, n: nat)
    requires n + 1 <= |s|
    ensures s[..n + 1] == [s[0]] + s[1..][..n]
  {
  }

  lemma HonouredNext(env: Env, tasks: seq<Task>, tis: seq<Obj>, on: bool)
    requires tis != [] && !Refused(env, tasks, tis[0], on)
    ensures var next := Switched(tasks, FindTask(tasks, env.atoi(TextOr(tis[0]))).value, on);
            var n := Honoured(env, tasks, tis, on);
            && (forall idx :: FindTask(next, idx) == FindTask(tasks, idx))
            && (forall k :: 0 <= k < |tasks| ==> OnOff(next[k], on) == OnOff(tasks[k], on))
            && n == 1 + Honoured(env, next, tis[1..], on)
  {
    var h := FindTask(tasks, env.atoi(TextOr(tis[0]))).value;
    SwitchedFinds(tasks, h, on);
    SameHonoured(env, tasks, Switched(tasks, h, on), tis[1..], on);
  }

  /** It reports 404 when the first refused item names no task, 400 when that task refuses, and
      200 when no item is refused. */
  lemma {:induction false} SwitchTasksCode(env: Env, tasks: seq<Task>, tis: seq<Obj>, on: bool, rsc: int)
    ensures var n := Honoured(env, tasks, tis, on);
            SwitchTasks(env, tasks, tis, on, rsc).1 ==
            if n < |tis| then (if FindTask(tasks, env.atoi(TextOr(tis[n]))).None? then 404 else 400)
            else if n == 0 then rsc else 200
    decreases tis
  {
    if tis != [] && !Refused(env, tasks, tis[0], on) {
      var h := FindTask(tasks, env.atoi(TextOr(tis[0]))).value;
      SwitchNext(env, tasks, tis, on, rsc);
      HonouredNext(env, tasks, tis, on);
      SwitchTasksCode(env, Switched(tasks, h, on), tis[1..], on, 200);
    }
  }

  function Switched(tasks: seq<Task>, h: nat, on: bool): seq<Task>
    requires h < |tasks|
  {
    tasks[h := OnOff(tasks[h], on).1]
  }

  /** After a switch the indexes find the same tasks, and every task answers and ends as before. */
  lemma SwitchedFinds(tasks: seq<Task>, h: nat, on: bool)
    requires h < |tasks|
    ensures forall idx :: FindTask(Switched(tasks, h, on), idx) == FindTask(tasks, idx)
    ensures forall k :: 0 <= k < |tasks| ==> OnOff(Switched(tasks, h, on)[k], on) == OnOff(tasks[k], on)
  {
    forall idx ensures FindTask(Switched(tasks, h, on), idx) == FindTask(tasks, idx) {
      SameIndexes(Switched(tasks, h, on), tasks, idx);
    }
  }

  lemma {:induction false} SameHonoured(env: Env, a: seq<Task>, b: seq<Task>, tis: seq<Obj>, on: bool)
    requires forall idx :: FindTask(a, idx) == FindTask(b, idx)
    requires |a| == |b| && forall k :: 0 <= k < |a| ==> OnOff(a[k], on).0 == OnOff(b[k], on).0
    ensures Honoured(env, a, tis, on) == Honoured(env, b, tis, on)
  {
    if tis != [] {
      SameHonoured(env, a, b, tis[1..], on);
    }
  }

  lemma SwitchTasksSame(env: Env, tasks: seq<Task>, tis: seq<Obj>, on: bool)
    ensures SameTasks(SwitchTasks(env, tasks, tis, on, 400).0, tasks)
  {
    forall j | 0 <= j < |tasks| ensures SameTask(SwitchTasks(env, tasks, tis, on, 400).0[j], tasks[j]) {
      SwitchTasksExact(env, tasks, tis, on, 400, j);
    }
  }

  // ----- create, run, stop, delete -----

  /** An item leaves 404 when no service has its id, 200 when the request succeeds on the service as
      the items before left it, and else nothing. The code reported is the last one left, or
      400 when there is none. */
  lemma OperateCodeExact(services: seq<Service>, body: seq<Entry>, iface: int, aborts: nat -> set<nat>,
      items: seq<Obj>) returns (i: int)
    requires Items(body, "mis") == Some(items)
    ensures -1 <= i < |items|
    ensures forall j :: i < j < |items| ==> CodeAt(services, items, iface, aborts, j).None?
    ensures i >= 0 ==> CodeAt(services, items, iface, aborts, i) == Some(Operate(services, body, iface, aborts).rsc)
    ensures i < 0 ==> Operate(services, body, iface, aborts).rsc == 400
  {
    i := LastCodeExact(Codes(services, items, iface, aborts, |items|));
  }

  /** Requests whose repetition changes nothing more. */
  predicate Repeatable(iface: int) {
    iface in {IF_MS_CREATION, IF_MS_STOP, IF_MS_DELETE}
  }

  /** A service is named by one of the items. */
  predicate Named(services: seq<Service>, items: seq<Obj>, k: nat) {
    exists o <- items :: FindService(services, TextOr(o)) == Some(k)
  }

  lemma StepTwice(s: Service, iface: int)
    requires Repeatable(iface) && Small(s.recipe) && Inv(s.recipe, s.slot)
    ensures var once := StepService(s, RequestOf(iface, {})); StepService(once, RequestOf(iface, {})) == once
  {
    var request := RequestOf(iface, {});
    StepKeepsInv(s.recipe, s.slot, request);
    StepKeepsInv(s.recipe, Step(s.recipe, s.slot, request), request);
    if iface == IF_MS_DELETE {
      ClearedIsEmpty(s.slot.contents);
      ClearedIsEmpty(EMPTY);
    }
  }

  /** A value that f is applied to now and then, f being settled after once, is that value or f of it. */
  lemma {:induction false} Settles<S>(h: seq<S>, hit: seq<bool>, f: S -> S, n: nat)
    requires |h| == |hit| + 1 && n <= |hit| && f(f(h[0])) == f(h[0])
    requires forall i :: 0 <= i < |hit| ==> h[i + 1] == if hit[i] then f(h[i]) else h[i]
    ensures h[n] == if true in hit[..n] then f(h[0]) else h[0]
  {
    if n > 0 {
      Settles(h, hit, f, n - 1);
      assert h[n - 1 + 1] == if hit[n - 1] then f(h[n - 1]) else h[n - 1];
      assert hit[..n] == hit[..n - 1] + [hit[n - 1]];
    }
  }

  /** Service k before and after each of the items. */
  function History(services: seq<Service>, items: seq<Obj>, iface: int, aborts: nat -> set<nat>,
      k: nat): (h: seq<Service>)
    requires k < |services|
    ensures |h| == |items| + 1 && forall i :: 0 <= i <= |items| ==>
            h[i] == OperateServices(services, items, iface, aborts, i)[k]
  {
    seq(|items| + 1, i requires 0 <= i <= |items| => OperateServices(services, items, iface, aborts, i)[k])
  }

  function Hits(services: seq<Service>, items: seq<Obj>, k: nat): (hit: seq<bool>)
    ensures |hit| == |items| && forall i :: 0 <= i < |items| ==>
            hit[i] == (FindService(services, TextOr(items[i])) == Some(k))
    ensures true in hit <==> Named(services, items, k)
  {
    seq(|items|, i requires 0 <= i < |items| => FindService(services, TextOr(items[i])) == Some(k))
  }

  lemma HistorySteps(services: seq<Service>, items: seq<Obj>, iface: int, aborts: nat -> set<nat>, k: nat,
      f: Service -> Service)
    requires Repeatable(iface) && k < |services| && forall s :: f(s) == StepService(s, RequestOf(iface, {}))
    ensures var h, hit := History(services, items, iface, aborts, k), Hits(services, items, k);
            forall i :: 0 <= i < |items| ==> h[i + 1] == if hit[i] then f(h[i]) else h[i]
  {
    forall i | 0 <= i < |items|
      ensures var h, hit := History(services, items, iface, aborts, k), Hits(services, items, k);
              h[i + 1] == if hit[i] then f(h[i]) else h[i]
    {
      OperateNext(services, items, iface, aborts, i, k);
    }
  }

  /** Creating, stopping and deleting steps each service named, once however often it is named,
      and no other. */
  lemma OperateExact(services: seq<Service>, items: seq<Obj>, iface: int, aborts: nat -> set<nat>, k: nat)
    requires Repeatable(iface) && k < |services|
    requires Small(services[k].recipe) && Inv(services[k].recipe, services[k].slot)
    ensures OperateServices(services, items, iface, aborts, |items|)[k] ==
            if Named(services, items, k) then StepService(services[k], RequestOf(iface, {})) else services[k]
  {
    var f := s => StepService(s, RequestOf(iface, {}));
    var hit := Hits(services, items, k);
    HistorySteps(services, items, iface, aborts, k, f);
    StepTwice(services[k], iface);
    Settles(History(services, items, iface, aborts, k), hit, f, |items|);
    assert hit[..|items|] == hit;
  }

  function StepService(s: Service, request: Request): Service {
    s.(slot := Step(s.recipe, s.slot, request))
  }

  lemma OperateNext(services: seq<Service>, items: seq<Obj>, iface: int, aborts: nat -> set<nat>, n: nat, k: nat)
    requires Repeatable(iface) && n < |items| && k < |services|
    ensures var was := OperateServices(services, items, iface, aborts, n)[k];
            OperateServices(services, items, iface, aborts, n + 1)[k] ==
            if FindService(services, TextOr(items[n])) == Some(k) then StepService(was, RequestOf(iface, {})) else was
  {
    OperateKeepsIds(services, items, iface, aborts, n);
    SameIds(OperateServices(services, items, iface, aborts, n), services, TextOr(items[n]));
  }

  lemma {:induction false} OperateKeepsIds(services: seq<Service>, items: seq<Obj>, iface: int,
      aborts: nat -> set<nat>, n: nat)
    requires n <= |items|
    ensures var after := OperateServices(services, items, iface, aborts, n);
            forall i :: 0 <= i < |services| ==> after[i].id == services[i].id && after[i].recipe == services[i].recipe
  {
    if n > 0 {
      OperateKeepsIds(services, items, iface, aborts, n - 1);
    }
  }
}
