/** The dispatcher of light-weight messages (task_lwmsg_dist.c): what each request does to the
    services, and which responses leave. Messages arrive parsed. */
module Dispatch {
  import opened Basics
  import opened ServiceTypes
  import opened Lifecycle
  import opened Parameters

  datatype Obj = Number(n: int) | Str(s: string) | Arr(items: seq<Obj>) | Dict(entries: seq<Entry>)
  datatype Entry = Entry(key: string, value: Obj)
  datatype Message = Message(header: seq<Entry>, body: seq<Entry>)

  /** A response: its dri unless the request had none that is a text, its code, and the
      parameter reports under their keys. */
  datatype Response = Response(dri: Option<string>, rsc: int, body: map<string, Report>)

  datatype Service = Service(id: string, recipe: Recipe, slot: Slot)

  /** What happens to the dispatcher: a message is received, with the positions of the tasks whose
      initialisation aborts while its i-th item is handled; or, between messages, a kernel
      task sets the state of its own task. */
  datatype Event = Received(message: Option<Message>, aborts: nat -> set<nat>)
                 | TaskSets(service: nat, task: nat, state: State)

  /** The C library's number parsing. */
  datatype Env = Env(lib: CLib, atoi: string -> int)

  /** What handling a request leaves: the services, the code, and the reports of a read. */
  datatype Outcome = Outcome(services: seq<Service>, rsc: int, body: map<string, Report>)

  const IF_TASK_INFO_REQUEST := 3
  const IF_MS_CREATION := 10
  const IF_MS_RUN := 11
  const IF_MS_OUTPUT_PARAM_READ := 13
  const IF_MS_STOP := 15
  const IF_MS_DELETE := 16
  const IF_TASK_ON := 20
  const IF_TASK_PARAM_SET := 21
  const IF_TASK_PARAM_READ := 22
  const IF_TASK_PARAM_READ_ALL := 23
  const IF_TASK_OFF := 24

  function Get(entries: seq<Entry>, key: string): Option<Obj> {
    if entries == [] then None else if entries[0].key == key then Some(entries[0].value) else Get(entries[1..], key)
  }

  function Text(o: Obj): Option<string> {
    if o.Str? then Some(o.s) else None
  }

  function TextOr(o: Obj): string {
    if o.Str? then o.s else ""
  }

  function Texts(items: seq<Obj>): (r: seq<string>)
    ensures |r| == |items| && forall i :: 0 <= i < |items| ==> r[i] == TextOr(items[i])
  {
    seq(|items|, i requires 0 <= i < |items| => TextOr(items[i]))
  }

  /** The test of a list's 8-bit count for one. */
  predicate IsOne(items: seq<Obj>) {
    |items| % 256 == 1
  }

  /** The array under a key, if there is one. */
  function Items(body: seq<Entry>, key: string): Option<seq<Obj>> {
    match Get(body, key)
    case Some(Arr(items)) => Some(items)
    case _ => None
  }

  /** The array of one element under a key, if it is that. */
  function Single(body: seq<Entry>, key: string): Option<Obj> {
    match Items(body, key)
    case Some(items) => if IsOne(items) then Some(items[0]) else None
    case _ => None
  }

  function FindService(services: seq<Service>, id: string): (k: Option<nat>)
    ensures k.Some? ==> k.value < |services| && services[k.value].id == id
  {
    if services == [] || id == "" then None
    else if services[0].id == id then Some(0)
    else
      match FindService(services[1..], id)
      case None => None
      case Some(k) => Some(k + 1)
  }

  /** The service that the one element under the key names. */
  function TheService(services: seq<Service>, body: seq<Entry>): (k: Option<nat>)
    ensures k.Some? ==> k.value < |services| && Single(body, "mis").Some?
  {
    match Single(body, "mis")
    case None => None
    case Some(id) => FindService(services, TextOr(id))
  }

  function FirstIndex(tasks: seq<Task>, idx: int): (k: Option<nat>)
    ensures k.Some? ==> k.value < |tasks| && tasks[k.value].task_idx == idx
  {
    if tasks == [] then None
    else if tasks[0].task_idx == idx then Some(0)
    else
      match FirstIndex(tasks[1..], idx)
      case None => None
      case Some(k) => Some(k + 1)
  }

  function FindTask(tasks: seq<Task>, idx: int): (k: Option<nat>)
    ensures k.Some? ==> k.value < |tasks| && tasks[k.value].task_idx == idx
  {
    if idx < 0 || |tasks| % 256 < idx + 1 then None else FirstIndex(tasks, idx)
  }

  function Tasks(services: seq<Service>, k: nat): seq<Task>
    requires k < |services|
  {
    services[k].slot.contents.tasks
  }

  function WithTasks(services: seq<Service>, k: nat, tasks: seq<Task>): seq<Service>
    requires k < |services|
  {
    var s := services[k];
    services[k := s.(slot := s.slot.(contents := Holding(s.slot.contents, tasks)))]
  }

  // ----- create, run, stop, delete -----

  function RequestOf(iface: int, aborts: set<nat>): Request {
    if iface == IF_MS_CREATION then Create
    else if iface == IF_MS_RUN then Run(aborts)
    else if iface == IF_MS_STOP then Stop
    else Delete
  }

  /** One service named in a message is stepped. */
  function Stepped(services: seq<Service>, item: Obj, request: Request): (r: seq<Service>)
    ensures |r| == |services|
    ensures forall i :: 0 <= i < |services| ==> r[i].id == services[i].id && r[i].recipe == services[i].recipe
  {
    match FindService(services, TextOr(item))
    case None => services
    case Some(k) => services[k := services[k].(slot := Step(services[k].recipe, services[k].slot, request))]
  }

  /** The code that the item leaves, if it leaves one: a request that does not succeed leaves
      the code as it was. */
  function Code(services: seq<Service>, item: Obj, request: Request): Option<int> {
    match FindService(services, TextOr(item))
    case None => Some(404)
    case Some(k) => if Succeeds(services[k].slot, request) then Some(200) else None
  }

  /** The services after the first n items. */
  function OperateServices(services: seq<Service>, items: seq<Obj>, iface: int, aborts: nat -> set<nat>,
      n: nat): (r: seq<Service>)
    requires n <= |items|
    ensures |r| == |services|
  {
    if n == 0 then services
    else Stepped(OperateServices(services, items, iface, aborts, n - 1), items[n - 1], RequestOf(iface, aborts(n - 1)))
  }

  /** The code left by item n. */
  function CodeAt(services: seq<Service>, items: seq<Obj>, iface: int, aborts: nat -> set<nat>, n: nat): Option<int>
    requires n < |items|
  {
    Code(OperateServices(services, items, iface, aborts, n), items[n], RequestOf(iface, aborts(n)))
  }

  /** The codes left by the first n items. */
  function Codes(services: seq<Service>, items: seq<Obj>, iface: int, aborts: nat -> set<nat>,
      n: nat): (r: seq<Option<int>>)
    requires n <= |items|
    ensures |r| == n && forall i :: 0 <= i < n ==> r[i] == CodeAt(services, items, iface, aborts, i)
  {
    seq(n, i requires 0 <= i < n => CodeAt(services, items, iface, aborts, i))
  }

  /** The code when items have left these. */
  function LastCode(codes: seq<Option<int>>): int {
    if codes == [] then 400
    else if codes[|codes| - 1].Some? then codes[|codes| - 1].value
    else LastCode(codes[..|codes| - 1])
  }

  function Operate(services: seq<Service>, body: seq<Entry>, iface: int, aborts: nat -> set<nat>): Outcome {
    match Items(body, "mis")
    case None => Outcome(services, 400, map[])
    case Some(items) =>
      Outcome(OperateServices(services, items, iface, aborts, |items|),
              LastCode(Codes(services, items, iface, aborts, |items|)), map[])
  }

  // ----- setting parameters -----

  function SetAll(env: Env, params: seq<Param>, pairs: seq<Entry>): (r: seq<Param>)
    ensures |r| == |params|
    decreases pairs
  {
    if pairs == [] then params
    else SetAll(env, SetParam(params, pairs[0].key, TextOr(pairs[0].value), env.lib), pairs[1..])
  }

  predicate AnyFound(params: seq<Param>, pairs: seq<Entry>) {
    exists e <- pairs :: FindParam(params, e.key).Some?
  }

  /** Sets the pairs in every task listed. `found` is kept from task to task. An unknown index
      does nothing when there are no pairs; otherwise the request is not a safe one. */
  function SetTasks(env: Env, tasks: seq<Task>, tis: seq<Obj>, pairs: seq<Entry>, found: bool,
      rsc: int): (r: (seq<Task>, int))
    ensures |r.0| == |tasks| && (rsc != 300 ==> r.1 != 300)
    decreases tis
  {
    if tis == [] then (tasks, rsc)
    else
      match FindTask(tasks, env.atoi(TextOr(tis[0])))
      case None => SetTasks(env, tasks, tis[1..], pairs, found, if found then 200 else 404)
      case Some(j) =>
        var t := tasks[j];
        var found' := found || AnyFound(t.flexible_params, pairs);
        SetTasks(env, tasks[j := t.(flexible_params := SetAll(env, t.flexible_params, pairs))], tis[1..], pairs, found',
                 if found' then 200 else 404)
  }

  function ParamSet(env: Env, services: seq<Service>, body: seq<Entry>): Outcome {
    match (TheService(services, body), Items(body, "tis"), Get(body, "fp"))
    case (Some(k), Some(tis), Some(Dict(pairs))) =>
      var (tasks, rsc) := SetTasks(env, Tasks(services, k), tis, pairs, false, 400);
      Outcome(WithTasks(services, k, tasks), rsc, map[])
    case _ => Outcome(services, 400, map[])
  }

  // ----- reading parameters -----

  /** The list of names in a read request: flexible ones if there are any. */
  function Names(body: seq<Entry>): seq<Obj> {
    match Items(body, if Get(body, "fps").Some? then "fps" else "sps")
    case Some(items) => items
    case None => []
  }

  function ReadList(t: Task, body: seq<Entry>): seq<Param> {
    if Get(body, "fps").Some? then t.flexible_params else t.static_params
  }

  /** The flag is reset for each name, so the last one decides. */
  predicate LastFound(t: Task, names: seq<Obj>, params: seq<Param>) {
    names != [] && FindParam(params, TextOr(names[|names| - 1])).Some?
  }

  /** What is reported of a task. */
  function ReportOf(t: Task, body: seq<Entry>, iface: int): map<string, Report> {
    if iface == IF_TASK_PARAM_READ_ALL then
      map["fp" := ReportAll(t.flexible_params), "sp" := ReportAll(t.static_params)]
    else
      map[if Get(body, "fps").Some? then "fp" else "sp" := ReportNamed(ReadList(t, body), Texts(Names(body)))]
  }

  /** A parameter read; code 300 says that the handler responds itself. */
  function ParamRead(env: Env, services: seq<Service>, body: seq<Entry>, iface: int): Outcome {
    if Single(body, "mis").None? then Outcome(services, 400, map[])
    else
      match TheService(services, body)
      case None => Outcome(services, 404, map[])
      case Some(k) =>
        if services[k].slot.state != RUNNING then Outcome(services, 403, map[])
        else if Single(body, "tis").None? || (Get(body, "fps").Some? && Get(body, "sps").Some?) then
          Outcome(services, 400, map[])
        else
          match FindTask(Tasks(services, k), env.atoi(TextOr(Single(body, "tis").value)))
          case None => Outcome(services, 404, map[])
          case Some(j) =>
            var t := Tasks(services, k)[j];
            if iface == IF_TASK_PARAM_READ_ALL || LastFound(t, Names(body), ReadList(t, body))
            then Outcome(services, 300, ReportOf(t, body, iface))
            else Outcome(services, 404, map[])
  }

  // ----- switching tasks -----

  /** Switches the tasks listed up to the first that is missing or refuses. */
  function SwitchTasks(env: Env, tasks: seq<Task>, tis: seq<Obj>, on: bool, rsc: int): (r: (seq<Task>, int))
    ensures |r.0| == |tasks| && (rsc != 300 ==> r.1 != 300)
    decreases tis
  {
    if tis == [] then (tasks, rsc)
    else
      match FindTask(tasks, env.atoi(TextOr(tis[0])))
      case None => (tasks, 404)
      case Some(j) =>
        var (ok, t) := OnOff(tasks[j], on);
        if ok then SwitchTasks(env, tasks[j := t], tis[1..], on, 200) else (tasks[j := t], 400)
  }

  function Offloading(env: Env, services: seq<Service>, body: seq<Entry>, iface: int): Outcome {
    if Single(body, "mis").None? then Outcome(services, 400, map[])
    else
      match (TheService(services, body), Items(body, "tis"))
      case (Some(k), Some(tis)) =>
        var (tasks, rsc) := SwitchTasks(env, Tasks(services, k), tis, iface != IF_TASK_OFF, 400);
        Outcome(WithTasks(services, k, tasks), rsc, map[])
      case _ => Outcome(services, 404, map[])
  }

  function InformAll(services: seq<Service>): (r: seq<Service>)
    ensures |r| == |services|
  {
    if services == [] then []
    else [services[0].(slot := Step(services[0].recipe, services[0].slot, DeviceInfo))] + InformAll(services[1..])
  }

  // ----- the requests considered -----

  /** The task indexes are texts, and name tasks. */
  predicate KnownTasks(env: Env, tasks: seq<Task>, tis: seq<Obj>) {
    forall ti <- tis :: ti.Str? && FindTask(tasks, env.atoi(ti.s)).Some?
  }

  predicate AllTexts(items: seq<Obj>) {
    forall o <- items :: o.Str?
  }

  /** A parameter set that reaches the tasks has texts for indexes and values, and, unless there is
      nothing to set, lists known tasks. */
  predicate SafeSet(env: Env, services: seq<Service>, body: seq<Entry>) {
    match (TheService(services, body), Items(body, "tis"), Get(body, "fp"))
    case (Some(k), Some(tis), Some(fp)) =>
      tis != [] ==>
        && fp.Dict? && AllTexts(tis) && (forall e <- fp.entries :: e.value.Str?)
        && (fp.entries != [] ==> KnownTasks(env, Tasks(services, k), tis))
    case _ => true
  }

  /** A parameter read that reaches the task has a text for its index, lists names under one of
      its two keys unless it reads all, and, unless there is nothing to read, names a known
      task. */
  predicate SafeRead(env: Env, services: seq<Service>, body: seq<Entry>, iface: int) {
    match (TheService(services, body), Single(body, "tis"))
    case (Some(k), Some(ti)) =>
      services[k].slot.state == RUNNING && !(Get(body, "fps").Some? && Get(body, "sps").Some?) ==>
        && ti.Str?
        && (iface == IF_TASK_PARAM_READ ==> Items(body, "fps").Some? || Items(body, "sps").Some?)
        && (iface == IF_TASK_PARAM_READ_ALL || Names(body) != [] ==> KnownTasks(env, Tasks(services, k), [ti]))
    case _ => true
  }

  /** Arrays fit the 8-bit count, as in every message that the receive buffer holds. */
  predicate Short(body: seq<Entry>, key: string) {
    Items(body, key).Some? ==> |Items(body, key).value| <= 255
  }

  /** The requests considered: any but the output-parameter read, and none on which the code
      reads through NULL, except for the log line of a refused run. */
  predicate SafeRequest(env: Env, services: seq<Service>, iface: int, body: seq<Entry>) {
    && iface != IF_MS_OUTPUT_PARAM_READ
    && Short(body, "mis") && Short(body, "tis")
    && (iface in {IF_TASK_ON, IF_TASK_OFF} && TheService(services, body).Some? && Items(body, "tis").Some? ==>
          AllTexts(Items(body, "tis").value))
    && (iface == IF_TASK_PARAM_SET ==> SafeSet(env, services, body))
    && (iface in {IF_TASK_PARAM_READ, IF_TASK_PARAM_READ_ALL} ==> SafeRead(env, services, body, iface))
  }

  // ----- one event -----

  /** The handler chosen by the interface. */
  function Handled(env: Env, services: seq<Service>, iface: int, body: seq<Entry>, aborts: nat -> set<nat>): Outcome
    requires SafeRequest(env, services, iface, body)
  {
    if iface == IF_TASK_INFO_REQUEST then Outcome(InformAll(services), 300, map[])
    else if iface in {IF_MS_CREATION, IF_MS_RUN, IF_MS_STOP, IF_MS_DELETE} then Operate(services, body, iface, aborts)
    else if iface == IF_TASK_PARAM_SET then ParamSet(env, services, body)
    else if iface in {IF_TASK_PARAM_READ, IF_TASK_PARAM_READ_ALL} then ParamRead(env, services, body, iface)
    else if iface in {IF_TASK_ON, IF_TASK_OFF} then Offloading(env, services, body, iface)
    else Outcome(services, 400, map[])
  }

  /** A message that has an interface and a dri takes effect: its interface, and the dri if that
      is a text. */
  function Address(m: Option<Message>): Option<(string, Option<string>)> {
    match m
    case None => None
    case Some(msg) =>
      if |msg.header| % 256 == 0 then None
      else
        match (Get(msg.header, "if"), Get(msg.header, "dri"))
        case (Some(Str(iface)), Some(dri)) => Some((iface, Text(dri)))
        case _ => None
  }

  /** The events considered: the interface of an addressed message is a text and its request is one
      of those above; and only a task that has a kernel task has its state set. */
  predicate Safe(env: Env, services: seq<Service>, e: Event) {
    match e
    case Received(m, _) =>
      && (m.Some? && |m.value.header| % 256 != 0 &&
          Get(m.value.header, "if").Some? && Get(m.value.header, "dri").Some? ==>
          Get(m.value.header, "if").value.Str?)
      && (Address(m).Some? ==> SafeRequest(env, services, env.atoi(Address(m).value.0), m.value.body))
    case TaskSets(k, j, state) =>
      k < |services| && j < |Tasks(services, k)| && Tasks(services, k)[j].task_t && state != NOT_READY
  }

  function After(env: Env, services: seq<Service>, e: Event): seq<Service>
    requires Safe(env, services, e)
  {
    match e
    case Received(m, aborts) =>
      if Address(m).None? then services
      else Handled(env, services, env.atoi(Address(m).value.0), m.value.body, aborts).services
    case TaskSets(k, j, state) =>
        WithTasks(services, k, Tasks(services, k)[j := Tasks(services, k)[j].(state := state)])
  }

  /** The responses to an event. */
  function Reply(env: Env, services: seq<Service>, e: Event): seq<Response>
    requires Safe(env, services, e)
  {
    match e
    case Received(m, aborts) =>
      if Address(m).None? then []
      else
        var (iface, dri) := Address(m).value;
        Responses(dri, Handled(env, services, env.atoi(iface), m.value.body, aborts))
    case TaskSets(_, _, _) => []
  }

  /** The handler's own response, or the dispatcher's, which needs a dri. */
  function Responses(dri: Option<string>, o: Outcome): seq<Response> {
    if o.rsc == 300 then [Response(dri, 200, o.body)]
    else if dri.Some? then [Response(dri, o.rsc, map[])]
    else []
  }

  // ----- the dispatcher -----

  class Dispatcher {
    const env: Env
    var services: seq<Service>
    var sent: seq<Response>

    constructor (env: Env, services: seq<Service>)
      ensures this.env == env && this.services == services && sent == []
    {
      this.env, this.services, sent := env, services, [];
    }

    /** Creates, runs, stops or deletes each service named in the message. */
    method LwmsgOperation(iface: int, body: seq<Entry>, aborts: nat -> set<nat>) returns (rsc: int)
      modifies this`services
      ensures Outcome(services, rsc, map[]) == Operate(old(services), body, iface, aborts)
    {
      rsc := 400;
      match Items(body, "mis") {
        case None =>
        case Some(items) =>
          for i := 0 to |items|
            invariant services == OperateServices(old(services), items, iface, aborts, i)
            invariant rsc == LastCode(Codes(old(services), items, iface, aborts, i))
          {
            CodesNext(old(services), items, iface, aborts, i);
            match FindService(services, TextOr(items[i])) {
              case None => rsc := 404;
              case Some(k) =>
                var s, request := services[k], RequestOf(iface, aborts(i));
                if Succeeds(s.slot, request) {
                  rsc := 200;
                }
                services := services[k := s.(slot := Step(s.recipe, s.slot, request))];
            }
          }
      }
    }

    /** Sets flexible parameters of the tasks listed, in every one of them. */
    method LwmsgParamSet(body: seq<Entry>) returns (rsc: int)
      requires SafeSet(env, services, body)
      modifies this`services
      ensures Outcome(services, rsc, map[]) == ParamSet(env, old(services), body)
    {
      rsc := 400;
      match (TheService(services, body), Items(body, "tis"), Get(body, "fp")) {
        case (Some(k), Some(tis), Some(Dict(pairs))) =>
          var tasks;
          tasks, rsc := SetListedTasks(Tasks(services, k), tis, pairs);
          services := WithTasks(services, k, tasks);
        case _ =>
      }
    }

    method SetListedTasks(was: seq<Task>, tis: seq<Obj>, pairs: seq<Entry>) returns (tasks: seq<Task>, rsc: int)
      ensures (tasks, rsc) == SetTasks(env, was, tis, pairs, false, 400)
    {
      tasks, rsc := was, 400;
      var atleastFound := false;
      for i := 0 to |tis|
        invariant SetTasks(env, was, tis, pairs, false, 400) == SetTasks(env, tasks, tis[i..], pairs, atleastFound, rsc)
      {
        assert tis[i..][1..] == tis[i + 1..];
        var j := FindTask(tasks, env.atoi(TextOr(tis[i])));
        if j.Some? {
          var params, found := SetPairs(tasks[j.value].flexible_params, pairs);
          atleastFound := atleastFound || found;
          tasks := tasks[j.value := tasks[j.value].(flexible_params := params)];
        }
        rsc := if atleastFound then 200 else 404;
      }
    }

    method SetPairs(was: seq<Param>, pairs: seq<Entry>) returns (params: seq<Param>, found: bool)
      ensures params == SetAll(env, was, pairs) && found == AnyFound(was, pairs)
    {
      params, found := was, false;
      for i := 0 to |pairs|
        invariant SetAll(env, was, pairs) == SetAll(env, params, pairs[i..])
        invariant found == AnyFound(was, pairs[..i])
        invariant forall key :: FindParam(params, key) == FindParam(was, key)
      {
        assert pairs[i..][1..] == pairs[i + 1..];
        assert pairs[..i + 1] == pairs[..i] + [pairs[i]];
        ghost var before := params;
        var k := GetParameterFromParamList(params, pairs[i].key);
        if k.Some? {
          found := true;
          params := params[k.value := SetByString(params[k.value], TextOr(pairs[i].value), env.lib)];
        }
        forall key ensures FindParam(params, key) == FindParam(was, key) {
          SetThenFind(before, pairs[i].key, TextOr(pairs[i].value), env.lib, key);
        }
      }
      assert pairs[..|pairs|] == pairs;
    }

    /** Reports parameters of one task. The handler itself sends the response of a
        successful read, and then says so by 300. */
    method LwmsgParamRead(iface: int, dri: Option<string>, body: seq<Entry>) returns (rsc: int)
      requires iface in {IF_TASK_PARAM_READ, IF_TASK_PARAM_READ_ALL} && SafeRead(env, services, body, iface)
      modifies this`sent
      ensures rsc == ParamRead(env, services, body, iface).rsc
      ensures sent == old(sent) +
              if rsc == 300 then [Response(dri, 200, ParamRead(env, services, body, iface).body)] else []
    {
      if Single(body, "mis").None? {
        return 400;
      }
      var k := TheService(services, body);
      if k.None? {
        return 404;
      }
      if services[k.value].slot.state != RUNNING {
        return 403;
      }
      var ti := Single(body, "tis");
      if ti.None? || (Get(body, "fps").Some? && Get(body, "sps").Some?) {
        return 400;
      }
      assert ti.value in [ti.value];
      rsc := ReadTask(iface, dri, body, FindTask(Tasks(services, k.value), env.atoi(TextOr(ti.value))), k.value);
    }

    method ReadTask(iface: int, dri: Option<string>, body: seq<Entry>, j: Option<nat>, k: nat) returns (rsc: int)
      requires iface in {IF_TASK_PARAM_READ, IF_TASK_PARAM_READ_ALL}
      requires k < |services| && (j.Some? ==> j.value < |Tasks(services, k)|)
      requires iface == IF_TASK_PARAM_READ_ALL || Names(body) != [] ==> j.Some?
      modifies this`sent
      ensures j.None? ==> rsc == 404 && sent == old(sent)
      ensures j.Some? ==>
                var t := Tasks(services, k)[j.value];
                var ok := iface == IF_TASK_PARAM_READ_ALL || LastFound(t, Names(body), ReadList(t, body));
                && rsc == (if ok then 300 else 404)
                && sent == old(sent) + if ok then [Response(dri, 200, ReportOf(t, body, iface))] else []
    {
      if iface == IF_TASK_PARAM_READ_ALL {
        var t := Tasks(services, k)[j.value];
        var fp := ReportList(t.flexible_params);
        var sp := ReportList(t.static_params);
        sent := sent + [Response(dri, 200, map["fp" := fp, "sp" := sp])];
        return 300;
      }
      var names := Names(body);
      if names == [] {
        return 404;
      }
      var t := Tasks(services, k)[j.value];
      var report, found := ReportNames(ReadList(t, body), Texts(names));
      if !found {
        return 404;
      }
      sent := sent + [Response(dri, 200, map[if Get(body, "fps").Some? then "fp" else "sp" := report])];
      rsc := 300;
    }

    method ReportList(params: seq<Param>) returns (r: Report)
      ensures r == ReportAll(params)
    {
      r := map[];
      for i := 0 to |params|
        invariant r == ReportAll(params[..i])
      {
        assert params[..i + 1][..i] == params[..i];
        r := AddValue(r, params[i]);
      }
      assert params[..|params|] == params;
    }

    method ReportNames(params: seq<Param>, aliases: seq<string>) returns (r: Report, found: bool)
      ensures r == ReportNamed(params, aliases)
      ensures found <==> aliases != [] && FindParam(params, aliases[|aliases| - 1]).Some?
    {
      r, found := map[], false;
      for i := 0 to |aliases|
        invariant r == ReportNamed(params, aliases[..i])
        invariant found <==> i > 0 && FindParam(params, aliases[i - 1]).Some?
      {
        assert aliases[..i + 1][..i] == aliases[..i];
        var k := GetParameterFromParamList(params, aliases[i]);
        found := k.Some?;
        if found {
          r := AddValue(r, params[k.value]);
        }
      }
      assert aliases[..|aliases|] == aliases;
    }

    /** Switches the tasks listed on or off, up to the first that cannot be. */
    method LwmsgOffloading(iface: int, body: seq<Entry>) returns (rsc: int)
      modifies this`services
      ensures Outcome(services, rsc, map[]) == Offloading(env, old(services), body, iface)
    {
      if Single(body, "mis").None? {
        return 400;
      }
      match (TheService(services, body), Items(body, "tis")) {
        case (Some(k), Some(tis)) =>
          var tasks;
          tasks, rsc := SwitchListedTasks(Tasks(services, k), tis, iface != IF_TASK_OFF);
          services := WithTasks(services, k, tasks);
        case _ => rsc := 404;
      }
    }

    method SwitchListedTasks(was: seq<Task>, tis: seq<Obj>, on: bool) returns (tasks: seq<Task>, rsc: int)
      ensures (tasks, rsc) == SwitchTasks(env, was, tis, on, 400)
    {
      tasks, rsc := was, 400;
      for i := 0 to |tis|
        invariant SwitchTasks(env, was, tis, on, 400) == SwitchTasks(env, tasks, tis[i..], on, rsc)
      {
        assert tis[i..][1..] == tis[i + 1..];
        var j := FindTask(tasks, env.atoi(TextOr(tis[i])));
        if j.None? {
          return tasks, 404;
        }
        var (ok, t) := OnOff(tasks[j.value], on);
        tasks := tasks[j.value := t];
        if !ok {
          return tasks, 400;
        }
        rsc := 200;
      }
    }

    method InformServices()
      modifies this`services
      ensures services == InformAll(old(services))
    {
      var done := [];
      for i := 0 to |services|
        invariant services == old(services)
        invariant InformAll(services) == done + InformAll(services[i..])
      {
        assert services[i..][1..] == services[i + 1..];
        done := done + [services[i].(slot := Step(services[i].recipe, services[i].slot, DeviceInfo))];
      }
      services := done;
    }

    method HandleRequest(iface: int, dri: Option<string>, body: seq<Entry>, aborts: nat -> set<nat>) returns (rsc: int)
      requires SafeRequest(env, services, iface, body)
      modifies this`services, this`sent
      ensures var o := Handled(env, old(services), iface, body, aborts);
              && services == o.services && rsc == o.rsc
              && sent == old(sent) + if rsc == 300 then [Response(dri, 200, o.body)] else []
    {
      if iface == IF_TASK_INFO_REQUEST {
        InformServices();
        sent := sent + [Response(dri, 200, map[])];
        rsc := 300;
      } else if iface in {IF_MS_CREATION, IF_MS_RUN, IF_MS_STOP, IF_MS_DELETE} {
        OperateNotOwn(services, body, iface, aborts);
        rsc := LwmsgOperation(iface, body, aborts);
      } else if iface == IF_TASK_PARAM_SET {
        rsc := LwmsgParamSet(body);
      } else if iface in {IF_TASK_PARAM_READ, IF_TASK_PARAM_READ_ALL} {
        rsc := LwmsgParamRead(iface, dri, body);
      } else if iface in {IF_TASK_ON, IF_TASK_OFF} {
        rsc := LwmsgOffloading(iface, body);
      } else {
        rsc := 400;
      }
    }

    /** One turn of the dispatcher: the message takes its effect and is answered, whoever
        sends the answer. */
    method HandleMessage(m: Option<Message>, aborts: nat -> set<nat>)
      requires Safe(env, services, Received(m, aborts))
      modifies this`services, this`sent
      ensures services == After(env, old(services), Received(m, aborts))
      ensures sent == old(sent) + Reply(env, old(services), Received(m, aborts))
    {
      var rsc := 405;
      var dri: Option<string> := None;
      if m.Some? && |m.value.header| % 256 > 0 {
        var cif, cdri := Get(m.value.header, "if"), Get(m.value.header, "dri");
        rsc := 400;
        if cif.Some? && cdri.Some? {
          dri := Text(cdri.value);
          rsc := HandleRequest(env.atoi(cif.value.s), dri, m.value.body, aborts);
        }
      }
      if rsc != 300 && dri.Some? {
        sent := sent + [Response(dri, rsc, map[])];
      }
    }

    method HandleEvent(e: Event)
      requires Safe(env, services, e)
      modifies this`services, this`sent
      ensures services == After(env, old(services), e)
      ensures sent == old(sent) + Reply(env, old(services), e)
    {
      match e {
        case Received(m, aborts) => HandleMessage(m, aborts);
        case TaskSets(k, j, state) =>
          services := WithTasks(services, k, Tasks(services, k)[j := Tasks(services, k)[j].(state := state)]);
      }
    }

    /** The dispatcher over a whole queue of messages, with what kernel tasks do between them. */
    method LwmsgDistTask(queue: seq<Event>)
      requires SafeRun(env, services, queue)
      modifies this`services, this`sent
      ensures services == AfterAll(env, old(services), queue)
      ensures sent == old(sent) + Replies(env, old(services), queue)
    {
      for i := 0 to |queue|
        invariant SafeRun(env, services, queue[i..])
        invariant AfterAll(env, services, queue[i..]) == AfterAll(env, old(services), queue)
        invariant sent + Replies(env, services, queue[i..]) == old(sent) + Replies(env, old(services), queue)
      {
        RunNext(env, services, queue, i);
        Regroup(sent, Reply(env, services, queue[i]), Replies(env, After(env, services, queue[i]), queue[i + 1..]));
        HandleEvent(queue[i]);
      }
    }
  }

  lemma RunNext(env: Env, services: seq<Service>, queue: seq<Event>, i: nat)
    requires i < |queue| && SafeRun(env, services, queue[i..])
    ensures Safe(env, services, queue[i]) && SafeRun(env, After(env, services, queue[i]), queue[i + 1..])
    ensures AfterAll(env, services, queue[i..]) == AfterAll(env, After(env, services, queue[i]), queue[i + 1..])
    ensures Replies(env, services, queue[i..]) ==
            Reply(env, services, queue[i]) + Replies(env, After(env, services, queue[i]), queue[i + 1..])
  {
    assert queue[i..][1..] == queue[i + 1..];
  }

  lemma CodesNext(services: seq<Service>, items: seq<Obj>, iface: int, aborts: nat -> set<nat>, n: nat)
    requires n < |items|
    ensures var code := CodeAt(services, items, iface, aborts, n);
            LastCode(Codes(services, items, iface, aborts, n + 1)) ==
            if code.Some? then code.value else LastCode(Codes(services, items, iface, aborts, n))
  {
    assert Codes(services, items, iface, aborts, n + 1)[..n] == Codes(services, items, iface, aborts, n);
  }

  /** The code is the last that an item leaves, or that of an ill-formed request. */
  lemma {:induction false} LastCodeExact(codes: seq<Option<int>>) returns (i: int)
    ensures -1 <= i < |codes|
    ensures forall j :: i < j < |codes| ==> codes[j].None?
    ensures i >= 0 ==> codes[i] == Some(LastCode(codes))
    ensures i < 0 ==> LastCode(codes) == 400
  {
    i := |codes| - 1;
    if codes != [] && codes[i].None? {
      i := LastCodeExact(codes[..i]);
    }
  }

  /** The code 300 never comes from create, run, stop or delete. */
  lemma OperateNotOwn(services: seq<Service>, body: seq<Entry>, iface: int, aborts: nat -> set<nat>)
    ensures Operate(services, body, iface, aborts).rsc != 300
  {
    if Items(body, "mis").Some? {
      var items := Items(body, "mis").value;
      var i := LastCodeExact(Codes(services, items, iface, aborts, |items|));
    }
  }

  lemma {:induction false} SameIndexes(a: seq<Task>, b: seq<Task>, idx: int)
    requires |a| == |b| && forall i :: 0 <= i < |a| ==> a[i].task_idx == b[i].task_idx
    ensures FindTask(a, idx) == FindTask(b, idx)
  {
    SameFirstIndex(a, b, idx);
  }

  lemma {:induction false} SameFirstIndex(a: seq<Task>, b: seq<Task>, idx: int)
    requires |a| == |b| && forall i :: 0 <= i < |a| ==> a[i].task_idx == b[i].task_idx
    ensures FirstIndex(a, idx) == FirstIndex(b, idx)
  {
    if a != [] {
      SameFirstIndex(a[1..], b[1..], idx);
    }
  }

  // ----- whole runs -----

  predicate SafeRun(env: Env, services: seq<Service>, queue: seq<Event>)
    decreases |queue|
  {
    queue == [] || (Safe(env, services, queue[0]) && SafeRun(env, After(env, services, queue[0]), queue[1..]))
  }

  function AfterAll(env: Env, services: seq<Service>, queue: seq<Event>): seq<Service>
    requires SafeRun(env, services, queue)
    decreases |queue|
  {
    if queue == [] then services else AfterAll(env, After(env, services, queue[0]), queue[1..])
  }

  function Replies(env: Env, services: seq<Service>, queue: seq<Event>): seq<Response>
    requires SafeRun(env, services, queue)
    decreases |queue|
  {
    if queue == [] then []
    else Reply(env, services, queue[0]) + Replies(env, After(env, services, queue[0]), queue[1..])
  }
}
