/** A run of a microservice that wires a port out of range: the greatest word passes the 32-bit
    test of an input port. */
module WrappedPort {
  import opened Basics
  import opened ServiceTypes
  import opened TaskLinks
  import opened TaskIndex
  import opened Microservice

  /** The tasks that are off after all tasks that are initially on have been started. */
  ghost function StaysOff(tasks: seq<TaskInfo>): set<TaskInfo>
    reads tasks
  {
    set t | t in tasks && t.initial_state == STOPPED && t.state in {NOT_READY, STOPPED}
  }

  /** Neither set is rejected, and both have the same entry. */
  ghost predicate SameEntry(tasks: seq<TaskInfo>, off: set<TaskInfo>, other: set<TaskInfo>) {
    && !Rejected(tasks, off) && !Rejected(tasks, other)
    && off * Offloadable(tasks) == other * Offloadable(tasks)
  }

  /** A registered line that is not harmless puts a fan-out out of range, for every service: it is
      enough to store it for the tasks that stay off, and to start the service. */
  method StoreAndStart(s: Service, line: ConnectLine, names: seq<string>, fails: TaskInfo -> bool)
    requires s.Valid() && s.state == CREATED && s.task_link_head != null
    requires line in s.connect_lines && !Harmless(line.output_port_no, line.input_port_no)
    requires SameEntry(s.tasks, NamedSet(s.tasks, names), StaysOff(s.tasks))
    requires forall t <- s.tasks :: s.Startable(t, fails)
    modifies s`index, Links(s.shape)`connect_link_head, Links(s.shape)`output_param_name
    modifies s`state, s`current_task_link, s`output_param_name
    modifies s.tasks`state, s.tasks`task_t, PortArrays(s.tasks)
    ensures s.Valid() && s.state == RUNNING && !s.FanOutSafe()
  {
    hide s.Valid;
    assert allocated(Links(s.shape)) && allocated(PortArrays(s.tasks));
    Installable(s, line);
    StoreLine(s, line, names);
    StartAll(s, fails);
    SelectsLine(s, line);
    assert Names(line, line.start_task, line.output_port_no);
    WiredOutside(s, line);
  }

  lemma WiredOutside(s: Service, line: ConnectLine)
    requires line.start_task in s.tasks && line.output_port_no < line.start_task.output_ports.Length
    requires line.start_task.output_ports[line.output_port_no] == line &&
             line.input_port_no >= line.dest_task.input_count
    ensures !s.FanOutSafe()
  {
  }

  lemma Installable(s: Service, line: ConnectLine)
    requires s.Valid() && line in s.connect_lines && !Harmless(line.output_port_no, line.input_port_no)
    ensures line.start_task in s.tasks && line.output_port_no < line.start_task.output_ports.Length
    ensures line.input_port_no >= line.dest_task.input_count
  {
    PassesExactly(line.output_port_no, line.start_task.output_count);
  }

  /** Stores a line for the set of named tasks. */
  method StoreLine(s: Service, line: ConnectLine, names: seq<string>)
    requires s.Valid() && s.task_link_head != null && line in s.connect_lines
    requires !Rejected(s.tasks, NamedSet(s.tasks, names))
    modifies s`index, Links(s.shape)`connect_link_head, Links(s.shape)`output_param_name
    ensures s.Valid() && HoldsLine(s, NamedSet(s.tasks, names), line)
  {
    assert allocated(Links(s.shape));
    var list := new LineList([line]);
    s.SetConnectLink(list, "", names);
  }

  /** The entry of the set `off` is the one line. */
  ghost predicate HoldsLine(s: Service, off: set<TaskInfo>, line: ConnectLine)
    reads s`tasks, s`index
  {
    var lines := Get(s.index, off * Offloadable(s.tasks)).lines;
    lines != null && lines.lines == [line]
  }

  method StartAll(s: Service, fails: TaskInfo -> bool)
    requires s.Valid() && s.state == CREATED && forall t <- s.tasks :: s.Startable(t, fails)
    modifies s`state, s`current_task_link, s`output_param_name, s.tasks`state, s.tasks`task_t, PortArrays(s.tasks)
    ensures s.Valid() && s.state == RUNNING && s.Inactive() == old(StaysOff(s.tasks))
    ensures forall t <- s.tasks :: forall p :: 0 <= p < t.output_ports.Length ==>
              t.output_ports[p] == Installed(s.SelectedLines(), t, p, old(t.output_ports[p]))
  {
    hide *;
    var ok := s.StartMicroService(fails);
    OnlyThese(s);
  }

  twostate lemma OnlyThese(s: Service)
    requires s.tasks == old(s.tasks) && s.Started()
    requires forall t <- s.tasks :: t.initial_state == old(t.initial_state)
    ensures s.Inactive() == old(StaysOff(s.tasks))
  {
  }

  lemma SelectsLine(s: Service, line: ConnectLine)
    requires s.task_link_head != null && !Rejected(s.tasks, s.Inactive()) && HoldsLine(s, s.Inactive(), line)
    ensures s.SelectedLines() == [line]
    ensures forall t, p: nat, was :: Installed([line], t, p, was) == if Names(line, t, p) then line else was
  {
  }

  /** A new service with two tasks of one input and one output port each. */
  method TwoTasks() returns (s: Service, a: TaskInfo, b: TaskInfo)
    ensures fresh(s) && s.Valid() && s.tasks == [a, b] && s.task_link_head == null && s.connect_lines == []
    ensures fresh({a, b}) && fresh({a.output_ports, b.output_ports})
    ensures a.name == "a" && b.name == "b" && a.output_count == 1 && b.input_count == 1
    ensures forall t <- [a, b] :: !t.offloading && t.state == NOT_READY && t.initial_state == CREATED
  {
    s := new Service();
    var tb := s.AddNewTask("b", 1, 1, -1, false);
    var ta := s.AddNewTask("a", 1, 1, -1, false);
    a, b := ta, tb;
  }

  /** Registers a line from the one task to the greatest port of the other. */
  method RegisterWrapped(s: Service, a: TaskInfo, b: TaskInfo) returns (line: ConnectLine)
    requires s.Valid() && s.tasks == [a, b] && s.task_link_head == null
    requires a.name == "a" && b.name == "b" && a.output_count == 1 && b.input_count == 1
    modifies s`connect_lines
    ensures s.Valid() && line in s.connect_lines && !Harmless(line.output_port_no, line.input_port_no)
  {
    NamedAt(s.tasks, "a", 0);
    NamedAt(s.tasks, "b", 1);
    var c := s.AddConnectLine("a", 0, "b", U32 - 1);
    line := c;
  }

  /** Such a service and such a line exist. */
  method RunOutOfRange() returns (s: Service)
    ensures s.Valid() && !NoneWraps(s.connect_lines) && !s.FanOutSafe()
  {
    var line;
    s, line := Prepared();
    StoreAndStart(s, line, [], t => false);
    assert !NoneWraps(s.connect_lines);
  }

  /** A created service with such a line and with no task off. */
  method Prepared() returns (s: Service, line: ConnectLine)
    ensures fresh(s) && fresh(Links(s.shape)) && fresh(s.tasks) && fresh(PortArrays(s.tasks))
    ensures s.Valid() && s.state == CREATED && s.task_link_head != null
    ensures line in s.connect_lines && !Harmless(line.output_port_no, line.input_port_no)
    ensures SameEntry(s.tasks, NamedSet(s.tasks, []), StaysOff(s.tasks))
    ensures forall t <- s.tasks :: s.Startable(t, t => false)
  {
    hide s.Valid, Harmless, Links;
    var a, b;
    s, a, b := TwoTasks();
    line := RegisterWrapped(s, a, b);
    s.MakeTaskLinks();
    s.Enter(CREATED);
    assert NamedSet(s.tasks, []) == {} && StaysOff(s.tasks) == {};
  }
}
