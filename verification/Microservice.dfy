/** One microservice: its tasks, connect lines, decision tree and port wiring. */
module Microservice {
  import opened Basics
  import opened ServiceTypes
  import opened TaskLinks
  import opened TaskIndex
  import L = Lifecycle

  /** A task as far as running and switching see it. */
  ghost function View(t: TaskInfo): L.Task
    reads t
  {
    L.Task(t.task_idx, t.offloading, t.initial_state, t.state, t.task_t, [], [], [])
  }

  ghost function Views(tasks: seq<TaskInfo>): (r: seq<L.Task>)
    reads tasks
    ensures |r| == |tasks| && forall i :: 0 <= i < |tasks| ==> r[i] == View(tasks[i])
  {
    seq(|tasks|, i requires 0 <= i < |tasks| reads tasks => View(tasks[i]))
  }

  /** The positions of the tasks whose initialisation fails. */
  ghost function Aborting(tasks: seq<TaskInfo>, fails: TaskInfo -> bool): set<nat> {
    set i: nat | i < |tasks| && fails(tasks[i])
  }

  /** What a leaf stores. */
  datatype Wiring = Wiring(lines: LineList?, oname: string)

  /** The specification of the decision tree: a finite map from sets of switched-off tasks to
      wirings. A set that nothing was stored for has the blank wiring. */
  type Index = map<set<TaskInfo>, Wiring>

  ghost function Get(index: Index, off: set<TaskInfo>): Wiring {
    if off in index then index[off] else Wiring(null, "")
  }

  ghost function WiringOf(l: TaskLink): Wiring
    reads l`connect_link_head, l`output_param_name
  {
    Wiring(l.connect_link_head, l.output_param_name)
  }

  /** The effect of storing `w` for the off-set `off`: nothing when there is no tree or the
      off-set is rejected, otherwise the entry of its offloadable members. */
  ghost function Store(tasks: seq<TaskInfo>, index: Index, off: set<TaskInfo>, w: Wiring): Index {
    if |tasks| < 2 || Rejected(tasks, off) then index else index[off * Offloadable(tasks) := w]
  }

  /** The test of a port against the number of ports, in 32 bits: the sum wraps for the greatest
      port, which passes whatever the number is. */
  predicate PassesAs(port: Word, count: Word) {
    count >= Unsigned32(port + 1)
  }

  /** So a port passes exactly when it exists or is the greatest word. */
  lemma PassesExactly(port: Word, count: Word)
    ensures PassesAs(port, count) <==> port < count || port == U32 - 1
  {
  }

  ghost predicate GoodLine(tasks: seq<TaskInfo>, c: ConnectLine) {
    && c.start_task in tasks && PassesAs(c.output_port_no, c.start_task.output_count)
    && c.dest_task in tasks && PassesAs(c.input_port_no, c.dest_task.input_count)
  }

  /** The call registers a line: both names are those of tasks, and both ports pass. */
  ghost predicate Registers(tasks: seq<TaskInfo>, start: string, outPort: Word, dest: string, inPort: Word) {
    && TaskNamed(tasks, start) != null && PassesAs(outPort, TaskNamed(tasks, start).output_count)
    && TaskNamed(tasks, dest) != null && PassesAs(inPort, TaskNamed(tasks, dest).input_count)
  }

  /** Every line has an input port for which the sum does not wrap, or an output port for which it
      does: that output port does not exist, so the line is never installed. */
  ghost predicate NoneWraps(lines: seq<ConnectLine>) {
    forall c <- lines :: Harmless(c.output_port_no, c.input_port_no)
  }

  /** Such a line is never installed, or its input port passes the test only if it exists. */
  predicate Harmless(outPort: Word, inPort: Word) {
    inPort + 1 < U32 || outPort + 1 == U32
  }

  /** The line at port p of task t after installing `lines` in order over `was`. */
  ghost function Installed(lines: seq<ConnectLine>, t: TaskInfo, p: nat, was: ConnectLine?): ConnectLine? {
    if lines == [] then was
    else
      var c := lines[|lines| - 1];
      if c.start_task == t && c.output_port_no == p then c else Installed(lines[..|lines| - 1], t, p, was)
  }

  ghost predicate Names(c: ConnectLine, t: TaskInfo, p: nat) {
    c.start_task == t && c.output_port_no == p
  }

  /** The port holds the last line in list order that names it, or else what it held before. */
  lemma {:induction false} InstalledIsLast(lines: seq<ConnectLine>, t: TaskInfo, p: nat, was: ConnectLine?)
      returns (k: int)
    ensures -1 <= k < |lines|
    ensures forall j :: k < j < |lines| ==> !Names(lines[j], t, p)
    ensures k >= 0 ==> Names(lines[k], t, p) && Installed(lines, t, p, was) == lines[k]
    ensures k < 0 ==> Installed(lines, t, p, was) == was
  {
    k := |lines| - 1;
    if lines != [] && !Names(lines[k], t, p) {
      k := InstalledIsLast(lines[..k], t, p, was);
    }
  }

  /** The first task in list order with the given name; an empty name finds nothing. */
  ghost function TaskNamed(tasks: seq<TaskInfo>, name: string): (ti: TaskInfo?)
    ensures ti != null ==> ti in tasks && ti.name == name
  {
    if tasks == [] || name == "" then null
    else if tasks[0].name == name then tasks[0]
    else TaskNamed(tasks[1..], name)
  }

  lemma {:induction false} NamedAt(tasks: seq<TaskInfo>, name: string, i: nat)
    requires i < |tasks| && tasks[i].name == name != ""
    requires forall k :: 0 <= k < i ==> tasks[k].name != name
    ensures TaskNamed(tasks, name) == tasks[i]
  {
    if i > 0 {
      NamedAt(tasks[1..], name, i - 1);
    }
  }

  lemma {:induction false} NotNamed(tasks: seq<TaskInfo>, name: string)
    requires forall k :: 0 <= k < |tasks| ==> tasks[k].name != name
    ensures TaskNamed(tasks, name) == null
  {
    if tasks != [] {
      NotNamed(tasks[1..], name);
    }
  }

  lemma {:induction false} InstalledOrKept(lines: seq<ConnectLine>, t: TaskInfo, p: nat, was: ConnectLine?)
    ensures var c := Installed(lines, t, p, was); c == was || (c != null && c in lines && Names(c, t, p))
  {
    if lines != [] {
      InstalledOrKept(lines[..|lines| - 1], t, p, was);
    }
  }

  ghost function NamedSet(tasks: seq<TaskInfo>, names: seq<string>): set<TaskInfo> {
    set i | 0 <= i < |names| && TaskNamed(tasks, names[i]) != null :: TaskNamed(tasks, names[i]) as TaskInfo
  }

  lemma NamedSetStep(tasks: seq<TaskInfo>, names: seq<string>, name: string)
    ensures NamedSet(tasks, names + [name]) ==
            NamedSet(tasks, names) + (if TaskNamed(tasks, name) == null then {} else {TaskNamed(tasks, name)})
  {
    var all := names + [name];
    forall t ensures t in NamedSet(tasks, all) <==> t in NamedSet(tasks, names) || t == TaskNamed(tasks, name) {
      if t in NamedSet(tasks, names) {
        var i :| 0 <= i < |names| && TaskNamed(tasks, names[i]) == t;
        assert all[i] == names[i];
      }
      assert all[|names|] == name;
    }
  }

  /** A store: the set of switched-off tasks and the wiring for it. */
  type Stored = (set<TaskInfo>, Wiring)

  ghost function StoreAll(tasks: seq<TaskInfo>, index: Index, stores: seq<Stored>): Index {
    if stores == [] then index
    else
      var last := stores[|stores| - 1];
      Store(tasks, StoreAll(tasks, index, stores[..|stores| - 1]), last.0, last.1)
  }

  ghost function AsStores(tasks: seq<TaskInfo>, calls: seq<(LineList?, string, seq<string>)>): (stores: seq<Stored>)
    ensures |stores| == |calls|
    ensures forall i :: 0 <= i < |calls| ==> stores[i] == (NamedSet(tasks, calls[i].2), Wiring(calls[i].0, calls[i].1))
  {
    seq(|calls|, i requires 0 <= i < |calls| => (NamedSet(tasks, calls[i].2), Wiring(calls[i].0, calls[i].1)))
  }

  lemma StoreNext(tasks: seq<TaskInfo>, index: Index, stores: seq<Stored>, i: nat)
    requires i < |stores|
    ensures StoreAll(tasks, index, stores[..i + 1]) ==
            Store(tasks, StoreAll(tasks, index, stores[..i]), stores[i].0, stores[i].1)
  {
    assert stores[..i + 1][..i] == stores[..i];
  }

  ghost predicate StoresFor(tasks: seq<TaskInfo>, store: Stored, off: set<TaskInfo>) {
    !Rejected(tasks, store.0) && store.0 * Offloadable(tasks) == off
  }

  /** After any sequence of stores, a set of offloadable tasks has the wiring stored last for
      it, and is untouched by every store for another set. */
  lemma {:induction false} LastStoreWins(tasks: seq<TaskInfo>, index: Index, stores: seq<Stored>, off: set<TaskInfo>)
      returns (k: int)
    requires |tasks| >= 2
    ensures -1 <= k < |stores|
    ensures forall j :: k < j < |stores| ==> !StoresFor(tasks, stores[j], off)
    ensures k >= 0 ==> StoresFor(tasks, stores[k], off) && Get(StoreAll(tasks, index, stores), off) == stores[k].1
    ensures k < 0 ==> Get(StoreAll(tasks, index, stores), off) == Get(index, off)
  {
    k := |stores| - 1;
    if stores != [] && !StoresFor(tasks, stores[k], off) {
      k := LastStoreWins(tasks, index, stores[..k], off);
    }
  }

  ghost function PortArrays(tasks: seq<TaskInfo>): set<array<ConnectLine?>> {
    set t | t in tasks :: t.output_ports
  }

  class Service {
    var tasks: seq<TaskInfo>
    var state: State
    var task_link_head: TaskLink?
    var current_task_link: TaskLink?
    var connect_lines: seq<ConnectLine>
    var output_param_name: string
    ghost var shape: Shape
    ghost var index: Index

    ghost predicate TasksOk()
      reads this`tasks
    {
      && Distinct(tasks)
      && (forall t <- tasks :: t.output_ports.Length == t.output_count)
      && (forall t <- tasks, u <- tasks :: t != u ==> t.output_ports != u.output_ports)
    }

    ghost predicate TreeOk()
      reads this`tasks, this`task_link_head, this`shape, Links(shape)
    {
      && Root(shape) == task_link_head && Linked(shape) && Unshared(shape)
      && (task_link_head != null ==> |tasks| >= 2 && Levels(shape, FullPath(tasks)))
    }

    ghost predicate LinesOk()
      reads this`tasks, this`connect_lines
    {
      forall c <- connect_lines :: GoodLine(tasks, c)
    }

    /** A wiring list of this service's own lines, or none. */
    ghost predicate Storable(clinks: LineList?)
      reads this`connect_lines
    {
      clinks != null ==> forall c <- clinks.lines :: c in connect_lines
    }

    /** The lists stored in the tree hold lines of this service. */
    ghost predicate StoredOk()
      reads this`shape, this`connect_lines, Links(shape)`connect_link_head
    {
      forall l <- Links(shape) :: Storable(l.connect_link_head)
    }

    /** A port that is wired holds a line of this service that starts there. */
    ghost predicate PortsOk()
      reads this`tasks, this`connect_lines, PortArrays(tasks)
    {
      forall t <- tasks :: forall p :: 0 <= p < t.output_ports.Length && t.output_ports[p] != null ==>
        t.output_ports[p] in connect_lines && Names(t.output_ports[p], t, p)
    }

    /** The tree implements the index. */
    ghost predicate IndexOk()
      reads this`tasks, this`shape, this`index, Links(shape)
    {
      forall off: set<TaskInfo> | off <= Offloadable(tasks) && Walk(shape, off).Node? ::
        Walk(shape, off).link in Links(shape) && WiringOf(Walk(shape, off).link) == Get(index, off)
    }

    ghost predicate Valid()
      reads this, Links(shape), PortArrays(tasks)
    {
      TasksOk() && TreeOk() && LinesOk() && StoredOk() && PortsOk() && IndexOk()
      && (current_task_link != null ==> current_task_link in Links(shape))
    }

    /** The leaf of an accepted off-set is the leaf of its own index entry and of no other. */
    lemma StoreKeepsIndex(result: TaskLink, off: set<TaskInfo>, w: Wiring)
      requires TreeOk() && task_link_head != null && result == Root(Walk(shape, off))
      ensures result in Links(shape)
      ensures forall s: set<TaskInfo> | s <= Offloadable(tasks) ::
                && Root(Walk(shape, s)) != null && Root(Walk(shape, s)) in Links(shape)
                && (if Root(Walk(shape, s)) == result then Get(Store(tasks, index, off, w), s) == w
                    else Get(Store(tasks, index, off, w), s) == Get(index, s))
    {
      forall s: set<TaskInfo> | s <= Offloadable(tasks)
        ensures
                && Root(Walk(shape, s)) != null && Root(Walk(shape, s)) in Links(shape)
                && (if Root(Walk(shape, s)) == result then Get(Store(tasks, index, off, w), s) == w
                    else Get(Store(tasks, index, off, w), s) == Get(index, s))
      {
        IndexExact(shape, tasks, off, s);
      }
      IndexExact(shape, tasks, off, off * Offloadable(tasks));
    }

    /** The tasks that are off, whether they never ran or were stopped. */
    ghost function Inactive(): set<TaskInfo>
      reads this`tasks, tasks
    {
      set t | t in tasks && t.state in {NOT_READY, STOPPED}
    }

    ghost function NeverRan(): set<TaskInfo>
      reads this`tasks, tasks
    {
      set t | t in tasks && t.state == NOT_READY
    }

    /** There is a leaf for the current task states. */
    ghost predicate Selects()
      reads this`tasks, this`task_link_head, tasks
    {
      task_link_head != null && !Rejected(tasks, Inactive())
    }

    /** The wiring that the index holds for the tasks now switched off. */
    ghost function SelectedWiring(): Wiring
      reads this`tasks, this`task_link_head, this`index, tasks
    {
      Get(index, Inactive() * Offloadable(tasks))
    }

    ghost function SelectedLines(): seq<ConnectLine>
      reads this`tasks, this`task_link_head, this`index, tasks
    {
      if Selects() && SelectedWiring().lines != null then SelectedWiring().lines.lines else []
    }

    /** The current leaf is the one for the tasks now switched off, and it holds what the
        index holds for them; when no leaf is selected, the previous one stays. */
    ghost predicate Selected(link: TaskLink?, oname: string)
      reads this, Links(shape), tasks
    {
      if Selects() then
        && current_task_link == Root(Walk(shape, Inactive() * Offloadable(tasks)))
        && current_task_link != null && current_task_link in Links(shape)
        && WiringOf(current_task_link) == SelectedWiring()
        && output_param_name == SelectedWiring().oname
      else current_task_link == link && output_param_name == oname
    }

    constructor ()
      ensures Valid() && tasks == [] && task_link_head == null && connect_lines == [] && state == NOT_READY
    {
      tasks, state, task_link_head, current_task_link := [], NOT_READY, null, null;
      connect_lines, output_param_name, shape, index := [], "", Nil, map[];
    }

    method GetTaskInfoByName(name: string) returns (ti: TaskInfo?)
      ensures ti == TaskNamed(tasks, name)
    {
      if name == "" {
        return null;
      }
      for i := 0 to |tasks|
        invariant forall k :: 0 <= k < i ==> tasks[k].name != name
      {
        if tasks[i].name == name {
          NamedAt(tasks, name, i);
          return tasks[i];
        }
      }
      NotNamed(tasks, name);
      ti := null;
    }

    /** Adds a task at the head of the list. A light-weight-message port that is not an
        input port is refused. */
    method AddNewTask(name: string, input_count: Word, output_count: Word, lwmsg_input: Int32, offloading: bool)
        returns (ti: TaskInfo?)
      requires Valid() && task_link_head == null
      modifies this`tasks
      ensures Valid()
      ensures ti == null <==> lwmsg_input >= 0 && lwmsg_input + 1 > input_count
      ensures ti == null ==> tasks == old(tasks)
      ensures ti != null ==> fresh(ti) && tasks == [ti] + old(tasks) && ti.name == name && ti.offloading == offloading
      ensures ti != null ==> ti.input_count == input_count && ti.output_count == output_count
      ensures ti != null ==> ti.task_idx == |old(tasks)| % 256 && ti.lwmsg_input_port == lwmsg_input
      ensures ti != null ==>
              ti.state == NOT_READY && ti.initial_state == CREATED && !ti.task_t && fresh(ti.output_ports)
      ensures ti != null ==> forall p :: 0 <= p < ti.output_ports.Length ==> ti.output_ports[p] == null
    {
      if lwmsg_input >= 0 && lwmsg_input + 1 > input_count {
        return null;
      }
      ti := new TaskInfo(name, |tasks| % 256, input_count, output_count, lwmsg_input, offloading);
      tasks := [ti] + tasks;
    }

    /** Registers a line between two ports that pass the test, or refuses it. */
    method AddConnectLine(start: string, outPort: Word, dest: string, inPort: Word) returns (line: ConnectLine?)
      requires Valid()
      modifies this`connect_lines
      ensures Valid()
      ensures line != null <==> Registers(tasks, start, outPort, dest, inPort)
      ensures NoneWraps(connect_lines) <==>
              old(NoneWraps(connect_lines)) && (line != null ==> Harmless(outPort, inPort))
      ensures line == null ==> connect_lines == old(connect_lines)
      ensures line != null ==>
                && fresh(line) && connect_lines == [line] + old(connect_lines)
                && line.start_task == TaskNamed(tasks, start) && line.output_port_no == outPort
                && line.dest_task == TaskNamed(tasks, dest) && line.input_port_no == inPort
    {
      hide Valid, TaskNamed;
      assert allocated(Links(shape)) && allocated(PortArrays(tasks));
      var start_task := GetTaskInfoByName(start);
      var dest_task := GetTaskInfoByName(dest);
      if start_task == null || start_task.output_count < Unsigned32(outPort + 1) {
        return null;
      }
      if dest_task == null || dest_task.input_count < Unsigned32(inPort + 1) {
        return null;
      }
      line := new ConnectLine(start_task, outPort, dest_task, inPort);
      PutLine(line);
    }

    method PutLine(line: ConnectLine)
      requires Valid() && GoodLine(tasks, line)
      modifies this`connect_lines
      ensures Valid() && connect_lines == [line] + old(connect_lines)
    {
      assert allocated(Links(shape));
      connect_lines := [line] + connect_lines;
    }

    /** Any sequence of line registrations, as the create function of a service makes them. */
    method AddConnectLines(calls: seq<(string, Word, string, Word)>)
      requires Valid() && connect_lines == []
      modifies this`connect_lines
      ensures Valid()
      ensures NoneWraps(connect_lines) <==>
              forall c <- calls :: Registers(tasks, c.0, c.1, c.2, c.3) ==> Harmless(c.1, c.3)
    {
      hide Valid;
      assert allocated(Links(shape));
      for i := 0 to |calls|
        invariant Valid()
        invariant NoneWraps(connect_lines) <==>
                  forall c <- calls[..i] :: Registers(tasks, c.0, c.1, c.2, c.3) ==> Harmless(c.1, c.3)
      {
        assert calls[..i + 1] == calls[..i] + [calls[i]];
        var line := AddConnectLine(calls[i].0, calls[i].1, calls[i].2, calls[i].3);
      }
      assert calls[..|calls|] == calls;
    }

    /** Builds the decision tree from the task list; nothing is stored in it yet. */
    method MakeTaskLinks()
      requires Valid() && task_link_head == null
      modifies this`task_link_head, this`shape, this`index
      ensures Valid() && index == map[] && fresh(Links(shape))
      ensures task_link_head == null <==> |tasks| < 2
      ensures task_link_head != null ==> |Leaves(shape)| == Pow2(|Offloadable(tasks)|)
    {
      index := map[];
      task_link_head, shape := TaskLinks.MakeTaskLinks(tasks, null, Nil, 0);
      if task_link_head != null {
        forall off: set<TaskInfo> | off <= Offloadable(tasks)
          ensures Walk(shape, off).Node? && Walk(shape, off).link in Links(shape)
        {
          IndexExact(shape, tasks, off, off);
        }
      }
    }

    /** The off-list that set_connect_link collects. */
    method NamedTasks(names: seq<string>) returns (off_tasks: seq<TaskInfo>)
      ensures Elements(off_tasks) == NamedSet(tasks, names)
    {
      off_tasks := [];
      for i := 0 to |names|
        invariant Elements(off_tasks) == NamedSet(tasks, names[..i])
      {
        var ti := GetTaskInfoByName(names[i]);
        NamedSetStep(tasks, names[..i], names[i]);
        assert names[..i + 1] == names[..i] + [names[i]];
        if ti != null {
          off_tasks := [ti] + off_tasks;
        }
      }
      assert names[..|names|] == names;
    }

    /** Stores a wiring for the set of named tasks. Names that no task has are skipped. */
    method SetConnectLink(clinks: LineList?, oname: string, names: seq<string>)
      requires Valid()
      requires Storable(clinks)
      modifies this`index, Links(shape)`connect_link_head, Links(shape)`output_param_name
      ensures Valid()
      ensures index == if task_link_head == null then old(index)
                       else Store(tasks, old(index), NamedSet(tasks, names), Wiring(clinks, oname))
    {
      hide Rejected, Linked, Unshared, NamedSet, GoodLine;
      assert allocated(Links(shape));
      var off_tasks := NamedTasks(names);
      ghost var off := NamedSet(tasks, names);
      var result := FindLastTaskLink(task_link_head, t => t !in off_tasks, shape,
        if tasks == [] then [] else FullPath(tasks), off);
      if task_link_head != null {
        IndexExact(shape, tasks, off, off * Offloadable(tasks));
      }
      if result != null {
        StoreAt(result, clinks, oname, off);
      }
    }

    method StoreAt(result: TaskLink, clinks: LineList?, oname: string, ghost off: set<TaskInfo>)
      requires Valid() && task_link_head != null && result == Root(Walk(shape, off))
      requires Storable(clinks)
      modifies this`index, result`connect_link_head, result`output_param_name
      ensures Valid() && index == Store(tasks, old(index), off, Wiring(clinks, oname))
    {
      hide Walk, Rejected, Linked, Levels, Unshared, Store, TasksOk, LinesOk, PortsOk;
      assert forall a <- PortArrays(tasks) :: (a as object) != result;
      StoreKeepsIndex(result, off, Wiring(clinks, oname));
      result.connect_link_head := clinks;
      result.output_param_name := oname;
      index := Store(tasks, index, off, Wiring(clinks, oname));
    }

    method InstallLine(cline: ConnectLine)
      requires TasksOk() && GoodLine(tasks, cline)
      modifies PortArrays(tasks)
      ensures forall t <- tasks :: forall p :: 0 <= p < t.output_ports.Length ==>
                t.output_ports[p] == if Names(cline, t, p) then cline else old(t.output_ports[p])
    {
      var ports := cline.start_task.output_ports;
      assert ports in PortArrays(tasks);
      if cline.output_port_no < cline.start_task.output_count {
        ports[cline.output_port_no] := cline;
      }
    }

    method InstallLines(lines: seq<ConnectLine>)
      requires Valid() && forall c <- lines :: c in connect_lines
      modifies PortArrays(tasks)
      ensures Valid()
      ensures forall t <- tasks :: forall p :: 0 <= p < t.output_ports.Length ==>
                t.output_ports[p] == Installed(lines, t, p, old(t.output_ports[p]))
    {
      assert allocated(Links(shape));
      for i := 0 to |lines|
        invariant forall t <- tasks :: forall p :: 0 <= p < t.output_ports.Length ==>
                    t.output_ports[p] == Installed(lines[..i], t, p, old(t.output_ports[p]))
      {
        var cline := lines[i];
        assert lines[..i + 1][..i] == lines[..i];
        assert GoodLine(tasks, cline);
        InstallLine(cline);
      }
      assert lines[..|lines|] == lines;
      forall t <- tasks, p | 0 <= p < t.output_ports.Length && t.output_ports[p] != null
        ensures t.output_ports[p] in connect_lines && Names(t.output_ports[p], t, p)
      {
        InstalledOrKept(lines, t, p, old(t.output_ports[p]));
      }
    }

    /** Selects the leaf for the current task states and installs its lines. Said of the index
        alone: the lines of the current set of switched-off tasks, in list order, on top of
        what the ports held. Without such a leaf nothing changes. */
    method SetOutputConnectLine()
      requires Valid()
      modifies this`current_task_link, this`output_param_name, PortArrays(tasks)
      ensures Valid()
      ensures forall t <- tasks :: forall p :: 0 <= p < t.output_ports.Length ==>
                t.output_ports[p] == Installed(SelectedLines(), t, p, old(t.output_ports[p]))
      ensures Selected(old(current_task_link), old(output_param_name))
    {
      hide *;
      assert allocated(Links(shape));
      var lines := SelectLeaf();
      InstallLines(lines);
    }

    /** The lookup for the current task states, with the meaning of its result. */
    method CurrentLeaf() returns (result: TaskLink?)
      requires Valid()
      ensures result != null <==> Selects()
      ensures result != null ==>
                && result == Root(Walk(shape, Inactive() * Offloadable(tasks)))
                && result in Links(shape) && WiringOf(result) == SelectedWiring() && Storable(result.connect_link_head)
    {
      assert allocated(Links(shape));
      result := FindLastTaskLink(task_link_head, (t: TaskInfo) reads t => IsActiveState(t.state), shape,
        if tasks == [] then [] else FullPath(tasks), Inactive());
      if task_link_head != null {
        IndexExact(shape, tasks, Inactive(), Inactive() * Offloadable(tasks));
      }
    }

    /** Makes the leaf for the current task states the current one. */
    method SelectLeaf() returns (lines: seq<ConnectLine>)
      requires Valid()
      modifies this`current_task_link, this`output_param_name
      ensures Valid() && Selected(old(current_task_link), old(output_param_name))
      ensures lines == SelectedLines() && forall c <- lines :: c in connect_lines
    {
      assert allocated(Links(shape));
      var result := CurrentLeaf();
      if result == null {
        return [];
      }
      lines := if result.connect_link_head == null then [] else result.connect_link_head.lines;
      current_task_link := result;
      output_param_name := result.output_param_name;
    }

    method ClearPorts(ti: TaskInfo)
      requires Valid() && ti in tasks
      modifies ti.output_ports
      ensures Valid()
      ensures forall p :: 0 <= p < ti.output_ports.Length ==> ti.output_ports[p] == null
    {
      assert allocated(Links(shape));
      for i := 0 to ti.output_count
        invariant forall p :: 0 <= p < i ==> ti.output_ports[p] == null
        invariant forall p :: i <= p < ti.output_count ==> ti.output_ports[p] == old(ti.output_ports[p])
      {
        ti.output_ports[i] := null;
      }
    }

    /** The part of switching off that precedes the choice of a new wiring. */
    method DetachTask(ti: TaskInfo)
      requires Valid() && ti in tasks
      modifies ti, ti.output_ports
      ensures Valid() && ti.state == STOPPED && ti.initial_state == STOPPED && !ti.task_t
      ensures forall p :: 0 <= p < ti.output_ports.Length ==> ti.output_ports[p] == null
      ensures forall t <- tasks :: t != ti ==> unchanged(t.output_ports)
    {
      assert allocated(Links(shape));
      ti.task_t := false;
      ClearPorts(ti);
      ti.state := STOPPED;
      ti.initial_state := I_S_STOP;
    }

    /** Switching off: the task is detached, and the wiring for the task states that result
        is installed. */
    method SwitchOff(ti: TaskInfo)
      requires Valid() && ti in tasks
      modifies ti, this`current_task_link, this`output_param_name, PortArrays(tasks)
      ensures Valid()
      ensures Inactive() == old(Inactive()) + {ti} && ti.state == STOPPED && ti.initial_state == STOPPED && !ti.task_t
      ensures Selected(old(current_task_link), old(output_param_name))
      ensures forall t <- tasks :: forall p :: 0 <= p < t.output_ports.Length ==>
                t.output_ports[p] == Installed(SelectedLines(), t, p, if t == ti then null else old(t.output_ports[p]))
    {
      hide Valid, Rejected, Walk, Get, Store;
      assert allocated(Links(shape));
      DetachTask(ti);
      SetOutputConnectLine();
    }

    /** Switches a task on or off. It is refused for a task that cannot be switched, and for
        switching on an active task. Switching on does not by itself make the task active, so
        it selects the same wiring as before. */
    method TaskOnOff(ti: TaskInfo?, onoff: bool) returns (rtn: bool)
      requires Valid() && (ti != null ==> ti in tasks)
      modifies ti, this`current_task_link, this`output_param_name, PortArrays(tasks)
      ensures Valid()
      ensures rtn <==> ti != null && ti.offloading && (onoff ==> old(ti.state) in {NOT_READY, STOPPED})
      ensures ti != null ==> (rtn, View(ti)) == L.OnOff(old(View(ti)), onoff)
      ensures !rtn ==>
              unchanged(this) && (forall t <- tasks :: unchanged(t.output_ports)) && (ti != null ==> unchanged(ti))
      ensures rtn && onoff ==>
              Inactive() == old(Inactive()) && ti.state == old(ti.state) && ti.initial_state == NOT_READY
      ensures rtn && !onoff ==> Inactive() == old(Inactive()) + {ti}
      ensures rtn && !onoff ==> ti.state == STOPPED && ti.initial_state == STOPPED && !ti.task_t
      ensures rtn ==> Selected(old(current_task_link), old(output_param_name))
      ensures rtn ==> forall t <- tasks :: forall p :: 0 <= p < t.output_ports.Length ==>
                t.output_ports[p] ==
                Installed(SelectedLines(), t, p, if t == ti && !onoff then null else old(t.output_ports[p]))
    {
      if ti == null || !ti.offloading {
        return false;
      }
      if !onoff {
        SwitchOff(ti);
        return true;
      }
      if IsActiveState(ti.state) {
        return false;
      }
      assert allocated(Links(shape));
      ti.initial_state := I_S_ACTIVE;
      SetOutputConnectLine();
      rtn := true;
    }

    method Enter(s: State)
      requires Valid()
      modifies this`state
      ensures Valid() && state == s
    {
      state := s;
    }

    /** Starts the kernel task of `ti`. `fails` is the outcome of its initialisation. */
    method RunTask(ti: TaskInfo, force: bool, fails: bool) returns (rtn: bool)
      requires Valid() && ti in tasks
      modifies ti`state, ti`task_t
      ensures Valid()
      ensures rtn <==> (force || old(ti.state) in {NOT_READY, STOPPED}) && !fails
      ensures rtn ==> ti.state == CREATED && ti.task_t
      ensures !rtn && (force || old(ti.state) in {NOT_READY, STOPPED}) ==> ti.state == STOPPED && !ti.task_t
      ensures !force && old(ti.state) in {CREATED, RUNNING} ==> unchanged(ti)
      ensures !force ==> (View(ti), rtn) == L.RunTask(old(View(ti)), fails)
    {
      if !force && IsActiveState(ti.state) {
        return false;
      }
      ti.task_t := false;
      ti.state := STOPPED;
      if fails {
        return false;
      }
      ti.task_t := true;
      ti.state := CREATED;
      rtn := true;
    }

    ghost predicate Startable(t: TaskInfo, fails: TaskInfo -> bool)
      reads t
    {
      t.initial_state != STOPPED ==> t.state in {NOT_READY, STOPPED} && !fails(t)
    }

    /** Runs the tasks that are initially on, in list order, up to the first failure. */
    method RunTasks(fails: TaskInfo -> bool) returns (ok: bool)
      requires Valid()
      modifies tasks`state, tasks`task_t
      ensures Valid()
      ensures (Views(tasks), ok) == L.StartTasks(old(Views(tasks)), Aborting(tasks, fails), 0)
    {
      assert allocated(Links(shape));
      ok := true;
      for i := 0 to |tasks|
        invariant Valid()
        invariant L.StartTasks(Views(tasks), Aborting(tasks, fails), i) ==
                  L.StartTasks(old(Views(tasks)), Aborting(tasks, fails), 0)
      {
        var psi := tasks[i];
        if psi.initial_state != I_S_STOP {
          ok := RunNext(psi, i, fails);
          if !ok {
            return;
          }
        }
      }
    }

    /** Runs the i-th task. */
    method RunNext(ti: TaskInfo, ghost i: nat, fails: TaskInfo -> bool) returns (ok: bool)
      requires Valid() && i < |tasks| && tasks[i] == ti && L.IsOn(View(ti))
      modifies ti`state, ti`task_t
      ensures Valid()
      ensures ok == L.RunTask(old(View(ti)), i in Aborting(tasks, fails)).1
      ensures Views(tasks) == old(Views(tasks))[i := L.RunTask(old(View(ti)), i in Aborting(tasks, fails)).0]
    {
      assert allocated(Links(shape));
      ok := RunTask(ti, false, fails(ti));
    }

    /** Starting succeeds exactly when every task that is on can start, and then these have. */
    lemma StartedAre(fails: TaskInfo -> bool)
      ensures var (r, ok) := L.StartTasks(Views(tasks), Aborting(tasks, fails), 0);
              && (ok <==> forall t <- tasks :: Startable(t, fails))
              && (ok ==> forall i :: 0 <= i < |tasks| ==>
                    r[i].state == if tasks[i].initial_state == STOPPED then tasks[i].state else CREATED)
    {
      var views, aborts := Views(tasks), Aborting(tasks, fails);
      var n := L.FirstFailure(views, aborts, 0);
      L.StartsExactly(views, aborts, 0);
      if n < |tasks| {
        assert views[n] == View(tasks[n]) && !Startable(tasks[n], fails);
      } else {
        forall t <- tasks ensures Startable(t, fails) {
          var i :| 0 <= i < |tasks| && tasks[i] == t;
          assert views[i] == View(t);
        }
      }
      forall i | 0 <= i < |tasks| ensures L.StartTasks(views, aborts, 0).0[i] ==
          if i <= L.FirstFailure(views, aborts, 0) && L.IsOn(views[i]) then
            L.RunTask(views[i], i in aborts).0
          else views[i]
      {
        L.StartExact(views, aborts, 0, i);
      }
    }

    method StopTask() returns (rtn: bool)
      requires Valid()
      modifies this`state
      ensures Valid()
      ensures rtn <==> old(state) == RUNNING || old(state) == STOPPED
      ensures state == if rtn then STOPPED else old(state)
    {
      if state != RUNNING && state != STOPPED {
        return false;
      }
      state := STOPPED;
      rtn := true;
    }

    /** The tasks that are initially on have been started, the others left alone. */
    twostate predicate Started()
      reads this`tasks, tasks
    {
      forall t <- tasks :: old(allocated(t)) && t.state == if t.initial_state == STOPPED then old(t.state) else CREATED
    }

    /** The service as far as running sees it. */
    ghost function Abs(): L.Slot
      reads this`state, this`tasks, tasks
    {
      L.Slot(state, L.Holding(L.EMPTY, Views(tasks)))
    }

    /** Starting a created service: its initially active tasks run, up to the first failure, and
        the wiring for them is installed if there is none. */
    method StartMicroService(fails: TaskInfo -> bool) returns (rtn: bool)
      requires Valid() && state == CREATED
      modifies this`state, this`current_task_link, this`output_param_name, tasks`state, tasks`task_t, PortArrays(tasks)
      ensures Valid()
      ensures (Views(tasks), rtn) == L.StartTasks(old(Views(tasks)), Aborting(tasks, fails), 0)
      ensures rtn <==> forall t <- tasks :: old(Startable(t, fails))
      ensures state == if rtn then RUNNING else STOPPED
      ensures rtn ==> Started() && Selected(old(current_task_link), old(output_param_name))
      ensures rtn ==> forall t <- tasks :: forall p :: 0 <= p < t.output_ports.Length ==>
                t.output_ports[p] == Installed(SelectedLines(), t, p, old(t.output_ports[p]))
      ensures !rtn ==> current_task_link == old(current_task_link) && (forall t <- tasks :: unchanged(t.output_ports))
    {
      hide *;
      assert allocated(Links(shape));
      rtn := StartTasks(fails);
      if rtn {
        SetOutputConnectLine();
      }
    }

    /** Starting but for the wiring, with what it means for the tasks. */
    method StartTasks(fails: TaskInfo -> bool) returns (rtn: bool)
      requires Valid() && state == CREATED
      modifies this`state, tasks`state, tasks`task_t
      ensures Valid() && (rtn ==> Started())
      ensures (Views(tasks), rtn) == L.StartTasks(old(Views(tasks)), Aborting(tasks, fails), 0)
      ensures rtn <==> forall t <- tasks :: old(Startable(t, fails))
      ensures state == if rtn then RUNNING else STOPPED
    {
      hide Valid;
      StartedAre(fails);
      rtn := BeginRun(fails);
      StartedFrom(fails);
    }

    /** The part of starting that precedes the wiring. */
    method BeginRun(fails: TaskInfo -> bool) returns (rtn: bool)
      requires Valid() && state == CREATED
      modifies this`state, tasks`state, tasks`task_t
      ensures Valid()
      ensures (Views(tasks), rtn) == L.StartTasks(old(Views(tasks)), Aborting(tasks, fails), 0)
      ensures state == if rtn then RUNNING else STOPPED
    {
      assert allocated(Links(shape));
      Enter(RUNNING);
      rtn := RunTasks(fails);
      if !rtn {
        var stopped := StopTask();
      }
    }

    /** A created service is started; a stopped one is resumed as it is; any other is refused. */
    method RunMicroService(fails: TaskInfo -> bool) returns (rtn: bool)
      requires Valid()
      modifies this`state, this`current_task_link, this`output_param_name, tasks`state, tasks`task_t, PortArrays(tasks)
      ensures Valid()
      ensures Abs() == L.RunSlot(old(Abs()), Aborting(tasks, fails))
      ensures rtn <==> old(state) == STOPPED || (old(state) == CREATED && forall t <- tasks :: old(Startable(t, fails)))
      ensures state == if rtn then RUNNING else if old(state) == CREATED then STOPPED else old(state)
      ensures rtn && old(state) == CREATED ==> Started() && Selected(old(current_task_link), old(output_param_name))
      ensures rtn && old(state) == CREATED ==> forall t <- tasks :: forall p :: 0 <= p < t.output_ports.Length ==>
                t.output_ports[p] == Installed(SelectedLines(), t, p, old(t.output_ports[p]))
      ensures rtn && old(state) == STOPPED ==>
                forall t <- tasks :: t.state == if old(t.state) == STOPPED then RUNNING else old(t.state)
      ensures rtn && old(state) == STOPPED ==> Inactive() == old(NeverRan())
      ensures !rtn || old(state) == STOPPED ==>
              current_task_link == old(current_task_link) && (forall t <- tasks :: unchanged(t.output_ports))
    {
      hide Valid, Inactive, NeverRan, Selected, SelectedLines, Installed, Started, Aborting, Views;
      if state == CREATED {
        rtn := StartMicroService(fails);
      } else if state == STOPPED {
        Enter(RUNNING);
        ResumeTasks();
        ResumedInactive();
        rtn := true;
      } else {
        rtn := false;
      }
    }

    /** What a start leaves of the tasks, when it succeeds. */
    twostate lemma StartedFrom(fails: TaskInfo -> bool)
      requires tasks == old(tasks) && forall t <- tasks :: old(allocated(t)) && t.initial_state == old(t.initial_state)
      requires Views(tasks) == L.StartTasks(old(Views(tasks)), Aborting(tasks, fails), 0).0
      ensures L.StartTasks(old(Views(tasks)), Aborting(tasks, fails), 0).1 ==> Started()
    {
      var views, aborts := old(Views(tasks)), Aborting(tasks, fails);
      L.StartsExactly(views, aborts, 0);
      forall t <- tasks | L.StartTasks(views, aborts, 0).1
        ensures t.state == if t.initial_state == STOPPED then old(t.state) else CREATED
      {
        var i :| 0 <= i < |tasks| && tasks[i] == t;
        L.StartExact(views, aborts, 0, i);
        assert Views(tasks)[i] == View(t) && views[i] == old(View(t));
      }
    }

    /** Resuming leaves off just the tasks that never ran. */
    twostate lemma ResumedInactive()
      requires tasks == old(tasks) && forall t <- tasks :: old(allocated(t))
      requires forall t <- tasks :: t.state == if old(t.state) == STOPPED then RUNNING else old(t.state)
      ensures Inactive() == old(NeverRan())
    {
    }

    method ResumeTasks()
      requires Valid()
      modifies tasks`state
      ensures Valid() && Views(tasks) == L.ResumeTasks(old(Views(tasks)))
      ensures forall t <- tasks :: t.state == if old(t.state) == STOPPED then RUNNING else old(t.state)
    {
      assert allocated(Links(shape));
      for i := 0 to |tasks|
        invariant forall k :: 0 <= k < i ==>
                  tasks[k].state == if old(tasks[k].state) == STOPPED then RUNNING else old(tasks[k].state)
        invariant forall k :: i <= k < |tasks| ==> tasks[k].state == old(tasks[k].state)
      {
        if tasks[i].state == STOPPED {
          tasks[i].state := RUNNING;
        }
      }
    }

    /** Any sequence of stores, as the create function of a service makes them. */
    method SetConnectLinks(calls: seq<(LineList?, string, seq<string>)>)
      requires Valid() && task_link_head != null
      requires forall i :: 0 <= i < |calls| ==> Storable(calls[i].0)
      modifies this`index, Links(shape)`connect_link_head, Links(shape)`output_param_name
      ensures Valid()
      ensures index == StoreAll(tasks, old(index), AsStores(tasks, calls))
    {
      assert allocated(Links(shape));
      ghost var stores := AsStores(tasks, calls);
      for i := 0 to |calls|
        invariant Valid()
        invariant index == StoreAll(tasks, old(index), stores[..i])
      {
        StoreNext(tasks, old(index), stores, i);
        SetConnectLink(calls[i].0, calls[i].1, calls[i].2);
      }
      assert stores[..|calls|] == stores;
    }

    /** The part of stop and delete that gives everything back. The loops over the lists are
        driven by 8-bit counts, so from 256 entries on the last of them stay. */
    method Clear() returns (freed: seq<Freed>)
      requires Valid()
      modifies this
      ensures state == NOT_READY && task_link_head == null && current_task_link == null
      ensures tasks == old(tasks)[|old(tasks)| % 256..] &&
              connect_lines == old(connect_lines)[|old(connect_lines)| % 256..]
      ensures tasks == [] && connect_lines == [] <==> |old(tasks)| <= 255 && |old(connect_lines)| <= 255
      ensures tasks == [] && connect_lines == [] ==> Valid()
      ensures freed == old(Teardown(shape, Held(shape)))
    {
      state := NOT_READY;
      freed := DelTaskLink(task_link_head, shape, Held(shape));
      task_link_head, shape, index := null, Nil, map[];
      tasks := tasks[|tasks| % 256..];
      connect_lines := connect_lines[|connect_lines| % 256..];
      current_task_link := null;
    }

    /** When the tree was filled by a sequence of stores, the wiring selected is the one stored
        last for the offloadable tasks now switched off. */
    lemma SelectedIsLastStored(stores: seq<Stored>) returns (k: int)
      requires Valid() && Selects() && index == StoreAll(tasks, map[], stores)
      ensures -1 <= k < |stores|
      ensures forall j :: k < j < |stores| ==> !StoresFor(tasks, stores[j], Inactive() * Offloadable(tasks))
      ensures k >= 0 ==> StoresFor(tasks, stores[k], Inactive() * Offloadable(tasks)) && SelectedWiring() == stores[k].1
      ensures k < 0 ==> SelectedLines() == []
    {
      k := LastStoreWins(tasks, map[], stores, Inactive() * Offloadable(tasks));
    }

    /** A wired port holds a line that starts there and ends at a task of the service. The fan-out
        indexes the input queues of that task within their number exactly when the input
        port of the line is not the greatest word. */
    lemma FanOutInRange(t: TaskInfo, p: nat)
      requires Valid() && t in tasks && p < t.output_count && t.output_ports[p] != null
      ensures t.output_ports[p].start_task == t && t.output_ports[p].output_port_no == p
      ensures t.output_ports[p].dest_task in tasks && t.output_ports[p] in connect_lines
      ensures t.output_ports[p].input_port_no < t.output_ports[p].dest_task.input_count <==>
              t.output_ports[p].input_port_no + 1 < U32
    {
      assert t.output_ports[p] in connect_lines;
      PassesExactly(t.output_ports[p].input_port_no, t.output_ports[p].dest_task.input_count);
    }

    /** Every fan-out is within range. */
    ghost predicate FanOutSafe()
      reads this`tasks, PortArrays(tasks)
    {
      forall t <- tasks :: forall p :: 0 <= p < t.output_ports.Length && t.output_ports[p] != null ==>
        t.output_ports[p].input_port_no < t.output_ports[p].dest_task.input_count
    }

    /** In every reachable state, all fan-outs are within range when every registered line that can
        be installed was registered with an input port other than the greatest word. Module
        WrappedPort has the converse. */
    lemma FanOutAllInRange()
      requires Valid() && NoneWraps(connect_lines)
      ensures FanOutSafe()
    {
      forall t <- tasks, p | 0 <= p < t.output_ports.Length && t.output_ports[p] != null
        ensures t.output_ports[p].input_port_no < t.output_ports[p].dest_task.input_count
      {
        FanOutInRange(t, p);
      }
    }
  }
}
