/** The task-link decision tree: building it level by level, walking it, tearing it down. */
module TaskLinks {
  import opened Basics
  import opened ServiceTypes

  /** The pointer structure hanging from a link, as a value. */
  datatype Shape = Nil | Node(link: TaskLink, task: TaskInfo?, on: Shape, off: Shape) {
    ghost predicate IsLeaf() {
      Node? && on.Nil? && off.Nil?
    }
  }

  ghost function Leaf(link: TaskLink, task: TaskInfo?): Shape {
    Node(link, task, Nil, Nil)
  }

  ghost function Root(s: Shape): TaskLink? {
    if s.Nil? then null else s.link
  }

  ghost function Links(s: Shape): set<TaskLink> {
    if s.Nil? then {} else {s.link} + Links(s.on) + Links(s.off)
  }

  /** No link occurs twice, so the structure is a tree: acyclic and unshared. */
  ghost predicate Unshared(s: Shape) {
    s.Node? ==>
      && s.link !in Links(s.on) + Links(s.off)
      && Links(s.on) !! Links(s.off)
      && Unshared(s.on) && Unshared(s.off)
  }

  /** The heap holds exactly this structure. */
  ghost predicate Linked(s: Shape)
    reads Links(s)`task, Links(s)`next_on, Links(s)`next_off
  {
    s.Node? ==>
      && s.link.task == s.task
      && s.link.next_on == Root(s.on) && s.link.next_off == Root(s.off)
      && Linked(s.on) && Linked(s.off)
  }

  // ----- the intended form of the tree -----

  /** Every level-k link carries `path[k]`, has an on-child exactly when a level k + 1
      exists, and has an off-child exactly when moreover its task is offloadable. */
  ghost predicate Levels(s: Shape, path: seq<TaskInfo?>)
    decreases |path|
  {
    && path != [] && s.Node? && s.task == path[0]
    && if |path| == 1 then s.IsLeaf() else
         && path[0] != null
         && Levels(s.on, path[1..])
         && if path[0].offloading then Levels(s.off, path[1..]) else s.off.Nil?
  }

  /** The path of a complete tree over `tasks`: one extra level, without a task, when the
      last task is offloadable. */
  ghost function FullPath(tasks: seq<TaskInfo>): seq<TaskInfo?>
    requires tasks != []
  {
    if tasks[|tasks| - 1].offloading then tasks + [null] else tasks
  }

  ghost function Offloadable(tasks: seq<TaskInfo>): set<TaskInfo> {
    set t | t in tasks && t.offloading
  }

  /** The leaves in the order in which the search collects them. */
  ghost function Leaves(s: Shape): seq<TaskLink> {
    if s.Nil? then [] else if s.IsLeaf() then [s.link] else Leaves(s.off) + Leaves(s.on)
  }

  // ----- searching for the links of a task -----

  ghost function Carriers(s: Shape, ti: TaskInfo?): seq<TaskLink> {
    if s.Nil? || ti == null then []
    else (if s.task == ti then [s.link] else []) + Carriers(s.off, ti) + Carriers(s.on, ti)
  }

  method FindTaskLinks(tl: TaskLink?, ti: TaskInfo?, list: seq<TaskLink>, ghost s: Shape) returns (out: seq<TaskLink>)
    requires Root(s) == tl && Linked(s)
    ensures out == Carriers(s, ti) + list
    decreases s
  {
    if tl == null || ti == null {
      return list;
    }
    assert allocated(Links(s.off));
    out := FindTaskLinks(tl.next_on, ti, list, s.on);
    out := FindTaskLinks(tl.next_off, ti, out, s.off);
    if tl.task == ti {
      out := [tl] + out;
    }
  }

  /** While building, the links carrying the last task so far are exactly the leaves, and no
      link carries a task that is not on the path. */
  lemma {:induction false} CarriersAreLeaves(s: Shape, path: seq<TaskInfo?>, ti: TaskInfo)
    requires Levels(s, path) && Distinct(path)
    ensures ti == path[|path| - 1] ==> Carriers(s, ti) == Leaves(s)
    ensures ti !in path ==> Carriers(s, ti) == []
    decreases |path|
  {
    if |path| > 1 {
      CarriersAreLeaves(s.on, path[1..], ti);
      if path[0].offloading {
        CarriersAreLeaves(s.off, path[1..], ti);
      }
      assert ti == path[|path| - 1] ==> ti == path[1..][|path| - 2];
    }
  }

  /** In a tree that is built, only the root carries the first task. */
  lemma CarrierIsRoot(s: Shape, path: seq<TaskInfo?>, ti: TaskInfo)
    requires Levels(s, path) && Distinct(path) && ti == path[0]
    ensures Carriers(s, ti) == [s.link]
  {
    if |path| > 1 {
      CarriersAreLeaves(s.on, path[1..], ti);
      if ti.offloading {
        CarriersAreLeaves(s.off, path[1..], ti);
      }
    }
  }

  lemma {:induction false} LeavesAreLinks(s: Shape)
    requires Unshared(s)
    ensures Distinct(Leaves(s))
    ensures forall l <- Leaves(s) :: l in Links(s)
  {
    if s.Node? {
      LeavesAreLinks(s.on);
      LeavesAreLinks(s.off);
      var x, y := Leaves(s.off), Leaves(s.on);
      forall i, j | 0 <= i < |x| && 0 <= j < |y| ensures x[i] != y[j] {
        assert x[i] in x && y[j] in y;
      }
    }
  }

  ghost function CountOffloadable(path: seq<TaskInfo?>): nat {
    if path == [] then 0 else CountOffloadable(path[1..]) + (if path[0] != null && path[0].offloading then 1 else 0)
  }

  lemma {:induction false} LeafCount(s: Shape, path: seq<TaskInfo?>)
    requires Levels(s, path)
    ensures |Leaves(s)| == Pow2(CountOffloadable(path[..|path| - 1]))
    decreases |path|
  {
    if |path| > 1 {
      LeafCount(s.on, path[1..]);
      if path[0].offloading {
        LeafCount(s.off, path[1..]);
      }
      assert path[..|path| - 1][1..] == path[1..][..|path| - 2];
      assert path[..|path| - 1] != [];
    }
  }

  // ----- extending every leaf in place -----

  /** The structure after link `l` has been given the children `a` and, unless null, `b`. */
  ghost function Attach(s: Shape, l: TaskLink, dest: TaskInfo?, a: TaskLink, b: TaskLink?): Shape {
    if s.Nil? then Nil
    else if s.link == l then Node(l, s.task, Leaf(a, dest), if b == null then Nil else Leaf(b, dest))
    else Node(s.link, s.task, Attach(s.on, l, dest, a, b), Attach(s.off, l, dest, a, b))
  }

  /** Levels, half way through adding the level of `dest`: the links in `todo` still are
      leaves. */
  ghost predicate Frontier(s: Shape, path: seq<TaskInfo>, dest: TaskInfo?, todo: set<TaskLink>)
    decreases |path|
  {
    && path != [] && s.Node? && s.task == path[0]
    && if |path| == 1 then
         if s.link in todo then s.IsLeaf() else
           && s.on.IsLeaf() && s.on.task == dest && s.on.link !in todo
           && if path[0].offloading then s.off.IsLeaf() && s.off.task == dest && s.off.link !in todo else s.off.Nil?
       else
         && s.link !in todo
         && Frontier(s.on, path[1..], dest, todo)
         && if path[0].offloading then Frontier(s.off, path[1..], dest, todo) else s.off.Nil?
  }

  lemma {:induction false} FrontierStart(s: Shape, path: seq<TaskInfo>, dest: TaskInfo?, todo: set<TaskLink>)
    requires Levels(s, path) && Unshared(s)
    requires forall l <- Links(s) :: l in todo <==> l in Leaves(s)
    ensures Frontier(s, path, dest, todo)
    decreases |path|
  {
    if |path| > 1 {
      LeavesAreLinks(s.on);
      LeavesAreLinks(s.off);
      FrontierStart(s.on, path[1..], dest, todo);
      if path[0].offloading {
        FrontierStart(s.off, path[1..], dest, todo);
      }
    }
  }

  lemma {:induction false} FrontierEnd(s: Shape, path: seq<TaskInfo>, dest: TaskInfo?)
    requires Frontier(s, path, dest, {})
    ensures Levels(s, path + [dest])
    decreases |path|
  {
    assert (path + [dest])[1..] == path[1..] + [dest];
    if |path| > 1 {
      FrontierEnd(s.on, path[1..], dest);
      if path[0].offloading {
        FrontierEnd(s.off, path[1..], dest);
      }
    } else {
      assert (path + [dest])[1..] == [dest];
    }
  }

  lemma {:induction false} AttachOutside(s: Shape, l: TaskLink, dest: TaskInfo?, a: TaskLink, b: TaskLink?)
    requires l !in Links(s)
    ensures Attach(s, l, dest, a, b) == s
  {
    if s.Node? {
      AttachOutside(s.on, l, dest, a, b);
      AttachOutside(s.off, l, dest, a, b);
    }
  }

  lemma {:induction false} AttachLinks(s: Shape, l: TaskLink, dest: TaskInfo?, a: TaskLink, b: TaskLink?)
    requires Unshared(s) && l in Links(s) && ExtendableAt(s, l)
    requires a !in Links(s) && b !in Links(s) && a != b
    ensures Unshared(Attach(s, l, dest, a, b))
    ensures Links(Attach(s, l, dest, a, b)) == Links(s) + if b == null then {a} else {a, b}
  {
    if s.link == l {
      assert s.IsLeaf();
    } else if l in Links(s.on) {
      AttachOutside(s.off, l, dest, a, b);
      AttachLinks(s.on, l, dest, a, b);
    } else {
      AttachOutside(s.on, l, dest, a, b);
      AttachLinks(s.off, l, dest, a, b);
    }
  }

  /** Wherever link `l` occurs, it is a leaf. */
  ghost predicate ExtendableAt(s: Shape, l: TaskLink) {
    s.Node? ==> (s.link == l ==> s.IsLeaf()) && ExtendableAt(s.on, l) && ExtendableAt(s.off, l)
  }

  lemma {:induction false} FrontierExtendable(s: Shape, path: seq<TaskInfo>, dest: TaskInfo?, todo: set<TaskLink>,
      l: TaskLink)
    requires Frontier(s, path, dest, todo) && l in todo
    ensures ExtendableAt(s, l)
    decreases |path|
  {
    if |path| > 1 {
      FrontierExtendable(s.on, path[1..], dest, todo, l);
      if path[0].offloading {
        FrontierExtendable(s.off, path[1..], dest, todo, l);
      }
    }
  }

  /** One more leaf of the frontier is extended. */
  lemma {:induction false} FrontierStep(s: Shape, path: seq<TaskInfo>, dest: TaskInfo?, todo: set<TaskLink>,
                                        l: TaskLink, a: TaskLink, b: TaskLink?)
    requires Frontier(s, path, dest, todo) && Unshared(s) && l in todo
    requires (b != null) == path[|path| - 1].offloading
    requires a !in Links(s) + todo && b !in Links(s) + todo
    ensures Frontier(Attach(s, l, dest, a, b), path, dest, todo - {l})
    decreases |path|
  {
    if |path| == 1 && s.link != l {
      AttachOutside(s, l, dest, a, b);
    } else if |path| > 1 {
      FrontierStep(s.on, path[1..], dest, todo, l, a, b);
      if path[0].offloading {
        FrontierStep(s.off, path[1..], dest, todo, l, a, b);
      }
    }
  }

  /** Linked, but for the children of the links in `todo`, which only those of an offloadable task
      have on both sides. */
  ghost predicate LinkedBut(s: Shape, todo: set<TaskLink>)
    reads Links(s)`task, Links(s)`next_on, Links(s)`next_off
  {
    s.Node? ==>
      && s.link.task == s.task
      && (if s.link in todo then s.link.next_off == null || (s.task != null && s.task.offloading)
          else s.link.next_on == Root(s.on) && s.link.next_off == Root(s.off))
      && LinkedBut(s.on, todo) && LinkedBut(s.off, todo)
  }

  /** Of what is linked, the leaves may be named as still to do. */
  lemma {:induction false} LinkedIsLinkedBut(s: Shape, todo: set<TaskLink>)
    requires ExtendableIn(s, todo)
    ensures Linked(s) ==> LinkedBut(s, todo)
    ensures todo == {} && LinkedBut(s, todo) ==> Linked(s)
  {
    if s.Node? {
      LinkedIsLinkedBut(s.on, todo);
      LinkedIsLinkedBut(s.off, todo);
    }
  }

  ghost predicate ExtendableIn(s: Shape, todo: set<TaskLink>) {
    s.Node? ==> (s.link in todo ==> s.IsLeaf()) && ExtendableIn(s.on, todo) && ExtendableIn(s.off, todo)
  }

  lemma {:induction false} FrontierExtendableIn(s: Shape, path: seq<TaskInfo>, dest: TaskInfo?, todo: set<TaskLink>)
    requires Frontier(s, path, dest, todo)
    ensures ExtendableIn(s, todo)
    decreases |path|
  {
    if |path| > 1 {
      FrontierExtendableIn(s.on, path[1..], dest, todo);
      if path[0].offloading {
        FrontierExtendableIn(s.off, path[1..], dest, todo);
      }
    }
  }

  /** A link still to do has no off-child, or its task is offloadable. */
  lemma {:induction false} TodoOffChild(s: Shape, path: seq<TaskInfo>, dest: TaskInfo?, todo: set<TaskLink>,
      l: TaskLink)
    requires LinkedBut(s, todo) && Frontier(s, path, dest, todo) && l in todo && l in Links(s)
    ensures l.next_off == null || path[|path| - 1].offloading
    decreases |path|
  {
    if |path| > 1 {
      if l in Links(s.on) {
        TodoOffChild(s.on, path[1..], dest, todo, l);
      } else {
        TodoOffChild(s.off, path[1..], dest, todo, l);
      }
    }
  }

  /** The same, and nothing said of the children of link `l`. */
  ghost predicate LinkedApart(s: Shape, todo: set<TaskLink>, l: TaskLink)
    reads Links(s)`task, (Links(s) - {l})`next_on, (Links(s) - {l})`next_off
  {
    s.Node? ==>
      && s.link.task == s.task
      && (s.link != l ==>
            if s.link in todo then s.link.next_off == null || (s.task != null && s.task.offloading)
            else s.link.next_on == Root(s.on) && s.link.next_off == Root(s.off))
      && LinkedApart(s.on, todo, l) && LinkedApart(s.off, todo, l)
  }

  lemma {:induction false} LinkedButIsApart(s: Shape, todo: set<TaskLink>, l: TaskLink)
    requires LinkedBut(s, todo)
    ensures LinkedApart(s, todo, l)
  {
    if s.Node? {
      LinkedButIsApart(s.on, todo, l);
      LinkedButIsApart(s.off, todo, l);
    }
  }

  /** Storing the children of one leaf changes the heap as `Attach` says. */
  lemma {:induction false} AttachLinked(s: Shape, todo: set<TaskLink>, l: TaskLink, dest: TaskInfo?, a: TaskLink,
      b: TaskLink?)
    requires LinkedApart(s, todo, l) && a !in todo && b !in todo
    requires l.next_on == a && l.next_off == b
    requires a.task == dest && a.next_on == null && a.next_off == null
    requires b != null ==> b.task == dest && b.next_on == null && b.next_off == null
    ensures LinkedBut(Attach(s, l, dest, a, b), todo - {l})
  {
    if s.Node? && s.link != l {
      AttachLinked(s.on, todo, l, dest, a, b);
      AttachLinked(s.off, todo, l, dest, a, b);
    }
  }

  // ----- building -----

  ghost function Elements<X>(s: seq<X>): set<X> {
    set x | x in s
  }

  lemma ElementsNext<X>(s: seq<X>)
    requires Distinct(s) && s != []
    ensures s[0] in Elements(s) && Elements(s) - {s[0]} == Elements(s[1..])
  {
    assert s == [s[0]] + s[1..];
  }

  /** Nothing has been stored at the link. */
  ghost predicate Blank(l: TaskLink)
    reads l`connect_link_head, l`output_param_name
  {
    l.connect_link_head == null && l.output_param_name == ""
  }

  /** The allocations of the loop body: an on-child, and an off-child if `start` is offloadable. */
  method NewChildren(start_tl: TaskLink, start: TaskInfo, dest: TaskInfo?) returns (on: TaskLink, off: TaskLink?)
    modifies start_tl`next_on, start_tl`next_off
    ensures fresh(on) && Blank(on) && on.task == dest && on.next_on == null && on.next_off == null
    ensures off != null ==> fresh(off) && Blank(off) && off.task == dest && off.next_on == null && off.next_off == null
    ensures (off != null) == start.offloading && off != on
    ensures start_tl.next_on == on && start_tl.next_off == if off != null then off else old(start_tl.next_off)
  {
    on := new TaskLink(dest);
    off := null;
    start_tl.next_on := on;
    if start.offloading {
      off := new TaskLink(dest);
      start_tl.next_off := off;
    }
  }

  /** Gives one leaf its children: the body of the loop in _add_task_link. What the link had for
      children is overwritten. */
  method ExtendLink(start_tl: TaskLink, start: TaskInfo, dest: TaskInfo?, ghost s: Shape, ghost path: seq<TaskInfo>,
      ghost todo: set<TaskLink>)
    returns (ghost g: Shape)
    requires LinkedBut(s, todo) && Unshared(s) && Frontier(s, path, dest, todo) && path[|path| - 1] == start
    requires start_tl in todo && todo <= Links(s)
    modifies start_tl`next_on, start_tl`next_off
    ensures Root(g) == Root(s) && LinkedBut(g, todo - {start_tl}) && Unshared(g) &&
            Frontier(g, path, dest, todo - {start_tl})
    ensures Links(s) <= Links(g)
    ensures forall l <- Links(g) :: l in Links(s) || (fresh(l) && Blank(l))
  {
    FrontierExtendable(s, path, dest, todo, start_tl);
    TodoOffChild(s, path, dest, todo, start_tl);
    LinkedButIsApart(s, todo, start_tl);
    assert allocated(Links(s));
    var on, off := NewChildren(start_tl, start, dest);
    FrontierStep(s, path, dest, todo, start_tl, on, off);
    AttachLinks(s, start_tl, dest, on, off);
    AttachLinked(s, todo, start_tl, dest, on, off);
    g := Attach(s, start_tl, dest, on, off);
  }

  /** The loop of _add_task_link over the links found. */
  method ExtendLinks(found: seq<TaskLink>, start: TaskInfo, dest: TaskInfo?, ghost s: Shape, ghost path: seq<TaskInfo>)
    returns (ghost g: Shape)
    requires LinkedBut(s, Elements(found)) && Unshared(s) && Distinct(found) && Elements(found) <= Links(s)
    requires Frontier(s, path, dest, Elements(found)) && path[|path| - 1] == start
    modifies Links(s)`next_on, Links(s)`next_off
    ensures Root(g) == Root(s) && LinkedBut(g, {}) && Unshared(g) && Frontier(g, path, dest, {})
    ensures forall l <- Links(g) :: l in Links(s) || (fresh(l) && Blank(l))
  {
    g := s;
    var rest: seq<TaskLink> := found;
    while rest != []
      invariant Distinct(rest) && Elements(rest) <= Links(s)
      invariant Root(g) == Root(s) && LinkedBut(g, Elements(rest)) && Unshared(g)
      invariant Frontier(g, path, dest, Elements(rest))
      invariant Links(s) <= Links(g)
      invariant forall l <- Links(g) :: l in Links(s) || (fresh(l) && Blank(l))
      decreases |rest|
    {
      ElementsNext(rest);
      assert allocated(Links(g));
      g := ExtendLink(rest[0], start, dest, g, path, Elements(rest));
      rest := rest[1..];
    }
    assert Elements(rest) == {};
  }

  /** The structure of which _add_task_link extends every leaf: the tree, or its root alone when
      that is made first or carries `start`. */
  ghost function Extended(root: TaskLink, start: TaskInfo, s: Shape): Shape {
    if s.Nil? || s.task == start then Leaf(root, start) else s
  }

  ghost function ExtendedPath(start: TaskInfo, s: Shape, path: seq<TaskInfo>): seq<TaskInfo> {
    if s.Nil? || s.task == start then [start] else path
  }

  /** What the search finds: the leaves of that structure, or nothing. */
  lemma FoundAre(root: TaskLink, start: TaskInfo, s: Shape, full: seq<TaskInfo?>, path: seq<TaskInfo>,
      found: seq<TaskLink>)
    requires s.Node? && root == s.link && Linked(s) && Unshared(s) && Levels(s, full) && Distinct(full)
    requires start in full ==> start == full[0] || (full == path && start == path[|path| - 1])
    requires found == Carriers(s, start)
    ensures start !in full ==> found == []
    ensures start in full ==> found == Leaves(Extended(root, start, s)) && found != []
    ensures start in full ==> Levels(Extended(root, start, s), ExtendedPath(start, s, path))
  {
    if start == full[0] {
      CarrierIsRoot(s, full, start);
    } else {
      CarriersAreLeaves(s, full, start);
      if start in full {
        LeafCount(s, path);
      }
    }
  }

  lemma FoundIsFrontier(s: Shape, base: Shape, way: seq<TaskInfo>, dest: TaskInfo?, found: seq<TaskLink>)
    requires Linked(s) && Unshared(s)
    requires base == s ||
             (s.Node? && base == Leaf(s.link, s.task) && (s.off.Node? ==> s.task != null && s.task.offloading))
    requires Levels(base, way) && found == Leaves(base)
    ensures LinkedBut(base, Elements(found)) && Unshared(base) && Distinct(found) && Elements(found) <= Links(base)
    ensures Frontier(base, way, dest, Elements(found))
  {
    LeavesAreLinks(base);
    FrontierStart(base, way, dest, Elements(found));
    if base == s {
      FrontierExtendableIn(s, way, dest, Elements(found));
      LinkedIsLinkedBut(s, Elements(found));
    }
  }

  /** Extends every link that carries `start` by a level of links carrying `dest`: all leaves
      while the tree is built, or the root of a tree that is built already, which then loses
      what hung below it. On an empty tree the root is made first; a task that no link
      carries changes nothing. */
  method AddTaskLink(head: TaskLink?, start: TaskInfo, dest: TaskInfo?, ghost s: Shape, ghost full: seq<TaskInfo?>,
      ghost path: seq<TaskInfo>)
    returns (head': TaskLink, ghost g: Shape)
    requires head == Root(s) && Linked(s) && Unshared(s) && Distinct(full)
    requires head != null ==> Levels(s, full)
    requires head != null && start in full ==> start == full[0] || (full == path && start == path[|path| - 1])
    modifies Links(s)`next_on, Links(s)`next_off
    ensures Root(g) == head' && (head != null ==> head' == head) && Linked(g) && Unshared(g)
    ensures if head != null && start !in full then g == s else Levels(g, ExtendedPath(start, s, path) + [dest])
    ensures forall l <- Links(g) :: l in Links(s) || (fresh(l) && Blank(l))
    ensures head != null && start == full[0] ==> forall l <- Links(g) :: l in Links(s) ==> l == head
  {
    g := s;
    if head == null {
      head' := new TaskLink(start);
      g := Leaf(head', start);
    } else {
      head' := head;
    }
    assert allocated(Links(g));
    var found := FindTaskLinks(head', start, [], g);
    FoundAre(head', start, g, if head == null then [start] else full, path, found);
    if found == [] {
      return;
    }
    ghost var base, way := Extended(head', start, s), ExtendedPath(start, s, path);
    FoundIsFrontier(g, base, way, dest, found);
    assert allocated(Links(base));
    g := ExtendLinks(found, start, dest, base, way);
    FrontierExtendableIn(g, way, dest, {});
    LinkedIsLinkedBut(g, {});
    FrontierEnd(g, way, dest);
  }

  /** The path of the tree when the first k tasks of the list have been passed. */
  ghost function BuiltPath(tasks: seq<TaskInfo>, none: bool, n: nat, k: nat): seq<TaskInfo?>
    requires n <= |tasks| && k <= |tasks| && (!none ==> n < |tasks|)
  {
    if k >= n + 2 then tasks[n..k] else if none then [] else FullPath(tasks[n..])
  }

  lemma BuiltPathNext(tasks: seq<TaskInfo>, none: bool, n: nat, k: nat)
    requires Distinct(tasks) && 1 <= k < |tasks| && if none then n == 0 else n + 2 <= |tasks|
    ensures var full := BuiltPath(tasks, none, n, k);
            && Distinct(full)
            && (k >= n + 2 ==> full == tasks[n..k] && tasks[k - 1] in full && tasks[k - 1] != full[0])
            && (k == n + 1 && !none ==> full[0] == tasks[n] && tasks[n] in full)
            && (k <= n ==> tasks[k - 1] !in full)
    ensures k >= n + 2 ==> tasks[n..k] + [tasks[k]] == tasks[n..k + 1]
    ensures k == n + 1 ==> [tasks[n]] + [tasks[k]] == tasks[n..k + 1]
  {
    if k >= n + 2 {
      assert tasks[k - 1] == tasks[n..k][k - 1 - n];
    }
  }

  ghost predicate Buildable(tasks: seq<TaskInfo>, was: TaskLink?, s: Shape, n: nat) {
    && Distinct(tasks) && was == Root(s)
    && if was == null then n == 0 else n + 2 <= |tasks| && Levels(s, FullPath(tasks[n..]))
  }

  /** The tree when the first k tasks of the list have been passed: the old one, or one built
      below the old root of the links made. */
  ghost predicate Passed(tasks: seq<TaskInfo>, was: TaskLink?, s: Shape, n: nat, k: nat, g: Shape, made: set<TaskLink>)
    requires n <= |tasks| && k <= |tasks|
  {
    && Unshared(g) && (was != null ==> Root(g) == was)
    && if k < n + 2 then g == s else Levels(g, tasks[n..k]) && forall l <- Links(g) :: l == was || l in made
  }

  /** The call that adds a level without a task behind an offloadable last task. */
  method AddLast(head: TaskLink?, right: TaskInfo?, ghost g: Shape, ghost tasks: seq<TaskInfo>, ghost was: TaskLink?,
      ghost made: set<TaskLink>)
    returns (ghost g': Shape, ghost made': set<TaskLink>)
    requires right == (if |tasks| < 2 then null else tasks[|tasks| - 1]) && Distinct(tasks)
    requires Root(g) == head && Linked(g) && Unshared(g) && (|tasks| >= 2 ==> Levels(g, tasks))
    requires forall l <- Links(g) :: l == was || l in made
    requires forall l <- made :: Blank(l)
    modifies Links(g)`next_on, Links(g)`next_off
    ensures Root(g') == head && Linked(g') && Unshared(g') && (|tasks| >= 2 ==> Levels(g', FullPath(tasks)))
    ensures forall l <- Links(g') :: l == was || l in made'
    ensures made <= made' && fresh(made' - made) && forall l <- made' :: Blank(l)
  {
    g', made' := g, made;
    if right != null && right.offloading {
      assert right in tasks && right != tasks[0];
      var same;
      same, g' := AddTaskLink(head, right, null, g, tasks, tasks);
      made' := made + (Links(g') - Links(g));
    }
  }

  /** The call for the k-th task of the list. */
  method AddNext(head: TaskLink?, left: TaskInfo, right: TaskInfo, ghost g: Shape, ghost tasks: seq<TaskInfo>,
                 ghost was: TaskLink?, ghost s: Shape, ghost n: nat, ghost k: nat, ghost made: set<TaskLink>)
    returns (head': TaskLink, ghost g': Shape)
    requires Buildable(tasks, was, s, n) && 1 <= k < |tasks| && left == tasks[k - 1] && right == tasks[k]
    requires Root(g) == head && Linked(g) && Passed(tasks, was, s, n, k, g, made)
    modifies Links(g)`next_on, Links(g)`next_off
    ensures Root(g') == head' && Linked(g') && Passed(tasks, was, s, n, k + 1, g', made + (Links(g') - Links(g)))
    ensures forall l <- Links(g') :: l in Links(g) || (fresh(l) && Blank(l))
  {
    BuiltPathNext(tasks, was == null, n, k);
    head', g' := AddTaskLink(head, left, right, g, BuiltPath(tasks, was == null, n, k),
      if k < n + 2 then [] else tasks[n..k]);
  }

  /** The two tasks that the loop holds after k tasks of the list. */
  ghost predicate Window(tasks: seq<TaskInfo>, k: nat, left: TaskInfo?, right: TaskInfo?)
    requires k <= |tasks|
  {
    && left == (if k == 0 then null else if k == 1 then tasks[0] else tasks[k - 2])
    && right == (if k < 2 then null else tasks[k - 1])
  }

  /** The body of the loop of make_task_links. */
  method PassTask(ti: TaskInfo, was_left: TaskInfo?, was_right: TaskInfo?, was_head: TaskLink?, ghost was_g: Shape,
                  ghost tasks: seq<TaskInfo>, ghost was: TaskLink?, ghost s: Shape, ghost n: nat, ghost k: nat,
                  ghost made: set<TaskLink>)
    returns (left: TaskInfo?, right: TaskInfo?, head: TaskLink?, ghost g: Shape, ghost made': set<TaskLink>)
    requires Buildable(tasks, was, s, n) && k < |tasks| && ti == tasks[k] && Window(tasks, k, was_left, was_right)
    requires Root(was_g) == was_head && Linked(was_g) && Passed(tasks, was, s, n, k, was_g, made)
    requires forall l <- made :: Blank(l)
    modifies Links(s)`next_on, Links(s)`next_off, made`next_on, made`next_off
    ensures Window(tasks, k + 1, left, right)
    ensures Root(g) == head && Linked(g) && Passed(tasks, was, s, n, k + 1, g, made')
    ensures made <= made' && fresh(made' - made) && forall l <- made' :: Blank(l)
  {
    left, right, head, g, made' := was_left, was_right, was_head, was_g, made;
    if left == null {
      left := ti;
      return;
    } else if right == null {
      right := ti;
    } else {
      left := right;
      right := ti;
    }
    head, g := AddNext(head, left, right, g, tasks, was, s, n, k, made);
    made' := made + (Links(g) - Links(was_g));
  }

  /** The loop of make_task_links over the task list. */
  method PassTasks(tasks: seq<TaskInfo>, was: TaskLink?, ghost s: Shape, ghost n: nat)
    returns (head: TaskLink?, right: TaskInfo?, ghost g: Shape, ghost made: set<TaskLink>)
    requires Buildable(tasks, was, s, n) && Linked(s) && Unshared(s)
    modifies Links(s)`next_on, Links(s)`next_off
    ensures Root(g) == head && Linked(g) && Passed(tasks, was, s, n, |tasks|, g, made)
    ensures right == if |tasks| < 2 then null else tasks[|tasks| - 1]
    ensures fresh(made) && forall l <- made :: Blank(l)
  {
    var left: TaskInfo?;
    left, right, head, g, made := null, null, was, s, {};
    for k := 0 to |tasks|
      invariant Window(tasks, k, left, right)
      invariant Root(g) == head && Linked(g) && Passed(tasks, was, s, n, k, g, made)
      invariant fresh(made) && forall l <- made :: Blank(l)
    {
      left, right, head, g, made := PassTask(tasks[k], left, right, head, g, tasks, was, s, n, k, made);
    }
  }

  /** Builds the tree of a service from its task list. When there is a tree already, for the tasks
      from the n-th on, it is built again below the old root, and what hung there is lost. */
  method MakeTaskLinks(tasks: seq<TaskInfo>, was: TaskLink?, ghost s: Shape, ghost n: nat)
      returns (head: TaskLink?, ghost g: Shape)
    requires Buildable(tasks, was, s, n) && Linked(s) && Unshared(s)
    modifies Links(s)`next_on, Links(s)`next_off
    ensures Root(g) == head && Linked(g) && Unshared(g) && (was != null ==> head == was)
    ensures |tasks| < 2 ==> head == null
    ensures |tasks| >= 2 ==> Levels(g, FullPath(tasks[n..]))
    ensures |tasks| >= 2 ==> |Leaves(g)| == Pow2(|Offloadable(tasks[n..])|)
    ensures forall l <- Links(g) :: l == was || (fresh(l) && Blank(l))
  {
    var right;
    ghost var made;
    head, right, g, made := PassTasks(tasks, was, s, n);
    assert tasks[n..|tasks|] == tasks[n..];
    assert allocated(Links(g)) && allocated(Links(s));
    g, made := AddLast(head, right, g, tasks[n..], was, made);
    if |tasks| >= 2 {
      LeafPerOffloadableSet(g, tasks[n..]);
    }
  }

  /** A complete tree has a leaf for every set of offloadable tasks. */
  lemma LeafPerOffloadableSet(s: Shape, tasks: seq<TaskInfo>)
    requires tasks != [] && Distinct(tasks) && Levels(s, FullPath(tasks))
    ensures |Leaves(s)| == Pow2(|Offloadable(tasks)|)
  {
    LeafCount(s, FullPath(tasks));
    CountOffloadableSet(tasks, FullPath(tasks)[..|FullPath(tasks)| - 1]);
  }

  lemma CountOffloadableSet(tasks: seq<TaskInfo>, path: seq<TaskInfo>)
    requires Distinct(tasks) && tasks != []
    requires path == FullPath(tasks)[..|FullPath(tasks)| - 1]
    ensures CountOffloadable(path) == |Offloadable(tasks)|
  {
    assert Offloadable(tasks) == Offloadable(path) by {
      forall t <- tasks | t.offloading ensures t in path {
        var k :| 0 <= k < |tasks| && tasks[k] == t;
        assert path[k] == t;
      }
    }
    CountOffloadableDistinct(path);
  }

  lemma {:induction false} CountOffloadableDistinct(path: seq<TaskInfo>)
    requires Distinct(path)
    ensures CountOffloadable(path) == |Offloadable(path)|
  {
    if path != [] {
      CountOffloadableDistinct(path[1..]);
      var rest := Offloadable(path[1..]);
      assert Offloadable(path) == if path[0].offloading then rest + {path[0]} else rest;
      assert path[0] !in rest;
    }
  }
}
