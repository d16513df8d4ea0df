/** The decision tree as an index: which leaf a set of switched-off tasks leads to, and what
    tearing the tree down releases. */
module TaskIndex {
  import opened Basics
  import opened ServiceTypes
  import opened TaskLinks

  /** The place a lookup ends at when exactly the tasks in `off` test false. */
  ghost function Walk(s: Shape, off: set<TaskInfo>): Shape {
    if s.Nil? || s.IsLeaf() then s
    else if s.task !in off then Walk(s.on, off)
    else Walk(s.off, off)
  }

  /** The tasks that a lookup may test: all levels but the last. */
  ghost function Tested(path: seq<TaskInfo?>): seq<TaskInfo?> {
    if path == [] then [] else path[..|path| - 1]
  }

  /** Some tested task is off although it has no off-branch. */
  ghost predicate Blocked(path: seq<TaskInfo?>, off: set<TaskInfo>) {
    exists t <- Tested(path) :: t in off && !(t as TaskInfo).offloading
  }

  method FindLastTaskLink(tl: TaskLink?, test: TaskInfo ~> bool, ghost s: Shape, ghost path: seq<TaskInfo?>,
      ghost off: set<TaskInfo>)
    returns (last: TaskLink?)
    requires Root(s) == tl && Linked(s) && (s.Node? ==> Levels(s, path))
    requires forall t: TaskInfo | t in Tested(path) :: test.requires(t) && test(t) == (t !in off)
    ensures last == Root(Walk(s, off))
  {
    last := tl;
    ghost var cur, k := s, 0;
    while last != null
      invariant last == Root(cur) && Linked(cur) && Walk(cur, off) == Walk(s, off)
      invariant cur.Node? ==> k < |path| && Levels(cur, path[k..])
      decreases cur
    {
      if last.next_on == null && last.next_off == null {
        break;
      }
      assert path[k] in Tested(path);
      assert path[k..][1..] == path[k + 1..];
      if test(last.task) {
        last, cur := last.next_on, cur.on;
      } else {
        last, cur := last.next_off, cur.off;
      }
      k := k + 1;
    }
  }

  lemma TestedStep(path: seq<TaskInfo?>, t: TaskInfo?)
    requires |path| > 1
    ensures t in Tested(path) <==> t == path[0] || t in Tested(path[1..])
  {
    assert Tested(path) == [path[0]] + Tested(path[1..]);
  }

  /** A lookup fails exactly when a tested task without an off-branch is off; otherwise it
      ends at a leaf of the tree. */
  lemma {:induction false} WalkFails(s: Shape, path: seq<TaskInfo?>, off: set<TaskInfo>)
    requires Levels(s, path)
    ensures Walk(s, off).Nil? <==> Blocked(path, off)
    ensures !Blocked(path, off) ==>
            Walk(s, off).IsLeaf() && Walk(s, off).link in Leaves(s) && Walk(s, off).link in Links(s)
    decreases |path|
  {
    if |path| > 1 {
      forall t ensures t in Tested(path) <==> t == path[0] || t in Tested(path[1..]) {
        TestedStep(path, t);
      }
      if path[0] !in off {
        WalkFails(s.on, path[1..], off);
      } else if path[0].offloading {
        WalkFails(s.off, path[1..], off);
      }
    }
  }

  /** Two lookups that succeed end at the same leaf exactly when they agree on every tested
      task. */
  lemma {:induction false} WalkInjective(s: Shape, path: seq<TaskInfo?>, x: set<TaskInfo>, y: set<TaskInfo>)
    requires Levels(s, path) && Unshared(s)
    requires !Blocked(path, x) && !Blocked(path, y)
    ensures Root(Walk(s, x)) == Root(Walk(s, y)) <==> forall t <- Tested(path) :: t in x <==> t in y
    decreases |path|
  {
    WalkFails(s, path, x);
    WalkFails(s, path, y);
    if |path| > 1 {
      forall t ensures t in Tested(path) <==> t == path[0] || t in Tested(path[1..]) {
        TestedStep(path, t);
      }
      var rest := path[1..];
      assert !Blocked(rest, x) && !Blocked(rest, y);
      if path[0] !in x { WalkFails(s.on, rest, x); } else { WalkFails(s.off, rest, x); }
      if path[0] !in y { WalkFails(s.on, rest, y); } else { WalkFails(s.off, rest, y); }
      if path[0] !in x && path[0] !in y {
        WalkInjective(s.on, rest, x, y);
      } else if path[0] in x && path[0] in y {
        WalkInjective(s.off, rest, x, y);
      }
    }
  }

  /** Every leaf is reached, by switching off exactly the tasks whose off-branch leads there. */
  lemma {:induction false} WalkOnto(s: Shape, path: seq<TaskInfo?>, leaf: TaskLink) returns (off: set<TaskInfo>)
    requires Levels(s, path) && leaf in Leaves(s) && Distinct(Tested(path))
    ensures forall t <- off :: t.offloading && t in Tested(path)
    ensures Root(Walk(s, off)) == leaf
    decreases |path|
  {
    off := {};
    if |path| > 1 {
      forall t ensures t in Tested(path) <==> t == path[0] || t in Tested(path[1..]) {
        TestedStep(path, t);
      }
      assert Tested(path) == [path[0]] + Tested(path[1..]);
      var rest := Tested(path[1..]);
      assert forall i :: 0 <= i < |rest| ==> rest[i] == Tested(path)[i + 1] && Tested(path)[0] != Tested(path)[i + 1];
      if leaf in Leaves(s.on) {
        off := WalkOnto(s.on, path[1..], leaf);
      } else {
        off := WalkOnto(s.off, path[1..], leaf);
        WalkAgrees(s.off, path[1..], off, off + {path[0]});
        off := off + {path[0]};
      }
    }
  }

  lemma {:induction false} WalkAgrees(s: Shape, path: seq<TaskInfo?>, x: set<TaskInfo>, y: set<TaskInfo>)
    requires Levels(s, path) && forall t <- Tested(path) :: t in x <==> t in y
    ensures Walk(s, x) == Walk(s, y)
    decreases |path|
  {
    if |path| > 1 {
      forall t ensures t in Tested(path) <==> t == path[0] || t in Tested(path[1..]) {
        TestedStep(path, t);
      }
      if path[0] !in x {
        WalkAgrees(s.on, path[1..], x, y);
      } else if path[0].offloading {
        WalkAgrees(s.off, path[1..], x, y);
      }
    }
  }

  // ----- the index of a task list -----

  /** An off-set that a lookup over `tasks` rejects: it names a task that cannot be switched
      off and is not the last one. */
  ghost predicate Rejected(tasks: seq<TaskInfo>, off: set<TaskInfo>)
  {
    exists i :: 0 <= i < |tasks| - 1 && tasks[i] in off && !tasks[i].offloading
  }

  lemma RejectedIsBlocked(tasks: seq<TaskInfo>, off: set<TaskInfo>)
    requires tasks != []
    ensures Rejected(tasks, off) <==> Blocked(FullPath(tasks), off)
  {
    var tested := Tested(FullPath(tasks));
    assert tested == tasks || tested == tasks[..|tasks| - 1];
    if i :| 0 <= i < |tasks| - 1 && tasks[i] in off && !tasks[i].offloading {
      assert tested[i] == tasks[i];
    }
    if t :| t in tested && t in off && !(t as TaskInfo).offloading {
      var i :| 0 <= i < |tested| && tested[i] == t;
      assert tasks[i] == t;
    }
  }

  lemma OffloadableAreTested(tasks: seq<TaskInfo>, t: TaskInfo)
    requires tasks != []
    ensures t in Offloadable(tasks) <==> t in Tested(FullPath(tasks)) && t.offloading
  {
    var tested := Tested(FullPath(tasks));
    assert tested == tasks || tested == tasks[..|tasks| - 1];
    if t in Offloadable(tasks) {
      var i :| 0 <= i < |tasks| && tasks[i] == t;
      assert tested[i] == t;
    }
  }

  /** The tree of `tasks` is an exact index: an accepted off-set leads to the leaf of its
      offloadable members, distinct sets of offloadable tasks lead to distinct leaves, and
      a rejected off-set leads nowhere. */
  lemma IndexExact(s: Shape, tasks: seq<TaskInfo>, off: set<TaskInfo>, key: set<TaskInfo>)
    requires tasks != [] && Levels(s, FullPath(tasks)) && Unshared(s)
    requires key <= Offloadable(tasks)
    ensures Root(Walk(s, key)) != null && Root(Walk(s, key)) in Links(s)
    ensures Rejected(tasks, off) <==> Root(Walk(s, off)) == null
    ensures !Rejected(tasks, off) ==> (Root(Walk(s, off)) == Root(Walk(s, key)) <==> key == off * Offloadable(tasks))
  {
    var path := FullPath(tasks);
    RejectedIsBlocked(tasks, off);
    RejectedIsBlocked(tasks, key);
    WalkFails(s, path, off);
    WalkFails(s, path, key);
    if !Rejected(tasks, off) {
      WalkInjective(s, path, off, key);
      forall t: TaskInfo ensures t in Offloadable(tasks) <==> t in Tested(path) && t.offloading {
        OffloadableAreTested(tasks, t);
      }
      if key == off * Offloadable(tasks) {
        assert forall t <- Tested(path) :: t in off <==> t in key;
      } else if forall t <- Tested(path) :: t in off <==> t in key {
        assert forall t: TaskInfo :: t in key <==> t in off * Offloadable(tasks);
      }
    }
  }

  // ----- tearing down -----

  /** One call of free. */
  datatype Freed = FreedLink(link: TaskLink) | FreedList(list: LineList)

  /** The wiring lists held by the links of a tree. */
  type Lists = map<TaskLink, LineList?>

  ghost function Held(s: Shape): (held: Lists)
    reads Links(s)
  {
    map l | l in Links(s) :: l.connect_link_head
  }

  ghost function FreeList(list: LineList?): seq<Freed> {
    if list == null then [] else [FreedList(list)]
  }

  /** Everything released with a tree, in order. */
  ghost function Teardown(s: Shape, held: Lists): seq<Freed>
    requires Links(s) <= held.Keys
  {
    if s.Nil? then []
    else FreeList(held[s.link]) + Teardown(s.on, held) + Teardown(s.off, held) + [FreedLink(s.link)]
  }

  /** The wiring lists stored in a tree, one entry for each link that holds one. */
  ghost function StoredLists(s: Shape, held: Lists): seq<Freed>
    requires Links(s) <= held.Keys
  {
    if s.Nil? then [] else FreeList(held[s.link]) + StoredLists(s.on, held) + StoredLists(s.off, held)
  }

  /** Returns the record of the calls of free, oldest first. */
  method DelTaskLink(task_link: TaskLink?, ghost s: Shape, ghost held: Lists) returns (freed: seq<Freed>)
    requires Root(s) == task_link && Linked(s)
    requires Links(s) <= held.Keys && forall l <- Links(s) :: held[l] == l.connect_link_head
    ensures freed == Teardown(s, held)
    decreases s
  {
    freed := [];
    if task_link == null {
      return;
    }
    assert allocated(Links(s));
    if task_link.connect_link_head != null {
      freed := [FreedList(task_link.connect_link_head)];
    }
    if task_link.next_on != null {
      var f := DelTaskLink(task_link.next_on, s.on, held);
      freed := freed + f;
    }
    if task_link.next_off != null {
      var f := DelTaskLink(task_link.next_off, s.off, held);
      freed := freed + f;
    }
    freed := freed + [FreedLink(task_link)];
  }

  ghost function Count(s: seq<Freed>, f: Freed): nat {
    if s == [] then 0 else (if s[0] == f then 1 else 0) + Count(s[1..], f)
  }

  lemma {:induction false} CountConcat(a: seq<Freed>, b: seq<Freed>, f: Freed)
    ensures Count(a + b, f) == Count(a, f) + Count(b, f)
  {
    if a == [] {
      assert a + b == b;
    } else {
      assert (a + b)[1..] == a[1..] + b;
      CountConcat(a[1..], b, f);
    }
  }

  /** Each link of the tree is released exactly once, nothing else but the stored lists is
      released, and each list is released as often as it is stored. */
  lemma {:induction false} TeardownCounts(s: Shape, held: Lists, f: Freed)
    requires Unshared(s) && Links(s) <= held.Keys
    ensures Count(Teardown(s, held), f) ==
            if f.FreedList? then Count(StoredLists(s, held), f) else if f.link in Links(s) then 1 else 0
    ensures f.FreedLink? ==> Count(StoredLists(s, held), f) == 0
  {
    if s.Node? {
      TeardownCounts(s.on, held, f);
      TeardownCounts(s.off, held, f);
      var x, z := FreeList(held[s.link]), [FreedLink(s.link)];
      var a, b := Teardown(s.on, held), Teardown(s.off, held);
      CountConcat(x + a + b, z, f);
      CountConcat(x + a, b, f);
      CountConcat(x, a, f);
      CountConcat(x + StoredLists(s.on, held), StoredLists(s.off, held), f);
      CountConcat(x, StoredLists(s.on, held), f);
    }
  }

  /** So nothing is released twice exactly when the lists stored at the leaves are distinct. */
  lemma FreedOnce(s: Shape, held: Lists)
    requires Unshared(s) && Links(s) <= held.Keys
    ensures (forall f :: AtMostOnce(Teardown(s, held), f)) <==> (forall f :: AtMostOnce(StoredLists(s, held), f))
  {
    var torn, stored := Teardown(s, held), StoredLists(s, held);
    forall f ensures AtMostOnce(torn, f) <==> AtMostOnce(stored, f) {
      TeardownCounts(s, held, f);
    }
    assert (forall f :: AtMostOnce(torn, f)) <==> (forall f :: AtMostOnce(stored, f));
  }

  ghost predicate AtMostOnce(s: seq<Freed>, f: Freed) {
    Count(s, f) <= 1
  }

  ghost predicate Within(n: Shape, s: Shape) {
    s.Node? && (n == s || Within(n, s.on) || Within(n, s.off))
  }

  lemma {:induction false} WithinLinks(s: Shape, n: Shape)
    requires Within(n, s)
    ensures n.Node? && Links(n) <= Links(s)
  {
    if n != s && Within(n, s.on) {
      WithinLinks(s.on, n);
    } else if n != s {
      WithinLinks(s.off, n);
    }
  }

  lemma Splice<X>(x: seq<X>, p: seq<X>, m: seq<X>, q: seq<X>, y: seq<X>)
    ensures x + (p + m + q) + y == (x + p) + m + (q + y)
  {
  }

  /** Each link is released last of its subtree: its whole subtree is released in one
      stretch, which ends with the link itself. */
  lemma {:induction false} ChildrenFirst(s: Shape, n: Shape, held: Lists)
      returns (before: seq<Freed>, upTo: seq<Freed>, after: seq<Freed>)
    requires Within(n, s) && Links(s) <= held.Keys
    ensures Teardown(s, held) == before + upTo + after
    ensures Links(n) <= held.Keys && upTo == Teardown(n, held) && upTo != [] && upTo[|upTo| - 1] == FreedLink(n.link)
  {
    WithinLinks(s, n);
    var x, a, b, z := FreeList(held[s.link]), Teardown(s.on, held), Teardown(s.off, held), [FreedLink(s.link)];
    if n == s {
      before, upTo, after := [], x + a + b + z, [];
    } else if Within(n, s.on) {
      before, upTo, after := ChildrenFirst(s.on, n, held);
      Splice(x, before, upTo, after, b + z);
      before, after := x + before, after + (b + z);
    } else {
      before, upTo, after := ChildrenFirst(s.off, n, held);
      Splice(x + a, before, upTo, after, z);
      before, after := x + a + before, after + z;
    }
  }
}
