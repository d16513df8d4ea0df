/** The intrusive doubly linked list of the abstraction layer (iw_oal_list.c), proved to
    refine a sequence.

    Three stores of the original go through a NULL neighbour: adding to an empty list, and
    removing the last node, either as the head or from behind another node. The model keeps
    them as stores that reach no list node, and reports in `nullStore` exactly when the code
    executes one. The node count is an unsigned char, so it is the length modulo 256. */
module IwList {
  import opened Basics

  datatype Error = IW_SUCCESS | IW_FAIL

  class ListNode<T> {
    var next: ListNode?<T>
    var previous: ListNode?<T>
    const pData: T

    constructor (data: T)
      ensures next == null && previous == null && pData == data
    {
      next, previous, pData := null, null, data;
    }
  }

  class List<T> {
    var head: ListNode?<T>
    var nodeNum: nat
    ghost var nodes: seq<ListNode<T>>

    /** `next` and `previous` are mutually inverse along `nodes`, and end in null. */
    ghost predicate Valid()
      reads this, nodes
    {
      && Distinct(nodes)
      && head == At(nodes, 0)
      && (forall i {:trigger nodes[i].next} :: 0 <= i < |nodes| ==> nodes[i].next == At(nodes, i + 1))
      && (forall i {:trigger nodes[i].previous} :: 0 <= i < |nodes| ==> nodes[i].previous == At(nodes, i - 1))
      && nodeNum == |nodes| % 256
    }

    constructor ()
      ensures Valid() && nodes == []
    {
      head, nodeNum, nodes := null, 0, [];
    }

    /** Prepends `node`. The unguarded store happens exactly on an empty list. */
    method Add(node: ListNode<T>) returns (ghost nullStore: bool)
      requires Valid() && node !in nodes
      modifies this, node, nodes
      ensures Valid() && nodes == [node] + old(nodes)
      ensures nullStore == (old(nodes) == [])
    {
      node.next := head;
      node.previous := null;
      nullStore := node.next == null;
      if node.next != null {
        node.next.previous := node;
      }
      head := node;
      nodeNum := (nodeNum + 1) % 256;
      nodes := [node] + nodes;
    }

    /** Removes exactly the given member. The unguarded store happens exactly when the
        member is the last one. */
    method Remove(node: ListNode<T>, ghost k: nat) returns (ghost nullStore: bool)
      requires Valid() && k < |nodes| && nodes[k] == node
      modifies this, nodes
      ensures Valid() && nodes == Without(old(nodes), k)
      ensures nullStore == (k == |old(nodes)| - 1)
    {
      nullStore := Unlink(node, k);
      CountDown(|nodes|);
      nodeNum := (nodeNum + 255) % 256;
      WithoutAt(nodes, k);
      nodes := Without(nodes, k);
    }

    /** Joins the neighbours of a member, or the head and the member behind it. */
    method Unlink(node: ListNode<T>, ghost k: nat) returns (ghost nullStore: bool)
      requires Valid() && k < |nodes| && nodes[k] == node
      modifies this`head, nodes
      ensures head == At(nodes, if k == 0 then 1 else 0)
      ensures forall i {:trigger nodes[i].next} :: 0 <= i < |nodes| ==>
              nodes[i].next == At(nodes, if i + 1 == k then k + 1 else i + 1)
      ensures forall i {:trigger nodes[i].previous} :: 0 <= i < |nodes| ==>
              nodes[i].previous == At(nodes, if i - 1 == k then k - 1 else i - 1)
      ensures nullStore == (k == |nodes| - 1)
    {
      assert nodes[k].next == At(nodes, k + 1) && nodes[k].previous == At(nodes, k - 1);
      nullStore := node.next == null;
      if node == head {
        head := node.next;
        if node.next != null {
          node.next.previous := null;
        }
      } else {
        if node.next != null {
          node.next.previous := node.previous;
        }
        node.previous.next := node.next;
      }
    }

    /** The delete-all loop `LIST_FOREACH_TO_DEL`: it is driven by the 8-bit count, so it
        removes the first `length mod 256` nodes and frees them in list order. */
    method DeleteAll() returns (freed: seq<ListNode<T>>)
      requires Valid()
      modifies this, nodes
      ensures Valid() && nodeNum == 0
      ensures freed == old(nodes)[..|old(nodes)| % 256]
      ensures nodes == old(nodes)[|old(nodes)| % 256..]
      ensures nodes == [] <==> |old(nodes)| <= 255
    {
      freed := [];
      var item := head;
      while nodeNum != 0
        invariant Valid()
        invariant item == head
        invariant nodeNum == |old(nodes)| % 256 - |freed|
        invariant freed == old(nodes)[..|freed|]
        invariant nodes == old(nodes)[|freed|..]
        decreases nodeNum
      {
        var nullStore := Remove(item, 0);
        freed := freed + [item];
        item := head;
      }
    }

    /** `LIST_FOREACH` visits the nodes in sequence order, each once, and terminates. */
    method Collect() returns (visited: seq<T>)
      requires Valid()
      ensures |visited| == |nodes|
      ensures forall i :: 0 <= i < |nodes| ==> visited[i] == nodes[i].pData
    {
      visited := [];
      var item := head;
      while item != null
        invariant |visited| <= |nodes|
        invariant item == At(nodes, |visited|)
        invariant forall i :: 0 <= i < |visited| ==> visited[i] == nodes[i].pData
        decreases |nodes| - |visited|
      {
        visited := visited + [item.pData];
        item := item.next;
      }
    }
  }

  ghost function At<T>(nodes: seq<ListNode<T>>, i: int): ListNode?<T> {
    if 0 <= i < |nodes| then nodes[i] else null
  }

  /** Sequence with the element at `k` taken out. */
  ghost function Without<X>(s: seq<X>, k: nat): (r: seq<X>)
    requires k < |s|
  {
    s[..k] + s[k + 1..]
  }

  /** The nodes but one: distinct still, and each with its neighbours, but for the gap closed. */
  lemma WithoutAt<T>(nodes: seq<ListNode<T>>, k: nat)
    requires k < |nodes| && Distinct(nodes)
    ensures Distinct(Without(nodes, k)) && |Without(nodes, k)| == |nodes| - 1
    ensures forall i {:trigger Without(nodes, k)[i]} :: 0 <= i < |nodes| - 1 ==>
              Without(nodes, k)[i] == nodes[if i < k then i else i + 1]
    ensures forall i {:trigger At(Without(nodes, k), i)} ::
              At(Without(nodes, k), i) == At(nodes, if i < k then i else i + 1)
  {
  }

  lemma CountDown(n: nat)
    ensures n > 0 ==> (n % 256 + 255) % 256 == (n - 1) % 256
  {
  }

  method InitList<T>(list: List?<T>) returns (err: Error)
    modifies list
    ensures err == (if list == null then IW_FAIL else IW_SUCCESS)
    ensures list != null ==> list.Valid() && list.nodes == []
  {
    if list == null {
      return IW_FAIL;
    }
    list.head, list.nodeNum, list.nodes := null, 0, [];
    return IW_SUCCESS;
  }

  method AddListNode<T>(list: List?<T>, node: ListNode?<T>) returns (err: Error, ghost nullStore: bool)
    requires list != null && node != null ==> list.Valid() && node !in list.nodes
    modifies list, node, if list == null then [] else list.nodes
    ensures err == (if list == null || node == null then IW_FAIL else IW_SUCCESS)
    ensures list != null && node != null ==> list.Valid() && list.nodes == [node] + old(list.nodes)
    ensures list != null && node == null ==> unchanged(list) && unchanged(list.nodes)
    ensures list == null && node != null ==> unchanged(node)
    ensures nullStore <==> list != null && node != null && old(list.nodes) == []
  {
    if list == null || node == null {
      return IW_FAIL, false;
    }
    nullStore := list.Add(node);
    return IW_SUCCESS, nullStore;
  }

  method RemoveListNode<T>(list: List?<T>, node: ListNode?<T>, ghost k: nat) returns (err: Error, ghost nullStore: bool)
    requires list != null && node != null ==> list.Valid() && k < |list.nodes| && list.nodes[k] == node
    modifies list, if list == null then [] else list.nodes
    ensures err == (if list == null || node == null then IW_FAIL else IW_SUCCESS)
    ensures list != null && node != null ==> list.Valid() && list.nodes == Without(old(list.nodes), k)
    ensures list != null && node == null ==> unchanged(list) && unchanged(list.nodes)
    ensures nullStore <==> list != null && node != null && k == |old(list.nodes)| - 1
  {
    if list == null || node == null {
      return IW_FAIL, false;
    }
    nullStore := list.Remove(node, k);
    return IW_SUCCESS, nullStore;
  }

  /** No cycle: from member i, `steps` hops along `next` arrive at member i + steps, or at
      null when there is none. */
  ghost function Follow<T>(n: ListNode?<T>, steps: nat, nodes: seq<ListNode<T>>): ListNode?<T>
    reads nodes
  {
    if n == null || n !in nodes || steps == 0 then n else Follow(n.next, steps - 1, nodes)
  }

  lemma {:induction false} NoCycle<T>(list: List<T>, i: nat, steps: nat)
    requires list.Valid() && i < |list.nodes|
    ensures Follow(list.nodes[i], steps, list.nodes) == At(list.nodes, i + steps)
    decreases steps
  {
    if steps != 0 && i + 1 < |list.nodes| {
      NoCycle(list, i + 1, steps - 1);
    } else if steps != 0 {
      assert list.nodes[i].next == null;
    }
  }
}
