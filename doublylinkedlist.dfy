/**
 * The sorted, duplicate-free, doubly linked list of strings: `struct
 * list_node_s` becomes class Node, `struct list_s` class List, and each
 * list operation a method that updates the links in place. The ghost field
 * `nodes` lists the nodes in the order a forward walk from the head visits
 * them; the predicates below tie the real links to it.
 */
module DoublyLinkedList {
  import opened CString
  import opened ListSpec

  /** One list node: its string and the links to its neighbours. The string
      is copied in when the node is allocated and no operation writes it
      afterwards, so it is a constant field. */
  class Node {
    const data: string
    var prev: Node?
    var next: Node?

    /** A node as Insert builds it: a copy of the string, both links null. */
    constructor (s: string)
      ensures data == s && prev == null && next == null
    {
      data := s;
      prev := null;
      next := null;
    }
  }

  /** The strings held by a sequence of nodes, in order. */
  ghost function DataOf(ns: seq<Node>): (r: seq<string>)
  {
    seq(|ns|, i requires 0 <= i < |ns| => ns[i].data)
  }

  /** Each node's `next` is the node after it; the last one's is null. */
  ghost predicate NextLinked(ns: seq<Node>)
    reads ns
  {
    && (ns != [] ==> ns[|ns| - 1].next == null)
    && (forall i {:trigger ns[i].next} :: 0 <= i < |ns| - 1 ==> ns[i].next == ns[i + 1])
  }

  /** Each node's `prev` is the node before it; the first one's is null. */
  ghost predicate PrevLinked(ns: seq<Node>)
    reads ns
  {
    && (ns != [] ==> ns[0].prev == null)
    && (forall i {:trigger ns[i].prev} :: 0 < i < |ns| ==> ns[i].prev == ns[i - 1])
  }

  /** A chain along `next` that ends in null visits no node twice: a node met
      twice would lead, step by step, to the last node from an earlier one,
      whose `next` is not null. */
  lemma {:induction false} NextLinkedDistinct(ns: seq<Node>, i: int, j: int)
    requires NextLinked(ns)
    requires 0 <= i < j < |ns|
    ensures ns[i] != ns[j]
    decreases |ns| - j
  {
    if j < |ns| - 1 {
      NextLinkedDistinct(ns, i + 1, j + 1);
      assert ns[i].next == ns[i + 1] && ns[j].next == ns[j + 1];
    } else {
      assert ns[i].next == ns[i + 1];
    }
  }

  /** The node at index `k` of a chain occurs nowhere else in it. */
  lemma NextLinkedUnique(ns: seq<Node>, k: int)
    requires NextLinked(ns)
    requires 0 <= k < |ns|
    ensures forall j :: 0 <= j < |ns| && j != k ==> ns[j] != ns[k]
  {
    forall j | 0 <= j < |ns| && j != k
      ensures ns[j] != ns[k]
    {
      if j < k {
        NextLinkedDistinct(ns, j, k);
      } else {
        NextLinkedDistinct(ns, k, j);
      }
    }
  }

  /** The position of each node in a chain: a map that recovers the index
      from the node, so that equal nodes have equal indices. */
  lemma Positions(ns: seq<Node>) returns (pos: map<Node, int>)
    requires NextLinked(ns)
    ensures forall j :: 0 <= j < |ns| ==> ns[j] in pos && pos[ns[j]] == j
  {
    forall a, b | 0 <= a < b < |ns|
      ensures ns[a] != ns[b]
    {
      NextLinkedDistinct(ns, a, b);
    }
    pos := map j | 0 <= j < |ns| :: ns[j] := j;
  }

  /** Splicing `node` in at index `i` keeps the forward chain, when the new
      node and its predecessor point on and every other link is as before. */
  lemma SpliceNextLinked(ns: seq<Node>, i: int, node: Node)
    requires 0 <= i <= |ns|
    requires forall j {:trigger ns[j].next} :: 0 <= j < |ns| - 1 && j != i - 1 ==> ns[j].next == ns[j + 1]
    requires i < |ns| ==> ns[|ns| - 1].next == null
    requires i > 0 ==> ns[i - 1].next == node
    requires node.next == if i < |ns| then ns[i] else null
    ensures NextLinked(ns[..i] + [node] + ns[i..])
  {
  }

  /** Splicing `node` in at index `i` keeps the backward links likewise. */
  lemma SplicePrevLinked(ns: seq<Node>, i: int, node: Node)
    requires 0 <= i <= |ns|
    requires forall j {:trigger ns[j].prev} :: 0 < j < |ns| && j != i ==> ns[j].prev == ns[j - 1]
    requires i > 0 ==> ns[0].prev == null
    requires i < |ns| ==> ns[i].prev == node
    requires node.prev == if i > 0 then ns[i - 1] else null
    ensures PrevLinked(ns[..i] + [node] + ns[i..])
  {
  }

  /** Cutting the node at index `i` out keeps the forward chain, when its
      predecessor now points past it and every other link is as before. */
  lemma CutNextLinked(ns: seq<Node>, i: int)
    requires 0 <= i < |ns|
    requires forall j {:trigger ns[j].next} :: 0 <= j < |ns| - 1 && j != i - 1 && j != i ==> ns[j].next == ns[j + 1]
    requires i < |ns| - 1 ==> ns[|ns| - 1].next == null
    requires i > 0 ==> ns[i - 1].next == if i + 1 < |ns| then ns[i + 1] else null
    ensures NextLinked(ns[..i] + ns[i + 1..])
  {
  }

  /** Cutting the node at index `i` out keeps the backward links, when its
      successor now points back past it and every other link is as before. */
  lemma CutPrevLinked(ns: seq<Node>, i: int)
    requires 0 <= i < |ns|
    requires forall j {:trigger ns[j].prev} :: 0 < j < |ns| && j != i && j != i + 1 ==> ns[j].prev == ns[j - 1]
    requires i > 0 ==> ns[0].prev == null
    requires i + 1 < |ns| ==> ns[i + 1].prev == if i > 0 then ns[i - 1] else null
    ensures PrevLinked(ns[..i] + ns[i + 1..])
  {
  }

  /** Nodes whose `next` each point at the node before them form, read
      backwards, a forward chain. */
  lemma ReversedNextLinked(ns: seq<Node>)
    requires forall j {:trigger ns[j].next} :: 0 <= j < |ns| ==> ns[j].next == if j == 0 then null else ns[j - 1]
    ensures NextLinked(Reversed(ns))
  {
  }

  /** Nodes whose `prev` each point at the node after them have, read
      backwards, consistent backward links. */
  lemma ReversedPrevLinked(ns: seq<Node>)
    requires forall j {:trigger ns[j].prev} :: 0 <= j < |ns| ==> ns[j].prev == if j + 1 < |ns| then ns[j + 1] else null
    ensures PrevLinked(Reversed(ns))
  {
  }

  /** Splicing a node into a sequence splices its string into the strings. */
  lemma DataOfSplice(ns: seq<Node>, i: int, node: Node)
    requires 0 <= i <= |ns|
    ensures DataOf(ns[..i] + [node] + ns[i..]) == DataOf(ns)[..i] + [node.data] + DataOf(ns)[i..]
  {
  }

  /** Cutting a node out of a sequence cuts its string out of the strings. */
  lemma DataOfCut(ns: seq<Node>, i: int)
    requires 0 <= i < |ns|
    ensures DataOf(ns[..i] + ns[i + 1..]) == DataOf(ns)[..i] + DataOf(ns)[i + 1..]
  {
  }

  /** Reading the nodes backwards reads their strings backwards. */
  lemma DataOfReversed(ns: seq<Node>)
    ensures DataOf(Reversed(ns)) == Reversed(DataOf(ns))
  {
  }

  class List {
    var head: Node?
    var tail: Node?
    /** The nodes of the forward chain from `head`, in order. */
    ghost var nodes: seq<Node>

    /** The forward chain: `head` starts it and the `next` links run through
        `nodes` to null. This is all a walk along `next` needs. */
    ghost predicate ForwardChain()
      reads this, nodes
    {
      && (if nodes == [] then head == null else head == nodes[0])
      && NextLinked(nodes)
    }

    /** Both directions agree: `tail` ends the forward chain and the `prev`
        links run back through `nodes` to null. */
    ghost predicate Linked()
      reads this, nodes
    {
      && ForwardChain()
      && (if nodes == [] then tail == null else tail == nodes[|nodes| - 1])
      && PrevLinked(nodes)
    }

    /** The strings a forward traversal visits, as Print prints them. */
    ghost function Contents(): seq<string>
      reads this
    {
      DataOf(nodes)
    }

    /** The list invariant: consistent links and strictly ascending data. */
    ghost predicate Valid()
      reads this, nodes
    {
      Linked() && Ascending(Contents())
    }

    /** The empty list: null head and tail. */
    constructor ()
      ensures Valid() && Contents() == []
      ensures head == null && tail == null
    {
      head := null;
      tail := null;
      nodes := [];
    }

    /** Insert: scan forward from the head; an equal string leaves the list
        as it was, otherwise a new node goes before the first greater string,
        or at the end. */
    method Insert(s: string)
      requires Valid()
      modifies this, nodes
      ensures Valid()
      ensures Contents() == InsertSorted(old(Contents()), s)
      ensures s in old(Contents()) ==> unchanged(this) && unchanged(nodes)
      ensures s !in old(Contents()) ==>
        |nodes| == |old(nodes)| + 1 &&
        exists k :: 0 <= k <= |old(nodes)| && fresh(nodes[k]) && nodes == old(nodes)[..k] + [nodes[k]] + old(nodes)[k..]
      ensures old(head) == null ==> head == tail && fresh(head) && head.prev == null && head.next == null
      ensures old(head) != null ==> (head == old(head) <==> !Less(s, old(head.data)))
      ensures old(tail) != null ==> (tail == old(tail) <==> !Less(old(tail.data), s))
    {
      var node := new Node(s);
      if head == null {
        head := node;
        tail := node;
        nodes := [node];
        assert nodes == old(nodes)[..0] + [nodes[0]] + old(nodes)[0..];
        return;
      }
      ghost var ns := nodes;
      ghost var xs := Contents();
      assert head.data == xs[0] && tail.data == xs[|xs| - 1];
      var temp: Node? := head;
      var curr: Node? := null;
      ghost var i := 0;
      while temp != null
        invariant 0 <= i <= |ns| == |xs|
        invariant temp == (if i < |ns| then ns[i] else null)
        invariant curr == (if i == 0 then null else ns[i - 1])
        invariant forall j :: 0 <= j < i ==> Less(xs[j], s)
        modifies {}
        decreases |ns| - i
      {
        var c := Strcmp(temp.data, s);
        if c == 0 {
          InsertSortedMeets(xs, s, i);
          return;
        }
        if c > 0 {
          break;
        }
        curr := temp;
        temp := temp.next;
        i := i + 1;
      }
      InsertSortedSplit(xs, s, i);
      Link(node, curr, temp, i);
      DataOfSplice(ns, i, node);
      assert Contents() == xs[..i] + [s] + xs[i..];
      assert nodes[i] == node && nodes == old(nodes)[..i] + [node] + old(nodes)[i..];
    }

    /** The three linking cases of Insert: `node` goes between `curr` and
        `temp`, the nodes at indices i - 1 and i, and becomes the new head
        when there is no `curr`, the new tail when there is no `temp`. */
    method Link(node: Node, curr: Node?, temp: Node?, ghost i: int)
      requires Linked()
      requires node !in nodes && node.prev == null && node.next == null
      requires 0 <= i <= |nodes| && nodes != []
      requires curr == (if i == 0 then null else nodes[i - 1])
      requires temp == (if i < |nodes| then nodes[i] else null)
      modifies this, node, curr, temp
      ensures Linked()
      ensures nodes == old(nodes)[..i] + [node] + old(nodes)[i..]
      ensures head == (if i == 0 then node else old(head))
      ensures tail == (if i == |old(nodes)| then node else old(tail))
    {
      ghost var ns := nodes;
      if i > 0 {
        NextLinkedUnique(ns, i - 1);
      }
      if i < |ns| {
        NextLinkedUnique(ns, i);
      }
      if curr == null {
        node.next := temp;
        temp.prev := node;
        head := node;
      } else if temp == null {
        curr.next := node;
        node.prev := curr;
        tail := node;
      } else {
        curr.next := node;
        temp.prev := node;
        node.prev := curr;
        node.next := temp;
      }
      nodes := ns[..i] + [node] + ns[i..];
      SpliceNextLinked(ns, i, node);
      SplicePrevLinked(ns, i, node);
    }

    /** Member: walk forward from the head comparing each string; 1 when
        one is equal to `s`, 0 otherwise. */
    method Member(s: string) returns (r: int)
      requires ForwardChain()
      ensures r == 1 <==> s in Contents()
      ensures r == 0 <==> s !in Contents()
    {
      var current := head;
      ghost var i := 0;
      while current != null
        invariant 0 <= i <= |nodes|
        invariant current == (if i < |nodes| then nodes[i] else null)
        invariant forall j :: 0 <= j < i ==> Contents()[j] != s
        decreases |nodes| - i
      {
        if Strcmp(current.data, s) == 0 {
          assert Contents()[i] == s;
          return 1;
        }
        current := current.next;
        i := i + 1;
      }
      return 0;
    }

    /** The traversal of Print: the strings from the head to the end of the
        forward chain, in order. */
    method Traverse() returns (out: seq<string>)
      requires ForwardChain()
      ensures out == Contents()
    {
      var current := head;
      out := [];
      while current != null
        invariant 0 <= |out| <= |nodes|
        invariant out == Contents()[..|out|]
        invariant current == (if |out| < |nodes| then nodes[|out|] else null)
        decreases |nodes| - |out|
      {
        out := out + [current.data];
        current := current.next;
      }
    }

    /** Delete: scan forward for a string equal to `s`; if there is one,
        unlink its node (sole node, head, tail or interior) and release it. */
    method Delete(s: string)
      requires Valid()
      modifies this, nodes
      ensures Valid()
      ensures Contents() == Remove(old(Contents()), s)
      ensures s !in old(Contents()) ==> unchanged(this) && unchanged(nodes)
      ensures s in old(Contents()) ==>
        exists k :: 0 <= k < |old(nodes)| && old(nodes[k].data) == s && nodes == old(nodes)[..k] + old(nodes)[k + 1..]
      ensures head == if old(head) != null && old(head.data) == s then old(head.next) else old(head)
      ensures tail == if old(tail) != null && old(tail.data) == s then old(tail.prev) else old(tail)
    {
      ghost var ns := nodes;
      ghost var xs := Contents();
      var temp := head;
      var curr: Node? := null;
      ghost var i := 0;
      while temp != null
        invariant 0 <= i <= |ns|
        invariant temp == (if i < |ns| then ns[i] else null)
        invariant curr == (if i == 0 then null else ns[i - 1])
        invariant forall j :: 0 <= j < i ==> xs[j] != s
        decreases |ns| - i
      {
        if Strcmp(s, temp.data) == 0 {
          break;
        }
        curr := temp;
        temp := temp.next;
        i := i + 1;
      }
      if temp == null {
        assert s !in xs;
        assert ns != [] ==> tail.data == xs[|xs| - 1];
        RemoveAbsent(xs, s);
        return;
      }
      assert xs[i] == s && head.data == xs[0] && tail.data == xs[|xs| - 1];
      RemoveSplit(xs, s, i);
      Unlink(curr, temp, i);
      DataOfCut(ns, i);
      assert Contents() == xs[..i] + xs[i + 1..];
      assert old(nodes[i].data) == s && nodes == old(nodes)[..i] + old(nodes)[i + 1..];
    }

    /** The four unlinking cases of Delete: `temp`, the node at index i, with
        `curr` before it, leaves the chain; `head` moves past it when it was
        the first node and `tail` back past it when it was the last. */
    method Unlink(curr: Node?, temp: Node, ghost i: int)
      requires Linked()
      requires 0 <= i < |nodes|
      requires temp == nodes[i] && curr == (if i == 0 then null else nodes[i - 1])
      modifies this, curr, temp.next
      ensures Linked()
      ensures nodes == old(nodes)[..i] + old(nodes)[i + 1..]
      ensures head == (if i == 0 then old(temp.next) else old(head))
      ensures tail == (if i == |old(nodes)| - 1 then old(temp.prev) else old(tail))
    {
      ghost var ns := nodes;
      NextLinkedUnique(ns, i);
      if i > 0 {
        NextLinkedUnique(ns, i - 1);
      }
      if i + 1 < |ns| {
        NextLinkedUnique(ns, i + 1);
      }
      if head.next == null {
        head := null;
        tail := null;
      } else if curr == null {
        head := temp.next;
        head.prev := null;
      } else if temp.next == null {
        tail := temp.prev;
        tail.next := null;
      } else {
        curr.next := temp.next;
        temp.next.prev := curr;
      }
      nodes := ns[..i] + ns[i + 1..];
      CutNextLinked(ns, i);
      CutPrevLinked(ns, i);
    }

    /** ReverseMyList as written: every `next` is pointed back at the node
        before it and `head` at the old last node, but no `prev` and not
        `tail` is touched. A list whose links agreed in both directions, with
        two nodes or more, no longer does afterwards, and its new last node
        has a null `prev`. */
    method ReverseMyList()
      requires ForwardChain()
      modifies this, nodes
      ensures ForwardChain()
      ensures nodes == Reversed(old(nodes))
      ensures Contents() == Reversed(old(Contents()))
      ensures tail == old(tail)
      ensures forall n :: n in old(nodes) ==> n.prev == old(n.prev)
      ensures old(Linked()) && |nodes| >= 2 ==> !Linked() && nodes[|nodes| - 1].prev == null
    {
      ghost var ns := nodes;
      // Called for its postcondition: the chain's nodes are pairwise distinct.
      ghost var pos := Positions(ns);
      var prev: Node? := null;
      var current := head;
      ghost var i := 0;
      while current != null
        invariant 0 <= i <= |ns|
        invariant unchanged(this)
        invariant current == (if i < |ns| then ns[i] else null)
        invariant prev == (if i == 0 then null else ns[i - 1])
        invariant forall j {:trigger ns[j].next} :: 0 <= j < i ==> ns[j].next == (if j == 0 then null else ns[j - 1])
        invariant forall j {:trigger ns[j].next} :: i <= j < |ns| ==> ns[j].next == (if j + 1 < |ns| then ns[j + 1] else null)
        invariant forall n :: n in ns ==> n.prev == old(n.prev)
        decreases |ns| - i
      {
        var next := current.next;
        assert next == if i + 1 < |ns| then ns[i + 1] else null;
        current.next := prev;
        prev := current;
        current := next;
        i := i + 1;
      }
      head := prev;
      nodes := Reversed(ns);
      ReversedNextLinked(ns);
      DataOfReversed(ns);
    }

    /** The reversal a doubly linked list needs: swap `prev` and `next` on
        every node, then swap `head` and `tail`. The links stay consistent
        and a forward traversal reads the old contents backwards. */
    method Reverse()
      requires Linked()
      modifies this, nodes
      ensures Linked()
      ensures nodes == Reversed(old(nodes))
      ensures Contents() == Reversed(old(Contents()))
    {
      ghost var ns := nodes;
      // Called for its postcondition: the chain's nodes are pairwise distinct.
      ghost var pos := Positions(ns);
      var prev: Node? := null;
      var current := head;
      ghost var i := 0;
      while current != null
        invariant 0 <= i <= |ns|
        invariant unchanged(this)
        invariant current == (if i < |ns| then ns[i] else null)
        invariant prev == (if i == 0 then null else ns[i - 1])
        invariant forall j {:trigger ns[j].next} :: 0 <= j < i ==> ns[j].next == (if j == 0 then null else ns[j - 1])
        invariant forall j {:trigger ns[j].prev} :: 0 <= j < i ==> ns[j].prev == (if j + 1 < |ns| then ns[j + 1] else null)
        invariant forall j {:trigger ns[j].next} :: i <= j < |ns| ==> ns[j].next == (if j + 1 < |ns| then ns[j + 1] else null)
        invariant forall j {:trigger ns[j].prev} :: i <= j < |ns| ==> ns[j].prev == (if j == 0 then null else ns[j - 1])
        decreases |ns| - i
      {
        var next := current.next;
        assert next == if i + 1 < |ns| then ns[i + 1] else null;
        assert current.prev == if i == 0 then null else ns[i - 1];
        current.next, current.prev := current.prev, next;
        prev := current;
        current := next;
        i := i + 1;
      }
      tail := head;
      head := prev;
      nodes := Reversed(ns);
      ReversedNextLinked(ns);
      ReversedPrevLinked(ns);
      DataOfReversed(ns);
    }

    /** Free_list as written: walk the forward chain releasing every node.
        Releasing storage has no counterpart here, so the walk returns the
        nodes it released, in order. `head` and `tail` are never reset: on
        a non-empty list `head` still names the first released node. */
    method FreeList() returns (released: seq<Node>)
      requires ForwardChain()
      ensures released == nodes
      ensures released != [] ==> head == released[0]
    {
      var current := head;
      released := [];
      if current == null {
        return;
      }
      while current != null
        invariant 0 <= |released| <= |nodes|
        invariant released == nodes[..|released|]
        invariant current == (if |released| < |nodes| then nodes[|released|] else null)
        decreases |nodes| - |released|
      {
        var temp := current.next;
        released := released + [current];
        current := temp;
      }
    }

    /** Free_list with the reset it lacks: release every node, then make the
        list empty again. */
    method Clear() returns (released: seq<Node>)
      requires ForwardChain()
      modifies this
      ensures released == old(nodes)
      ensures Valid() && Contents() == [] && head == null && tail == null
    {
      released := FreeList();
      head := null;
      tail := null;
      nodes := [];
    }
  }
}
