/**
 * Two command sequences of the interactive driver that leave the list in a
 * state the next command mishandles, built from the as-written operations.
 */
module Findings {
  import opened DoublyLinkedList

  /** Insert "a" and "b", then ReverseMyList: the forward chain reads
      "b", "a", but the node that is now last, the one holding "a", still
      has a null `prev`, and `tail` still names the node holding "b". A
      Delete of "a" then takes that null `prev` as the new tail and stores
      through it. */
  method ReverseThenDelete() returns (l: List, last: Node?)
    ensures l.ForwardChain() && l.Contents() == ["b", "a"]
    ensures last != null && last.data == "a" && last.next == null && last.prev == null
    ensures l.head.next == last && last == l.nodes[|l.nodes| - 1]
    ensures l.tail != last
  {
    l := new List();
    l.Insert("a");
    assert l.Contents() == ["a"];
    l.Insert("b");
    assert l.Contents() == ["a", "b"];
    l.ReverseMyList();
    last := l.head.next;
  }

  /** Insert "a", then Free_list: the node is released, yet `head` still
      names it, so a following Print or Member walks from a released node. */
  method FreeThenPrint() returns (l: List, released: seq<Node>)
    ensures |released| == 1 && released[0].data == "a"
    ensures l.head == released[0]
  {
    l := new List();
    l.Insert("a");
    assert l.Contents() == ["a"] && l.Contents()[0] == l.nodes[0].data;
    released := l.FreeList();
  }

  /** The first sequence with the corrected Reverse: the links agree in both
      directions, and the last node, the one Delete would unlink as the tail,
      has the node before it as its `prev`. */
  method ReverseThenDeleteCorrected() returns (l: List, last: Node?)
    ensures l.Linked() && l.Contents() == ["b", "a"]
    ensures last == l.tail && last != null && last.data == "a" && last.prev != null
  {
    l := new List();
    l.Insert("a");
    assert l.Contents() == ["a"];
    l.Insert("b");
    assert l.Contents() == ["a", "b"];
    l.Reverse();
    last := l.tail;
  }

  /** The second sequence with Clear: the list is empty afterwards, so a
      following Print or Member visits nothing. */
  method FreeThenPrintCorrected() returns (l: List, released: seq<Node>)
    ensures |released| == 1 && released[0].data == "a"
    ensures l.head == null && l.Contents() == []
  {
    l := new List();
    l.Insert("a");
    assert l.Contents() == ["a"] && l.Contents()[0] == l.nodes[0].data;
    released := l.Clear();
  }
}
