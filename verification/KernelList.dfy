/** Kernel/Include/List.h: the intrusive circular doubly linked list.
    A list is a sentinel node whose ring passes through its members. */
module KernelList {
  import opened Lists

  class ListHead {
    var Next: ListHead?
    var Prev: ListHead?

    constructor ()
      ensures Next == null && Prev == null
    {
      Next, Prev := null, null;
    }
  }

  /** c, read cyclically, is the ring: every node points to its two neighbours. */
  ghost predicate Linked(c: seq<ListHead>)
    reads c
  {
    && NoDup(c)
    && (forall i {:trigger c[i].Next} :: 0 <= i < |c| - 1 ==> c[i].Next == c[i + 1])
    && (forall i {:trigger c[i].Prev} :: 1 <= i < |c| ==> c[i].Prev == c[i - 1])
    && (c != [] ==> c[|c| - 1].Next == c[0] && c[0].Prev == c[|c| - 1])
  }

  /** The list headed by the sentinel h has exactly the members s, first to last. */
  ghost predicate IsList(h: ListHead, s: seq<ListHead>)
    reads h, s
  {
    Linked([h] + s)
  }

  method ListInit(h: ListHead)
    modifies h
    ensures IsList(h, [])
  {
    h.Next := h;
    h.Prev := h;
  }

  method ListAdd(h: ListHead, node: ListHead, ghost s: seq<ListHead>)
    requires IsList(h, s) && node != h && node !in s
    modifies h, node, s
    ensures IsList(h, [node] + s)
  {
    assert ([h] + s)[0] == h;
    node.Next := h.Next;
    node.Prev := h;
    h.Next.Prev := node;
    h.Next := node;
    ghost var c, d := [h] + s, [h] + ([node] + s);
    assert d[0] == h && d[1] == node && forall i :: 2 <= i < |d| ==> d[i] == c[i - 1];
  }

  method ListAddTail(h: ListHead, node: ListHead, ghost s: seq<ListHead>)
    requires IsList(h, s) && node != h && node !in s
    modifies h, node, s
    ensures IsList(h, s + [node])
  {
    assert ([h] + s)[0] == h;
    node.Next := h;
    node.Prev := h.Prev;
    h.Prev.Next := node;
    h.Prev := node;
    ghost var c, d := [h] + s, [h] + (s + [node]);
    assert d[|c|] == node && forall i :: 0 <= i < |c| ==> d[i] == c[i];
  }

  lemma SpliceAfterSentinel<T>(h: T, s: seq<T>, k: nat)
    requires k < |s|
    ensures ([h] + s)[k + 1] == s[k]
    ensures ([h] + s)[..k + 1] + ([h] + s)[k + 2..] == [h] + (s[..k] + s[k + 1..])
  {
    assert ([h] + s)[..k + 1] == [h] + s[..k] && ([h] + s)[k + 2..] == s[k + 1..];
  }

  /** Unlinks the node at position k of the ring. */
  method UnlinkAt(node: ListHead, ghost c: seq<ListHead>, ghost k: nat)
    requires Linked(c) && 1 <= k < |c| && c[k] == node
    modifies c
    ensures Linked(c[..k] + c[k + 1..])
    ensures node.Next == null && node.Prev == null
  {
    ghost var n := if k + 1 == |c| then 0 else k + 1;
    ghost var d := c[..k] + c[k + 1..];
    assert node.Prev == c[k - 1] && node.Next == c[n];
    node.Prev.Next := node.Next;
    node.Next.Prev := node.Prev;
    node.Next := null;
    node.Prev := null;
    assert |d| == |c| - 1 && d[0] == c[0];
    assert d[|d| - 1] == if k + 1 == |c| then c[k - 1] else c[|c| - 1];
    forall i | 0 <= i < |d| - 1
      ensures d[i].Next == d[i + 1]
    {
      var j := if i < k then i else i + 1;
      assert d[i] == c[j] && d[i + 1] == if i + 1 < k then c[i + 1] else c[i + 2];
    }
    forall i | 1 <= i < |d|
      ensures d[i].Prev == d[i - 1]
    {
      var j := if i < k then i else i + 1;
      assert d[i] == c[j] && d[i - 1] == if i - 1 < k then c[i - 1] else c[i];
    }
    forall i, j | 0 <= i < j < |d|
      ensures d[i] != d[j]
    {
      assert d[i] == (if i < k then c[i] else c[i + 1]) && d[j] == (if j < k then c[j] else c[j + 1]);
    }
  }

  /** Unlinks a member wherever it is; the other members keep their order. */
  method ListDel(node: ListHead, ghost h: ListHead, ghost s: seq<ListHead>)
    requires IsList(h, s) && node in s
    modifies h, s
    ensures IsList(h, Without(s, node))
    ensures node.Next == null && node.Prev == null
  {
    SpliceAfterSentinel(h, s, IndexOf(s, node));
    UnlinkAt(node, [h] + s, IndexOf(s, node) + 1);
  }

  method ListEmpty(h: ListHead, ghost s: seq<ListHead>) returns (r: bool)
    requires IsList(h, s)
    ensures r <==> s == []
  {
    ghost var c := [h] + s;
    assert c[0] == h;
    if s != [] { assert c[1] == s[0]; }
    r := h.Next == h;
  }

  /** The walk Pos = Head->Prev, Pos->Prev, ... visits the members last to first and stops at the sentinel. */
  method WalkBackward(h: ListHead, ghost s: seq<ListHead>) returns (visited: seq<ListHead>)
    requires IsList(h, s)
    ensures |visited| == |s| && forall k :: 0 <= k < |s| ==> visited[k] == s[|s| - 1 - k]
  {
    ghost var c := [h] + s;
    assert c[0] == h;
    visited := [];
    var pos := h.Prev;
    while pos != h
      invariant |visited| <= |s|
      invariant pos == c[|s| - |visited|]
      invariant forall k :: 0 <= k < |visited| ==> visited[k] == s[|s| - 1 - k]
      decreases |s| - |visited|
    {
      visited := visited + [pos];
      pos := pos.Prev;
    }
  }
}
