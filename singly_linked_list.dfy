/**
 * The singly linked list visualiser's committed state: the node values from head to
 * tail. Each handler refuses a blank value, commits at most one change and returns
 * the trace it animates.
 */
module SinglyLinkedListVisualization {
  import opened Prelude
  import opened Text
  import opened ListTraces

  /**
   * `onInsertHead`'s trace: the new node is made off the list, then becomes cell 0,
   * where the last frame reports `v` inserted at the head.
   */
  function InsertHeadTrace(v: string): (r: seq<ListFrame>)
    ensures |r| == 3 && Stepwise(r)
    ensures r[0].cells == [] && r[1].cells == r[2].cells == [0] && r[2].msg == InsertedAtHead(v)
  {
    [F(1, [], CreatingNode), F(2, [0], SettingHead), F(3, [0], InsertedAtHead(v))]
  }

  /**
   * `onDeleteHead`'s trace on a list whose head is `v`: cell 0 is checked and named as
   * removed, then the highlight moves to cell 1, the new head.
   */
  function DeleteHeadTrace(v: string): (r: seq<ListFrame>)
    ensures |r| == 3 && Stepwise(r)
    ensures r[0].cells == r[1].cells == [0] && r[1].msg == RemovingHead(v) && r[2].cells == [1]
  {
    [F(1, [0], CheckingEmpty), F(2, [0], RemovingHead(v)), F(3, [1], MovingHead)]
  }

  /**
   * `onDeleteTail`'s trace on a list of `n` nodes whose tail is `v`: a longer list
   * walks to the second-last node before the tail goes.
   */
  function DeleteTailTrace(n: nat, v: string): (r: seq<ListFrame>)
    requires n > 0
    ensures |r| == (if n > 1 then 3 else 2)
    ensures r[0] == F(1, [n - 1], CheckingEmpty) && r[|r| - 1].cells == [n - 1]
    ensures n > 1 <==> r[1].msg == TraversingToSecondLast
  {
    [F(1, [n - 1], CheckingEmpty)] +
      if n > 1 then [F(2, [n - 2], TraversingToSecondLast), F(3, [n - 1], RemovingTail(v))]
      else [F(3, [0], RemovingSingle(v))]
  }

  class SinglyLinkedListView {
    /** The node values, head first. */
    var nodes: seq<string>

    constructor()
      ensures nodes == []
    {
      nodes := [];
    }

    /** `onInsertHead`: the trimmed value becomes the new head; a blank one is refused. */
    method InsertHead(raw: string) returns (trace: Option<seq<ListFrame>>)
      modifies this
      ensures var v := Strip(raw);
        if v == [] then trace == None && nodes == old(nodes)
        else trace == Some(InsertHeadTrace(v)) && nodes == [v] + old(nodes)
    {
      var v := Strip(raw);
      if v == [] {
        return None;
      }
      nodes := [v] + nodes;
      trace := Some(InsertHeadTrace(v));
    }

    /** `onInsertTail`: the trimmed value becomes the new tail; a blank one is refused. */
    method InsertTail(raw: string) returns (trace: Option<seq<ListFrame>>)
      modifies this
      ensures var v := Strip(raw);
        if v == [] then trace == None && nodes == old(nodes)
        else trace == Some(InsertTailTrace(|old(nodes)|)) && nodes == old(nodes) + [v]
    {
      var v := Strip(raw);
      if v == [] {
        return None;
      }
      trace := Some(InsertTailTrace(|nodes|));
      nodes := nodes + [v];
    }

    /** `onDeleteHead`: nothing on an empty list; otherwise the head goes. */
    method DeleteHead() returns (trace: Option<seq<ListFrame>>)
      modifies this
      ensures old(nodes) == [] ==> trace == None && nodes == []
      ensures old(nodes) != [] ==> trace == Some(DeleteHeadTrace(old(nodes)[0])) && nodes == old(nodes)[1..]
    {
      if nodes == [] {
        return None;
      }
      trace := Some(DeleteHeadTrace(nodes[0]));
      nodes := nodes[1..];
    }

    /** `onDeleteTail`: nothing on an empty list; otherwise the tail goes. */
    method DeleteTail() returns (trace: Option<seq<ListFrame>>)
      modifies this
      ensures old(nodes) == [] ==> trace == None && nodes == []
      ensures old(nodes) != [] ==>
        trace == Some(DeleteTailTrace(|old(nodes)|, old(nodes)[|old(nodes)| - 1])) &&
        nodes == old(nodes)[..|old(nodes)| - 1]
    {
      if nodes == [] {
        return None;
      }
      trace := Some(DeleteTailTrace(|nodes|, nodes[|nodes| - 1]));
      nodes := nodes[..|nodes| - 1];
    }

    /**
     * `onSearch`: a blank target is refused; otherwise the search trace for the
     * trimmed target, and whether a node equals it. The list is not changed.
     */
    method SearchFor(raw: string) returns (trace: Option<seq<ListFrame>>, found: bool)
      ensures var tgt := Strip(raw);
        if tgt == [] then trace == None && !found
        else trace == Some(SearchTrace(nodes, tgt)) && (found <==> tgt in nodes)
    {
      var tgt := Strip(raw);
      if tgt == [] {
        return None, false;
      }
      var t;
      t, found := Search(nodes, tgt);
      trace := Some(t);
    }

    /** `onTraverse`: nothing on an empty list; otherwise a visit per node. */
    function Traverse(): (trace: Option<seq<ListFrame>>)
      reads this
      ensures trace.None? <==> nodes == []
      ensures trace.Some? ==>
        |trace.value| == |nodes| + 1 &&
        forall i :: 0 <= i < |nodes| ==> trace.value[i].msg == Visiting(i, nodes[i])
    {
      if nodes == [] then None else Some(TraverseTrace(nodes))
    }

    /** `onSeed`: the list becomes A, B, C, D, one frame per node. */
    method Seed() returns (trace: seq<ListFrame>)
      modifies this
      ensures nodes == SeedValues && trace == SeedTrace(SeedValues)
    {
      nodes := SeedValues;
      trace := SeedTrace(SeedValues);
    }

    /** `onClear`. */
    method Clear()
      modifies this
      ensures nodes == []
    {
      nodes := [];
    }
  }

  /** Inserting at the head and then deleting the head gives the list back. */
  method InsertThenDeleteHead(l: SinglyLinkedListView, v: string)
    requires Strip(v) == v && v != []
    modifies l
    ensures l.nodes == old(l.nodes)
  {
    var _ := l.InsertHead(v);
    var _ := l.DeleteHead();
  }

  /** Inserting at the tail and then deleting the tail gives the list back. */
  method InsertThenDeleteTail(l: SinglyLinkedListView, v: string)
    requires Strip(v) == v && v != []
    modifies l
    ensures l.nodes == old(l.nodes)
  {
    var _ := l.InsertTail(v);
    var _ := l.DeleteTail();
  }

  /** A value just inserted (at either end) is found by the next search. */
  method InsertThenSearch(l: SinglyLinkedListView, v: string, atHead: bool) returns (found: bool)
    requires Strip(v) == v && v != []
    modifies l
    ensures found
  {
    if atHead {
      var _ := l.InsertHead(v);
    } else {
      var _ := l.InsertTail(v);
    }
    var trace;
    trace, found := l.SearchFor(v);
  }
}
