/**
 * The doubly linked list visualiser's committed state: the node values from head to
 * tail. Besides the ends it inserts next to a node given by index and deletes by
 * index or by value; each handler commits at most one change and returns the trace
 * it animates. An index is the parsed field, `None` where parsing gives NaN.
 */
module DoublyLinkedListVisualization {
  import opened Prelude
  import opened Text
  import ArrayOperations
  import opened ListTraces

  /**
   * `onInsertHead`'s trace: the new node is made off the list, then linked in as cell 0,
   * where the last frame reports `v` inserted at the head.
   */
  function InsertHeadTrace(v: string): (r: seq<ListFrame>)
    ensures |r| == 4 && Stepwise(r)
    ensures r[0].cells == [] && (forall k :: 1 <= k < 4 ==> r[k].cells == [0]) && r[3].msg == InsertedAtHead(v)
  {
    [F(1, [], CreatingNode), F(2, [0], SettingPrevNext), F(3, [0], UpdatingHead), F(4, [0], InsertedAtHead(v))]
  }

  /**
   * `onInsertAfter`'s trace: node `idx` is found, then the new node's neighbours `idx`
   * and `idx + 1` stay highlighted until `v` is reported inserted after `idx`.
   */
  function InsertAfterTrace(v: string, idx: int): (r: seq<ListFrame>)
    ensures |r| == 4 && Stepwise(r) && r[0].cells == [idx]
    ensures (forall k :: 1 <= k < 4 ==> r[k].cells == [idx, idx + 1]) && r[3].msg == InsertedAfter(v, idx)
  {
    [F(1, [idx], FindingIndex(idx)), F(2, [idx, idx + 1], SettingNewPointers),
     F(3, [idx, idx + 1], UpdatingLinks), F(4, [idx, idx + 1], InsertedAfter(v, idx))]
  }

  /**
   * `onInsertBefore`'s trace: node `idx` is found, then the new node's neighbours
   * `idx - 1` and `idx` stay highlighted until `v` is reported inserted before `idx`.
   */
  function InsertBeforeTrace(v: string, idx: int): (r: seq<ListFrame>)
    ensures |r| == 4 && Stepwise(r) && r[0].cells == [idx]
    ensures (forall k :: 1 <= k < 4 ==> r[k].cells == [idx - 1, idx]) && r[3].msg == InsertedBefore(v, idx)
  {
    [F(1, [idx], FindingIndex(idx)), F(2, [idx - 1, idx], SettingNewPointers),
     F(3, [idx - 1, idx], UpdatingLinks), F(4, [idx - 1, idx], InsertedBefore(v, idx))]
  }

  /**
   * `onDeleteHead`'s trace on a list whose head is `v`: cell 0 is checked and named as
   * removed, then the head pointer moves on to cell 1.
   */
  function DeleteHeadTrace(v: string): (r: seq<ListFrame>)
    ensures |r| == 3 && Stepwise(r)
    ensures r[0].cells == r[1].cells == [0] && r[1].msg == RemovingHead(v) && r[2] == F(3, [1], UpdatingHead)
  {
    [F(1, [0], CheckingEmpty), F(2, [0], RemovingHead(v)), F(3, [1], UpdatingHead)]
  }

  /**
   * `onDeleteTail`'s trace on a list whose tail `v` is at `t`: cell `t` is checked and
   * named as removed, then the tail pointer moves back to cell `t - 1`.
   */
  function DeleteTailTrace(t: int, v: string): (r: seq<ListFrame>)
    ensures |r| == 3 && Stepwise(r)
    ensures r[0].cells == r[1].cells == [t] && r[1].msg == RemovingTail(v) && r[2] == F(3, [t - 1], UpdatingTail)
  {
    [F(1, [t], CheckingEmpty), F(2, [t], RemovingTail(v)), F(3, [t - 1], UpdatingTail)]
  }

  /**
   * The trace of removing the node `v` at `idx` once `first` has located it: its
   * two neighbours are relinked, it goes, and the deletion completes.
   */
  function RemoveTrace(first: ListFrame, idx: int, v: string): (r: seq<ListFrame>)
    ensures |r| == 4 && r[0] == first && r[3] == F(4, [], DeletionComplete)
    ensures r[1].cells == r[2].cells == [idx - 1, idx, idx + 1] && r[2].msg == RemovingNode(v)
  {
    [first, F(2, [idx - 1, idx, idx + 1], UpdatingNeighbours),
     F(3, [idx - 1, idx, idx + 1], RemovingNode(v)), F(4, [], DeletionComplete)]
  }

  /**
   * `onDeleteByValue`'s trace when no node equals `tgt`: the search, then "not found"
   * on pseudocode line 3, with no cell highlighted.
   */
  function MissTrace(tgt: string): (r: seq<ListFrame>)
    ensures |r| == 2 && r[0] == F(1, [], SearchingFor(tgt)) && r[1] == F(3, [], ValueNotFound(tgt))
  {
    [F(1, [], SearchingFor(tgt)), F(3, [], ValueNotFound(tgt))]
  }

  /** An index of a node of the list: parsed and in [0, n). */
  predicate ValidIndex(idx: Option<int>, n: int)
  {
    idx.Some? && 0 <= idx.value < n
  }

  class DoublyLinkedListView {
    /** The node values, head first. */
    var nodes: seq<string>

    constructor()
      ensures nodes == []
    {
      nodes := [];
    }

    /** `onInsertHead`: the trimmed value becomes the new head; a blank one is refused. */
    method InsertHead(raw: string) returns (trace: Option<seq<ListFrame>>)
      modifies this
      ensures var v := Strip(raw);
        if v == [] then trace == None && nodes == old(nodes)
        else trace == Some(InsertHeadTrace(v)) && nodes == [v] + old(nodes)
    {
      var v := Strip(raw);
      if v == [] {
        return None;
      }
      nodes := [v] + nodes;
      trace := Some(InsertHeadTrace(v));
    }

    /** `onInsertTail`: the trimmed value becomes the new tail; a blank one is refused. */
    method InsertTail(raw: string) returns (trace: Option<seq<ListFrame>>)
      modifies this
      ensures var v := Strip(raw);
        if v == [] then trace == None && nodes == old(nodes)
        else trace == Some(InsertTailTrace(|old(nodes)|)) && nodes == old(nodes) + [v]
    {
      var v := Strip(raw);
      if v == [] {
        return None;
      }
      trace := Some(InsertTailTrace(|nodes|));
      nodes := nodes + [v];
    }

    /**
     * `onInsertAfter`: a blank value is refused; on an empty list the value goes in at
     * the head whatever the index; an index outside the list is refused; otherwise the
     * value lands right after node `idx`.
     */
    method InsertAfter(raw: string, idx: Option<int>) returns (trace: Option<seq<ListFrame>>)
      modifies this
      ensures var v := Strip(raw);
        if v == [] then trace == None && nodes == old(nodes)
        else if old(nodes) == [] then trace == Some(InsertHeadTrace(v)) && nodes == [v]
        else if !ValidIndex(idx, |old(nodes)|) then trace == None && nodes == old(nodes)
        else trace == Some(InsertAfterTrace(v, idx.value)) && nodes == InsertAt(old(nodes), idx.value + 1, v)
    {
      var v := Strip(raw);
      if v == [] {
        return None;
      }
      if nodes == [] {
        trace := InsertHead(raw);
        return;
      }
      if !ValidIndex(idx, |nodes|) {
        return None;
      }
      trace := Some(InsertAfterTrace(v, idx.value));
      nodes := InsertAt(nodes, idx.value + 1, v);
    }

    /**
     * `onInsertBefore`: as `InsertAfter`, but the value lands at `idx`, in front of
     * the node that was there.
     */
    method InsertBefore(raw: string, idx: Option<int>) returns (trace: Option<seq<ListFrame>>)
      modifies this
      ensures var v := Strip(raw);
        if v == [] then trace == None && nodes == old(nodes)
        else if old(nodes) == [] then trace == Some(InsertHeadTrace(v)) && nodes == [v]
        else if !ValidIndex(idx, |old(nodes)|) then trace == None && nodes == old(nodes)
        else trace == Some(InsertBeforeTrace(v, idx.value)) && nodes == InsertAt(old(nodes), idx.value, v)
    {
      var v := Strip(raw);
      if v == [] {
        return None;
      }
      if nodes == [] {
        trace := InsertHead(raw);
        return;
      }
      if !ValidIndex(idx, |nodes|) {
        return None;
      }
      trace := Some(InsertBeforeTrace(v, idx.value));
      nodes := InsertAt(nodes, idx.value, v);
    }

    /** `onDeleteHead`: nothing on an empty list; otherwise the head goes. */
    method DeleteHead() returns (trace: Option<seq<ListFrame>>)
      modifies this
      ensures old(nodes) == [] ==> trace == None && nodes == []
      ensures old(nodes) != [] ==> trace == Some(DeleteHeadTrace(old(nodes)[0])) && nodes == old(nodes)[1..]
    {
      if nodes == [] {
        return None;
      }
      trace := Some(DeleteHeadTrace(nodes[0]));
      nodes := nodes[1..];
    }

    /** `onDeleteTail`: nothing on an empty list; otherwise the tail goes. */
    method DeleteTail() returns (trace: Option<seq<ListFrame>>)
      modifies this
      ensures old(nodes) == [] ==> trace == None && nodes == []
      ensures old(nodes) != [] ==>
        trace == Some(DeleteTailTrace(|old(nodes)| - 1, old(nodes)[|old(nodes)| - 1])) &&
        nodes == old(nodes)[..|old(nodes)| - 1]
    {
      if nodes == [] {
        return None;
      }
      trace := Some(DeleteTailTrace(|nodes| - 1, nodes[|nodes| - 1]));
      nodes := nodes[..|nodes| - 1];
    }

    /**
     * `onDeleteAtIndex`: nothing on an empty list or for an index outside it;
     * otherwise the node at `idx` goes.
     */
    method DeleteAtIndex(idx: Option<int>) returns (trace: Option<seq<ListFrame>>)
      modifies this
      ensures !ValidIndex(idx, |old(nodes)|) ==> trace == None && nodes == old(nodes)
      ensures ValidIndex(idx, |old(nodes)|) ==>
        var i := idx.value;
        trace == Some(RemoveTrace(F(1, [i], FindingIndex(i)), i, old(nodes)[i])) &&
        nodes == RemoveAt(old(nodes), i)
    {
      if nodes == [] || !ValidIndex(idx, |nodes|) {
        return None;
      }
      var i := idx.value;
      trace := Some(RemoveTrace(F(1, [i], FindingIndex(i)), i, nodes[i]));
      nodes := RemoveAt(nodes, i);
    }

    /**
     * `onDeleteByValue`: a blank value is refused; a value no node equals leaves the
     * list alone with the "not found" trace; otherwise the first node equal to it goes,
     * so the list loses exactly one copy of the value.
     */
    method DeleteByValue(raw: string) returns (trace: Option<seq<ListFrame>>)
      modifies this
      ensures var tgt := Strip(raw);
        tgt == [] ==> trace == None && nodes == old(nodes)
      ensures var tgt := Strip(raw);
        tgt != [] && tgt !in old(nodes) ==> trace == Some(MissTrace(tgt)) && nodes == old(nodes)
      ensures var tgt := Strip(raw);
        tgt != [] && tgt in old(nodes) ==>
          multiset(nodes) == multiset(old(nodes)) - multiset{tgt} &&
          exists i :: 0 <= i < |old(nodes)| && old(nodes)[i] == tgt &&
            (forall k :: 0 <= k < i ==> old(nodes)[k] != tgt) &&
            nodes == RemoveAt(old(nodes), i) &&
            trace == Some(RemoveTrace(F(1, [i], FoundValueAt(tgt, i)), i, tgt))
    {
      var tgt := Strip(raw);
      if tgt == [] {
        return None;
      }
      match ArrayOperations.FirstIndex(nodes, tgt)
      case None =>
        trace := Some(MissTrace(tgt));
      case Some(i) =>
        trace := Some(RemoveTrace(F(1, [i], FoundValueAt(tgt, i)), i, tgt));
        nodes := RemoveAt(nodes, i);
    }

    /**
     * `onSearch`: a blank target is refused; otherwise the search trace for the
     * trimmed target, and whether a node equals it. The list is not changed.
     */
    method SearchFor(raw: string) returns (trace: Option<seq<ListFrame>>, found: bool)
      ensures var tgt := Strip(raw);
        if tgt == [] then trace == None && !found
        else trace == Some(SearchTrace(nodes, tgt)) && (found <==> tgt in nodes)
    {
      var tgt := Strip(raw);
      if tgt == [] {
        return None, false;
      }
      var t;
      t, found := Search(nodes, tgt);
      trace := Some(t);
    }

    /** `onTraverse`: nothing on an empty list; otherwise a visit per node. */
    function Traverse(): (trace: Option<seq<ListFrame>>)
      reads this
      ensures trace.None? <==> nodes == []
      ensures trace.Some? ==>
        |trace.value| == |nodes| + 1 &&
        forall i :: 0 <= i < |nodes| ==> trace.value[i].msg == Visiting(i, nodes[i])
    {
      if nodes == [] then None else Some(TraverseTrace(nodes))
    }

    /** `onSeed`: the list becomes A, B, C, D, one frame per node. */
    method Seed() returns (trace: seq<ListFrame>)
      modifies this
      ensures nodes == SeedValues && trace == SeedTrace(SeedValues)
    {
      nodes := SeedValues;
      trace := SeedTrace(SeedValues);
    }

    /** `onClear`. */
    method Clear()
      modifies this
      ensures nodes == []
    {
      nodes := [];
    }
  }

  /** Inserting after node `idx` and then deleting at `idx + 1` gives the list back. */
  method InsertAfterThenDelete(l: DoublyLinkedListView, v: string, idx: int)
    requires Strip(v) == v && v != [] && 0 <= idx < |l.nodes|
    modifies l
    ensures l.nodes == old(l.nodes)
  {
    var s := l.nodes;
    var j := idx + 1;
    var _ := l.InsertAfter(v, Some(idx));
    assert l.nodes == InsertAt(s, j, v);
    RemoveUndoesInsert(s, j, v);
    var _ := l.DeleteAtIndex(Some(j));
  }

  /** Inserting before node `idx` and then deleting at `idx` gives the list back. */
  method InsertBeforeThenDelete(l: DoublyLinkedListView, v: string, idx: int)
    requires Strip(v) == v && v != [] && 0 <= idx < |l.nodes|
    modifies l
    ensures l.nodes == old(l.nodes)
  {
    var s := l.nodes;
    var _ := l.InsertBefore(v, Some(idx));
    assert l.nodes == InsertAt(s, idx, v);
    RemoveUndoesInsert(s, idx, v);
    var _ := l.DeleteAtIndex(Some(idx));
  }

  /** Deleting by value the value just put at the head removes that head again. */
  method InsertHeadThenDeleteByValue(l: DoublyLinkedListView, v: string)
    requires Strip(v) == v && v != []
    modifies l
    ensures l.nodes == old(l.nodes)
  {
    var _ := l.InsertHead(v);
    assert ArrayOperations.FirstIndex(l.nodes, v) == Some(0);
    var _ := l.DeleteByValue(v);
  }
}
