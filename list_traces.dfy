/**
 * What the two linked-list visualisers share: the frames their traces are made of,
 * the splices that insert and remove one node by position, and the traces that
 * search, traverse and seed a list the same way in both.
 */
module ListTraces {
  import opened Prelude
  import opened ArrayOperations
  import opened DataStructureOperations

  /** The status line of a frame, as data rather than text. */
  datatype ListMsg =
    | CreatingNode
    | SettingHead                       // singly linked: "Setting new node as head"
    | SettingPrevNext                   // doubly linked: "Setting prev/next pointers"
    | UpdatingHead
    | InsertedAtHead(v: string)
    | EmptySetAsHead
    | TraversingToLast
    | LinkingNewNode
    | CheckingEmpty
    | RemovingHead(v: string)
    | MovingHead                        // singly linked: "Moving head to next node"
    | TraversingToSecondLast
    | RemovingTail(v: string)
    | RemovingSingle(v: string)
    | UpdatingTail
    | FindingIndex(idx: int)
    | SettingNewPointers
    | UpdatingLinks
    | InsertedAfter(v: string, idx: int)
    | InsertedBefore(v: string, idx: int)
    | UpdatingNeighbours
    | RemovingNode(v: string)
    | DeletionComplete
    | SearchingFor(v: string)
    | FoundValueAt(v: string, idx: int)
    | ValueNotFound(v: string)
    | Checking(i: int, v: string)
    | FoundAt(v: string, i: int)
    | NotInList(v: string)
    | Visiting(i: int, v: string)
    | TraversalComplete
    | SeedNode(i: int, v: string)

  type ListFrame = Frame<ListMsg>

  /** `buildTrace`'s step `[pc, cells, msg]`: every pc used is non-zero, so it becomes `[pc]`. */
  function F(pc: int, cells: seq<int>, msg: ListMsg): ListFrame
  {
    Frame(msg, cells, [pc])
  }

  const SeedValues: seq<string> := ["A", "B", "C", "D"]

  /** `splice(i, 0, v)` for a position in [0, |s|]: `v` lands at `i`, the rest shift right. */
  function InsertAt(s: seq<string>, i: int, v: string): (r: seq<string>)
    requires 0 <= i <= |s|
    ensures |r| == |s| + 1 && r[i] == v
    ensures forall k {:trigger r[k]} :: 0 <= k < i ==> r[k] == s[k]
    ensures forall k :: i < k < |r| ==> r[k] == s[k - 1]
    ensures multiset(r) == multiset(s) + multiset{v}
  {
    assert s == s[..i] + s[i..];
    s[..i] + [v] + s[i..]
  }

  /** `splice(i, 1)` for an index of `s`: the node at `i` goes, the rest shift left. */
  function RemoveAt(s: seq<string>, i: int): (r: seq<string>)
    requires 0 <= i < |s|
    ensures |r| == |s| - 1
    ensures forall k {:trigger r[k]} :: 0 <= k < i ==> r[k] == s[k]
    ensures forall k :: i <= k < |r| ==> r[k] == s[k + 1]
    ensures multiset(r) == multiset(s) - multiset{s[i]}
  {
    assert s == s[..i] + [s[i]] + s[i + 1..];
    s[..i] + s[i + 1..]
  }

  /** Removing what was just inserted at the same position gives the list back. */
  lemma RemoveUndoesInsert(s: seq<string>, i: int, v: string)
    requires 0 <= i <= |s|
    ensures RemoveAt(InsertAt(s, i, v), i) == s
  {
    var r := RemoveAt(InsertAt(s, i, v), i);
    assert forall k :: 0 <= k < |s| ==> r[k] == s[k];
  }

  /** Inserting back what was removed at the same position gives the list back. */
  lemma InsertUndoesRemove(s: seq<string>, i: int)
    requires 0 <= i < |s|
    ensures InsertAt(RemoveAt(s, i), i, s[i]) == s
  {
    var r := InsertAt(RemoveAt(s, i), i, s[i]);
    assert forall k :: 0 <= k < |s| ==> r[k] == s[k];
  }

  /** The pseudocode line advances by one with every frame, from line 1. */
  predicate Stepwise(t: seq<ListFrame>)
  {
    forall k :: 0 <= k < |t| ==> t[k].pc == [k + 1]
  }

  /** The frames "Checking node i" for the first `n` nodes. */
  function Checks(nodes: seq<string>, n: nat): (r: seq<ListFrame>)
    requires n <= |nodes|
    ensures |r| == n && forall i :: 0 <= i < n ==> r[i] == F(1, [i], Checking(i, nodes[i]))
  {
    seq(n, i requires 0 <= i < n => F(1, [i], Checking(i, nodes[i])))
  }

  /**
   * `onSearch`'s trace: a check of every node up to the first equal one and "Found"
   * there, or a check of every node and "not found". It ends in "Found" exactly when
   * the target is in the list, and then at its first position, after checking no node
   * beyond it.
   */
  function SearchTrace(nodes: seq<string>, tgt: string): (t: seq<ListFrame>)
    ensures t != [] && (t[|t| - 1].msg.FoundAt? <==> tgt in nodes)
    ensures tgt in nodes ==>
      exists i :: 0 <= i < |nodes| && nodes[i] == tgt && t[|t| - 1].msg == FoundAt(tgt, i) && |t| == i + 2 &&
        forall k :: 0 <= k < i ==> nodes[k] != tgt
    ensures tgt !in nodes ==> |t| == |nodes| + 1 && t[|nodes|].msg == NotInList(tgt)
  {
    match FirstIndex(nodes, tgt)
    case Some(i) => Checks(nodes, i + 1) + [F(2, [i], FoundAt(tgt, i))]
    case None => Checks(nodes, |nodes|) + [F(3, [], NotInList(tgt))]
  }

  /**
   * `onSearch`'s loop: check node after node and stop at the first equal one, then
   * "not found" when none was.
   */
  method Search(nodes: seq<string>, tgt: string) returns (t: seq<ListFrame>, found: bool)
    ensures t == SearchTrace(nodes, tgt)
    ensures found <==> tgt in nodes
  {
    t := [];
    found := false;
    var i := 0;
    while i < |nodes|
      invariant 0 <= i <= |nodes|
      invariant t == Checks(nodes, i)
      invariant forall k :: 0 <= k < i ==> nodes[k] != tgt
    {
      t := t + [F(1, [i], Checking(i, nodes[i]))];
      if nodes[i] == tgt {
        t := t + [F(2, [i], FoundAt(tgt, i))];
        found := true;
        assert t[..i + 1] == Checks(nodes, i + 1);
        return;
      }
      i := i + 1;
    }
    t := t + [F(3, [], NotInList(tgt))];
  }

  /** `onTraverse`'s trace on a non-empty list: a visit per node, then "complete". */
  function TraverseTrace(nodes: seq<string>): (r: seq<ListFrame>)
    ensures |r| == |nodes| + 1 && r[|nodes|] == F(2, [], TraversalComplete)
    ensures forall i :: 0 <= i < |nodes| ==> r[i] == F(1, [i], Visiting(i, nodes[i]))
  {
    seq(|nodes|, i requires 0 <= i < |nodes| => F(1, [i], Visiting(i, nodes[i]))) + [F(2, [], TraversalComplete)]
  }

  /** `onSeed`'s trace: one frame naming each seeded node. */
  function SeedTrace(nodes: seq<string>): (r: seq<ListFrame>)
    ensures |r| == |nodes| && forall i :: 0 <= i < |nodes| ==> r[i] == F(1, [i], SeedNode(i, nodes[i]))
  {
    seq(|nodes|, i requires 0 <= i < |nodes| => F(1, [i], SeedNode(i, nodes[i])))
  }

  /**
   * `onInsertTail`'s trace for a list that had `n` nodes: an empty list takes the
   * node as head; otherwise the walk to the old last node and the link to the new one.
   */
  function InsertTailTrace(n: nat): (r: seq<ListFrame>)
    ensures r != [] && r[0] == F(1, [], CreatingNode)
    ensures n == 0 ==> r == [F(1, [], CreatingNode), F(2, [0], EmptySetAsHead)]
    ensures n > 0 ==> |r| == 3 && r[1].cells == [n - 1] && r[2].cells == [n]
  {
    [F(1, [], CreatingNode)] +
      if n == 0 then [F(2, [0], EmptySetAsHead)]
      else [F(3, [n - 1], TraversingToLast), F(4, [n], LinkingNewNode)]
  }
}
