/**
 * The one-dimensional array visualiser's committed state: the cell values and the
 * active length, with the handlers that change them, the guard in front of binary
 * search, and the replay that shows a trace's swaps and sets on the view's base.
 * Reverse and bubble sort store as that base the very array their trace generator
 * then mutates; the model states what this does to the commit, next to the copy-based
 * versions the handlers evidently intend.
 */
module Array1DVisualization {
  import opened Prelude
  import opened Ordering
  import opened ArrayOperations
  import Text

  const InitialLength := 10
  const MinLength := 1
  const MaxLength := 24

  /** `n` empty cells. */
  function Blank(n: nat): (r: seq<string>)
    ensures |r| == n && forall k :: 0 <= k < n ==> r[k] == ""
  {
    seq(n, _ => "")
  }

  /** `n` cells all holding `v`, as `Array(n).fill(v)` makes. */
  function Filled(n: nat, v: string): (r: seq<string>)
    ensures |r| == n && forall k :: 0 <= k < n ==> r[k] == v
  {
    seq(n, _ => v)
  }

  /** An in-place edit under way: the cell clicked and the text typed so far. */
  datatype Edit = Edit(i: int, val: string)

  /** The "may come before" relation `cmp` induces: a non-positive sign. */
  function Le(cmp: (string, string) -> int): (string, string) -> bool
  {
    (x: string, y: string) => cmp(x, y) <= 0
  }

  /** A comparator's sign gives a total preorder, as the sort requires. */
  lemma ComparatorIsPreorder(cmp: (string, string) -> int)
    requires Comparator(cmp)
    ensures TotalPreorder(Le(cmp))
  {
  }

  /**
   * `isSorted`: scan the neighbouring pairs and answer false at the first one `cmp`
   * puts out of order.
   */
  method IsSorted(a: seq<string>, cmp: (string, string) -> int) returns (b: bool)
    ensures b <==> AdjacentSorted(a, cmp)
  {
    var i := 1;
    while i < |a|
      invariant 1 <= i <= Max(|a|, 1)
      invariant forall k :: 0 <= k < i - 1 ==> cmp(a[k], a[k + 1]) <= 0
    {
      if cmp(a[i - 1], a[i]) > 0 {
        return false;
      }
      i := i + 1;
    }
    return true;
  }

  lemma {:induction false} ChainUp(a: seq<string>, cmp: (string, string) -> int, i: int, j: int)
    requires Comparator(cmp) && AdjacentSorted(a, cmp)
    requires 0 <= i < j < |a|
    ensures cmp(a[i], a[j]) <= 0
    decreases j - i
  {
    if j > i + 1 {
      ChainUp(a, cmp, i, j - 1);
      assert cmp(a[j - 1], a[j]) <= 0;
    }
  }

  /** For a comparator, neighbouring pairs in order means every pair in order. */
  lemma AdjacentIsSorted(a: seq<string>, cmp: (string, string) -> int)
    requires Comparator(cmp)
    ensures AdjacentSorted(a, cmp) <==> SortedUnder(a, cmp)
  {
    if AdjacentSorted(a, cmp) {
      forall i, j | 0 <= i < j < |a|
        ensures cmp(a[i], a[j]) <= 0
      {
        ChainUp(a, cmp, i, j);
      }
    }
  }

  /** A trace some step of which carries a swap or a set (`trace.some(t => t.op)`). */
  predicate HasOps(steps: seq<Step>)
  {
    exists k :: 0 <= k < |steps| && steps[k].op.Some?
  }

  /** Swapping cells keeps the values: a trace whose only mutations are swaps replays to a permutation. */
  lemma {:induction false} SwapsPermute(base: seq<string>, steps: seq<Step>)
    requires forall k :: 0 <= k < |steps| && steps[k].op.Some? ==> steps[k].op.value.Swap?
    ensures multiset(Replay(base, steps)) == multiset(base)
  {
    if steps != [] {
      var init := steps[..|steps| - 1];
      assert forall k :: 0 <= k < |init| ==> init[k] == steps[k];
      SwapsPermute(base, init);
      var prev := Replay(base, init);
      match steps[|steps| - 1].op
      case None =>
      case Some(op) =>
        if 0 <= op.i < |prev| && 0 <= op.j < |prev| {
          var once := prev[op.i := prev[op.j]];
          assert multiset(once) == multiset(prev) - multiset{prev[op.i]} + multiset{prev[op.j]};
          assert multiset(once[op.j := prev[op.i]]) == multiset(once) - multiset{once[op.j]} + multiset{prev[op.i]};
        }
    }
  }

  class ArrayView {
    /** The cells; `length` of them are shown. */
    var arr: seq<string>
    var length: int
    var editing: Option<Edit>

    /** The shown length stays in [1, 24] and every cell is shown. */
    ghost predicate Valid()
      reads this
    {
      MinLength <= length <= MaxLength && |arr| == length
    }

    constructor()
      ensures Valid() && length == InitialLength && arr == Blank(InitialLength) && editing == None
    {
      length := InitialLength;
      arr := Blank(InitialLength);
      editing := None;
    }

    /**
     * `handleResize`: the length is clamped to [1, 24]; the first cells keep their
     * values as far as both lengths reach, the rest are empty; an edit under way is
     * dropped.
     */
    method Resize(newLength: int)
      requires Valid()
      modifies this
      ensures Valid() && length == Clamp(newLength, MinLength, MaxLength) && editing == None
      ensures forall k :: 0 <= k < length ==> arr[k] == if k < old(length) then old(arr)[k] else ""
    {
      var n := Max(MinLength, Min(MaxLength, newLength));
      var newArr := Blank(n);
      for i := 0 to Min(n, length)
        invariant |newArr| == n
        invariant forall k :: 0 <= k < i ==> newArr[k] == arr[k]
        invariant forall k :: i <= k < n ==> newArr[k] == ""
      {
        newArr := newArr[i := arr[i]];
      }
      length := n;
      arr := newArr;
      editing := None;
    }

    /** `handleSeed`: ten cells A to J; an edit under way is dropped. */
    method Seed()
      requires Valid()
      modifies this
      ensures Valid() && length == 10 && arr == ["A", "B", "C", "D", "E", "F", "G", "H", "I", "J"] && editing == None
    {
      Resize(10);
      arr := ["A", "B", "C", "D", "E", "F", "G", "H", "I", "J"];
    }

    /** `handleClear`: every cell empty, the length kept; an edit under way is dropped. */
    method Clear()
      requires Valid()
      modifies this
      ensures Valid() && length == old(length) && arr == Blank(length) && editing == None
    {
      arr := Blank(length);
      editing := None;
    }

    /**
     * `handleSet`: the index is clamped into the shown cells and only that cell takes
     * the value; the trace highlights it.
     */
    method Set(index: int, value: string) returns (idx: int, trace: seq<Step>)
      requires Valid()
      modifies this
      ensures Valid() && length == old(length) && editing == old(editing)
      ensures idx == Clamp(index, 0, length - 1) && 0 <= idx < length
      ensures arr[idx] == value && forall k :: 0 <= k < length && k != idx ==> arr[k] == old(arr)[k]
      ensures trace == CellTrace(idx)
    {
      idx := Max(0, Min(length - 1, index));
      arr := arr[idx := value];
      trace := CellTrace(idx);
    }

    /**
     * `handleSort`: the shown cells are sorted by `cmp`, the cells
     * beyond the length kept. The comparator must obey the laws of an order, as the
     * array sort requires for a defined result.
     */
    method Sort(cmp: (string, string) -> int)
      requires Valid() && Comparator(cmp)
      modifies this
      ensures Valid() && length == old(length) && editing == old(editing)
      ensures SortedBy(arr[..length], Le(cmp)) && multiset(arr[..length]) == multiset(old(arr)[..length])
      ensures arr[..length] == SortBy(old(arr)[..length], Le(cmp)) && arr[length..] == old(arr)[length..]
    {
      ComparatorIsPreorder(cmp);
      var sorted := SortBy(arr[..length], Le(cmp));
      SortByElements(arr[..length], Le(cmp));
      arr := sorted + arr[length..];
      assert arr[..length] == sorted;
    }

    /**
     * `handleBinarySearch`: refused, with its one-step notice, unless the shown cells
     * are in order; otherwise the binary search trace over them.
     */
    method BinarySearch(target: string, cmp: (string, string) -> int) returns (refused: bool, trace: seq<Step>)
      requires Valid()
      ensures refused <==> !AdjacentSorted(arr[..length], cmp)
      ensures refused ==> trace == [Note([1])]
      ensures !refused ==> trace == [Note([1])] + BinarySteps(arr[..length], target, cmp, 0, length - 1)
    {
      var current := arr[..length];
      var sorted := IsSorted(current, cmp);
      if !sorted {
        return true, [Note([1])];
      }
      refused := false;
      trace := BinarySearchTrace(current, target, cmp);
    }

    /**
     * `applyOperation`: nothing when no step mutates; otherwise a copy of the view's
     * base (the shown cells when there is none yet) with the swaps and sets of steps
     * 0 to `step` applied in order.
     */
    method ApplyOperation(viewBase: Option<seq<string>>, trace: seq<Step>, step: int) returns (view: Option<seq<string>>)
      requires Valid()
      ensures !HasOps(trace) ==> view.None?
      ensures HasOps(trace) ==> view == Some(Replay(viewBase.GetOr(arr[..length]), trace[..Clamp(step + 1, 0, |trace|)]))
    {
      if !HasOps(trace) {
        return None;
      }
      var base := if viewBase.Some? then viewBase.value else arr[..length];
      var upto := Max(0, Min(|trace|, step + 1));
      var cur := base;
      for k := 0 to upto
        invariant cur == Replay(base, trace[..k])
      {
        ReplaySnoc(base, trace[..k], trace[k]);
        assert trace[..k + 1] == trace[..k] + [trace[k]];
        if trace[k].op.Some? {
          cur := ApplyOp(cur, trace[k].op.value);
        }
      }
      return Some(cur);
    }

    /** The commit when the animation ends: the view replaces the shown cells. */
    method Commit(view: seq<string>)
      requires Valid() && |view| == length
      modifies this
      ensures Valid() && length == old(length) && arr == view + old(arr)[length..] && editing == old(editing)
    {
      arr := view + arr[length..];
    }

    /**
     * `handleGet`: the index is clamped into the shown cells; that cell's value is
     * reported and the trace highlights it.
     */
    method Get(index: int) returns (idx: int, value: string, trace: seq<Step>)
      requires Valid()
      ensures idx == Clamp(index, 0, length - 1) && 0 <= idx < length && value == arr[idx]
      ensures 0 <= index < length ==> idx == index
      ensures trace == CellTrace(idx)
    {
      idx := Max(0, Min(length - 1, index));
      value := arr[idx];
      trace := CellTrace(idx);
    }

    /**
     * `handleFill`: the fill trace, one step per shown cell, and then every shown
     * cell holds the value.
     */
    method Fill(value: string) returns (trace: seq<Step>)
      requires Valid()
      modifies this
      ensures Valid() && length == old(length) && editing == old(editing)
      ensures arr == Filled(length, value)
      ensures |trace| == length && forall i :: 0 <= i < length ==> trace[i] == Visit(i, [1, 2])
    {
      trace := FillTrace(length);
      arr := Filled(length, value);
    }

    /**
     * `handleRandom`: each shown cell, in index order, takes the decimal text of the
     * number from 10 to 99 drawn for it; one step per cell. The numbers drawn are the
     * parameter `draw`.
     */
    method RandomFill(draw: int -> nat) returns (trace: seq<Step>)
      requires Valid() && forall i :: 0 <= i < length ==> 10 <= draw(i) <= 99
      modifies this
      ensures Valid() && length == old(length) && editing == old(editing)
      ensures forall i :: 0 <= i < length ==> arr[i] == Text.NatToString(draw(i)) && |arr[i]| == 2
      ensures |trace| == length && forall i :: 0 <= i < length ==> trace[i] == Visit(i, [1, 2])
    {
      var n := length;
      var next := Blank(n);
      trace := [];
      for i := 0 to n
        invariant |next| == n && |trace| == i
        invariant Valid() && length == n && editing == old(editing)
        invariant forall k :: 0 <= k < i ==> next[k] == Text.NatToString(draw(k)) && |next[k]| == 2
        invariant forall k :: 0 <= k < i ==> trace[k] == Visit(k, [1, 2])
      {
        Text.TwoDigits(draw(i));
        next := next[i := Text.NatToString(draw(i))];
        trace := trace + [Visit(i, [1, 2])];
      }
      arr := next;
    }

    /** `handleTraverse`: one visit per shown cell, in index order. */
    method Traverse() returns (trace: seq<Step>)
      requires Valid()
      ensures |trace| == length && forall i :: 0 <= i < length ==> trace[i] == Visit(i, [2])
    {
      trace := TraverseTrace(length);
    }

    /**
     * `handleLinearSearch` over the shown cells: checks up to the first cell holding
     * the target and reports it, or checks every cell and reports "Not found".
     */
    method LinearSearch(target: string) returns (trace: seq<Step>)
      requires Valid()
      ensures FirstIndex(arr[..length], target).Some? ==>
        var k := FirstIndex(arr[..length], target).value;
        k < length && arr[k] == target && (forall j :: 0 <= j < k ==> arr[j] != target)
        && |trace| == k + 2 && trace[k + 1] == Visit(k, [3])
      ensures FirstIndex(arr[..length], target).None? ==>
        (forall j :: 0 <= j < length ==> arr[j] != target) && |trace| == length + 1 && trace[length] == Note([4])
    {
      trace := LinearSearchTrace(arr[..length], target);
      var found := FirstIndex(arr[..length], target);
      if found.Some? {
        var k := found.value;
        assert arr[..length][k] == arr[k];
        forall j | 0 <= j < k ensures arr[j] != target {
          assert arr[..length][j] == arr[j];
        }
      } else {
        forall j | 0 <= j < length ensures arr[j] != target {
          assert arr[..length][j] == arr[j];
        }
      }
    }

    /**
     * `handleMin`: the trace over the shown cells ends highlighting the first index
     * whose value is a minimum under `le`.
     */
    method FindMin(le: (string, string) -> bool) returns (trace: seq<Step>)
      requires Valid() && TotalPreorder(le)
      ensures |trace| >= 2 && trace[|trace| - 1].pc == [4] && |trace[|trace| - 1].cells| == 1
      ensures var k := trace[|trace| - 1].cells[0];
        0 <= k < length && (forall j :: 0 <= j < length ==> le(arr[k], arr[j])) && (forall j :: 0 <= j < k ==> !le(arr[j], arr[k]))
    {
      trace := MinTrace(arr[..length], le);
    }

    /**
     * `handleMax`: the trace over the shown cells ends highlighting the first index
     * whose value is a maximum under `le`.
     */
    method FindMax(le: (string, string) -> bool) returns (trace: seq<Step>)
      requires Valid() && TotalPreorder(le)
      ensures |trace| >= 2 && trace[|trace| - 1].pc == [4] && |trace[|trace| - 1].cells| == 1
      ensures var k := trace[|trace| - 1].cells[0];
        0 <= k < length && (forall j :: 0 <= j < length ==> le(arr[j], arr[k])) && (forall j :: 0 <= j < k ==> !le(arr[k], arr[j]))
    {
      trace := MaxTrace(arr[..length], le);
    }

    /**
     * `handleReverse` as written: the shown cells are copied into a new array, which
     * becomes the view's base AND is then reversed in place by the trace generator. The
     * base the animation replays on therefore already holds the cells reversed, and the
     * trace's mirror swaps, replayed on it, bring back the cells in their first order.
     */
    method Reverse() returns (viewBase: array<string>, trace: seq<Step>)
      requires Valid()
      ensures fresh(viewBase)
      ensures viewBase[..] == Reversed(arr[..length])
      ensures Replay(arr[..length], trace) == viewBase[..] && SwapCount(trace) == length / 2
      ensures MirrorSwaps(trace, length)
      ensures Replay(viewBase[..], trace) == arr[..length]
      ensures |trace| >= 1 && (trace[|trace| - 1].op.Some? <==> length % 2 == 0)
    {
      var cells := arr[..length];
      viewBase := new string[|cells|](k requires 0 <= k < |cells| => cells[k]);
      assert viewBase[..] == cells;
      trace := ReverseTrace(viewBase);
      ReverseReplayRestores(cells, trace);
    }

    /**
     * `handleBubbleSort` as written: the shown cells are copied into a new array, which
     * becomes the view's base AND is then sorted in place by the trace generator. The
     * base already holds a sorted permutation of the cells, and the trace ends on
     * "Sorting complete!", a step without a swap.
     */
    method BubbleSort(cmp: (string, string) -> int) returns (viewBase: array<string>, trace: seq<Step>)
      requires Valid() && Comparator(cmp)
      ensures fresh(viewBase)
      ensures AdjacentSorted(viewBase[..], cmp) && multiset(viewBase[..]) == multiset(arr[..length])
      ensures Replay(arr[..length], trace) == viewBase[..] && AdjacentSwaps(trace, length)
      ensures |trace| >= 1 && trace[|trace| - 1].op.None?
    {
      var cells := arr[..length];
      viewBase := new string[|cells|](k requires 0 <= k < |cells| => cells[k]);
      assert viewBase[..] == cells;
      trace := BubbleSortTrace(viewBase, cmp);
    }

    /**
     * `handleReverse` with the copy it evidently intends: the view's base is a copy of
     * the shown cells that the trace generator does not touch, and the reverse trace
     * replays on it to the cells reversed, by half the length in swaps.
     */
    method ReverseOnCopy() returns (viewBase: seq<string>, trace: seq<Step>)
      requires Valid()
      ensures viewBase == arr[..length]
      ensures Replay(viewBase, trace) == Reversed(viewBase) && SwapCount(trace) == length / 2
      ensures MirrorSwaps(trace, length)
    {
      viewBase := arr[..length];
      var cells := viewBase;
      var copy := new string[|cells|](k requires 0 <= k < |cells| => cells[k]);
      assert copy[..] == viewBase;
      trace := ReverseTrace(copy);
    }

    /**
     * `handleBubbleSort` with the copy it evidently intends: the view's base is a copy
     * of the shown cells, and the bubble-sort trace replays on it, by neighbouring
     * swaps, to a permutation of the cells in `cmp` order.
     */
    method BubbleSortOnCopy(cmp: (string, string) -> int) returns (viewBase: seq<string>, trace: seq<Step>)
      requires Valid() && Comparator(cmp)
      ensures viewBase == arr[..length]
      ensures var result := Replay(viewBase, trace);
        AdjacentSorted(result, cmp) && multiset(result) == multiset(viewBase)
      ensures AdjacentSwaps(trace, length)
    {
      viewBase := arr[..length];
      var cells := viewBase;
      var copy := new string[|cells|](k requires 0 <= k < |cells| => cells[k]);
      assert copy[..] == viewBase;
      trace := BubbleSortTrace(copy, cmp);
    }

    /** `startEdit`: a click on a shown cell opens an edit holding its current value. */
    method StartEdit(i: int)
      requires Valid() && 0 <= i < length
      modifies this
      ensures Valid() && length == old(length) && arr == old(arr)
      ensures editing == Some(Edit(i, arr[i]))
    {
      editing := Some(Edit(i, arr[i]));
    }

    /** Typing into the open edit replaces the text it holds. */
    method EditValue(v: string)
      modifies this
      ensures length == old(length) && arr == old(arr)
      ensures editing == if old(editing).Some? then Some(old(editing).value.(val := v)) else None
    {
      if editing.Some? {
        editing := Some(editing.value.(val := v));
      }
    }

    /**
     * `commitEdit`: without an open edit nothing happens; otherwise the edited cell
     * takes the text typed, every other cell is kept, and the edit is closed.
     */
    method CommitEdit()
      requires Valid()
      modifies this
      ensures Valid() && length == old(length) && editing == None
      ensures old(editing) == None ==> arr == old(arr)
      ensures old(editing).Some? && 0 <= old(editing).value.i < length ==>
        arr == old(arr)[old(editing).value.i := old(editing).value.val]
    {
      if editing.Some? && 0 <= editing.value.i < length {
        arr := arr[editing.value.i := editing.value.val];
      }
      editing := None;
    }

    /** `cancelEdit`: the edit is closed and the cells kept. */
    method CancelEdit()
      modifies this
      ensures length == old(length) && arr == old(arr) && editing == None
    {
      editing := None;
    }
  }

  /**
   * A binary search the guard lets through runs on cells in order, so under a
   * comparator that tells different strings apart its "Not found" means the
   * target is in no shown cell.
   */
  lemma GuardedSearchComplete(a: seq<string>, target: string, cmp: (string, string) -> int)
    requires Comparator(cmp) && Separating(cmp) && AdjacentSorted(a, cmp)
    requires var steps := BinarySteps(a, target, cmp, 0, |a| - 1); steps[|steps| - 1] == Note([6])
    ensures target !in a
  {
    AdjacentIsSorted(a, cmp);
    BinaryNotFoundComplete(a, target, cmp, 0, |a| - 1);
  }

  /**
   * The animation played to its last step, as written: `applyOperation`, and with it
   * the commit, runs only on a step that carries a swap or a set. When the last step
   * carries one, the trace's mutations replayed on the view's base become the shown
   * cells; when it carries none, nothing is committed and the cells are kept.
   */
  method PlayAndCommit(v: ArrayView, base: seq<string>, trace: seq<Step>)
    requires v.Valid() && |base| == v.length
    modifies v
    ensures v.Valid() && v.length == old(v.length)
    ensures trace != [] && trace[|trace| - 1].op.Some? ==> v.arr == Replay(base, trace)
    ensures trace == [] || trace[|trace| - 1].op.None? ==> v.arr == old(v.arr)
  {
    if trace != [] && trace[|trace| - 1].op.Some? {
      assert HasOps(trace);
      var view := v.ApplyOperation(Some(base), trace, |trace| - 1);
      assert trace[..Clamp(|trace| - 1 + 1, 0, |trace|)] == trace;
      v.Commit(view.value);
      assert v.arr == view.value;
    }
  }

  /**
   * The commit the animation evidently intends: once played to its last step, whatever
   * that step carries, the trace's swaps and sets replayed on the view's base become
   * the shown cells. A trace without swaps or sets commits nothing, and then the cells
   * are already its replay.
   */
  method PlayToEndAndCommit(v: ArrayView, base: seq<string>, trace: seq<Step>)
    requires v.Valid() && base == v.arr[..v.length]
    modifies v
    ensures v.Valid() && v.length == old(v.length) && v.arr == Replay(base, trace)
  {
    var view := v.ApplyOperation(Some(base), trace, |trace| - 1);
    assert trace[..Clamp(|trace| - 1 + 1, 0, |trace|)] == trace;
    assert v.arr == base;
    if view.Some? {
      v.Commit(view.value);
      assert v.arr == view.value;
    } else {
      assert forall k :: 0 <= k < |trace| ==> trace[k].op.None?;
      NoOpsReplay(base, trace);
    }
  }

  /**
   * Reverse as written, played to its last step: with an even length the commit
   * writes back the cells in their first order, and with an odd length the last step
   * moves the pointers and nothing is committed. Either way the cells are not reversed.
   */
  method ReverseAndCommit(v: ArrayView) returns (trace: seq<Step>)
    requires v.Valid()
    modifies v
    ensures v.Valid() && v.length == old(v.length) && v.arr == old(v.arr)
  {
    var base;
    base, trace := v.Reverse();
    assert v.arr[..v.length] == v.arr;
    PlayAndCommit(v, base[..], trace);
  }

  /**
   * Bubble sort as written, played to its last step: the last step, "Sorting
   * complete!", carries no swap, so nothing is committed and the cells are kept.
   */
  method BubbleSortAndCommit(v: ArrayView, cmp: (string, string) -> int) returns (trace: seq<Step>)
    requires v.Valid() && Comparator(cmp)
    modifies v
    ensures v.Valid() && v.length == old(v.length) && v.arr == old(v.arr)
  {
    var base;
    base, trace := v.BubbleSort(cmp);
    PlayAndCommit(v, base[..], trace);
  }

  /** Reverse on a copy, played to its end and committed, leaves the shown cells reversed. */
  method ReverseOnCopyAndCommit(v: ArrayView) returns (trace: seq<Step>)
    requires v.Valid()
    modifies v
    ensures v.Valid() && v.length == old(v.length) && v.arr == Reversed(old(v.arr))
  {
    var base;
    base, trace := v.ReverseOnCopy();
    assert base == v.arr;
    PlayToEndAndCommit(v, base, trace);
  }

  /** Bubble sort on a copy, played to its end and committed, leaves the shown cells a sorted permutation. */
  method BubbleSortOnCopyAndCommit(v: ArrayView, cmp: (string, string) -> int) returns (trace: seq<Step>)
    requires v.Valid() && Comparator(cmp)
    modifies v
    ensures v.Valid() && v.length == old(v.length)
    ensures AdjacentSorted(v.arr, cmp) && multiset(v.arr) == multiset(old(v.arr))
  {
    var base;
    base, trace := v.BubbleSortOnCopy(cmp);
    assert base == v.arr;
    PlayToEndAndCommit(v, base, trace);
  }

  /** A trace without swaps or sets replays to its base. */
  lemma {:induction false} NoOpsReplay(base: seq<string>, steps: seq<Step>)
    requires forall k :: 0 <= k < |steps| ==> steps[k].op.None?
    ensures Replay(base, steps) == base
  {
    if steps != [] {
      var init := steps[..|steps| - 1];
      assert steps == init + [steps[|steps| - 1]];
      NoOpsReplay(base, init);
      ReplaySnoc(base, init, steps[|steps| - 1]);
    }
  }

  /** After a sort the guard lets binary search through. */
  lemma SortedPassesGuard(a: seq<string>, cmp: (string, string) -> int)
    requires Comparator(cmp)
    ensures AdjacentSorted(SortBy(a, Le(cmp)), cmp)
  {
    ComparatorIsPreorder(cmp);
    var s := SortBy(a, Le(cmp));
    assert forall k :: 0 <= k < |s| - 1 ==> Le(cmp)(s[k], s[k + 1]);
  }
}
