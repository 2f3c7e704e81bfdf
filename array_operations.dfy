/**
 * The array visualiser's trace generators. A trace is a list of steps; each step
 * highlights some cells and pseudocode lines and may carry the swap or set it
 * performs. Step messages are display text and are not modelled. Cell values are
 * strings; the visualiser's comparisons are parameters with the laws of an order.
 */
module ArrayOperations {
  import opened Prelude
  import opened Ordering

  /** A mutation a step performs on the displayed array. */
  datatype Op = Swap(i: int, j: int) | Set(i: int, value: string)

  /** One trace step: highlighted cells, highlighted pseudocode lines, and an optional mutation. */
  datatype Step = Step(cells: seq<int>, pc: seq<int>, op: Option<Op>)

  /** A step that highlights one cell and performs nothing. */
  function Visit(i: int, pc: seq<int>): Step {
    Step([i], pc, None)
  }

  /** A step that highlights nothing. */
  function Note(pc: seq<int>): Step {
    Step([], pc, None)
  }

  /** The one-step trace of a set or a get at `index`. */
  function CellTrace(index: int): seq<Step> {
    [Visit(index, [1, 2])]
  }

  // ---------------------------------------------------------------------------
  // Replaying the mutations of a trace
  // ---------------------------------------------------------------------------

  /** Apply one mutation; indices outside the array leave it unchanged. */
  function ApplyOp(s: seq<string>, op: Op): (r: seq<string>)
    ensures |r| == |s|
  {
    match op
    case Swap(i, j) => if 0 <= i < |s| && 0 <= j < |s| then s[i := s[j]][j := s[i]] else s
    case Set(i, v) => if 0 <= i < |s| then s[i := v] else s
  }

  /** Apply, in order, the mutations the steps carry. */
  function Replay(base: seq<string>, steps: seq<Step>): (r: seq<string>)
    ensures |r| == |base|
  {
    if steps == [] then base
    else
      var prev := Replay(base, steps[..|steps| - 1]);
      match steps[|steps| - 1].op
      case None => prev
      case Some(op) => ApplyOp(prev, op)
  }

  /** Replaying one more step applies that step's mutation, if any. */
  lemma ReplaySnoc(base: seq<string>, steps: seq<Step>, s: Step)
    ensures Replay(base, steps + [s]) == if s.op.Some? then ApplyOp(Replay(base, steps), s.op.value) else Replay(base, steps)
  {
    assert (steps + [s])[..|steps|] == steps;
  }

  /** How many steps carry a swap. */
  function SwapCount(steps: seq<Step>): nat {
    if steps == [] then 0
    else SwapCount(steps[..|steps| - 1]) + if steps[|steps| - 1].op.Some? && steps[|steps| - 1].op.value.Swap? then 1 else 0
  }

  /** How many steps open a sorting pass. */
  function PassCount(steps: seq<Step>): nat {
    if steps == [] then 0
    else PassCount(steps[..|steps| - 1]) + if steps[|steps| - 1] == Note([2]) then 1 else 0
  }

  lemma CountsSnoc(steps: seq<Step>, s: Step)
    ensures SwapCount(steps + [s]) == SwapCount(steps) + if s.op.Some? && s.op.value.Swap? then 1 else 0
    ensures PassCount(steps + [s]) == PassCount(steps) + if s == Note([2]) then 1 else 0
  {
    assert (steps + [s])[..|steps|] == steps;
  }

  /** Every highlighted cell is an index of an array of length `n`. */
  ghost predicate CellsWithin(steps: seq<Step>, n: int) {
    forall s <- steps, c <- s.cells :: 0 <= c < n
  }

  // ---------------------------------------------------------------------------
  // Fill and traverse
  // ---------------------------------------------------------------------------

  /** `generateFillTrace`: one step per cell, step i highlighting cell i. */
  method FillTrace(length: int) returns (t: seq<Step>)
    ensures |t| == Max(length, 0)
    ensures forall i :: 0 <= i < |t| ==> t[i] == Visit(i, [1, 2])
    ensures CellsWithin(t, length)
  {
    t := [];
    var i := 0;
    while i < length
      invariant 0 <= i == |t| && i <= Max(length, 0)
      invariant forall k :: 0 <= k < i ==> t[k] == Visit(k, [1, 2])
    {
      t := t + [Visit(i, [1, 2])];
      i := i + 1;
    }
  }

  /** `generateTraverseTrace`: one visit per cell, in index order. */
  method TraverseTrace(length: int) returns (t: seq<Step>)
    ensures |t| == Max(length, 0)
    ensures forall i :: 0 <= i < |t| ==> t[i] == Visit(i, [2])
    ensures CellsWithin(t, length)
  {
    t := [];
    var i := 0;
    while i < length
      invariant 0 <= i == |t| && i <= Max(length, 0)
      invariant forall k :: 0 <= k < i ==> t[k] == Visit(k, [2])
    {
      t := t + [Visit(i, [2])];
      i := i + 1;
    }
  }

  // ---------------------------------------------------------------------------
  // Linear search
  // ---------------------------------------------------------------------------

  /** The first index whose value equals `target`, if any. */
  function FirstIndex(a: seq<string>, target: string): (r: Option<nat>)
    ensures r.Some? ==> r.value < |a| && a[r.value] == target && forall j :: 0 <= j < r.value ==> a[j] != target
    ensures r.None? <==> target !in a
  {
    if a == [] then None
    else if a[0] == target then Some(0)
    else
      match FirstIndex(a[1..], target)
      case None => None
      case Some(k) => Some(k + 1)
  }

  /**
   * `generateLinearSearchTrace`: one check per cell up to the first match, then
   * "Found" at that cell; with no match, a check of every cell and then "Not found".
   */
  method LinearSearchTrace(a: seq<string>, target: string) returns (t: seq<Step>)
    ensures FirstIndex(a, target).Some? ==>
      var k := FirstIndex(a, target).value;
      |t| == k + 2 && t[k + 1] == Visit(k, [3]) && forall i :: 0 <= i <= k ==> t[i] == Visit(i, [1, 2])
    ensures FirstIndex(a, target).None? ==>
      |t| == |a| + 1 && t[|a|] == Note([4]) && forall i :: 0 <= i < |a| ==> t[i] == Visit(i, [1, 2])
  {
    t := [];
    for i := 0 to |a|
      invariant |t| == i && forall j :: 0 <= j < i ==> t[j] == Visit(j, [1, 2])
      invariant forall j :: 0 <= j < i ==> a[j] != target
    {
      t := t + [Visit(i, [1, 2])];
      if a[i] == target {
        t := t + [Visit(i, [3])];
        return;
      }
    }
    t := t + [Note([4])];
  }

  // ---------------------------------------------------------------------------
  // Binary search
  // ---------------------------------------------------------------------------

  /**
   * The laws the visualiser's `cmp` obeys on the values compared: its sign orders
   * values totally and transitively, and a negative sign is the strict part of that order.
   */
  ghost predicate Comparator(cmp: (string, string) -> int) {
    (forall x, y :: cmp(x, y) <= 0 || cmp(y, x) <= 0)
    && (forall x, y, z :: cmp(x, y) <= 0 && cmp(y, z) <= 0 ==> cmp(x, z) <= 0)
    && (forall x, y :: cmp(x, y) < 0 <==> !(cmp(y, x) <= 0))
  }

  /** `cmp` tells apart any two different strings. */
  ghost predicate Separating(cmp: (string, string) -> int) {
    forall x, y :: cmp(x, y) == 0 ==> x == y
  }

  /** Every value is at most every later one. */
  ghost predicate SortedUnder(a: seq<string>, cmp: (string, string) -> int) {
    forall i, j :: 0 <= i < j < |a| ==> cmp(a[i], a[j]) <= 0
  }

  /** The steps of a binary search of `a[l..r]` (inclusive), after its initialisation step. */
  function BinarySteps(a: seq<string>, target: string, cmp: (string, string) -> int, l: int, r: int): seq<Step>
    requires 0 <= l && r < |a|
    decreases r - l + 1
  {
    if l > r then [Note([6])]
    else
      var m := (l + r) / 2;
      if a[m] == target then [Visit(m, [2]), Visit(m, [3])]
      else if cmp(target, a[m]) < 0 then [Visit(m, [2]), Visit(m, [4])] + BinarySteps(a, target, cmp, l, m - 1)
      else [Visit(m, [2]), Visit(m, [5])] + BinarySteps(a, target, cmp, m + 1, r)
  }

  /** `generateBinarySearchTrace`: initialise, then probe middles until found or the range is empty. */
  method BinarySearchTrace(a: seq<string>, target: string, cmp: (string, string) -> int) returns (t: seq<Step>)
    ensures t == [Note([1])] + BinarySteps(a, target, cmp, 0, |a| - 1)
  {
    t := [Note([1])];
    var l, r := 0, |a| - 1;
    while l <= r
      invariant 0 <= l && r < |a|
      invariant t + BinarySteps(a, target, cmp, l, r) == [Note([1])] + BinarySteps(a, target, cmp, 0, |a| - 1)
      decreases r - l + 1
    {
      var m := (l + r) / 2;
      var rest := BinarySteps(a, target, cmp, l, r);
      if a[m] == target {
        t := t + [Visit(m, [2]), Visit(m, [3])];
        return;
      }
      if cmp(target, a[m]) < 0 {
        r := m - 1;
        assert rest == [Visit(m, [2]), Visit(m, [4])] + BinarySteps(a, target, cmp, l, r);
        t := t + [Visit(m, [2]), Visit(m, [4])];
      } else {
        l := m + 1;
        assert rest == [Visit(m, [2]), Visit(m, [5])] + BinarySteps(a, target, cmp, l, r);
        t := t + [Visit(m, [2]), Visit(m, [5])];
      }
    }
    t := t + [Note([6])];
  }

  /** Every probed middle lies in the searched range, so every highlighted cell is an index of `a`. */
  lemma {:induction false} BinaryProbesInRange(a: seq<string>, target: string, cmp: (string, string) -> int, l: int, r: int)
    requires 0 <= l && r < |a|
    ensures forall s <- BinarySteps(a, target, cmp, l, r), c <- s.cells :: l <= c <= r
    decreases r - l + 1
  {
    if l <= r {
      var m := (l + r) / 2;
      if a[m] != target {
        if cmp(target, a[m]) < 0 {
          BinaryProbesInRange(a, target, cmp, l, m - 1);
        } else {
          BinaryProbesInRange(a, target, cmp, m + 1, r);
        }
      }
    }
  }

  /** The search ends either with "Found" at a cell holding the target or with "Not found". */
  lemma {:induction false} BinaryOutcome(a: seq<string>, target: string, cmp: (string, string) -> int, l: int, r: int)
    requires 0 <= l && r < |a|
    ensures var steps := BinarySteps(a, target, cmp, l, r);
      var last := steps[|steps| - 1];
      last == Note([6]) || (last.pc == [3] && |last.cells| == 1 && l <= last.cells[0] <= r && a[last.cells[0]] == target)
    decreases r - l + 1
  {
    if l <= r {
      var m := (l + r) / 2;
      if a[m] != target {
        if cmp(target, a[m]) < 0 {
          BinaryOutcome(a, target, cmp, l, m - 1);
        } else {
          BinaryOutcome(a, target, cmp, m + 1, r);
        }
      }
    }
  }

  /**
   * On a sorted array, under a comparator that tells apart different strings,
   * "Not found" means the target is in no cell of the searched range.
   */
  lemma {:induction false} BinaryNotFoundComplete(a: seq<string>, target: string, cmp: (string, string) -> int, l: int, r: int)
    requires 0 <= l && r < |a|
    requires Comparator(cmp) && Separating(cmp) && SortedUnder(a, cmp)
    requires var steps := BinarySteps(a, target, cmp, l, r); steps[|steps| - 1] == Note([6])
    ensures forall j :: l <= j <= r ==> a[j] != target
    decreases r - l + 1
  {
    if l <= r {
      var m := (l + r) / 2;
      if cmp(target, a[m]) < 0 {
        BinaryNotFoundComplete(a, target, cmp, l, m - 1);
        LeftMoveExcludes(a, target, cmp, m, r);
      } else {
        BinaryNotFoundComplete(a, target, cmp, m + 1, r);
        RightMoveExcludes(a, target, cmp, l, m);
      }
    }
  }

  /** Going left past a larger middle skips no cell holding the target. */
  lemma LeftMoveExcludes(a: seq<string>, target: string, cmp: (string, string) -> int, m: int, r: int)
    requires Comparator(cmp) && SortedUnder(a, cmp)
    requires 0 <= m <= r < |a| && cmp(target, a[m]) < 0
    ensures forall j :: m <= j <= r ==> a[j] != target
  {
    forall j | m <= j <= r ensures a[j] != target {
      assert cmp(a[m], a[j]) <= 0;
      assert !(cmp(a[m], target) <= 0);
    }
  }

  /** Going right past a different, not larger middle skips no cell holding the target. */
  lemma RightMoveExcludes(a: seq<string>, target: string, cmp: (string, string) -> int, l: int, m: int)
    requires Comparator(cmp) && Separating(cmp) && SortedUnder(a, cmp)
    requires 0 <= l <= m < |a| && a[m] != target && !(cmp(target, a[m]) < 0)
    ensures forall j :: l <= j <= m ==> a[j] != target
  {
    assert cmp(target, a[m]) != 0;
    assert !(cmp(target, a[m]) <= 0);
    forall j | l <= j <= m ensures a[j] != target {
      assert cmp(a[j], a[m]) <= 0;
    }
  }

  /** A sort key of three strings, for which "1" and "1.0" compare equal. */
  function TieKey(x: string): int {
    if x == "1" || x == "1.0" then 1 else if x == "2" then 2 else 0
  }

  /** Comparison by `TieKey`, which has ties between different strings. */
  function TieCmp(x: string, y: string): int {
    TieKey(x) - TieKey(y)
  }

  /**
   * Without `Separating`, "Not found" is possible for a present target: in the sorted
   * ["1", "1.0", "2"] the search for "1" probes "1.0", which compares equal, goes right
   * and misses index 0.
   */
  lemma BinarySearchMissesTie()
    ensures Comparator(TieCmp) && SortedUnder(["1", "1.0", "2"], TieCmp)
    ensures ["1", "1.0", "2"][0] == "1"
    ensures BinarySteps(["1", "1.0", "2"], "1", TieCmp, 0, 2)
         == [Visit(1, [2]), Visit(1, [5]), Visit(2, [2]), Visit(2, [4]), Note([6])]
  {
    var a := ["1", "1.0", "2"];
    assert a[1] != "1" && a[2] != "1";
    assert BinarySteps(a, "1", TieCmp, 2, 1) == [Note([6])];
    assert BinarySteps(a, "1", TieCmp, 2, 2) == [Visit(2, [2]), Visit(2, [4]), Note([6])];
  }

  // ---------------------------------------------------------------------------
  // Minimum and maximum
  // ---------------------------------------------------------------------------

  /**
   * `k` is the first index of a best value under `le`: every value is at least
   * `a[k]`, and every earlier value is strictly worse.
   */
  ghost predicate IsFirstBest(a: seq<string>, le: (string, string) -> bool, k: int) {
    0 <= k < |a|
    && (forall j :: 0 <= j < |a| ==> le(a[k], a[j]))
    && (forall j :: 0 <= j < k ==> !le(a[j], a[k]))
  }

  /** There is only one first best index. */
  lemma FirstBestUnique(a: seq<string>, le: (string, string) -> bool, k1: int, k2: int)
    requires IsFirstBest(a, le, k1) && IsFirstBest(a, le, k2)
    ensures k1 == k2
  {
    assert le(a[k1], a[k2]) && le(a[k2], a[k1]);
  }

  /**
   * The min/max scan: keep the first best index, replacing it only when a later value
   * is strictly better; an empty array gives the single step "Empty array".
   */
  method ExtremeTrace(a: seq<string>, le: (string, string) -> bool) returns (t: seq<Step>)
    requires TotalPreorder(le)
    ensures |a| == 0 ==> t == [Note([1])]
    ensures |a| > 0 ==> |t| >= 2 && t[0] == Visit(0, [1]) && t[|t| - 1].pc == [4] && |t[|t| - 1].cells| == 1
    ensures |a| > 0 ==> IsFirstBest(a, le, t[|t| - 1].cells[0])
    ensures CellsWithin(t, |a|)
  {
    if |a| == 0 {
      return [Note([1])];
    }
    var k := 0;
    t := [Visit(0, [1])];
    for i := 1 to |a|
      invariant 0 <= k < i
      invariant forall j :: 0 <= j < i ==> le(a[k], a[j])
      invariant forall j :: 0 <= j < k ==> !le(a[j], a[k])
      invariant |t| >= 1 && t[0] == Visit(0, [1]) && CellsWithin(t, |a|)
    {
      t := t + [Step([i, k], [2], None)];
      if !le(a[k], a[i]) {
        BetterIsFirst(a, le, k, i);
        k := i;
        t := t + [Visit(i, [3])];
      }
    }
    t := t + [Visit(k, [4])];
  }

  /** A strictly better value at `i` is a first best of `a[..i + 1]` when `k` was one of `a[..i]`. */
  lemma BetterIsFirst(a: seq<string>, le: (string, string) -> bool, k: int, i: int)
    requires TotalPreorder(le)
    requires 0 <= k < i < |a|
    requires forall j :: 0 <= j < i ==> le(a[k], a[j])
    requires forall j :: 0 <= j < k ==> !le(a[j], a[k])
    requires !le(a[k], a[i])
    ensures forall j :: 0 <= j <= i ==> le(a[i], a[j])
    ensures forall j :: 0 <= j < i ==> !le(a[j], a[i])
  {
    assert le(a[i], a[k]);
    forall j | 0 <= j < i ensures !le(a[j], a[i]) {
      if j < k {
        assert !le(a[j], a[k]);
      } else {
        assert le(a[k], a[j]);
      }
    }
  }

  /** `le` with its arguments swapped: "at least" instead of "at most". */
  function Flip(le: (string, string) -> bool): (string, string) -> bool {
    (x, y) => le(y, x)
  }

  lemma FlipPreorder(le: (string, string) -> bool)
    requires TotalPreorder(le)
    ensures TotalPreorder(Flip(le))
  {
    assert forall a, b, c :: Flip(le)(a, b) && Flip(le)(b, c) ==> le(c, a);
  }

  /** `generateMinTrace`: the last step shows the first index of a minimum. */
  method MinTrace(a: seq<string>, le: (string, string) -> bool) returns (t: seq<Step>)
    requires TotalPreorder(le)
    ensures |a| == 0 ==> t == [Note([1])]
    ensures |a| > 0 ==> |t| >= 2 && t[|t| - 1].pc == [4] && |t[|t| - 1].cells| == 1 && var k := t[|t| - 1].cells[0];
      0 <= k < |a| && (forall j :: 0 <= j < |a| ==> le(a[k], a[j])) && (forall j :: 0 <= j < k ==> !le(a[j], a[k]))
  {
    t := ExtremeTrace(a, le);
  }

  /** `generateMaxTrace`: the last step shows the first index of a maximum. */
  method MaxTrace(a: seq<string>, le: (string, string) -> bool) returns (t: seq<Step>)
    requires TotalPreorder(le)
    ensures |a| == 0 ==> t == [Note([1])]
    ensures |a| > 0 ==> |t| >= 2 && t[|t| - 1].pc == [4] && |t[|t| - 1].cells| == 1 && var k := t[|t| - 1].cells[0];
      0 <= k < |a| && (forall j :: 0 <= j < |a| ==> le(a[j], a[k])) && (forall j :: 0 <= j < k ==> !le(a[k], a[j]))
  {
    FlipPreorder(le);
    t := ExtremeTrace(a, Flip(le));
  }

  // ---------------------------------------------------------------------------
  // Reverse
  // ---------------------------------------------------------------------------

  /** The values in the opposite order. */
  function Reversed(s: seq<string>): (r: seq<string>)
    ensures |r| == |s|
    ensures forall i :: 0 <= i < |s| ==> r[i] == s[|s| - 1 - i]
  {
    seq(|s|, i requires 0 <= i < |s| => s[|s| - 1 - i])
  }

  /** Reversing twice gives back the values. */
  lemma ReversedTwice(s: seq<string>)
    ensures Reversed(Reversed(s)) == s
  {
    var r := Reversed(Reversed(s));
    forall i | 0 <= i < |s| ensures r[i] == s[i] {
      assert r[i] == Reversed(s)[|s| - 1 - i];
    }
  }

  /** Swap `a[i]` and `a[j]`, recording the swap as the next step of the trace. */
  method SwapStep(a: array<string>, i: int, j: int, pc: seq<int>, ghost base: seq<string>, t0: seq<Step>)
    returns (t: seq<Step>)
    requires 0 <= i < a.Length && 0 <= j < a.Length
    requires Replay(base, t0) == a[..]
    modifies a
    ensures a[..] == old(a[..])[i := old(a[j])][j := old(a[i])]
    ensures t == t0 + [Step([i, j], pc, Some(Swap(i, j)))]
    ensures Replay(base, t) == a[..]
    ensures SwapCount(t) == SwapCount(t0) + 1 && PassCount(t) == PassCount(t0)
  {
    var s := Step([i, j], pc, Some(Swap(i, j)));
    ReplaySnoc(base, t0, s);
    CountsSnoc(t0, s);
    t := t0 + [s];
    a[i], a[j] := a[j], a[i];
  }

  /** `s` with its first `l` and last `l` values exchanged with their mirror images. */
  function EndsReversed(s: seq<string>, l: nat): (r: seq<string>)
    requires 2 * l <= |s|
    ensures |r| == |s|
    ensures forall k :: 0 <= k < |s| ==> r[k] == if k < l || |s| - l <= k then s[|s| - 1 - k] else s[k]
  {
    seq(|s|, k requires 0 <= k < |s| => if k < l || |s| - l <= k then s[|s| - 1 - k] else s[k])
  }

  /** Exchanging the next mirror pair reverses one more pair of ends. */
  lemma EndsReversedStep(s: seq<string>, l: nat)
    requires 2 * l + 2 <= |s|
    ensures var cur := EndsReversed(s, l); var r := |s| - 1 - l;
      cur[l := cur[r]][r := cur[l]] == EndsReversed(s, l + 1)
  {
  }

  /** The indices stop past each other, after a swap, exactly when the length is even and at least two. */
  lemma PointersMeet(n: int, l: int, r: int)
    requires 0 <= l && r == n - 1 - l && 2 * l <= n && r <= l
    ensures 0 < l && r < l <==> n >= 2 && n % 2 == 0
  {
    assert 2 * l == n || 2 * l == n - 1;
  }

  /** Once the two indices meet, every value is at its mirror position. */
  lemma EndsReversedAll(s: seq<string>, l: nat)
    requires 2 * l <= |s| <= 2 * l + 1
    ensures EndsReversed(s, l) == Reversed(s)
  {
    var e, r := EndsReversed(s, l), Reversed(s);
    forall k | 0 <= k < |s| ensures e[k] == r[k] {
      if l <= k < |s| - l {
        assert k == |s| - 1 - k;
      }
    }
  }

  /** Every mutation is a swap of a mirror pair of an array of length `n`. */
  ghost predicate MirrorSwaps(steps: seq<Step>, n: int) {
    forall s <- steps :: s.op.Some? ==> s.op.value.Swap? && s.op.value.i + s.op.value.j == n - 1
  }

  /**
   * `generateReverseTrace`: swap the two ends and move both indices inwards until
   * they meet. The array ends reversed, after exactly ⌊n/2⌋ swaps, each of a mirror
   * pair, and the trace's swaps replay to the same result.
   */
  method ReverseTrace(a: array<string>) returns (t: seq<Step>)
    modifies a
    ensures a[..] == Reversed(old(a[..]))
    ensures Replay(old(a[..]), t) == a[..]
    ensures SwapCount(t) == a.Length / 2
    ensures MirrorSwaps(t, a.Length)
    ensures |t| >= 1 && (t[|t| - 1].op.Some? <==> a.Length >= 2 && a.Length % 2 == 0)
  {
    ghost var orig := a[..];
    var n := a.Length;
    var l, r := 0, n - 1;
    t := [Step([l, r], [1], None)];
    assert EndsReversed(orig, 0) == orig;
    while l < r
      invariant 0 <= l && r == n - 1 - l && 2 * l <= n
      invariant a[..] == EndsReversed(orig, l)
      invariant Replay(orig, t) == a[..]
      invariant SwapCount(t) == l
      invariant MirrorSwaps(t, n)
      invariant |t| >= 1 && (t[|t| - 1].op.Some? <==> 0 < l && r < l)
    {
      t := ReverseRound(a, l, orig, t);
      l, r := l + 1, r - 1;
    }
    EndsReversedAll(orig, l);
    PointersMeet(n, l, r);
    if n <= 1 {
      ReplaySnoc(orig, t, Note([5]));
      CountsSnoc(t, Note([5]));
      t := t + [Note([5])];
    }
  }

  /**
   * One round of the reverse loop: swap the mirror pair at `l`, then, while the
   * indices have not crossed, record their move inwards.
   */
  method ReverseRound(a: array<string>, l: int, ghost orig: seq<string>, t0: seq<Step>) returns (t: seq<Step>)
    requires 0 <= l && 2 * l + 2 <= a.Length == |orig|
    requires a[..] == EndsReversed(orig, l) && Replay(orig, t0) == a[..]
    requires SwapCount(t0) == l && MirrorSwaps(t0, a.Length)
    modifies a
    ensures a[..] == EndsReversed(orig, l + 1) && Replay(orig, t) == a[..]
    ensures SwapCount(t) == l + 1 && MirrorSwaps(t, a.Length)
    ensures |t| >= 1 && (t[|t| - 1].op.Some? <==> a.Length - 1 - (l + 1) < l + 1)
  {
    var r := a.Length - 1 - l;
    EndsReversedStep(orig, l);
    t := SwapStep(a, l, r, [2, 3], orig, t0);
    if l + 1 <= r - 1 {
      var move := Step([l + 1, r - 1], [4], None);
      ReplaySnoc(orig, t, move);
      CountsSnoc(t, move);
      t := t + [move];
    }
  }

  /**
   * A swap of a mirror pair commutes with reversal, so replaying mirror swaps on the
   * reversed values gives the reversal of replaying them on the values.
   */
  lemma {:induction false} MirrorReplayReversed(b: seq<string>, t: seq<Step>)
    requires MirrorSwaps(t, |b|)
    ensures Replay(Reversed(b), t) == Reversed(Replay(b, t))
  {
    if t != [] {
      var init := t[..|t| - 1];
      assert forall k :: 0 <= k < |init| ==> init[k] == t[k];
      MirrorReplayReversed(b, init);
      var p := Replay(b, init);
      var last := t[|t| - 1];
      assert last in t;
      if last.op.Some? {
        MirrorSwapReversed(p, last.op.value);
      }
    }
  }

  /** One swap of a mirror pair commutes with reversal. */
  lemma MirrorSwapReversed(p: seq<string>, op: Op)
    requires op.Swap? && op.i + op.j == |p| - 1
    ensures ApplyOp(Reversed(p), op) == Reversed(ApplyOp(p, op))
  {
    var n, i, j := |p|, op.i, op.j;
    if 0 <= i < n && 0 <= j < n {
      var lhs, rhs := ApplyOp(Reversed(p), op), Reversed(ApplyOp(p, op));
      var q := ApplyOp(p, op);
      forall k | 0 <= k < n ensures lhs[k] == rhs[k] {
        assert rhs[k] == q[n - 1 - k];
        if k == j {
          assert lhs[k] == p[n - 1 - i];
        } else if k == i {
          assert lhs[k] == p[n - 1 - j];
        } else {
          assert lhs[k] == p[n - 1 - k];
        }
      }
    }
  }

  /**
   * The reverse trace replayed on the already reversed values undoes the reversal:
   * its mirror swaps bring back the values in their first order.
   */
  lemma ReverseReplayRestores(b: seq<string>, t: seq<Step>)
    requires MirrorSwaps(t, |b|) && Replay(b, t) == Reversed(b)
    ensures Replay(Reversed(b), t) == b
  {
    MirrorReplayReversed(b, t);
    ReversedTwice(b);
  }

  // ---------------------------------------------------------------------------
  // Bubble sort
  // ---------------------------------------------------------------------------

  /** Every adjacent pair is in order: `cmp(a[k], a[k + 1]) <= 0`. */
  ghost predicate AdjacentSorted(s: seq<string>, cmp: (string, string) -> int) {
    forall k :: 0 <= k < |s| - 1 ==> cmp(s[k], s[k + 1]) <= 0
  }

  /** Every mutation is a swap of a neighbouring pair inside an array of length `n`. */
  ghost predicate AdjacentSwaps(steps: seq<Step>, n: int) {
    forall s <- steps :: s.op.Some? ==> s.op.value.Swap? && 0 <= s.op.value.i && s.op.value.j == s.op.value.i + 1 < n
  }

  /**
   * One pass of bubble sort over `a[..bound]`: compare each neighbouring pair and swap
   * it when `cmp` puts it out of order. The largest value of the prefix ends at its
   * last cell; without a swap the prefix was already in order and is untouched.
   */
  method BubblePass(a: array<string>, cmp: (string, string) -> int, bound: int, ghost base: seq<string>,
                    t0: seq<Step>)
    returns (t: seq<Step>, swapped: bool)
    requires Comparator(cmp)
    requires 2 <= bound <= a.Length
    requires Replay(base, t0) == a[..] && AdjacentSwaps(t0, a.Length)
    modifies a
    ensures Replay(base, t) == a[..] && AdjacentSwaps(t, a.Length)
    ensures PassCount(t) == PassCount(t0)
    ensures PassInv(a[..], old(a[..]), cmp, bound, bound - 1, swapped)
  {
    t := t0;
    swapped := false;
    ghost var orig := a[..];
    PassInvStart(orig, cmp, bound);
    for j := 0 to bound - 1
      invariant Replay(base, t) == a[..] && AdjacentSwaps(t, a.Length)
      invariant PassCount(t) == PassCount(t0)
      invariant PassInv(a[..], orig, cmp, bound, j, swapped)
    {
      ghost var prev := a[..];
      var didSwap;
      t, didSwap := CompareStep(a, cmp, j, base, t);
      PassInvStep(prev, a[..], orig, cmp, bound, j, swapped, didSwap);
      swapped := swapped || didSwap;
    }
    assert PassInv(a[..], orig, cmp, bound, bound - 1, swapped) && orig == old(a[..]);
  }

  /**
   * What a pass has established after comparing up to `j`: the values are kept, the
   * cells from `bound` on are untouched, `cur[j]` is the largest of `cur[..j + 1]`,
   * without a swap so far nothing moved and the pairs seen were in order, and a prefix
   * that was in order to begin with is never swapped.
   */
  ghost predicate PassInv(cur: seq<string>, orig: seq<string>, cmp: (string, string) -> int, bound: int, j: int,
                          swapped: bool) {
    |cur| == |orig| && 0 <= j < bound <= |orig|
    && multiset(cur) == multiset(orig)
    && cur[bound..] == orig[bound..]
    && (forall p :: 0 <= p <= j ==> cmp(cur[p], cur[j]) <= 0)
    && (!swapped ==> cur == orig && forall k :: 0 <= k < j ==> cmp(cur[k], cur[k + 1]) <= 0)
    && ((forall k :: 0 <= k < bound - 1 ==> cmp(orig[k], orig[k + 1]) <= 0) ==> !swapped)
  }

  /** Before the first comparison nothing has moved. */
  lemma PassInvStart(cur: seq<string>, cmp: (string, string) -> int, bound: int)
    requires Comparator(cmp) && 2 <= bound <= |cur|
    ensures PassInv(cur, cur, cmp, bound, 0, false)
  {
    assert cmp(cur[0], cur[0]) <= 0;
  }

  /** One comparison step keeps `PassInv`, one position further on. */
  lemma PassInvStep(prev: seq<string>, after: seq<string>, orig: seq<string>, cmp: (string, string) -> int,
                    bound: int, j: int, swapped: bool, didSwap: bool)
    requires Comparator(cmp)
    requires PassInv(prev, orig, cmp, bound, j, swapped) && j + 1 < bound
    requires didSwap <==> cmp(prev[j], prev[j + 1]) > 0
    requires didSwap ==> after == prev[j := prev[j + 1]][j + 1 := prev[j]]
    requires !didSwap ==> after == prev
    ensures PassInv(after, orig, cmp, bound, j + 1, swapped || didSwap)
  {
    LargestMovesRight(prev, after, cmp, j, didSwap);
    assert after[bound..] == prev[bound..];
  }

  /** Compare the neighbours at `j` and `j + 1`, swapping them when `cmp` puts them out of order. */
  method CompareStep(a: array<string>, cmp: (string, string) -> int, j: int, ghost base: seq<string>, t0: seq<Step>)
    returns (t: seq<Step>, swapped: bool)
    requires 0 <= j && j + 1 < a.Length
    requires Replay(base, t0) == a[..] && AdjacentSwaps(t0, a.Length)
    modifies a
    ensures Replay(base, t) == a[..] && AdjacentSwaps(t, a.Length) && PassCount(t) == PassCount(t0)
    ensures swapped <==> cmp(old(a[j]), old(a[j + 1])) > 0
    ensures swapped ==> a[..] == old(a[..])[j := old(a[j + 1])][j + 1 := old(a[j])]
    ensures !swapped ==> a[..] == old(a[..])
  {
    var compare := Step([j, j + 1], [3], None);
    ReplaySnoc(base, t0, compare);
    CountsSnoc(t0, compare);
    t := t0 + [compare];
    swapped := cmp(a[j], a[j + 1]) > 0;
    if swapped {
      t := SwapStep(a, j, j + 1, [4], base, t);
    }
  }

  /**
   * After comparing at `j`, the largest of `s[..j + 1]` has moved to `j + 1` (or stayed
   * there); the swap, if any, keeps the values and everything outside the pair.
   */
  lemma LargestMovesRight(before: seq<string>, after: seq<string>, cmp: (string, string) -> int, j: int, swapped: bool)
    requires Comparator(cmp)
    requires 0 <= j && j + 1 < |before|
    requires forall p :: 0 <= p <= j ==> cmp(before[p], before[j]) <= 0
    requires swapped <==> cmp(before[j], before[j + 1]) > 0
    requires swapped ==> after == before[j := before[j + 1]][j + 1 := before[j]]
    requires !swapped ==> after == before
    ensures forall p :: 0 <= p <= j + 1 ==> cmp(after[p], after[j + 1]) <= 0
    ensures multiset(after) == multiset(before)
    ensures forall k :: 0 <= k < |before| && k != j && k != j + 1 ==> after[k] == before[k]
  {
    if swapped {
      assert cmp(before[j + 1], before[j]) <= 0;
      forall p | 0 <= p <= j + 1 ensures cmp(after[p], after[j + 1]) <= 0 {
        if p < j {
          assert after[p] == before[p];
        }
      }
    } else {
      forall p | 0 <= p <= j + 1 ensures cmp(after[p], after[j + 1]) <= 0 {
        if p <= j {
          assert cmp(before[p], before[j]) <= 0;
        }
      }
    }
  }

  /**
   * What the passes so far have established over the array `cur` of length `n`: the
   * values are kept, the last `i` cells are in order, and every value before them lies
   * below every value among them.
   */
  ghost predicate SortInv(cur: seq<string>, orig: seq<string>, cmp: (string, string) -> int, i: int) {
    |cur| == |orig| && 0 <= i <= |cur|
    && multiset(cur) == multiset(orig)
    && (forall k :: |cur| - i <= k < |cur| - 1 ==> cmp(cur[k], cur[k + 1]) <= 0)
    && (forall x, q :: x in cur[..|cur| - i] && |cur| - i <= q < |cur| ==> cmp(x, cur[q]) <= 0)
  }

  /**
   * `generateBubbleSortTrace`: passes over a shrinking prefix, stopping after the first
   * pass without a swap. The array ends a permutation of the input with every neighbouring
   * pair in order; the trace's swaps are neighbouring pairs and replay to that result;
   * an input already in order is settled by a single pass with no swap.
   */
  method BubbleSortTrace(a: array<string>, cmp: (string, string) -> int) returns (t: seq<Step>)
    requires Comparator(cmp)
    modifies a
    ensures multiset(a[..]) == multiset(old(a[..]))
    ensures AdjacentSorted(a[..], cmp)
    ensures Replay(old(a[..]), t) == a[..] && AdjacentSwaps(t, a.Length)
    ensures AdjacentSorted(old(a[..]), cmp) && a.Length >= 2 ==> a[..] == old(a[..]) && PassCount(t) == 1
    ensures |t| >= 1 && t[|t| - 1] == Note([6])
  {
    ghost var orig := a[..];
    var n := a.Length;
    t := [Note([1])];
    var i := 0;
    var done := false;
    while i < n - 1 && !done
      invariant 0 <= i <= n && (n >= 1 ==> i <= n - 1)
      invariant SortInv(a[..], orig, cmp, i)
      invariant done ==> AdjacentSorted(a[..], cmp)
      invariant Replay(orig, t) == a[..] && AdjacentSwaps(t, n)
      invariant PassCount(t) == i
      invariant AdjacentSorted(orig, cmp) ==> a[..] == orig && i == (if done then 1 else 0)
    {
      var swapped;
      t, swapped := SortPass(a, cmp, i, orig, t);
      if !swapped {
        ReplaySnoc(orig, t, Note([6]));
        CountsSnoc(t, Note([6]));
        t := t + [Note([6])];
        done := true;
      }
      i := i + 1;
    }
    if !done {
      SortFinished(a[..], orig, cmp, i);
    }
    ReplaySnoc(orig, t, Note([6]));
    CountsSnoc(t, Note([6]));
    t := t + [Note([6])];
  }

  /** Once the ordered tail covers all but the first cell, the whole array is in order. */
  lemma SortFinished(cur: seq<string>, orig: seq<string>, cmp: (string, string) -> int, i: int)
    requires SortInv(cur, orig, cmp, i) && i >= |cur| - 1
    ensures AdjacentSorted(cur, cmp)
  {
    forall k | 0 <= k < |cur| - 1 ensures cmp(cur[k], cur[k + 1]) <= 0 {
      if k < |cur| - i {
        assert cur[k] in cur[..|cur| - i];
      }
    }
  }

  /** Pass number `i + 1` of the sort: its opening step, the pass itself and its closing step. */
  method SortPass(a: array<string>, cmp: (string, string) -> int, i: int, ghost orig: seq<string>, t0: seq<Step>)
    returns (t: seq<Step>, swapped: bool)
    requires Comparator(cmp)
    requires SortInv(a[..], orig, cmp, i) && i + 2 <= a.Length
    requires Replay(orig, t0) == a[..] && AdjacentSwaps(t0, a.Length)
    modifies a
    ensures SortInv(a[..], orig, cmp, i + 1)
    ensures Replay(orig, t) == a[..] && AdjacentSwaps(t, a.Length)
    ensures PassCount(t) == PassCount(t0) + 1
    ensures !swapped ==> AdjacentSorted(a[..], cmp)
    ensures AdjacentSorted(old(a[..]), cmp) ==> !swapped && a[..] == old(a[..])
  {
    ReplaySnoc(orig, t0, Note([2]));
    CountsSnoc(t0, Note([2]));
    t := t0 + [Note([2])];
    ghost var before := a[..];
    t, swapped := BubblePass(a, cmp, a.Length - i, orig, t);
    PassKeepsOrder(before, a[..], orig, cmp, i, swapped);
    ReplaySnoc(orig, t, Visit(a.Length - 1 - i, [5]));
    CountsSnoc(t, Visit(a.Length - 1 - i, [5]));
    t := t + [Visit(a.Length - 1 - i, [5])];
  }

  /**
   * A pass over `a[..n - i]` extends `SortInv` by one cell; a pass without a swap
   * leaves the whole array in order; an array already in order is not swapped.
   */
  lemma PassKeepsOrder(before: seq<string>, after: seq<string>, orig: seq<string>, cmp: (string, string) -> int,
                       i: int, swapped: bool)
    requires SortInv(before, orig, cmp, i) && i + 2 <= |before|
    requires PassInv(after, before, cmp, |before| - i, |before| - i - 1, swapped)
    ensures SortInv(after, orig, cmp, i + 1)
    ensures !swapped ==> AdjacentSorted(after, cmp)
    ensures AdjacentSorted(before, cmp) ==> !swapped
  {
    var bound := |before| - i;
    PrefixKept(before, after, bound);
    forall k | bound - 1 <= k < |after| - 1 ensures cmp(after[k], after[k + 1]) <= 0 {
      if k == bound - 1 {
        assert after[k] in after[..bound];
      }
    }
    forall x, q | x in after[..bound - 1] && bound - 1 <= q < |after| ensures cmp(x, after[q]) <= 0 {
      if q > bound - 1 {
        assert x in after[..bound];
      }
    }
  }

  /** A permutation that keeps the cells from `bound` on keeps the values of the prefix before it. */
  lemma PrefixKept(before: seq<string>, after: seq<string>, bound: int)
    requires 0 <= bound <= |before| == |after|
    requires multiset(after) == multiset(before) && after[bound..] == before[bound..]
    ensures forall x :: x in after[..bound] ==> x in before[..bound]
  {
    calc {
      multiset(after[..bound]) + multiset(after[bound..]);
      { assert after == after[..bound] + after[bound..]; }
      multiset(after);
      multiset(before);
      { assert before == before[..bound] + before[bound..]; }
      multiset(before[..bound]) + multiset(before[bound..]);
      multiset(before[..bound]) + multiset(after[bound..]);
    }
    var m, m', c := multiset(after[..bound]), multiset(before[..bound]), multiset(after[bound..]);
    forall x ensures m[x] == m'[x] {
      assert (m + c)[x] == (m' + c)[x];
    }
    assert m == m';
    forall x | x in after[..bound] ensures x in before[..bound] {
      assert x in multiset(after[..bound]);
      assert x in multiset(before[..bound]);
    }
  }
}
