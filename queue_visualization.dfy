/**
 * The queue visualiser: a circular buffer of `cap` slots with a front index and a
 * size. Live values occupy the `size` slots from `front` on, wrapping around; every
 * other slot holds the empty string. Each handler commits at most one change and
 * returns the trace it builds for the animation.
 */
module QueueVisualization {
  import opened Prelude
  import opened Text
  import opened DataStructureOperations

  const InitialCapacity := 7
  const MinCapacity := 2
  const MaxCapacity := 20

  /** The messages of the visualiser's own queue traces. */
  datatype QueueMsg =
    | CheckingCapacity              // "Checking capacity..."
    | FullOverflow                  // "Queue is full - overflow!"
    | CheckingIfFull                // "Checking if queue is full..."
    | InsertingAtRear(rear: int)    // "Inserting at rear index r"
    | Enqueued(value: string)       // "Enqueued "v""
    | IncrementingSize              // "Incrementing size"
    | CheckingIfEmpty               // "Checking if queue is empty..."
    | EmptyUnderflow                // "Queue is empty - underflow!"
    | RemovingFromFront(front: int) // "Removing from front index f"
    | UpdatingFront                 // "Updating front pointer"
    | QueueIsEmpty                  // "Queue is empty"
    | FrontIs(value: string, front: int)
    | CheckingSize(size: int)
    | IsEmptyIs(result: bool)
    | CheckingSizeAndCap(size: int, cap: int)
    | IsFullIs(result: bool)

  /** A slot list of `n` empty strings, as `Array(n).fill('')` makes. */
  function EmptySlots(n: nat): (r: seq<string>)
    ensures |r| == n && forall k :: 0 <= k < n ==> r[k] == ""
  {
    seq(n, _ => "")
  }

  /** `x % cap` for `0 <= x < 2 * cap`: an index one lap past the end wraps to the start. */
  function Wrap(x: int, cap: int): (r: int)
    requires 0 <= x < 2 * cap
    ensures 0 <= r < cap && (r == x || r == x - cap)
  {
    if x < cap then x else x - cap
  }

  /** The source computes indices with `%`; on the indices it meets that is `Wrap`. */
  lemma WrapIsMod(x: int, cap: int)
    requires 0 <= x < 2 * cap
    ensures x % cap == Wrap(x, cap)
  {
    if x < cap {
      assert x == 0 * cap + x;
    } else {
      assert x == 1 * cap + (x - cap);
    }
  }

  /** How many steps slot `k` lies after slot `front`, going round the buffer. */
  function Offset(k: int, front: int, cap: int): (d: int)
    requires 0 <= k < cap && 0 <= front < cap
    ensures 0 <= d < cap && Wrap(front + d, cap) == k
  {
    Wrap(k - front + cap, cap)
  }

  /** Whether slot `k` is one of the `size` slots from `front` on, wrapping around. */
  predicate Live(k: int, front: int, size: int, cap: int)
    requires 0 <= k < cap && 0 <= front < cap
  {
    Offset(k, front, cap) < size
  }

  /**
   * The buffer invariant: the indices stay in range, and a slot is non-empty exactly
   * when it holds a live value.
   */
  ghost predicate Buffer(slots: seq<string>, front: int, size: int, cap: int) {
    |slots| == cap && 0 <= front < cap && 0 <= size <= cap
    && forall k :: 0 <= k < cap ==> (slots[k] != "" <==> Live(k, front, size, cap))
  }

  /** The `size` values from `front` on, wrapping around. */
  ghost function Window(slots: seq<string>, front: int, size: int, cap: int): (r: seq<string>)
    requires Buffer(slots, front, size, cap)
    ensures |r| == size && forall i :: 0 <= i < size ==> r[i] == slots[Wrap(front + i, cap)]
  {
    seq(size, i requires 0 <= i < size => slots[Wrap(front + i, cap)])
  }

  class QueueView {
    var cap: int
    var slots: seq<string>
    var front: int
    var size: int

    /**
     * The buffer invariant: the indices stay in range, and a slot is non-empty exactly
     * when it holds a live value.
     */
    ghost predicate Valid()
      reads this
    {
      MinCapacity <= cap <= MaxCapacity && Buffer(slots, front, size, cap)
    }

    /** The values in the queue, front first. */
    ghost function Contents(): (r: seq<string>)
      requires Valid()
      reads this
      ensures |r| == size
    {
      Window(slots, front, size, cap)
    }

    constructor()
      ensures Valid() && cap == InitialCapacity && front == 0 && size == 0 && Contents() == []
    {
      cap := InitialCapacity;
      slots := EmptySlots(InitialCapacity);
      front := 0;
      size := 0;
    }

    predicate IsEmpty()
      reads this
    {
      size == 0
    }

    predicate IsFull()
      reads this
    {
      size == cap
    }

    /** `rearIdx`: the slot the next value goes to. */
    function Rear(): (r: int)
      requires Valid()
      reads this
      ensures r == Wrap(front + size, cap)
    {
      WrapIsMod(front + size, cap);
      (front + size) % cap
    }

    /**
     * `resetAll(n)`: the capacity becomes `n` clamped to [2, 20] (0 counts as 2) and the
     * queue is emptied.
     */
    method ResetAll(n: int)
      modifies this
      ensures Valid() && cap == Clamp(if n == 0 then 2 else n, MinCapacity, MaxCapacity)
      ensures slots == EmptySlots(cap) && front == 0 && size == 0 && Contents() == []
    {
      var N := Max(MinCapacity, Min(MaxCapacity, if n == 0 then 2 else n));
      cap := N;
      slots := EmptySlots(N);
      front := 0;
      size := 0;
    }

    /**
     * `onEnqueue`: the value is trimmed; an empty one is refused without a trace, a full
     * queue shows the overflow trace; otherwise the value is written at the rear slot
     * and becomes the last value of the queue.
     */
    method Enqueue(value: string) returns (trace: Option<seq<Frame<QueueMsg>>>)
      requires Valid()
      modifies this
      ensures Valid() && cap == old(cap) && front == old(front)
      ensures Strip(value) == "" ==> trace == None && unchanged(this)
      ensures Strip(value) != "" && old(size) == cap ==>
        && unchanged(this)
        && trace == Some([Frame(CheckingCapacity, [], [1]), Frame(FullOverflow, [], [2])])
      ensures Strip(value) != "" && old(size) < cap ==>
        && slots == old(slots)[old(Rear()) := Strip(value)] && size == old(size) + 1
        && Contents() == old(Contents()) + [Strip(value)]
        && trace == Some([Frame(CheckingIfFull, [], [1]), Frame(InsertingAtRear(old(Rear())), [old(Rear())], [2]),
                          Frame(Enqueued(Strip(value)), [old(Rear())], [3]), Frame(IncrementingSize, [], [4])])
    {
      var v := Strip(value);
      if v == "" {
        return None;
      }
      if IsFull() {
        return Some([Frame(CheckingCapacity, [], [1]), Frame(FullOverflow, [], [2])]);
      }
      var idx := Rear();
      trace := Some([Frame(CheckingIfFull, [], [1]), Frame(InsertingAtRear(idx), [idx], [2]),
                     Frame(Enqueued(v), [idx], [3]), Frame(IncrementingSize, [], [4])]);
      EnqueueStep(slots, front, size, cap, v);
      slots := slots[idx := v];
      size := size + 1;
    }

    /**
     * `onDequeue`: an empty queue shows the underflow trace; otherwise the front slot is
     * cleared, the front moves on by one (wrapping) and the value removed is reported:
     * it is the first value of the queue, and the rest stay in order.
     */
    method Dequeue() returns (trace: seq<Frame<QueueMsg>>, removed: Option<string>)
      requires Valid()
      modifies this
      ensures Valid() && cap == old(cap)
      ensures old(size) == 0 ==>
        && unchanged(this) && removed == None
        && trace == [Frame(CheckingIfEmpty, [], [1]), Frame(EmptyUnderflow, [], [2])]
      ensures old(size) > 0 ==>
        && slots == old(slots)[old(front) := ""] && front == (old(front) + 1) % cap && size == old(size) - 1
        && removed == Some(old(Contents())[0]) && Contents() == old(Contents())[1..]
        && trace == [Frame(CheckingIfEmpty, [], [1]), Frame(RemovingFromFront(old(front)), [old(front)], [2]),
                     Frame(UpdatingFront, [], [3])]
    {
      if IsEmpty() {
        return [Frame(CheckingIfEmpty, [], [1]), Frame(EmptyUnderflow, [], [2])], None;
      }
      var idx := front;
      removed := Some(slots[idx]);
      trace := [Frame(CheckingIfEmpty, [], [1]), Frame(RemovingFromFront(idx), [idx], [2]),
                Frame(UpdatingFront, [], [3])];
      DequeueStep(slots, front, size, cap);
      slots := slots[idx := ""];
      WrapIsMod(front + 1, cap);
      front := (front + 1) % cap;
      size := size - 1;
    }

    /** `onPeek`: the trace names the front value, or reports an empty queue. */
    function PeekTrace(): (t: seq<Frame<QueueMsg>>)
      requires Valid()
      reads this
      ensures |t| == 2
      ensures size == 0 ==> t[1].msg == QueueIsEmpty
      ensures size > 0 ==> t[1] == Frame(FrontIs(Contents()[0], front), [front], [2])
    {
      if IsEmpty() then [Frame(CheckingIfEmpty, [], [1]), Frame(QueueIsEmpty, [], [2])]
      else [Frame(CheckingIfEmpty, [], [1]), Frame(FrontIs(slots[front], front), [front], [2])]
    }

    /** `onIsEmpty` and `onIsFull`: the answer is in the second frame. */
    function IsEmptyQuery(): (t: seq<Frame<QueueMsg>>)
      reads this
      ensures |t| == 2 && t[1].msg == IsEmptyIs(size == 0)
    {
      [Frame(CheckingSize(size), [], [1]), Frame(IsEmptyIs(IsEmpty()), [], [2])]
    }

    function IsFullQuery(): (t: seq<Frame<QueueMsg>>)
      reads this
      ensures |t| == 2 && t[1].msg == IsFullIs(size == cap)
    {
      [Frame(CheckingSizeAndCap(size, cap), [], [1]), Frame(IsFullIs(IsFull()), [], [2])]
    }

    /** `onClear`: `resetAll` at the current capacity. */
    method Clear()
      requires Valid()
      modifies this
      ensures Valid() && cap == old(cap) && size == 0 && front == 0 && Contents() == []
    {
      ResetAll(cap);
    }

    /**
     * `onSeed`: reset at a capacity of at least 3, then A, B, C in the first three
     * slots, front 0, size 3.
     */
    method Seed()
      requires Valid()
      modifies this
      ensures Valid() && cap == Max(old(cap), 3) && front == 0 && size == 3
      ensures slots == ["A", "B", "C"] + EmptySlots(cap - 3) && Contents() == ["A", "B", "C"]
    {
      var N := Max(cap, 3);
      ResetAll(N);
      slots := ["A", "B", "C"] + EmptySlots(N - 3);
      size := 3;
      front := 0;
      forall k | 0 <= k < cap ensures slots[k] != "" <==> Live(k, front, size, cap) {
        assert Offset(k, 0, cap) == k;
      }
    }
  }

  /** Two different positions among the first `size` from `front` are different slots. */
  lemma WindowDistinct(front: int, i: int, size: int, cap: int)
    requires 0 <= front < cap && 0 <= i < size < cap
    ensures Wrap(front + i, cap) != Wrap(front + size, cap)
  {
  }

  /** Position `i` from the next front is position `i + 1` from the old one, never the old front itself. */
  lemma ShiftedWindow(front: int, i: int, size: int, cap: int)
    requires 0 <= front < cap && 0 <= i && i + 1 < size <= cap
    ensures Wrap(Wrap(front + 1, cap) + i, cap) == Wrap(front + (i + 1), cap)
    ensures Wrap(front + (i + 1), cap) != front
  {
  }

  /** Writing a non-empty value at the rear slot of a queue with room keeps the buffer invariant. */
  lemma EnqueueKeepsInvariant(before: seq<string>, after: seq<string>, front: int, size: int, cap: int, v: string)
    requires 0 < cap == |before| && 0 <= front < cap && 0 <= size < cap && v != ""
    requires forall k :: 0 <= k < cap ==> (before[k] != "" <==> Live(k, front, size, cap))
    requires after == before[Wrap(front + size, cap) := v]
    ensures forall k :: 0 <= k < cap ==> (after[k] != "" <==> Live(k, front, size + 1, cap))
  {
    var rear := Wrap(front + size, cap);
    forall k | 0 <= k < cap ensures after[k] != "" <==> Live(k, front, size + 1, cap) {
      if k == rear {
        assert Offset(k, front, cap) == size;
      }
    }
  }

  /** Clearing the front slot and moving the front on by one keeps the buffer invariant. */
  lemma DequeueKeepsInvariant(before: seq<string>, after: seq<string>, front: int, size: int, cap: int)
    requires 0 < cap == |before| && 0 <= front < cap && 0 < size <= cap
    requires forall k :: 0 <= k < cap ==> (before[k] != "" <==> Live(k, front, size, cap))
    requires after == before[front := ""]
    ensures forall k :: 0 <= k < cap ==> (after[k] != "" <==> Live(k, Wrap(front + 1, cap), size - 1, cap))
  {
    var next := Wrap(front + 1, cap);
    forall k | 0 <= k < cap ensures after[k] != "" <==> Live(k, next, size - 1, cap) {
      if k == front {
        assert Offset(k, next, cap) == cap - 1;
      } else {
        assert Offset(k, next, cap) == Offset(k, front, cap) - 1;
      }
    }
  }

  /** Writing `v` at the rear of a buffer with room appends `v` to its values. */
  lemma EnqueueStep(slots: seq<string>, front: int, size: int, cap: int, v: string)
    requires Buffer(slots, front, size, cap) && size < cap && v != ""
    ensures Buffer(slots[Wrap(front + size, cap) := v], front, size + 1, cap)
    ensures Window(slots[Wrap(front + size, cap) := v], front, size + 1, cap) == Window(slots, front, size, cap) + [v]
  {
    var after := slots[Wrap(front + size, cap) := v];
    EnqueueKeepsInvariant(slots, after, front, size, cap, v);
    var w, w' := Window(slots, front, size, cap), Window(after, front, size + 1, cap);
    forall i | 0 <= i < size ensures w'[i] == w[i] {
      WindowDistinct(front, i, size, cap);
    }
  }

  /** Clearing the front of a non-empty buffer and moving on drops its first value. */
  lemma DequeueStep(slots: seq<string>, front: int, size: int, cap: int)
    requires Buffer(slots, front, size, cap) && size > 0
    ensures Buffer(slots[front := ""], Wrap(front + 1, cap), size - 1, cap)
    ensures Window(slots, front, size, cap)[0] == slots[front]
    ensures Window(slots[front := ""], Wrap(front + 1, cap), size - 1, cap) == Window(slots, front, size, cap)[1..]
  {
    var after := slots[front := ""];
    DequeueKeepsInvariant(slots, after, front, size, cap);
    var w, w' := Window(slots, front, size, cap), Window(after, Wrap(front + 1, cap), size - 1, cap);
    forall i | 0 <= i < size - 1 ensures w'[i] == w[i + 1] {
      ShiftedWindow(front, i, size, cap);
    }
  }

  /** First in, first out: two values enqueued into an empty queue leave in the order they came. */
  method FifoOrder(q: QueueView, a: string, b: string) returns (first: Option<string>, second: Option<string>)
    requires q.Valid() && q.size == 0 && Strip(a) != "" && Strip(b) != ""
    modifies q
    ensures q.Valid() && q.size == 0
    ensures first == Some(Strip(a)) && second == Some(Strip(b))
  {
    var t1 := q.Enqueue(a);
    var t2 := q.Enqueue(b);
    var t3;
    t3, first := q.Dequeue();
    t3, second := q.Dequeue();
  }
}
