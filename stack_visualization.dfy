/**
 * The stack visualiser's committed state: the values from bottom to top and the
 * capacity. Each handler either leaves the state alone or commits one change, and
 * returns the trace it animates.
 */
module StackVisualization {
  import opened Prelude
  import opened DataStructureOperations

  const InitialCapacity := 6
  const MinCapacity := 1
  const MaxCapacity := 24

  class StackView {
    /** The values, bottom first: the top is the last. */
    var stack: seq<string>
    var capacity: int

    /** The stack never holds more values than its capacity, which stays in range. */
    ghost predicate Valid()
      reads this
    {
      MinCapacity <= capacity <= MaxCapacity && |stack| <= capacity
    }

    constructor()
      ensures stack == [] && capacity == InitialCapacity && Valid()
    {
      stack := [];
      capacity := InitialCapacity;
    }

    predicate IsEmpty()
      reads this
    {
      |stack| == 0
    }

    predicate IsFull()
      reads this
    {
      |stack| >= capacity
    }

    /** The top value, `null` on an empty stack. */
    function Top(): (r: Option<string>)
      reads this
      ensures r.Some? <==> stack != []
      ensures r.Some? ==> r.value == stack[|stack| - 1]
    {
      if IsEmpty() then None else Some(stack[|stack| - 1])
    }

    /**
     * `handlePush`: an empty value is refused without a trace; a full stack shows the
     * overflow trace and keeps its values; otherwise the value goes on top.
     */
    method Push(value: string) returns (trace: Option<seq<Frame<Msg>>>)
      requires Valid()
      modifies this
      ensures Valid() && capacity == old(capacity)
      ensures value == "" ==> trace == None && stack == old(stack)
      ensures value != "" ==> trace == Some(PushTrace(value, |old(stack)|, capacity))
      ensures value != "" && old(|stack|) >= capacity ==> stack == old(stack)
      ensures value != "" && old(|stack|) < capacity ==> stack == old(stack) + [value]
    {
      if value == "" {
        return None;
      }
      trace := Some(PushTrace(value, |stack|, capacity));
      if IsFull() {
        return;
      }
      stack := stack + [value];
    }

    /**
     * `handlePop`: an empty stack shows the underflow trace; otherwise the trace names
     * the top value and the top is removed.
     */
    method Pop() returns (trace: seq<Frame<Msg>>)
      requires Valid()
      modifies this
      ensures Valid() && capacity == old(capacity)
      ensures old(stack) == [] ==> stack == [] && trace == PopTrace(0, None)
      ensures old(stack) != [] ==> stack == old(stack)[..|old(stack)| - 1]
      ensures old(stack) != [] ==> trace == PopTrace(|old(stack)|, Some(old(stack)[|old(stack)| - 1]))
    {
      if IsEmpty() {
        return PopTrace(0, None);
      }
      trace := PopTrace(|stack|, Top());
      stack := stack[..|stack| - 1];
    }

    /** `handlePeek`, `handleIsEmpty`, `handleIsFull`: traces only, the state is untouched. */
    function PeekTrace(): (t: seq<Frame<Msg>>)
      reads this
      ensures |t| == 2 && (t[1].msg == NothingToPeek(Stack) <==> stack == [])
      ensures stack != [] ==> t[1].msg == TopElement(Some(stack[|stack| - 1]))
    {
      StackPeekTrace(|stack|, Top())
    }

    function IsEmptyQuery(): (t: seq<Frame<Msg>>)
      reads this
      ensures |t| == 2 && t[1].msg == IsEmptyReturns(stack == [])
    {
      IsEmptyTrace(Stack, |stack|)
    }

    function IsFullQuery(): (t: seq<Frame<Msg>>)
      reads this
      ensures |t| == 2 && t[1].msg == IsFullReturns(|stack| >= capacity)
    {
      IsFullTrace(Stack, |stack|, capacity)
    }

    /** `handleClear`. */
    method Clear()
      requires Valid()
      modifies this
      ensures Valid() && stack == [] && capacity == old(capacity)
    {
      stack := [];
    }

    /** `handleSeed`: the stack becomes A, B, C, the capacity rising to 3 if lower. */
    method Seed()
      requires Valid()
      modifies this
      ensures Valid() && stack == ["A", "B", "C"] && capacity == Max(old(capacity), 3)
    {
      if capacity < 3 {
        capacity := 3;
      }
      stack := ["A", "B", "C"];
    }

    /**
     * `handleCapacityChange`: the new capacity is clamped to [1, 24] and a stack longer
     * than it keeps only its bottom values.
     */
    method CapacityChange(newCap: int)
      requires Valid()
      modifies this
      ensures Valid() && capacity == Clamp(newCap, MinCapacity, MaxCapacity)
      ensures stack == old(stack)[..Min(|old(stack)|, capacity)]
    {
      var cap := Max(MinCapacity, Min(MaxCapacity, newCap));
      capacity := cap;
      if |stack| > cap {
        stack := stack[..cap];
      }
    }
  }

  /**
   * Last in, first out: a value pushed onto a stack with room is the one the next pop
   * names, and the pop gives back the stack as it was.
   */
  method PushThenPop(s: StackView, value: string) returns (pushed: Option<seq<Frame<Msg>>>, popped: seq<Frame<Msg>>)
    requires s.Valid() && value != "" && |s.stack| < s.capacity
    modifies s
    ensures s.Valid() && s.stack == old(s.stack)
    ensures |popped| == 3 && popped[1].msg == PopTop(Some(value))
  {
    pushed := s.Push(value);
    popped := s.Pop();
  }
}
