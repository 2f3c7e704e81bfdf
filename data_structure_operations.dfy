/**
 * The stack and queue trace generators of the visualisers: each returns the list of
 * animation frames for one operation, a frame being a message, the highlighted cells
 * and the highlighted pseudocode lines. Messages are kept as data (which message,
 * with which numbers and values), not as rendered text.
 */
module DataStructureOperations {
  import opened Prelude

  /** The two structures the generators serve; their messages differ only in the noun. */
  datatype Structure = Stack | Queue

  /** The messages the generators show. A value is `None` where the caller passes `null`. */
  datatype Msg =
    | CheckFull(kind: Structure, size: int, capacity: int)  // "Check if … is full (size, capacity)"
    | Overflow(kind: Structure)                              // "… is full - overflow!"
    | HasSpace                                               // "Stack has space"
    | RearIndex(rear: int)                                   // "Rear index: r"
    | PushTop(value: string)                                 // "Push "v" to top of stack"
    | EnqueueAt(value: string, rear: int)                    // "Enqueue "v" at rear (index r)"
    | SizeChange(kind: Structure, from: int, to: int)        // "… size: a → b"
    | CheckEmpty(kind: Structure, size: int)                 // "Check if … is empty (size)"
    | Underflow(kind: Structure)                             // "… is empty - underflow!"
    | PopTop(top: Option<string>)                            // "Pop top element: "v""
    | DequeueFront(front: int, top: Option<string>)          // "Dequeue from front (index f): "v""
    | NothingToPeek(kind: Structure)                         // "… is empty - nothing to peek"
    | TopElement(top: Option<string>)                        // "Top element: "v""
    | FrontElement(front: int, top: Option<string>)          // "Front element at index f: "v""
    | CheckSizeZero(kind: Structure)                         // "Check if … size == 0"
    | CheckSizeCapacity(kind: Structure)                     // "Check if … size == capacity"
    | IsEmptyReturns(result: bool)                           // "isEmpty returns b"
    | IsFullReturns(result: bool)                            // "isFull returns b"

  /** One animation frame: a message, the highlighted cells and the highlighted lines. */
  datatype Frame<M> = Frame(msg: M, cells: seq<int>, pc: seq<int>)

  /** `stackOperations.generatePushTrace`. */
  function PushTrace(value: string, size: int, capacity: int): (t: seq<Frame<Msg>>)
    ensures |t| == if size < capacity then 4 else 2
    ensures t[0] == Frame(CheckFull(Stack, size, capacity), [], [1])
    ensures t[1].msg == Overflow(Stack) <==> size >= capacity
    ensures size < capacity ==> t[2].msg == PushTop(value) && t[2].cells == t[3].cells == [size]
    ensures size < capacity ==> t[3].msg == SizeChange(Stack, size, size + 1)
  {
    [Frame(CheckFull(Stack, size, capacity), [], [1]),
     Frame(if size >= capacity then Overflow(Stack) else HasSpace, [], [2])]
    + (if size < capacity then
         [Frame(PushTop(value), [size], [3, 4]), Frame(SizeChange(Stack, size, size + 1), [size], [5])]
       else [])
  }

  /** `stackOperations.generatePopTrace`: the message tests `size === 0`, the frames test `size > 0`. */
  function PopTrace(size: int, top: Option<string>): (t: seq<Frame<Msg>>)
    ensures |t| == if size > 0 then 3 else 2
    ensures t[0] == Frame(CheckEmpty(Stack, size), [], [1])
    ensures t[1].msg == Underflow(Stack) <==> size == 0
    ensures t[1].cells == if size > 0 then [size - 1] else []
    ensures size > 0 ==> t[1].msg == PopTop(top) && t[2] == Frame(SizeChange(Stack, size, size - 1), [size - 1], [3])
  {
    [Frame(CheckEmpty(Stack, size), [], [1]),
     Frame(if size == 0 then Underflow(Stack) else PopTop(top), if size > 0 then [size - 1] else [], [2])]
    + (if size > 0 then [Frame(SizeChange(Stack, size, size - 1), [size - 1], [3])] else [])
  }

  /** `stackOperations.generatePeekTrace`: always two frames, the second naming the top. */
  function StackPeekTrace(size: int, top: Option<string>): (t: seq<Frame<Msg>>)
    ensures |t| == 2
    ensures t[1].msg == NothingToPeek(Stack) <==> size == 0
    ensures size != 0 ==> t[1].msg == TopElement(top)
    ensures t[1].cells == if size > 0 then [size - 1] else []
  {
    [Frame(CheckEmpty(Stack, size), [], [1]),
     Frame(if size == 0 then NothingToPeek(Stack) else TopElement(top), if size > 0 then [size - 1] else [], [2, 3])]
  }

  /** `generateIsEmptyTrace` (stack or queue): the answer is `size == 0`. */
  function IsEmptyTrace(kind: Structure, size: int): (t: seq<Frame<Msg>>)
    ensures |t| == 2
    ensures t[1].msg == IsEmptyReturns(size == 0)
  {
    [Frame(CheckSizeZero(kind), [], [1]), Frame(IsEmptyReturns(size == 0), [], [2])]
  }

  /** `generateIsFullTrace` (stack or queue): the answer is `size >= capacity`. */
  function IsFullTrace(kind: Structure, size: int, capacity: int): (t: seq<Frame<Msg>>)
    ensures |t| == 2
    ensures t[1].msg == IsFullReturns(size >= capacity)
  {
    [Frame(CheckSizeCapacity(kind), [], [1]), Frame(IsFullReturns(size >= capacity), [], [2])]
  }

  /** `queueOperations.generateEnqueueTrace`: the rear cell is highlighted even on overflow. */
  function EnqueueTrace(value: string, size: int, capacity: int, rear: int): (t: seq<Frame<Msg>>)
    ensures |t| == if size < capacity then 4 else 2
    ensures t[0] == Frame(CheckFull(Queue, size, capacity), [], [1])
    ensures t[1].msg == Overflow(Queue) <==> size >= capacity
    ensures forall k :: 1 <= k < |t| ==> t[k].cells == [rear]
    ensures size < capacity ==> t[2].msg == EnqueueAt(value, rear) && t[3].msg == SizeChange(Queue, size, size + 1)
  {
    [Frame(CheckFull(Queue, size, capacity), [], [1]),
     Frame(if size >= capacity then Overflow(Queue) else RearIndex(rear), [rear], [2])]
    + (if size < capacity then
         [Frame(EnqueueAt(value, rear), [rear], [3]), Frame(SizeChange(Queue, size, size + 1), [rear], [4])]
       else [])
  }

  /** `queueOperations.generateDequeueTrace`. */
  function DequeueTrace(size: int, front: int, top: Option<string>): (t: seq<Frame<Msg>>)
    ensures |t| == if size > 0 then 3 else 2
    ensures t[1].msg == Underflow(Queue) <==> size == 0
    ensures t[1].cells == if size > 0 then [front] else []
    ensures size > 0 ==> t[1].msg == DequeueFront(front, top) && t[2] == Frame(SizeChange(Queue, size, size - 1), [front], [3])
  {
    [Frame(CheckEmpty(Queue, size), [], [1]),
     Frame(if size == 0 then Underflow(Queue) else DequeueFront(front, top), if size > 0 then [front] else [], [2])]
    + (if size > 0 then [Frame(SizeChange(Queue, size, size - 1), [front], [3])] else [])
  }

  /** `queueOperations.generatePeekTrace`: always two frames, the second naming the front. */
  function QueuePeekTrace(size: int, front: int, top: Option<string>): (t: seq<Frame<Msg>>)
    ensures |t| == 2
    ensures t[1].msg == NothingToPeek(Queue) <==> size == 0
    ensures size != 0 ==> t[1].msg == FrontElement(front, top)
    ensures t[1].cells == if size > 0 then [front] else []
  {
    [Frame(CheckEmpty(Queue, size), [], [1]),
     Frame(if size == 0 then NothingToPeek(Queue) else FrontElement(front, top), if size > 0 then [front] else [], [2, 3])]
  }

  /**
   * The generators agree with each other: a push or enqueue trace reports overflow
   * exactly when the isFull trace answers true, and for a size that is a length a pop,
   * dequeue or peek trace reports an empty structure exactly when isEmpty answers true.
   */
  lemma OverflowAgreesWithIsFull(kind: Structure, value: string, size: int, capacity: int, rear: int)
    ensures var t := if kind == Stack then PushTrace(value, size, capacity) else EnqueueTrace(value, size, capacity, rear);
      t[1].msg == Overflow(kind) <==> IsFullTrace(kind, size, capacity)[1].msg == IsFullReturns(true)
  {
  }

  lemma UnderflowAgreesWithIsEmpty(size: nat, front: int, top: Option<string>)
    ensures PopTrace(size, top)[1].msg == Underflow(Stack) <==> IsEmptyTrace(Stack, size)[1].msg == IsEmptyReturns(true)
    ensures DequeueTrace(size, front, top)[1].msg == Underflow(Queue) <==> IsEmptyTrace(Queue, size)[1].msg == IsEmptyReturns(true)
    ensures StackPeekTrace(size, top)[1].msg == NothingToPeek(Stack) <==> IsEmptyTrace(Stack, size)[1].msg == IsEmptyReturns(true)
    ensures |PopTrace(size, top)| == 3 <==> IsEmptyTrace(Stack, size)[1].msg == IsEmptyReturns(false)
  {
  }

  /**
   * For a stack of `size` values below its capacity, the push trace highlights the cell
   * the new value goes to, and the pop trace of a non-empty stack highlights its top cell:
   * every highlighted cell is an index of the stack after the operation, or of the
   * stack before a pop.
   */
  lemma StackCellsInRange(value: string, size: nat, capacity: int, top: Option<string>)
    ensures forall f <- PushTrace(value, size, capacity), c <- f.cells :: 0 <= c < size + 1 && c < capacity
    ensures forall f <- PopTrace(size, top), c <- f.cells :: 0 <= c < size
  {
  }
}
