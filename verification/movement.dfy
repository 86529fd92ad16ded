/**
 * The movement command queue: the buffered channel `mov` of capacity n = 2
 * that the `/mov` handler sends decoded commands into. Sending on a full
 * channel blocks and receiving from an empty one blocks; sequentially, both
 * become preconditions.
 */
module Movement {

  /** A decoded `/mov` body: target device ID and movement code. */
  datatype MovCommand = MovCommand(id: int, mov: string)

  /** The channel's capacity. */
  const N: nat := 2

  /** The fixed body the `/mov` handler answers with. */
  const Ack: string := "thanks!"

  class MovQueue {
    const capacity: nat
    var items: seq<MovCommand>
    /** Every command ever enqueued, and every command ever dequeued. */
    ghost var sent: seq<MovCommand>
    ghost var received: seq<MovCommand>

    /**
     * Never more than capacity commands are buffered, and what has been
     * received followed by what is buffered is exactly what was sent.
     */
    ghost predicate Valid()
      reads this
    {
      |items| <= capacity && sent == received + items
    }

    constructor (capacity: nat)
      ensures Valid() && this.capacity == capacity
      ensures items == [] && sent == [] && received == []
    {
      this.capacity := capacity;
      items, sent, received := [], [], [];
    }

    /** A send would block. */
    predicate Full()
      reads this
    {
      |items| >= capacity
    }

    /** Send: only possible while the queue is not full. */
    method Push(c: MovCommand)
      requires Valid() && !Full()
      modifies this
      ensures Valid()
      ensures items == old(items) + [c]
      ensures sent == old(sent) + [c] && received == old(received)
    {
      items := items + [c];
      sent := sent + [c];
    }

    /** Receive: only possible while the queue is not empty; yields the oldest command. */
    method Pop() returns (c: MovCommand)
      requires Valid() && items != []
      modifies this
      ensures Valid()
      ensures c == old(items)[0] && items == old(items)[1..]
      ensures received == old(received) + [c] && sent == old(sent)
    {
      c := items[0];
      items := items[1..];
      received := received + [c];
    }
  }

  /** Commands are received in the order they were sent, each exactly once. */
  lemma DeliveredInOrder(q: MovQueue)
    requires q.Valid()
    ensures q.received == q.sent[..|q.received|]
    ensures |q.sent| - |q.received| <= q.capacity
  {
    assert q.sent[..|q.received|] == q.received;
  }

  /** The `/mov` handler after decoding: enqueue the command, answer "thanks!". */
  method HandleMov(q: MovQueue, cmd: MovCommand) returns (reply: string)
    requires q.Valid() && !q.Full()
    modifies q
    ensures q.Valid()
    ensures q.items == old(q.items) + [cmd] && q.sent == old(q.sent) + [cmd]
    ensures reply == Ack
  {
    q.Push(cmd);
    reply := Ack;
  }

  /**
   * The channel of main: capacity N takes two commands without blocking, and
   * a consumer receives them in the order they were sent.
   */
  method TwoCommandsInOrder(first: MovCommand, second: MovCommand) returns (out1: MovCommand, out2: MovCommand, fullAfterTwo: bool)
    ensures out1 == first && out2 == second
    ensures fullAfterTwo
  {
    var q := new MovQueue(N);
    q.Push(first);
    q.Push(second);
    fullAfterTwo := q.Full();
    out1 := q.Pop();
    out2 := q.Pop();
  }
}
