/** The kernel's message mailbox: a ring of 256 slots that behaves as a queue of at most 255 messages. */
module Mailbox {
  import opened Machine

  const QUEUE_SIZE: nat := 256
  const CAPACITY: nat := 255

  const NO_MESSAGE: nat := 0
  const KEY_PRESS: nat := 1
  const LIST_REQUEST: nat := 2
  const READ_REQUEST: nat := 4
  const WRITE_REQUEST: nat := 6
  const RUN_REQUEST: nat := 8
  const DUMP_REQUEST: nat := 10
  const SYNC_REQUEST: nat := 12

  /** The numbers that shell and kernel share; the answer to each request is the number behind it. */
  lemma SharedNumbers()
    ensures [NO_MESSAGE, KEY_PRESS, LIST_REQUEST, READ_REQUEST, WRITE_REQUEST, RUN_REQUEST, DUMP_REQUEST, SYNC_REQUEST]
            == [0, 1, 2, 4, 6, 8, 10, 12]
    ensures [KERNEL, UART, GUI_SHELL] == [1, 2, 3]
  {
  }

  const KERNEL: Byte := 1
  const UART: Byte := 2
  const GUI_SHELL: Byte := 3

  datatype Message = Message(sender: Byte, target: Byte, kind: nat, length: nat, payload: string)

  /** What sending does to a bounded queue: a message that finds it full is lost. */
  function Delivered(queue: seq<Message>, m: Message): seq<Message> {
    if |queue| < CAPACITY then queue + [m] else queue
  }

  function AllDelivered(queue: seq<Message>, ms: seq<Message>): seq<Message>
    decreases |ms|
  {
    if ms == [] then queue else Delivered(AllDelivered(queue, ms[..|ms| - 1]), ms[|ms| - 1])
  }

  function Following(i: nat): nat
    requires i < QUEUE_SIZE
  {
    (i + 1) % QUEUE_SIZE
  }

  /** The messages of the ring from slot `head` up to slot `tail`. */
  function Between(ring: seq<Message>, head: nat, tail: nat): seq<Message>
    requires |ring| == QUEUE_SIZE && head < QUEUE_SIZE && tail < QUEUE_SIZE
    decreases (tail + QUEUE_SIZE - head) % QUEUE_SIZE
  {
    if head == tail then [] else [ring[head]] + Between(ring, Following(head), tail)
  }

  /** How many slots there are from `head` up to `tail`, and where the slot behind `tail` is. */
  lemma Around(head: nat, tail: nat)
    requires head < QUEUE_SIZE && tail < QUEUE_SIZE
    ensures (tail + QUEUE_SIZE - head) % QUEUE_SIZE == if head <= tail then tail - head else tail + QUEUE_SIZE - head
    ensures Following(tail) == if tail == QUEUE_SIZE - 1 then 0 else tail + 1
  {
    if head <= tail {
      RemainderIs(tail + QUEUE_SIZE - head, QUEUE_SIZE, 1, tail - head);
    } else {
      RemainderIs(tail + QUEUE_SIZE - head, QUEUE_SIZE, 0, tail + QUEUE_SIZE - head);
    }
  }

  lemma OneSlotCloser(head: nat, tail: nat)
    requires head < QUEUE_SIZE && tail < QUEUE_SIZE && head != tail
    ensures (tail + QUEUE_SIZE - Following(head)) % QUEUE_SIZE == (tail + QUEUE_SIZE - head) % QUEUE_SIZE - 1
  {
  }

  lemma {:induction false} RingLength(ring: seq<Message>, head: nat, tail: nat)
    requires |ring| == QUEUE_SIZE && head < QUEUE_SIZE && tail < QUEUE_SIZE
    ensures |Between(ring, head, tail)| == (tail + QUEUE_SIZE - head) % QUEUE_SIZE
    decreases (tail + QUEUE_SIZE - head) % QUEUE_SIZE
  {
    if head != tail {
      OneSlotCloser(head, tail);
      RingLength(ring, Following(head), tail);
    }
  }

  /** The guard of a send: the next tail meets the head exactly when 255 messages wait. */
  lemma FullMeansCapacity(ring: seq<Message>, head: nat, tail: nat)
    requires |ring| == QUEUE_SIZE && head < QUEUE_SIZE && tail < QUEUE_SIZE
    ensures |Between(ring, head, tail)| <= CAPACITY
    ensures Following(tail) == head <==> |Between(ring, head, tail)| == CAPACITY
  {
    RingLength(ring, head, tail);
    Around(head, tail);
  }

  /** Storing at the tail and moving it on appends the message, while the ring is not full. */
  lemma {:induction false} StoringAppends(ring: seq<Message>, head: nat, tail: nat, m: Message)
    requires |ring| == QUEUE_SIZE && head < QUEUE_SIZE && tail < QUEUE_SIZE && Following(tail) != head
    ensures Between(ring[tail := m], head, Following(tail)) == Between(ring, head, tail) + [m]
    decreases (tail + QUEUE_SIZE - head) % QUEUE_SIZE
  {
    Around(head, tail);
    Around(head, Following(tail));
    if head != tail {
      OneSlotCloser(head, tail);
      StoringAppends(ring, Following(head), tail, m);
    }
  }

  class MailRing {
    const queue: array<Message>
    var head: nat
    var tail: nat

    ghost predicate Valid()
      reads this
    {
      queue.Length == QUEUE_SIZE && head < QUEUE_SIZE && tail < QUEUE_SIZE
    }

    ghost function Contents(): seq<Message>
      requires Valid()
      reads this, queue
    {
      Between(queue[..], head, tail)
    }

    constructor ()
      ensures Valid() && Contents() == [] && fresh(queue)
    {
      queue := new Message[QUEUE_SIZE](_ => Message(0, 0, NO_MESSAGE, 0, []));
      head, tail := 0, 0;
    }

    method Send(m: Message)
      requires Valid()
      modifies this`tail, queue
      ensures Valid() && Contents() == Delivered(old(Contents()), m)
    {
      FullMeansCapacity(queue[..], head, tail);
      var nextTail := (tail + 1) % QUEUE_SIZE;
      if nextTail != head {
        StoringAppends(queue[..], head, tail, m);
        ghost var before := queue[..];
        queue[tail] := m;
        assert queue[..] == before[tail := m];
        tail := nextTail;
      }
    }

    /** The oldest message, or one of no kind when there is none. */
    method Receive(m0: Message) returns (m: Message)
      requires Valid()
      modifies this`head
      ensures Valid()
      ensures old(Contents()) == [] ==> m == m0.(kind := NO_MESSAGE, length := 0) && Contents() == []
      ensures old(Contents()) != [] ==> m == old(Contents())[0] && Contents() == old(Contents())[1..]
    {
      if head != tail {
        m := queue[head];
        head := (head + 1) % QUEUE_SIZE;
      } else {
        m := m0.(kind := NO_MESSAGE, length := 0);
      }
    }
  }
}
