/** The head/tail ring buffer as one caller sees it: a bounded queue of at most N - 1 items. */
module RingBuffers {
  import opened Arithmetic

  function Next(n: nat, i: nat): (r: nat)
    requires i < n
    ensures r < n && (r == i + 1 || (r == 0 && i + 1 == n))
  {
    (i + 1) % n
  }

  /** The items from tail up to, but not including, head. */
  function Held<T>(buffer: seq<T>, head: nat, tail: nat): (s: seq<T>)
    requires head < |buffer| && tail < |buffer|
    ensures |s| == if head >= tail then head - tail else head + |buffer| - tail
  {
    if head >= tail then buffer[tail..head] else buffer[tail..] + buffer[..head]
  }

  class RingBuffer<T(0)> {
    const buffer: array<T>
    var head: nat
    var tail: nat

    ghost predicate Valid()
      reads this, buffer
    {
      head < buffer.Length && tail < buffer.Length
    }

    ghost function Contents(): seq<T>
      reads this, buffer
      requires Valid()
    {
      Held(buffer[..], head, tail)
    }

    constructor (bufferSize: nat)
      requires bufferSize > 0
      ensures Valid() && fresh(buffer) && buffer.Length == bufferSize && Contents() == []
    {
      buffer := new T[bufferSize];
      head, tail := 0, 0;
    }

    method Insert(data: T) returns (ok: bool)
      requires Valid()
      modifies this`head, buffer
      ensures Valid() && (ok <==> |old(Contents())| < buffer.Length - 1)
      ensures Contents() == if ok then old(Contents()) + [data] else old(Contents())
    {
      var next := Next(buffer.Length, head);
      if next == tail {
        return false;
      }
      buffer[head] := data;
      head := next;
      return true;
    }

    method Get() returns (ok: bool, out: T)
      requires Valid()
      modifies this`tail
      ensures Valid() && (ok <==> old(Contents()) != [])
      ensures ok ==> old(Contents()) == [out] + Contents()
      ensures !ok ==> Contents() == old(Contents())
    {
      if head == tail {
        out := *;
        return false, out;
      }
      out := buffer[tail];
      tail := Next(buffer.Length, tail);
      return true, out;
    }

    function Size(): (r: nat)
      reads this, buffer
      requires Valid()
      ensures r == |Contents()|
    {
      DivModUnique(buffer.Length, if head >= tail then 1 else 0, |Contents()|);
      (head + buffer.Length - tail) % buffer.Length
    }

    predicate Empty()
      reads this, buffer
      requires Valid()
      ensures Empty() <==> Contents() == []
    {
      head == tail
    }

    predicate Full()
      reads this, buffer
      requires Valid()
      ensures Full() <==> |Contents()| == buffer.Length - 1
    {
      Next(buffer.Length, head) == tail
    }
  }
}

/**
 * The same buffer shared by one producer and one consumer, each running insert or get in single
 * read, store and publish steps that interleave in any order.
 */
module RingBufferInterleaving {
  import opened RingBuffers

  /** What the producer is about to do: test for room, store the item, or publish the new head. */
  datatype Producer<T> = ReadTail | StoreItem(item: T, next: nat) | PublishHead(item: T, next: nat)

  /** What the consumer is about to do: test for an item, load it, or publish the new tail. */
  datatype Consumer<T> = ReadHead | LoadItem | PublishTail(out: T)

  /** accepted and taken record what insert has accepted and what get has handed out. */
  datatype State<T> = State(buffer: seq<T>, head: nat, tail: nat,
                            producer: Producer<T>, consumer: Consumer<T>,
                            accepted: seq<T>, taken: seq<T>)

  ghost predicate Init<T(!new)>(s: State<T>) {
    && |s.buffer| > 0 && s.head == 0 && s.tail == 0
    && s.producer == ReadTail && s.consumer == ReadHead
    && s.accepted == [] && s.taken == []
  }

  ghost predicate ProducerStep<T(!new)>(s: State<T>, t: State<T>)
    requires s.head < |s.buffer|
  {
    match s.producer
    case ReadTail =>
      var next := Next(|s.buffer|, s.head);
      if next == s.tail then t == s   // refused: the call returns false
      else exists item :: t == s.(producer := StoreItem(item, next))
    case StoreItem(item, next) =>
      t == s.(buffer := s.buffer[s.head := item], producer := PublishHead(item, next))
    case PublishHead(item, next) =>
      t == s.(head := next, producer := ReadTail, accepted := s.accepted + [item])
  }

  ghost predicate ConsumerStep<T(!new)>(s: State<T>, t: State<T>)
    requires s.tail < |s.buffer|
  {
    match s.consumer
    case ReadHead =>
      if s.head == s.tail then t == s   // nothing to take: the call returns false
      else t == s.(consumer := LoadItem)
    case LoadItem =>
      t == s.(consumer := PublishTail(s.buffer[s.tail]))
    case PublishTail(out) =>
      t == s.(tail := Next(|s.buffer|, s.tail), consumer := ReadHead, taken := s.taken + [out])
  }

  /** accepted = taken + held, where held is what lies between tail and head in the buffer. */
  ghost predicate Inv<T(!new)>(s: State<T>) {
    && s.head < |s.buffer| && s.tail < |s.buffer|
    && s.accepted == s.taken + Held(s.buffer, s.head, s.tail)
    && (!s.producer.ReadTail? ==> s.producer.next == Next(|s.buffer|, s.head) && s.producer.next != s.tail)
    && (s.producer.PublishHead? ==> s.buffer[s.head] == s.producer.item)
    && (!s.consumer.ReadHead? ==> s.head != s.tail)
    && (s.consumer.PublishTail? ==> s.consumer.out == s.buffer[s.tail])
  }

  lemma HeldStore<T(!new)>(buffer: seq<T>, head: nat, tail: nat, item: T)
    requires head < |buffer| && tail < |buffer|
    ensures Held(buffer[head := item], head, tail) == Held(buffer, head, tail)
  {
  }

  lemma HeldPublish<T(!new)>(buffer: seq<T>, head: nat, tail: nat)
    requires head < |buffer| && tail < |buffer| && Next(|buffer|, head) != tail
    ensures Held(buffer, Next(|buffer|, head), tail) == Held(buffer, head, tail) + [buffer[head]]
  {
  }

  lemma HeldTake<T(!new)>(buffer: seq<T>, head: nat, tail: nat)
    requires head < |buffer| && tail < |buffer| && head != tail
    ensures Held(buffer, head, tail) == [buffer[tail]] + Held(buffer, head, Next(|buffer|, tail))
  {
  }

  lemma ProducerKeepsInv<T(!new)>(s: State<T>, t: State<T>)
    requires Inv(s) && ProducerStep(s, t)
    ensures Inv(t)
  {
    hide Held;
    match s.producer
    case ReadTail =>
    case StoreItem(item, next) =>
      HeldStore(s.buffer, s.head, s.tail, item);
    case PublishHead(item, next) =>
      HeldPublish(s.buffer, s.head, s.tail);
  }

  lemma ConsumerKeepsInv<T(!new)>(s: State<T>, t: State<T>)
    requires Inv(s) && ConsumerStep(s, t)
    ensures Inv(t)
  {
    hide Held;
    match s.consumer
    case ReadHead =>
    case LoadItem =>
    case PublishTail(out) =>
      HeldTake(s.buffer, s.head, s.tail);
  }

  /** A run: any interleaving of producer and consumer steps from an empty buffer. */
  ghost predicate Run<T(!new)>(states: seq<State<T>>) {
    && |states| > 0 && Init(states[0])
    && forall i :: 0 < i < |states| ==> Step(states[i - 1], states[i])
  }

  ghost predicate Step<T(!new)>(s: State<T>, t: State<T>) {
    && s.head < |s.buffer| && s.tail < |s.buffer|
    && (ProducerStep(s, t) || ConsumerStep(s, t))
  }

  lemma {:induction false} RunKeepsInv<T(!new)>(states: seq<State<T>>)
    requires Run(states)
    ensures Inv(states[|states| - 1])
    decreases |states|
  {
    if |states| > 1 {
      var n := |states| - 1;
      RunKeepsInv(states[..n]);
      assert Step(states[n - 1], states[n]);
      if ProducerStep(states[n - 1], states[n]) {
        ProducerKeepsInv(states[n - 1], states[n]);
      } else {
        ConsumerKeepsInv(states[n - 1], states[n]);
      }
    }
  }

  /**
   * In every interleaving the items taken are exactly the oldest accepted ones, in order; the rest
   * are still held, and there are at most N - 1 of them.
   */
  lemma FifoUnderInterleaving<T(!new)>(states: seq<State<T>>)
    requires Run(states)
    ensures var s := states[|states| - 1];
      && s.taken <= s.accepted
      && s.head < |s.buffer| && s.tail < |s.buffer|
      && Held(s.buffer, s.head, s.tail) == s.accepted[|s.taken|..]
      && |s.accepted| - |s.taken| <= |s.buffer| - 1
  {
    RunKeepsInv(states);
  }

  /**
   * An item the consumer is about to hand out is the oldest accepted one not yet taken, whatever the
   * producer has done since the consumer looked.
   */
  lemma LoadedItemIsNext<T(!new)>(states: seq<State<T>>)
    requires Run(states)
    ensures var s := states[|states| - 1];
      s.consumer.PublishTail? ==> |s.taken| < |s.accepted| && s.consumer.out == s.accepted[|s.taken|]
  {
    RunKeepsInv(states);
    var s := states[|states| - 1];
    if s.consumer.PublishTail? {
      HeldTake(s.buffer, s.head, s.tail);
    }
  }
}
