/**
 The two-buffer record store of the UDP node. Every callback, the swap and the send hold the
 buffer mutex, so they are the atomic steps; any interleaving of them is a sequence of steps.
 */
module RecordStore {

  /** The two buffers and the index that the callbacks write to. */
  datatype Buffers<T> = Buffers(b0: T, b1: T, writeIdx: int) {
    predicate Valid() { writeIdx == 0 || writeIdx == 1 }

    function Get(i: int): T { if i == 0 then b0 else b1 }

    function Put(i: int, x: T): Buffers<T> { if i == 0 then this.(b0 := x) else this.(b1 := x) }
  }

  /** A callback rewrites some fields of the record; the timer swaps and sends. */
  datatype Event<!T> = Update(f: T -> T) | Swap | Send

  function Step<T>(s: Buffers<T>, e: Event<T>): Buffers<T> {
    match e
    case Update(f) => s.Put(s.writeIdx, f(s.Get(s.writeIdx)))
    case Swap => s.Put((s.writeIdx + 1) % 2, s.Get(s.writeIdx)).(writeIdx := (s.writeIdx + 1) % 2)
    case Send => s
  }

  function Run<T>(s: Buffers<T>, events: seq<Event<T>>): Buffers<T> {
    if events == [] then s
    else Step(Run(s, events[..|events| - 1]), events[|events| - 1])
  }

  /** What the sends of a run put on the wire. */
  function Sent<T>(s: Buffers<T>, events: seq<Event<T>>): seq<T> {
    if events == [] then []
    else
      var before := events[..|events| - 1];
      var now := Run(s, before);
      Sent(s, before) + if events[|events| - 1].Send? then [now.Get((now.writeIdx + 1) % 2)] else []
  }

  // ---------- the single record that the store stands for ----------

  /** One record to which every update is applied, in order. */
  function Latest<T>(record: T, events: seq<Event<T>>): T {
    if events == [] then record
    else
      var before := Latest(record, events[..|events| - 1]);
      match events[|events| - 1]
      case Update(f) => f(before)
      case Swap => before
      case Send => before
  }

  /** How many steps had been taken when the last swap was, or -1. */
  function LastSwap<T>(events: seq<Event<T>>): (k: int)
    ensures -1 <= k < |events| || (events == [] && k == -1)
  {
    if events == [] then -1
    else if events[|events| - 1].Swap? then |events| - 1
    else LastSwap(events[..|events| - 1])
  }

  /** The single record as it was at the last swap; before any swap, the start value of the spare buffer. */
  function AtLastSwap<T>(record: T, spare: T, events: seq<Event<T>>): T {
    var k := LastSwap(events);
    if k == -1 then spare else Latest(record, events[..k])
  }

  /** What the sends have to transmit. */
  function Snapshots<T>(record: T, spare: T, events: seq<Event<T>>): seq<T> {
    if events == [] then []
    else
      var before := events[..|events| - 1];
      Snapshots(record, spare, before) + if events[|events| - 1].Send? then [AtLastSwap(record, spare, before)] else []
  }

  lemma {:induction false} RunHoldsRecord<T>(s: Buffers<T>, events: seq<Event<T>>)
    requires s.Valid()
    ensures var s', record, spare := Run(s, events), s.Get(s.writeIdx), s.Get((s.writeIdx + 1) % 2);
            && s'.Valid()
            && s'.Get(s'.writeIdx) == Latest(record, events)
            && s'.Get((s'.writeIdx + 1) % 2) == AtLastSwap(record, spare, events)
  {
    if events != [] {
      var n := |events| - 1;
      RunHoldsRecord(s, events[..n]);
      if events[n].Swap? {
        assert events[..n + 1] == events;
      } else {
        var k := LastSwap(events[..n]);
        assert k != -1 ==> events[..n][..k] == events[..k];
      }
    }
  }

  /**
   Under every interleaving of callbacks, swaps and sends, no update is lost: the write buffer
   holds the single record with all updates applied, and each send transmits exactly that
   record as it was at the preceding swap.
   */
  lemma {:induction false} SendsAreSnapshots<T>(s: Buffers<T>, events: seq<Event<T>>)
    requires s.Valid()
    ensures var record, spare := s.Get(s.writeIdx), s.Get((s.writeIdx + 1) % 2);
            && Run(s, events).Get(Run(s, events).writeIdx) == Latest(record, events)
            && Sent(s, events) == Snapshots(record, spare, events)
  {
    RunHoldsRecord(s, events);
    if events != [] {
      var n := |events| - 1;
      SendsAreSnapshots(s, events[..n]);
      RunHoldsRecord(s, events[..n]);
    }
  }

  /** The node's own store: an array of two records and an index, updated in place. */
  class MsgSubscriber<T> {
    const buffer: array<T>
    var writeIdx: int

    constructor (empty: T)
      ensures Valid() && Contents() == Buffers(empty, empty, 0) && fresh(buffer)
    {
      buffer := new T[2](_ => empty);
      writeIdx := 0;
    }

    ghost predicate Valid()
      reads this
    {
      buffer.Length == 2 && (writeIdx == 0 || writeIdx == 1)
    }

    ghost function Contents(): Buffers<T>
      requires Valid()
      reads this, buffer
    {
      Buffers(buffer[0], buffer[1], writeIdx)
    }

    /** A callback: rewrites fields of the record in the write buffer. */
    method Callback(f: T -> T)
      requires Valid()
      modifies buffer
      ensures Valid() && Contents() == Step(old(Contents()), Update(f))
    {
      var idx := writeIdx;
      buffer[idx] := f(buffer[idx]);
    }

    method SwapBuff()
      requires Valid()
      modifies this, buffer
      ensures Valid() && Contents() == Step(old(Contents()), Swap)
    {
      var sendIdx := (writeIdx + 1) % 2;
      buffer[sendIdx] := buffer[writeIdx];
      writeIdx := (writeIdx + 1) % 2;
    }

    method SendBuff() returns (packet: T)
      requires Valid()
      ensures packet == Contents().Get((Contents().writeIdx + 1) % 2)
      ensures Contents() == Step(old(Contents()), Send)
    {
      var sendIdx := (writeIdx + 1) % 2;
      packet := buffer[sendIdx];
    }

    /** The timer without a callback between its two steps sends the record as it is. */
    method Timer() returns (packet: T)
      requires Valid()
      modifies this, buffer
      ensures Valid() && packet == old(Contents().Get(writeIdx)) == Contents().Get(writeIdx)
    {
      SwapBuff();
      packet := SendBuff();
    }
  }
}
