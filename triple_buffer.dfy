/**
 * The single-producer/single-consumer exchange lzx::TripleBuffer<T>
 * (app/src/TripleBuffer.h), taken one call at a time.
 *
 * The pure part describes the buffer as a value, a `State`, and each call as a
 * step function on it; the lemmas are stated over whole traces of calls.
 * The class `TripleBuffer` keeps the slots in an array and its indices in
 * fields, and each of its methods is proved to perform exactly the step the
 * pure part describes.
 */
module TripleBuffering {
  import opened Common

  /** The three slots, the producer's and the consumer's slot index, the slot
      handed out by the last `consume` (-1: none) and the last published slot. */
  datatype State<T> = State(
    slots: seq<T>,
    produceIndex: int,
    consumeIndex: int,
    lastConsumed: int,
    reserved: int)

  /** Every index names a slot (lastConsumed may also be -1). */
  predicate WellFormed<T>(s: State<T>) {
    && |s.slots| == 3
    && 0 <= s.produceIndex < 3
    && 0 <= s.consumeIndex < 3
    && (s.lastConsumed == -1 || 0 <= s.lastConsumed < 3)
    && 0 <= s.reserved < 3
  }

  /** The protocol invariant: producer and consumer never target the same
      slot, and a slot handed out by `consume` is the consumer's own slot. */
  predicate Invariant<T>(s: State<T>) {
    && WellFormed(s)
    && s.produceIndex != s.consumeIndex
    && (s.lastConsumed == -1 || s.lastConsumed == s.consumeIndex)
  }

  /** The state after construction; every slot holds a default-constructed T. */
  function Initial<T>(default: T): (s: State<T>)
    ensures Invariant(s)
    ensures forall i :: 0 <= i < 3 ==> s.slots[i] == default
  {
    State([default, default, default], 0, 2, -1, 1)
  }

  /** The slot after `i` in cyclic order. Indices are never negative, so the
      truncating % of C++ and Dafny's % agree here. */
  function Next(i: int): (j: int)
    requires 0 <= i < 3
    ensures 0 <= j < 3 && j != i
    ensures j == i + 1 || (i == 2 && j == 0)
  {
    (i + 1) % 3
  }

  /** `produce`: store the value in the producer's slot, then publish it by
      moving on, unless the next slot is the consumer's. */
  function ProduceStep<T>(s: State<T>, value: T): (r: State<T>)
    requires WellFormed(s)
    ensures WellFormed(r)
    ensures Invariant(s) ==> Invariant(r)
    ensures r.slots[s.produceIndex] == value
    ensures forall i :: 0 <= i < 3 && i != s.produceIndex ==> r.slots[i] == s.slots[i]
    ensures r.consumeIndex == s.consumeIndex && r.lastConsumed == s.lastConsumed
  {
    var slots := s.slots[s.produceIndex := value];
    var next := Next(s.produceIndex);
    if next != s.consumeIndex then
      s.(slots := slots, reserved := s.produceIndex, produceIndex := next)
    else
      s.(slots := slots)
  }

  /** The slot `consume` hands out: none when the consumer's slot is the
      producer's, otherwise the consumer's slot. */
  function ConsumeSlot<T>(s: State<T>): (r: Option<nat>)
    requires WellFormed(s)
    ensures r.Some? ==> r.value == s.consumeIndex && r.value != s.produceIndex
    ensures Invariant(s) ==> r == Some(s.consumeIndex)
  {
    if s.consumeIndex == s.produceIndex then None else Some(s.consumeIndex)
  }

  /** The state after `consume`: it records the slot it handed out and
      changes no slot and neither the producer's nor the consumer's index. */
  function ConsumeStep<T>(s: State<T>): (r: State<T>)
    requires WellFormed(s)
    ensures WellFormed(r)
    ensures Invariant(s) ==> Invariant(r)
    ensures r.slots == s.slots && r.produceIndex == s.produceIndex && r.consumeIndex == s.consumeIndex
    ensures r.reserved == s.reserved
    ensures ConsumeSlot(s).Some? ==> r.lastConsumed == s.consumeIndex
  {
    if s.consumeIndex == s.produceIndex then s else s.(lastConsumed := s.consumeIndex)
  }

  /** `consumeDone`: release the slot handed out, moving the consumer to the
      slot after it, unless that is the producer's slot. */
  function ConsumeDoneStep<T>(s: State<T>): (r: State<T>)
    requires WellFormed(s)
    ensures WellFormed(r)
    ensures Invariant(s) ==> Invariant(r)
    ensures r.slots == s.slots && r.produceIndex == s.produceIndex && r.reserved == s.reserved
    ensures s.lastConsumed == -1 ==> r == s
  {
    if s.lastConsumed == -1 then s
    else if Next(s.lastConsumed) != s.produceIndex then
      s.(consumeIndex := Next(s.lastConsumed), lastConsumed := -1)
    else s
  }

  /** One call on the buffer, from either side. */
  datatype Call<T> = ProduceCall(value: T) | ConsumeCall | ConsumeDoneCall

  function Step<T>(s: State<T>, call: Call<T>): (r: State<T>)
    requires WellFormed(s)
    ensures WellFormed(r)
  {
    match call
    case ProduceCall(v) => ProduceStep(s, v)
    case ConsumeCall => ConsumeStep(s)
    case ConsumeDoneCall => ConsumeDoneStep(s)
  }

  /** The state after a sequential trace of calls. */
  function Run<T>(s: State<T>, calls: seq<Call<T>>): (r: State<T>)
    requires WellFormed(s)
    ensures WellFormed(r)
    decreases |calls|
  {
    if calls == [] then s else Run(Step(s, calls[0]), calls[1..])
  }

  /** Every sequential trace keeps the protocol invariant. */
  lemma {:induction false} RunKeepsInvariant<T>(s: State<T>, calls: seq<Call<T>>)
    requires Invariant(s)
    ensures Invariant(Run(s, calls))
    decreases |calls|
  {
    if calls != [] {
      var t := Step(s, calls[0]);
      assert Invariant(t);
      RunKeepsInvariant(t, calls[1..]);
    }
  }

  /** The null branch of `consume` is unreachable: after any sequential trace
      from construction, `consume` hands out a slot. */
  lemma ConsumeNeverNull<T>(default: T, calls: seq<Call<T>>)
    ensures ConsumeSlot(Run(Initial(default), calls)).Some?
  {
    RunKeepsInvariant(Initial(default), calls);
  }

  /** The slot `consume` hands out is never the slot the next `produce`
      writes, and that `produce` leaves its contents alone. */
  lemma ProduceSparesConsumedSlot<T>(s: State<T>, value: T)
    requires Invariant(s)
    ensures ConsumeSlot(s) == Some(s.consumeIndex)
    ensures s.consumeIndex != s.produceIndex
    ensures ProduceStep(s, value).slots[s.consumeIndex] == s.slots[s.consumeIndex]
  {
  }

  predicate NoProduce<T>(calls: seq<Call<T>>) {
    forall i :: 0 <= i < |calls| ==> !calls[i].ProduceCall?
  }

  /** While nothing is produced and the consumer sits right behind the
      producer, no call moves either index or changes a slot. */
  lemma {:induction false} IdleWithoutProduce<T>(s: State<T>, calls: seq<Call<T>>)
    requires Invariant(s) && Next(s.consumeIndex) == s.produceIndex
    requires NoProduce(calls)
    ensures Run(s, calls).slots == s.slots
    ensures Run(s, calls).produceIndex == s.produceIndex
    ensures Run(s, calls).consumeIndex == s.consumeIndex
    decreases |calls|
  {
    if calls != [] {
      var t := Step(s, calls[0]);
      assert !calls[0].ProduceCall?;
      assert t.slots == s.slots && t.produceIndex == s.produceIndex && t.consumeIndex == s.consumeIndex;
      assert Invariant(t);
      assert NoProduce(calls[1..]) by {
        forall i | 0 <= i < |calls[1..]| ensures !calls[1..][i].ProduceCall? {
          assert calls[1..][i] == calls[i + 1];
        }
      }
      IdleWithoutProduce(t, calls[1..]);
    }
  }

  /** Before any `produce`, `consume` hands out slot 2, which still holds the
      default-constructed value. */
  lemma ConsumeBeforeProduceSeesDefault<T>(default: T, calls: seq<Call<T>>)
    requires NoProduce(calls)
    ensures var s := Run(Initial(default), calls);
      ConsumeSlot(s) == Some(2) && s.slots[2] == default
  {
    IdleWithoutProduce(Initial(default), calls);
  }

  /** `consume` twice in a row hands out the same slot, and the second call
      changes nothing. */
  lemma ConsumeTwiceSameSlot<T>(s: State<T>)
    requires WellFormed(s)
    ensures ConsumeSlot(ConsumeStep(s)) == ConsumeSlot(s)
    ensures ConsumeStep(ConsumeStep(s)) == ConsumeStep(s)
  {
  }

  /** `consumeDone` twice in a row: the second call changes nothing. */
  lemma ConsumeDoneTwiceNoop<T>(s: State<T>)
    requires WellFormed(s)
    ensures ConsumeDoneStep(ConsumeDoneStep(s)) == ConsumeDoneStep(s)
  {
  }

  /** A stalled producer (its next slot is the consumer's) publishes nothing
      and keeps overwriting the same slot. */
  lemma StalledProducerOverwrites<T>(s: State<T>, first: T, second: T)
    requires WellFormed(s) && Next(s.produceIndex) == s.consumeIndex
    ensures var t := ProduceStep(ProduceStep(s, first), second);
      && t.produceIndex == s.produceIndex
      && t.reserved == s.reserved
      && t.slots == s.slots[s.produceIndex := second]
  {
  }

  /** While the consumer holds a slot and only the producer runs, however many
      frames it produces, the held slot keeps its contents and the producer
      cycles through the two other slots only. */
  lemma {:induction false} HeldSlotSurvivesProduces<T>(s: State<T>, calls: seq<Call<T>>)
    requires Invariant(s) && s.lastConsumed != -1
    requires forall i :: 0 <= i < |calls| ==> calls[i].ProduceCall?
    ensures var t := Run(s, calls);
      && Invariant(t)
      && t.consumeIndex == s.consumeIndex
      && t.lastConsumed == s.lastConsumed
      && t.produceIndex != s.lastConsumed
      && t.slots[s.lastConsumed] == s.slots[s.lastConsumed]
    decreases |calls|
  {
    if calls != [] {
      var t := Step(s, calls[0]);
      assert calls[0].ProduceCall?;
      assert t.slots[s.lastConsumed] == s.slots[s.lastConsumed];
      assert forall i :: 0 <= i < |calls[1..]| ==> calls[1..][i] == calls[i + 1];
      HeldSlotSurvivesProduces(t, calls[1..]);
    }
  }

  /** A value a slot may hold after a trace: one the trace produced, or the
      value the slot held before it. */
  ghost predicate FromTraceOrBefore<T>(v: T, before: seq<T>, calls: seq<Call<T>>) {
    v in before || exists i :: 0 <= i < |calls| && calls[i] == ProduceCall(v)
  }

  /** Slots only ever hold produced values or the values they started with;
      in particular what `consume` hands out was produced, or is the default. */
  lemma {:induction false} SlotsHoldProducedValues<T>(s: State<T>, calls: seq<Call<T>>)
    requires WellFormed(s)
    ensures forall j :: 0 <= j < 3 ==> FromTraceOrBefore(Run(s, calls).slots[j], s.slots, calls)
    decreases |calls|
  {
    if calls != [] {
      var t := Step(s, calls[0]);
      SlotsHoldProducedValues(t, calls[1..]);
      forall j | 0 <= j < 3
        ensures FromTraceOrBefore(Run(s, calls).slots[j], s.slots, calls)
      {
        var v := Run(s, calls).slots[j];
        assert Run(s, calls) == Run(t, calls[1..]);
        if v in t.slots {
          var m :| 0 <= m < 3 && t.slots[m] == v;
          if calls[0].ProduceCall? && m == s.produceIndex {
            assert calls[0] == ProduceCall(v);
          } else {
            assert v == s.slots[m];
          }
        } else {
          var i :| 0 <= i < |calls[1..]| && calls[1..][i] == ProduceCall(v);
          assert calls[i + 1] == ProduceCall(v);
        }
      }
    }
  }

  /** The buffer object: three slots in an array and four index fields. */
  class TripleBuffer<T> {
    const buffers: array<T>
    var produceIndex: int
    var consumeIndex: int
    var lastConsumed: int
    var reserved: int

    /** The abstract value of the object. */
    ghost function Model(): (s: State<T>)
      reads this, buffers
    {
      State(buffers[..], produceIndex, consumeIndex, lastConsumed, reserved)
    }

    ghost predicate Valid()
      reads this, buffers
    {
      buffers.Length == 3 && Invariant(Model())
    }

    /** Three default-constructed slots, producer at 0, consumer at 2. */
    constructor (default: T)
      ensures Valid() && fresh(buffers)
      ensures Model() == Initial(default)
    {
      buffers := new T[3](_ => default);
      produceIndex := 0;
      consumeIndex := 2;
      lastConsumed := -1;
      reserved := 1;
      new;
      assert buffers[..] == [default, default, default];
    }

    /** Both `produce` overloads (move and copy). */
    method Produce(value: T)
      requires Valid()
      modifies this, buffers
      ensures Valid()
      ensures Model() == ProduceStep(old(Model()), value)
    {
      var index := produceIndex;
      buffers[index] := value;
      var next := (index + 1) % 3;
      if next != consumeIndex {
        reserved := index;
        produceIndex := next;
      }
    }

    /** `consume`: the slot handed out (None stands for nullptr). */
    method Consume() returns (slot: Option<nat>)
      requires Valid()
      modifies this
      ensures Valid()
      ensures slot == ConsumeSlot(old(Model())) && Model() == ConsumeStep(old(Model()))
      ensures slot == Some(old(consumeIndex)) && lastConsumed == old(consumeIndex)
    {
      var index := consumeIndex;
      if index == produceIndex {
        return None;
      }
      lastConsumed := index;
      slot := Some(index);
    }

    method ConsumeDone()
      requires Valid()
      modifies this
      ensures Valid()
      ensures Model() == ConsumeDoneStep(old(Model()))
    {
      var consumed := lastConsumed;
      if consumed == -1 {
        return;
      }
      var next := (consumed + 1) % 3;
      if next != produceIndex {
        consumeIndex := next;
        lastConsumed := -1;
      }
    }
  }
}
