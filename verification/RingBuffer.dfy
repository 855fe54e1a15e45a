/** LockFreeRingBuffer as one thread at a time sees it: the slot array and the two wrapped
    index registers, updated in place. Its quiet states are states of RingMachine. */
module RingBuffer {
  import opened Words
  import opened RingMachine

  class LockFreeRingBuffer {
    const bits: nat
    const fields: nat
    const slots: array<Slot>
    var writeIdx: nat
    var readIdx: nat
    ghost var pushed: seq<Message>
    ghost var popped: seq<Slot>

    ghost function View(): State
      reads this, slots
    {
      State(bits, fields, {}, seq(fields, _ => 0), slots[..], |pushed|, |popped|, [Idle], Outside,
            [pushed], pushed, seq(|pushed|, _ => 0), popped)
    }

    ghost predicate Valid()
      reads this, slots
    {
      && writeIdx == Wrap(|pushed|)
      && readIdx == Wrap(|popped|)
      && Inv(View())
    }

    constructor (bits: nat, fields: nat)
      requires bits < 64
      ensures Valid() && fresh(slots)
      ensures this.bits == bits && this.fields == fields
      ensures pushed == [] && popped == []
    {
      this.bits, this.fields := bits, fields;
      slots := new Slot[Pow2(bits)](_ => seq(fields, _ => 0));
      writeIdx, readIdx := 0, 0;
      pushed, popped := [], [];
    }

    /** One pass of the retry loop of push_l1 and push_l2. `spurious` is the failure that a
        weak compare-exchange may report at any time. */
    method PushOnce(msg: Message, spurious: bool) returns (done: bool)
      requires Valid() && |msg| == fields
      modifies this, slots
      ensures Valid() && popped == old(popped)
      ensures done <==> !spurious && |old(pushed)| - |old(popped)| < Pow2(bits)
      ensures pushed == if done then old(pushed) + [msg] else old(pushed)
    {
      var currentWrite, currentRead := writeIdx, readIdx;
      RegistersTellTheTruth(View());
      if IsFull(bits, currentRead, currentWrite) {
        return false;
      }
      var at := GetIndex(bits, currentWrite);
      ghost var before := View();
      var next := 0;
      while next < fields
        invariant 0 <= next <= fields && |slots[at]| == fields
        invariant slots[..] == before.slots[at := slots[at]]
        invariant AgreesUpTo(msg, slots[at], next)
        modifies slots
      {
        slots[at] := Stored(slots[at], msg, next);
        next := next + 1;
      }
      QuietPush(before, msg, slots[at]);
      if spurious {
        return false;
      }
      writeIdx := Wrap(currentWrite + 1);
      pushed := pushed + [msg];
      done := true;
    }

    method TryPop() returns (done: bool, slot: Slot)
      requires Valid()
      modifies `readIdx, `popped
      ensures Valid() && pushed == old(pushed)
      ensures done <==> |old(popped)| < |pushed|
      ensures popped == if done then old(popped) + [slot] else old(popped)
      ensures done ==> Delivers(pushed[|old(popped)|], slot)
    {
      RegistersTellTheTruth(View());
      var currentRead, currentWrite := readIdx, writeIdx;
      if currentRead == currentWrite {
        return false, [];
      }
      QuietPop(View());
      slot := slots[GetIndex(bits, currentRead)];
      readIdx := Wrap(currentRead + 1);
      popped := popped + [slot];
      done := true;
    }

    method Size() returns (n: nat)
      requires Valid()
      ensures n == |pushed| - |popped| && n <= Pow2(bits)
    {
      RegistersTellTheTruth(View());
      n := Wrap(writeIdx - readIdx);
    }
  }
}
