/** What the ring does when one thread is left to move alone, and what happens when two
    producers overlap. */
module RingRuns {
  import opened Wrappers
  import opened Words
  import opened RingMachine

  lemma Extend(states: seq<State>, actions: seq<Action>, a: Action)
      returns (states': seq<State>, actions': seq<Action>, s: State)
    requires IsRun(states, actions)
    requires WellFormed(states[|actions|]) && Enabled(states[|actions|], a)
    ensures IsRun(states', actions') && s == states'[|actions'|] == Next(states[|actions|], a)
    ensures states'[0] == states[0]
  {
    s := Next(states[|actions|], a);
    states', actions' := states + [s], actions + [a];
    forall i | 0 <= i < |actions'| ensures Step(states'[i], actions'[i], states'[i + 1]) {
      if i < |actions| {
        assert Step(states[i], actions[i], states[i + 1]);
      }
    }
  }

  /** The slot after a pass has stored the fields of msg from k on. */
  function StoredFrom(slot: Slot, msg: Message, k: nat): (r: Slot)
    requires |slot| == |msg|
    ensures |r| == |slot|
    ensures forall j :: 0 <= j < |slot| ==> r[j] == if j >= k && msg[j].Some? then msg[j].value else slot[j]
  {
    seq(|slot|, j requires 0 <= j < |slot| => if j >= k && msg[j].Some? then msg[j].value else slot[j])
  }

  /** A producer that moves alone fills its slot: each field of the message is stored and a
      field that the message leaves alone keeps what was there. */
  lemma FillSlot(states: seq<State>, actions: seq<Action>, p: nat)
      returns (states': seq<State>, actions': seq<Action>, s': State)
    requires IsRun(states, actions)
    requires var s := states[|actions|];
      && WellFormed(s) && p < |s.producers| && s.producers[p].Filling? && s.producers[p].next <= s.fields
      && |s.producers[p].msg| == s.fields
    ensures IsRun(states', actions') && s' == states'[|actions'|] && states'[0] == states[0]
    ensures var s := states[|actions|]; var me := s.producers[p]; var at := GetIndex(s.bits, Wrap(me.write));
      s' == s.(slots := s.slots[at := StoredFrom(s.slots[at], me.msg, me.next)],
               producers := s.producers[p := me.(next := s.fields)])
    decreases states[|actions|].fields - states[|actions|].producers[p].next
  {
    assert |states| == |actions| + 1;
    hide GetIndex, Wrap, Pow2, IsRun;
    var s := states[|actions|];
    var me, at := s.producers[p], GetIndex(s.bits, Wrap(s.producers[p].write));
    if me.next == s.fields {
      states', actions', s' := states, actions, s;
      assert StoredFrom(s.slots[at], me.msg, me.next) == s.slots[at];
    } else {
      var states1, actions1, s1 := Extend(states, actions, StoreField(p));
      states', actions', s' := FillSlot(states1, actions1, p);
      assert StoredFrom(s1.slots[at], me.msg, me.next + 1) == StoredFrom(s.slots[at], me.msg, me.next);
    }
  }

  lemma StoresAll(slot: Slot, msg: Message)
    requires |slot| == |msg| && Complete(msg)
    ensures StoredFrom(slot, msg, 0) == Values(msg)
  {
  }

  /** A consumer that moves alone takes exactly one slot off a ring that is not empty. */
  lemma AloneAPopSucceeds(states: seq<State>, actions: seq<Action>)
      returns (states': seq<State>, actions': seq<Action>, s': State)
    requires IsRun(states, actions)
    requires var s := states[|actions|];
      WellFormed(s) && s.consumer == Outside && Wrap(s.read) != Wrap(s.write)
    ensures IsRun(states', actions') && s' == states'[|actions'|] && states'[0] == states[0]
    ensures var s := states[|actions|];
      && GetIndex(s.bits, Wrap(s.read)) < |s.slots|
      && s' == s.(read := s.read + 1, popped := s.popped + [s.slots[GetIndex(s.bits, Wrap(s.read))]])
  {
    assert |states| == |actions| + 1;
    hide GetIndex, Wrap, Pow2, IsRun;
    var s := states[|actions|];
    var slot := s.slots[GetIndex(s.bits, Wrap(s.read))];
    states', actions', s' := Extend(states, actions, PopLoadRead);
    states', actions', s' := Extend(states', actions', PopLoadWriteAndTest);
    var k := 0;
    while k < s.fields
      invariant 0 <= k <= s.fields == |slot|
      invariant IsRun(states', actions') && |states'| == |actions'| + 1
      invariant s' == states'[|actions'|] && states'[0] == states[0]
      invariant s' == s.(consumer := Copying(s.read, slot[..k]))
    {
      assert slot[..k] + [slot[k]] == slot[..k + 1];
      states', actions', s' := Extend(states', actions', CopyField);
      k := k + 1;
    }
    assert slot[..k] == slot;
    states', actions', s' := Extend(states', actions', PopAdvance);
  }

  predicate Inside(me: Producer) {
    !me.Idle?
  }

  /** One whole pass of a producer that moves alone on a ring with room. */
  lemma AloneAPassCommits(states: seq<State>, actions: seq<Action>, p: nat)
      returns (states': seq<State>, actions': seq<Action>, s': State)
    requires IsRun(states, actions)
    requires var s := states[|actions|];
      && WellFormed(s) && p < |s.producers| && s.producers[p].Retry? && |s.producers[p].msg| == s.fields
      && 0 <= s.write - s.read < Pow2(s.bits)
    ensures IsRun(states', actions') && s' == states'[|actions'|] && states'[0] == states[0]
    ensures Committed(states[|actions|], s', p)
  {
    assert |states| == |actions| + 1;
    hide GetIndex, Wrap, Pow2, IsRun, IsFull;
    var s := states[|actions|];
    var msg := s.producers[p].msg;
    RingFitsInWord(s);
    FullIsTrueLength(s.bits, s.read, s.write);
    states', actions', s' := Extend(states, actions, LoadWrite(p, msg));
    states', actions', s' := Extend(states', actions', LoadReadAndTest(p));
    states', actions', s' := FillSlot(states', actions', p);
    states', actions', s' := Extend(states', actions', CompareExchange(p, false));
  }

  /** From s to t producer p has committed the message it was pushing, and nobody else moved. */
  predicate Committed(s: State, t: State, p: nat)
    requires p < |s.producers| && Inside(s.producers[p])
  {
    t == s.(write := s.write + 1, slots := t.slots, producers := s.producers[p := Idle],
            pushed := s.pushed + [s.producers[p].msg], authors := s.authors + [p])
  }

  /** A push always comes to its end: wherever producer p is inside it, however stale the
      index it holds, if it moves alone on a ring with room it commits its message. */
  lemma AloneAPushCompletes(states: seq<State>, actions: seq<Action>, p: nat)
      returns (states': seq<State>, actions': seq<Action>, s': State)
    requires IsRun(states, actions)
    requires var s := states[|actions|];
      && WellFormed(s) && p < |s.producers| && Inside(s.producers[p]) && |s.producers[p].msg| == s.fields
      && (s.producers[p].Filling? ==> s.producers[p].next <= s.fields)
      && 0 <= s.write - s.read < Pow2(s.bits)
    ensures IsRun(states', actions') && s' == states'[|actions'|] && states'[0] == states[0]
    ensures Committed(states[|actions|], s', p)
  {
    assert |states| == |actions| + 1;
    hide GetIndex, Wrap, Pow2, IsRun, IsFull;
    states', actions', s' := states, actions, states[|actions|];
    if s'.producers[p].HaveWrite? {
      states', actions', s' := Extend(states', actions', LoadReadAndTest(p));
    }
    if s'.producers[p].Filling? {
      states', actions', s' := FillSlot(states', actions', p);
      states', actions', s' := Extend(states', actions', CompareExchange(p, false));
    }
    if s'.producers[p].Retry? {
      states', actions', s' := AloneAPassCommits(states', actions', p);
    }
  }

  // ----- Two overlapping producers -----

  lemma LowSlots(bits: nat)
    requires bits < 64
    ensures GetIndex(bits, Wrap(0)) == 0 && !IsFull(bits, Wrap(0), Wrap(0))
    ensures bits >= 1 ==> GetIndex(bits, Wrap(1)) == 1 && !IsFull(bits, Wrap(0), Wrap(1))
  {
    hide GetIndex, Pow2, Wrap;
    MaskIsModulo(bits, 0);
    MaskIsModulo(bits, 1);
    FullIsTrueLength(bits, 0, 0);
    FullIsTrueLength(bits, 0, 1);
    if bits >= 1 {
      SmallNumbersAreTheirRemainders(bits);
    }
  }

  lemma SmallNumbersAreTheirRemainders(bits: nat)
    requires bits >= 1
    ensures Pow2(bits) >= 2 && 1 % Pow2(bits) == 1
  {
    var p := Pow2(bits);
    assert p == 2 * Pow2(bits - 1);
    hide Pow2;
    RemainderUnique(1, p, 0, 1);
  }

  /** A ring in which nothing has happened yet. */
  function Fresh(n: nat, bits: nat, fields: nat): (s: State)
    requires bits < 64
    ensures Initial(s)
  {
    var blank := seq(fields, _ => 0);
    State(bits, fields, {}, blank, seq(Pow2(bits), _ => blank), 0, 0, seq(n, _ => Idle), Outside,
          seq(n, _ => []), [], [], [])
  }

  /** Two messages that a reader can tell apart, stored field by field. */
  predicate TellApart(a: Message, b: Message) {
    |a| == |b| && Complete(a) && Complete(b) && a != b
  }

  /** Of n producers the first two load write_idx 0 and pass the test. */
  lemma BothAimAtSlotZero(n: nat, bits: nat, a: Message, b: Message)
      returns (states: seq<State>, actions: seq<Action>, s: State)
    requires n >= 2 && bits < 64 && TellApart(a, b)
    ensures IsRun(states, actions) && s == states[|actions|] && states[0] == Fresh(n, bits, |a|)
    ensures s == states[0].(producers := states[0].producers[0 := Filling(a, 0, 0)][1 := Filling(b, 0, 0)],
                            begun := states[0].begun[0 := [a]][1 := [b]])
  {
    hide GetIndex, Wrap, Pow2, IsFull;
    LowSlots(bits);
    s := Fresh(n, bits, |a|);
    states, actions := [s], [];
    states, actions, s := Extend(states, actions, Begin(0, a));
    states, actions, s := Extend(states, actions, Begin(1, b));
    assert [] + [a] == [a] && [] + [b] == [b];
    assert s.begun == states[0].begun[0 := [a]][1 := [b]];
    states, actions, s := Extend(states, actions, LoadWrite(0, a));
    states, actions, s := Extend(states, actions, LoadWrite(1, b));
    states, actions, s := Extend(states, actions, LoadReadAndTest(0));
    states, actions, s := Extend(states, actions, LoadReadAndTest(1));
  }

  /** The second overwrites the first in slot 0; the first then commits the second's data. */
  lemma RaceOnSlotZero(n: nat, bits: nat, a: Message, b: Message)
      returns (states: seq<State>, actions: seq<Action>, s: State)
    requires n >= 2 && bits < 64 && TellApart(a, b)
    ensures IsRun(states, actions) && s == states[|actions|] && states[0] == Fresh(n, bits, |a|)
    ensures s == states[0].(write := 1, pushed := [a], authors := [0], slots := states[0].slots[0 := Values(b)],
                            begun := states[0].begun[0 := [a]][1 := [b]],
                            producers := states[0].producers[1 := Filling(b, 0, |b|)])
  {
    hide GetIndex, Wrap, Pow2, IsFull, IsRun;
    LowSlots(bits);
    states, actions, s := BothAimAtSlotZero(n, bits, a, b);
    StoresAll(s.slots[0], a);
    states, actions, s := FillSlot(states, actions, 0);
    StoresAll(s.slots[0], b);
    states, actions, s := FillSlot(states, actions, 1);
    states, actions, s := Extend(states, actions, CompareExchange(0, false));
  }

  /** The consumer gets the second message where the first was pushed. */
  lemma RaceDeliversTheWrongMessage(n: nat, bits: nat, a: Message, b: Message)
      returns (states: seq<State>, actions: seq<Action>)
    requires n >= 2 && bits < 64 && TellApart(a, b)
    ensures IsRun(states, actions) && states[0] == Fresh(n, bits, |a|)
    ensures states[|actions|].pushed == [a] && states[|actions|].popped == [Values(b)]
    ensures !PoppedIsPrefix(states[|actions|])
  {
    hide IsRun, GetIndex;
    var s;
    states, actions, s := RaceOnSlotZero(n, bits, a, b);
    LowSlots(bits);
    states, actions, s := AloneAPopSucceeds(states, actions);
    DifferentMessagesDiffer(a, b);
    assert !Delivers(s.pushed[0], s.popped[0]);
  }

  lemma DifferentMessagesDiffer(a: Message, b: Message)
    requires TellApart(a, b)
    ensures !Delivers(a, Values(b))
  {
    var j :| 0 <= j < |a| && a[j] != b[j];
    assert a[j].value != b[j].value;
  }

  /** The loser of the race retries on slot 1. */
  lemma LoserRetries(n: nat, bits: nat, a: Message, b: Message)
      returns (states: seq<State>, actions: seq<Action>, s: State)
    requires n >= 2 && 1 <= bits < 64 && TellApart(a, b)
    ensures IsRun(states, actions) && s == states[|actions|] && states[0] == Fresh(n, bits, |a|)
    ensures |states[0].slots| >= 2
    ensures s == states[0].(write := 2, pushed := [a, b], authors := [0, 1],
                            begun := states[0].begun[0 := [a]][1 := [b]],
                            slots := states[0].slots[0 := Values(b)][1 := Values(b)])
  {
    hide GetIndex, Wrap, Pow2, IsFull, IsRun;
    LowSlots(bits);
    SmallNumbersAreTheirRemainders(bits);
    states, actions, s := RaceOnSlotZero(n, bits, a, b);
    assert Wrap(0) != Wrap(1) by { WrapDistinguishes(0, 1); }
    states, actions, s := Extend(states, actions, CompareExchange(1, false));
    states, actions, s := Extend(states, actions, LoadWrite(1, b));
    states, actions, s := Extend(states, actions, LoadReadAndTest(1));
    StoresAll(s.slots[1], b);
    states, actions, s := FillSlot(states, actions, 1);
    states, actions, s := Extend(states, actions, CompareExchange(1, false));
    assert s.producers == states[0].producers;
  }

  /** With two or more producers whose pushes overlap, one message is delivered twice and the
      other never, for any two messages and at every ring size from two. */
  lemma OverlappingProducersLoseAMessage(n: nat, bits: nat, a: Message, b: Message)
      returns (states: seq<State>, actions: seq<Action>)
    requires n >= 2 && 1 <= bits < 64 && TellApart(a, b)
    ensures IsRun(states, actions) && states[0] == Fresh(n, bits, |a|)
    ensures states[|actions|].pushed == [a, b]
    ensures states[|actions|].popped == [Values(b), Values(b)]
  {
    hide GetIndex, IsRun, Wrap;
    LowSlots(bits);
    var s;
    states, actions, s := LoserRetries(n, bits, a, b);
    WrapDistinguishes(0, 2);
    states, actions, s := AloneAPopSucceeds(states, actions);
    WrapDistinguishes(1, 2);
    states, actions, s := AloneAPopSucceeds(states, actions);
  }

  predicate HasShape(s: State, n: nat, bits: nat, fields: nat) {
    |s.producers| == n && s.bits == bits && s.fields == fields
  }

  /** Exactly when the ring is first-in first-out without loss or duplication in every run,
      by the one number a user of the ring decides: the number of producer threads. */
  lemma FifoExactlyWhen(n: nat, bits: nat, fields: nat)
    requires bits < 64 && fields >= 1
    ensures (forall states, actions :: IsRun(states, actions) && HasShape(states[0], n, bits, fields) ==>
               PoppedIsPrefix(states[|actions|]))
            <==> n <= 1
  {
    if n <= 1 {
      forall states, actions | IsRun(states, actions) && HasShape(states[0], n, bits, fields)
        ensures PoppedIsPrefix(states[|actions|])
      {
        SingleProducerIsSerialised(states, actions);
        FifoAndNoLoss(states, actions, |actions|);
      }
    } else {
      var a: Message, b: Message := seq(fields, _ => Some(1)), seq(fields, _ => Some(2));
      assert a[0] != b[0];
      var states, actions := RaceDeliversTheWrongMessage(n, bits, a, b);
    }
  }
}
