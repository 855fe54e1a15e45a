/** The lock-free ring as a step machine: one step for every atomic load, store and
    compare-exchange, one step for every slot field written or copied. Any number of
    producers interleave with the single consumer. */
module RingMachine {
  import opened Wrappers
  import opened Words

  type Word = int
  type Slot = seq<Word>

  /** What one push overload stores, field by field. None: this overload leaves the field
      of the slot alone, so whatever an earlier lap left there stays. */
  type Message = seq<Option<Word>>

  /** A producer's place in push. `write` is the value loaded from write_idx. */
  datatype Producer =
    | Idle
    | Retry(msg: Message)
    | HaveWrite(msg: Message, write: nat)
    | Filling(msg: Message, write: nat, next: nat)

  /** The consumer's place in try_pop. */
  datatype Consumer =
    | Outside
    | HaveRead(read: nat)
    | Copying(read: nat, copied: Slot)

  /** An index register holds the number of increments it has seen; the code sees that
      number modulo 2^64 and every decision below is taken on the wrapped value. `clocked`
      are the fields that a push may take anew on every pass of its retry loop, as the DCE
      push_l1 does with timestamp_1; `blank` is a slot as constructed. The rest is history:
      what each producer began to push, what was committed and by whom, and what was popped. */
  datatype State = State(
    bits: nat, fields: nat, clocked: set<nat>, blank: Slot,
    slots: seq<Slot>, write: nat, read: nat,
    producers: seq<Producer>, consumer: Consumer,
    begun: seq<seq<Message>>, pushed: seq<Message>, authors: seq<nat>, popped: seq<Slot>)

  datatype Action =
    | Begin(p: nat, msg: Message)
    | LoadWrite(p: nat, msg: Message)
    | LoadReadAndTest(p: nat)
    | StoreField(p: nat)
    | CompareExchange(p: nat, spurious: bool)
    | PopLoadRead
    | PopLoadWriteAndTest
    | CopyField
    | PopAdvance

  function GetIndex(bits: nat, seqNo: nat): (i: nat)
    ensures i < Pow2(bits)
  {
    AndWithLowMask(seqNo, bits);
    BitAnd(seqNo, Pow2(bits) - 1)
  }

  predicate IsFull(bits: nat, read: nat, write: nat) {
    Wrap(write - read) >= Pow2(bits)
  }

  /** The mask of a wrapped index is the true count modulo the ring size. */
  lemma MaskIsModulo(bits: nat, count: nat)
    requires bits <= 64
    ensures GetIndex(bits, Wrap(count)) == count % Pow2(bits)
  {
    AndWithLowMask(Wrap(count), bits);
    WrapKeepsLowBits(count, bits);
  }

  /** The wrapped subtraction decides fullness by the true length, across any number of wraps. */
  lemma FullIsTrueLength(bits: nat, read: nat, write: nat)
    requires 0 <= write - read < TWO64
    ensures IsFull(bits, Wrap(read), Wrap(write)) <==> write - read >= Pow2(bits)
  {
    hide Wrap, Pow2;
    WrapDistinguishes(read, write);
  }

  predicate WellFormed(s: State) {
    && s.bits < 64
    && |s.blank| == s.fields
    && |s.begun| == |s.producers|
    && |s.slots| == Pow2(s.bits)
    && forall i :: 0 <= i < |s.slots| ==> |s.slots[i]| == s.fields
  }

  predicate Initial(s: State) {
    && WellFormed(s)
    && s.write == s.read == 0
    && s.pushed == [] && s.authors == [] && s.popped == []
    && s.consumer == Outside
    && (forall p :: 0 <= p < |s.producers| ==> s.producers[p] == Idle && s.begun[p] == [])
    && (forall i :: 0 <= i < |s.slots| ==> s.slots[i] == s.blank)
  }

  /** Two passes of one push store the same fields, and differ at most in the clocked ones. */
  predicate SamePush(clocked: set<nat>, before: Message, now: Message) {
    && |now| == |before|
    && forall j :: 0 <= j < |now| ==>
         (now[j].Some? <==> before[j].Some?) && (j !in clocked ==> now[j] == before[j])
  }

  predicate Enabled(s: State, a: Action) {
    match a
    case Begin(p, msg) => p < |s.producers| && s.producers[p].Idle? && |msg| == s.fields
    case LoadWrite(p, msg) =>
      p < |s.producers| && s.producers[p].Retry? && SamePush(s.clocked, s.producers[p].msg, msg)
    case LoadReadAndTest(p) => p < |s.producers| && s.producers[p].HaveWrite?
    case StoreField(p) =>
      && p < |s.producers| && s.producers[p].Filling?
      && s.producers[p].next < s.fields
      && |s.producers[p].msg| == s.fields
    case CompareExchange(p, _) =>
      && p < |s.producers| && s.producers[p].Filling?
      && s.producers[p].next >= s.fields
    case PopLoadRead => s.consumer.Outside?
    case PopLoadWriteAndTest => s.consumer.HaveRead?
    case CopyField => s.consumer.Copying? && |s.consumer.copied| < s.fields
    case PopAdvance => s.consumer.Copying? && |s.consumer.copied| >= s.fields
  }

  function Stored(slot: Slot, msg: Message, next: nat): (r: Slot)
    requires next < |slot| && next < |msg|
    ensures |r| == |slot|
  {
    if msg[next].Some? then slot[next := msg[next].value] else slot
  }

  function Next(s: State, a: Action): State
    requires WellFormed(s) && Enabled(s, a)
  {
    match a
    case Begin(p, msg) =>
      s.(producers := s.producers[p := Retry(msg)], begun := s.begun[p := s.begun[p] + [msg]])
    case LoadWrite(p, msg) =>
      s.(producers := s.producers[p := HaveWrite(msg, s.write)])
    case LoadReadAndTest(p) =>
      var me := s.producers[p];
      var after := if IsFull(s.bits, Wrap(s.read), Wrap(me.write)) then Retry(me.msg)
                   else Filling(me.msg, me.write, 0);
      s.(producers := s.producers[p := after])
    case StoreField(p) =>
      var me := s.producers[p];
      var at := GetIndex(s.bits, Wrap(me.write));
      s.(slots := s.slots[at := Stored(s.slots[at], me.msg, me.next)],
         producers := s.producers[p := me.(next := me.next + 1)])
    case CompareExchange(p, spurious) =>
      var me := s.producers[p];
      if !spurious && Wrap(s.write) == Wrap(me.write) then
        s.(write := s.write + 1, producers := s.producers[p := Idle],
           pushed := s.pushed + [me.msg], authors := s.authors + [p])
      else
        s.(producers := s.producers[p := Retry(me.msg)])
    case PopLoadRead => s.(consumer := HaveRead(s.read))
    case PopLoadWriteAndTest =>
      if Wrap(s.consumer.read) != Wrap(s.write) then s.(consumer := Copying(s.consumer.read, []))
      else s.(consumer := Outside)
    case CopyField =>
      var c := s.consumer;
      var at := GetIndex(s.bits, Wrap(c.read));
      s.(consumer := Copying(c.read, c.copied + [s.slots[at][|c.copied|]]))
    case PopAdvance =>
      s.(read := s.consumer.read + 1, consumer := Outside, popped := s.popped + [s.consumer.copied])
  }

  predicate Step(s: State, a: Action, s': State) {
    WellFormed(s) && Enabled(s, a) && s' == Next(s, a)
  }

  ghost predicate IsRun(states: seq<State>, actions: seq<Action>) {
    && |states| == |actions| + 1
    && Initial(states[0])
    && forall i :: 0 <= i < |actions| ==> Step(states[i], actions[i], states[i + 1])
  }

  /** The slot agrees with the message on the first n fields that the message stores. */
  predicate AgreesUpTo(msg: Message, slot: Slot, n: nat) {
    && n <= |slot| <= |msg|
    && forall j :: 0 <= j < n && msg[j].Some? ==> slot[j] == msg[j].value
  }

  predicate Delivers(msg: Message, slot: Slot) {
    |msg| == |slot| && AgreesUpTo(msg, slot, |slot|)
  }

  /** At most one producer is inside push at a time: true by itself when there is one
      producer, and what a caller has to arrange when there are several. */
  predicate Serialised(s: State) {
    forall p, q :: 0 <= p < q < |s.producers| ==> s.producers[p].Idle? || s.producers[q].Idle?
  }

  predicate CountersFit(s: State) {
    && s.read <= s.write
    && s.write - s.read <= Pow2(s.bits)
    && |s.pushed| == s.write
    && |s.popped| == s.read
  }

  predicate ConsumerFits(s: State) {
    match s.consumer
    case Outside => true
    case HaveRead(r) => r == s.read
    case Copying(r, copied) => r == s.read < s.write && |copied| <= s.fields
  }

  /** The live window: every message pushed and not yet popped sits whole in its slot. */
  predicate WindowIntact(s: State)
    requires WellFormed(s)
  {
    forall i :: s.read <= i < s.write && i < |s.pushed| ==>
      Delivers(s.pushed[i], s.slots[i % Pow2(s.bits)])
  }

  /** Everything handed out so far is, in order, what was pushed first. */
  predicate PoppedIsPrefix(s: State) {
    && |s.popped| <= |s.pushed|
    && forall i :: 0 <= i < |s.popped| ==> Delivers(s.pushed[i], s.popped[i])
  }

  predicate ProducerFits(s: State, p: nat)
    requires WellFormed(s) && p < |s.producers|
  {
    match s.producers[p]
    case Idle => true
    case Retry(msg) => |msg| == s.fields
    case HaveWrite(msg, w) => |msg| == s.fields && w == s.write
    case Filling(msg, w, next) =>
      && |msg| == s.fields && w == s.write && next <= s.fields
      && s.write - s.read < Pow2(s.bits)
      && AgreesUpTo(msg, s.slots[s.write % Pow2(s.bits)], next)
  }

  predicate CopyFits(s: State) {
    s.consumer.Copying? && s.read < |s.pushed| && |s.consumer.copied| <= s.fields ==>
      && |s.pushed[s.read]| == s.fields
      && forall j :: 0 <= j < |s.consumer.copied| && s.pushed[s.read][j].Some? ==>
           s.consumer.copied[j] == s.pushed[s.read][j].value
  }

  predicate Inv(s: State) {
    && WellFormed(s) && CountersFit(s) && ConsumerFits(s)
    && WindowIntact(s) && PoppedIsPrefix(s) && CopyFits(s)
    && forall p :: 0 <= p < |s.producers| ==> ProducerFits(s, p)
  }

  lemma RingFitsInWord(s: State)
    requires WellFormed(s)
    ensures Pow2(s.bits) < TWO64
  {
    Pow2Of64();
    Pow2Grows(s.bits, 63);
    assert Pow2(64) == 2 * Pow2(63);
  }

  lemma FreeSlotIsOutsideWindow(s: State, slot: Slot)
    requires WellFormed(s) && WindowIntact(s) && s.write - s.read < Pow2(s.bits) && |slot| == s.fields
    ensures var t := s.(slots := s.slots[s.write % Pow2(s.bits) := slot]);
            WellFormed(t) && WindowIntact(t)
  {
    var n := Pow2(s.bits);
    var t := s.(slots := s.slots[s.write % n := slot]);
    forall i | t.read <= i < t.write && i < |t.pushed|
      ensures Delivers(t.pushed[i], t.slots[i % n])
    {
      CloseNumbersDiffer(s.write, i, n);
      assert t.slots[i % n] == s.slots[i % n];
    }
  }

  lemma StoreFieldKeepsInv(s: State, p: nat)
    requires Inv(s) && Serialised(s) && Enabled(s, StoreField(p))
    ensures Inv(Next(s, StoreField(p)))
  {
    var t := Next(s, StoreField(p));
    assert ProducerFits(s, p);
    MaskIsModulo(s.bits, s.write);
    var me, at := s.producers[p], s.write % Pow2(s.bits);
    FreeSlotIsOutsideWindow(s, Stored(s.slots[at], me.msg, me.next));
    forall q | 0 <= q < |t.producers| ensures ProducerFits(t, q) {
      if q != p {
        assert s.producers[q].Idle?;
      }
    }
  }

  lemma CopyFieldKeepsInv(s: State)
    requires Inv(s) && Enabled(s, CopyField)
    ensures Inv(Next(s, CopyField))
  {
    var t := Next(s, CopyField);
    MaskIsModulo(s.bits, s.read);
    assert Delivers(s.pushed[s.read], s.slots[s.read % Pow2(s.bits)]);
    forall q | 0 <= q < |t.producers| ensures ProducerFits(t, q) {
      assert ProducerFits(s, q);
    }
  }

  lemma CompareExchangeKeepsInv(s: State, p: nat, spurious: bool)
    requires Inv(s) && Serialised(s) && Enabled(s, CompareExchange(p, spurious))
    ensures Inv(Next(s, CompareExchange(p, spurious)))
  {
    var t := Next(s, CompareExchange(p, spurious));
    assert ProducerFits(s, p);
    forall q | 0 <= q < |t.producers| ensures ProducerFits(t, q) {
      assert ProducerFits(s, q);
      if q != p {
        assert s.producers[q].Idle?;
      }
    }
    forall i | t.read <= i < t.write && i < |t.pushed|
      ensures Delivers(t.pushed[i], t.slots[i % Pow2(s.bits)])
    {
      if i < s.write {
        assert t.pushed[i] == s.pushed[i];
      }
    }
  }

  lemma LoadsKeepInv(s: State, a: Action)
    requires Inv(s) && Serialised(s) && Enabled(s, a)
    requires a.Begin? || a.LoadWrite? || a.LoadReadAndTest?
    ensures Inv(Next(s, a))
  {
    var t := Next(s, a);
    RingFitsInWord(s);
    forall q | 0 <= q < |t.producers| ensures ProducerFits(t, q) {
      assert ProducerFits(s, q);
      if a.LoadReadAndTest? && q == a.p {
        FullIsTrueLength(s.bits, s.read, s.write);
      }
    }
  }

  lemma PopStepsKeepInv(s: State, a: Action)
    requires Inv(s) && Enabled(s, a)
    requires a.PopLoadRead? || a.PopLoadWriteAndTest? || a.PopAdvance?
    ensures Inv(Next(s, a))
  {
    var t := Next(s, a);
    RingFitsInWord(s);
    forall q | 0 <= q < |t.producers| ensures ProducerFits(t, q) {
      assert ProducerFits(s, q);
    }
  }

  lemma StepKeepsInv(s: State, a: Action, s': State)
    requires Inv(s) && Serialised(s) && Step(s, a, s')
    ensures Inv(s')
  {
    match a
    case StoreField(p) => StoreFieldKeepsInv(s, p);
    case CompareExchange(p, spurious) => CompareExchangeKeepsInv(s, p, spurious);
    case CopyField => CopyFieldKeepsInv(s);
    case Begin(_, _) => LoadsKeepInv(s, a);
    case LoadWrite(_, _) => LoadsKeepInv(s, a);
    case LoadReadAndTest(_) => LoadsKeepInv(s, a);
    case PopLoadRead => PopStepsKeepInv(s, a);
    case PopLoadWriteAndTest => PopStepsKeepInv(s, a);
    case PopAdvance => PopStepsKeepInv(s, a);
  }

  lemma {:induction false} ReachableInv(states: seq<State>, actions: seq<Action>, i: nat)
    requires IsRun(states, actions) && i < |states|
    requires forall j :: 0 <= j < |states| ==> Serialised(states[j])
    ensures Inv(states[i])
  {
    if i == 0 {
      var s := states[0];
      forall p | 0 <= p < |s.producers| ensures ProducerFits(s, p) {
        assert s.producers[p] == Idle;
      }
    } else {
      ReachableInv(states, actions, i - 1);
      assert Step(states[i - 1], actions[i - 1], states[i]);
      StepKeepsInv(states[i - 1], actions[i - 1], states[i]);
    }
  }

  /** Main result for the ring. In every interleaving, while pushes do not overlap one
      another, nothing is lost, duplicated or reordered: what was popped is the front of
      what was pushed, and the rest is the live window of slots. */
  lemma FifoAndNoLoss(states: seq<State>, actions: seq<Action>, i: nat)
    requires IsRun(states, actions) && i < |states|
    requires forall j :: 0 <= j < |states| ==> Serialised(states[j])
    ensures PoppedIsPrefix(states[i])
    ensures CountersFit(states[i])
    ensures WellFormed(states[i]) && WindowIntact(states[i])
  {
    ReachableInv(states, actions, i);
  }

  predicate Complete(msg: Message) {
    forall j :: 0 <= j < |msg| ==> msg[j].Some?
  }

  function Values(msg: Message): (slot: Slot)
    requires Complete(msg)
    ensures |slot| == |msg|
    ensures forall j :: 0 <= j < |msg| ==> slot[j] == msg[j].value
  {
    seq(|msg|, j requires 0 <= j < |msg| => msg[j].value)
  }

  /** When every push stores every field, what is popped is exactly what was pushed. */
  lemma CompleteMessagesArriveExactly(states: seq<State>, actions: seq<Action>, i: nat)
    requires IsRun(states, actions) && i < |states|
    requires forall j :: 0 <= j < |states| ==> Serialised(states[j])
    requires forall m :: m in states[i].pushed ==> Complete(m)
    ensures |states[i].popped| <= |states[i].pushed|
    ensures forall j :: 0 <= j < |states[i].popped| ==>
              states[i].popped[j] == Values(states[i].pushed[j])
  {
    FifoAndNoLoss(states, actions, i);
    forall j | 0 <= j < |states[i].popped|
      ensures states[i].popped[j] == Values(states[i].pushed[j])
    {
      assert Delivers(states[i].pushed[j], states[i].popped[j]);
      assert Complete(states[i].pushed[j]);
    }
  }

  lemma {:induction false} ShapeIsFixed(states: seq<State>, actions: seq<Action>, i: nat)
    requires IsRun(states, actions) && i < |states|
    ensures |states[i].producers| == |states[0].producers|
    ensures states[i].bits == states[0].bits
  {
    if i > 0 {
      ShapeIsFixed(states, actions, i - 1);
      assert Step(states[i - 1], actions[i - 1], states[i]);
    }
  }

  /** One producer thread needs no further discipline. */
  lemma SingleProducerIsSerialised(states: seq<State>, actions: seq<Action>)
    requires IsRun(states, actions) && |states[0].producers| <= 1
    ensures forall j :: 0 <= j < |states| ==> Serialised(states[j])
  {
    forall j | 0 <= j < |states| ensures Serialised(states[j]) {
      ShapeIsFixed(states, actions, j);
    }
  }

  /** The slot being written is never the slot being copied. */
  lemma WriterAndReaderUseDifferentSlots(states: seq<State>, actions: seq<Action>, i: nat, p: nat)
    requires IsRun(states, actions) && i < |states|
    requires forall j :: 0 <= j < |states| ==> Serialised(states[j])
    requires p < |states[i].producers| && states[i].producers[p].Filling? && states[i].consumer.Copying?
    ensures GetIndex(states[i].bits, Wrap(states[i].producers[p].write))
         != GetIndex(states[i].bits, Wrap(states[i].consumer.read))
  {
    ReachableInv(states, actions, i);
    var s := states[i];
    assert ProducerFits(s, p);
    MaskIsModulo(s.bits, s.write);
    MaskIsModulo(s.bits, s.read);
    CloseNumbersDiffer(s.write, s.read, Pow2(s.bits));
  }

  // ----- Any number of overlapping producers -----

  /** No push in progress has been overtaken by 2^64 - N or more other pushes. */
  predicate NotLapped(s: State) {
    forall p :: 0 <= p < |s.producers| && (s.producers[p].HaveWrite? || s.producers[p].Filling?) ==>
      s.write - s.producers[p].write <= TWO64 - Pow2(s.bits)
  }

  predicate StaleIsSafe(s: State, p: nat)
    requires p < |s.producers|
  {
    match s.producers[p]
    case Idle => true
    case Retry(_) => true
    case HaveWrite(_, w) => w <= s.write
    case Filling(_, w, _) => w <= s.write && w < s.read + Pow2(s.bits)
  }

  predicate SharedInv(s: State) {
    && WellFormed(s) && CountersFit(s) && ConsumerFits(s)
    && forall p :: 0 <= p < |s.producers| ==> StaleIsSafe(s, p)
  }

  lemma StaleTestIsSafe(bits: nat, read: nat, write: nat, now: nat)
    requires Pow2(bits) < TWO64
    requires read <= now && write <= now && now - write <= TWO64 - Pow2(bits) && now - read <= Pow2(bits)
    requires !IsFull(bits, Wrap(read), Wrap(write))
    ensures read <= write < read + Pow2(bits)
  {
    if write < read {
      WrapDistinguishes(write, read);
      assert false;
    } else {
      FullIsTrueLength(bits, read, write);
    }
  }

  /** A compare-exchange can only succeed on the count it loaded. */
  lemma OnlyFreshCommits(s: State, p: nat)
    requires SharedInv(s) && NotLapped(s) && p < |s.producers| && s.producers[p].Filling?
    requires Wrap(s.write) == Wrap(s.producers[p].write)
    ensures s.write == s.producers[p].write < s.read + Pow2(s.bits)
  {
    assert StaleIsSafe(s, p);
    WrapDistinguishes(s.producers[p].write, s.write);
  }

  lemma StepKeepsStaleSafe(s: State, a: Action, s': State, q: nat)
    requires SharedInv(s) && NotLapped(s) && Step(s, a, s') && q < |s'.producers|
    ensures StaleIsSafe(s', q)
  {
    assert StaleIsSafe(s, q);
    if a == LoadReadAndTest(q) && s'.producers[q].Filling? {
      RingFitsInWord(s);
      StaleTestIsSafe(s.bits, s.read, s.producers[q].write, s.write);
    }
  }

  lemma StepKeepsSharedInv(s: State, a: Action, s': State)
    requires SharedInv(s) && NotLapped(s) && Step(s, a, s')
    ensures SharedInv(s')
  {
    forall q | 0 <= q < |s'.producers| ensures StaleIsSafe(s', q) {
      StepKeepsStaleSafe(s, a, s', q);
    }
    if a.CompareExchange? && Wrap(s.write) == Wrap(s.producers[a.p].write) {
      OnlyFreshCommits(s, a.p);
    }
    if a.PopLoadWriteAndTest? {
      RingFitsInWord(s);
    }
  }

  lemma {:induction false} ReachableSharedInv(states: seq<State>, actions: seq<Action>, i: nat)
    requires IsRun(states, actions) && i < |states|
    requires forall j :: 0 <= j < |states| ==> NotLapped(states[j])
    ensures SharedInv(states[i])
  {
    if i == 0 {
      var s := states[0];
      forall p | 0 <= p < |s.producers| ensures StaleIsSafe(s, p) {
        assert s.producers[p] == Idle;
      }
    } else {
      ReachableSharedInv(states, actions, i - 1);
      assert Step(states[i - 1], actions[i - 1], states[i]);
      StepKeepsSharedInv(states[i - 1], actions[i - 1], states[i]);
    }
  }

  /** With any number of producers and stale loads the ring never overfills, and write_idx
      counts the successful pushes. */
  lemma OccupancyIsBounded(states: seq<State>, actions: seq<Action>, i: nat)
    requires IsRun(states, actions) && i < |states|
    requires forall j :: 0 <= j < |states| ==> NotLapped(states[j])
    ensures 0 <= states[i].write - states[i].read <= Pow2(states[i].bits)
    ensures states[i].write == |states[i].pushed| && states[i].read == |states[i].popped|
  {
    ReachableSharedInv(states, actions, i);
  }

  lemma {:induction false} PushesAreCounted(states: seq<State>, actions: seq<Action>, i: nat, last: nat)
    requires IsRun(states, actions) && i <= last < |states|
    ensures states[i].write == |states[i].pushed|
    ensures states[i].write <= states[last].write
    decreases last
  {
    if last > 0 {
      PushesAreCounted(states, actions, if i == last then i - 1 else i, last - 1);
      assert Step(states[last - 1], actions[last - 1], states[last]);
    }
  }

  /** No push is lapped in a run of at most 2^64 - N pushes, so such a run needs no further
      assumption for its occupancy to be bounded. */
  lemma ShortRunsAreNotLapped(states: seq<State>, actions: seq<Action>, i: nat)
    requires IsRun(states, actions) && i < |states|
    requires |states[|actions|].pushed| <= TWO64 - Pow2(states[0].bits)
    ensures forall j :: 0 <= j < |states| ==> NotLapped(states[j])
    ensures 0 <= states[i].write - states[i].read <= Pow2(states[0].bits)
  {
    PushesAreCounted(states, actions, |actions|, |actions|);
    forall j | 0 <= j < |states| ensures NotLapped(states[j]) {
      PushesAreCounted(states, actions, j, |actions|);
      ShapeIsFixed(states, actions, j);
    }
    OccupancyIsBounded(states, actions, i);
    ShapeIsFixed(states, actions, i);
  }

  // ----- Pushes and pops with nobody else inside the ring -----

  predicate Quiet(s: State) {
    s.producers == [Idle] && s.consumer == Outside
  }

  /** What the wrapped registers say about the true counters. */
  lemma RegistersTellTheTruth(s: State)
    requires Inv(s)
    ensures IsFull(s.bits, Wrap(s.read), Wrap(s.write)) <==> s.write - s.read >= Pow2(s.bits)
    ensures Wrap(s.read) == Wrap(s.write) <==> s.read == s.write
    ensures Wrap(Wrap(s.write) - Wrap(s.read)) == s.write - s.read
    ensures Wrap(Wrap(s.read) + 1) == Wrap(s.read + 1) && Wrap(Wrap(s.write) + 1) == Wrap(s.write + 1)
    ensures GetIndex(s.bits, Wrap(s.read)) == s.read % Pow2(s.bits)
    ensures GetIndex(s.bits, Wrap(s.write)) == s.write % Pow2(s.bits)
  {
    RingFitsInWord(s);
    FullIsTrueLength(s.bits, s.read, s.write);
    WrapDistinguishes(s.read, s.write);
    WrapNext(s.read);
    WrapNext(s.write);
    MaskIsModulo(s.bits, s.read);
    MaskIsModulo(s.bits, s.write);
  }

  /** Filling the free slot disturbs nothing; committing it extends what was pushed. */
  lemma QuietPush(s: State, msg: Message, slot: Slot)
    requires Inv(s) && Quiet(s) && s.write - s.read < Pow2(s.bits)
    requires |msg| == s.fields && Delivers(msg, slot)
    ensures var t := s.(slots := s.slots[s.write % Pow2(s.bits) := slot]);
            Inv(t) && Inv(t.(write := s.write + 1, pushed := s.pushed + [msg]))
  {
    FreeSlotIsOutsideWindow(s, slot);
    var t := s.(slots := s.slots[s.write % Pow2(s.bits) := slot]);
    var u := t.(write := s.write + 1, pushed := s.pushed + [msg]);
    forall i | s.read <= i < u.write && i < |u.pushed|
      ensures Delivers(u.pushed[i], u.slots[i % Pow2(s.bits)])
    {
      if i < s.write {
        assert Delivers(t.pushed[i], t.slots[i % Pow2(s.bits)]);
      }
    }
  }

  lemma QuietPop(s: State)
    requires Inv(s) && Quiet(s) && s.read < s.write
    ensures var slot := s.slots[s.read % Pow2(s.bits)];
            && Delivers(s.pushed[s.read], slot)
            && Inv(s.(read := s.read + 1, popped := s.popped + [slot]))
  {
  }
}
