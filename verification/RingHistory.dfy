/** What happens to every message that is begun, and what exactly a popped slot holds. */
module RingHistory {
  import opened Wrappers
  import opened Words
  import opened RingMachine

  // ----- Every message begun is pushed -----

  /** The messages that producer p has committed, in order. */
  function CommittedBy(pushed: seq<Message>, authors: seq<nat>, p: nat): seq<Message>
    requires |pushed| == |authors|
  {
    if pushed == [] then []
    else
      var n := |pushed| - 1;
      CommittedBy(pushed[..n], authors[..n], p) + if authors[n] == p then [pushed[n]] else []
  }

  function InProgress(me: Producer): seq<Message> {
    if me.Idle? then [] else [me.msg]
  }

  predicate SamePushes(clocked: set<nat>, begun: seq<Message>, done: seq<Message>) {
    |begun| == |done| && forall i :: 0 <= i < |begun| ==> SamePush(clocked, begun[i], done[i])
  }

  /** Producer p's begun messages are those it has committed and then the one it is pushing. */
  predicate KeepsWord(s: State, p: nat)
    requires |s.pushed| == |s.authors| && p < |s.producers| && |s.begun| == |s.producers|
  {
    SamePushes(s.clocked, s.begun[p], CommittedBy(s.pushed, s.authors, p) + InProgress(s.producers[p]))
  }

  predicate NothingForgotten(s: State) {
    && |s.pushed| == |s.authors| && |s.begun| == |s.producers|
    && (forall i :: 0 <= i < |s.authors| ==> s.authors[i] < |s.producers|)
    && forall p :: 0 <= p < |s.producers| ==> KeepsWord(s, p)
  }

  lemma CommittedByLonger(pushed: seq<Message>, authors: seq<nat>, m: Message, a: nat, p: nat)
    requires |pushed| == |authors|
    ensures CommittedBy(pushed + [m], authors + [a], p) ==
      CommittedBy(pushed, authors, p) + if a == p then [m] else []
  {
    assert (pushed + [m])[..|pushed|] == pushed && (authors + [a])[..|pushed|] == authors;
  }

  lemma StepKeepsWord(s: State, a: Action, s': State, p: nat)
    requires NothingForgotten(s) && Step(s, a, s') && p < |s.producers|
    ensures |s'.pushed| == |s'.authors| && |s'.begun| == |s'.producers| == |s.producers|
    ensures KeepsWord(s', p)
  {
    hide GetIndex, IsFull, Wrap, Pow2, CommittedBy, Stored;
    assert KeepsWord(s, p);
    if s'.pushed != s.pushed {
      CommittedByLonger(s.pushed, s.authors, s.producers[a.p].msg, a.p, p);
    }
  }

  /** Over every run of any number of producers, overlapping or not, spurious failures
      included: what a producer begins it commits, in order and once, up to the one message
      it is still pushing. */
  lemma {:induction false} EveryBegunMessageIsPushed(states: seq<State>, actions: seq<Action>, i: nat)
    requires IsRun(states, actions) && i < |states|
    ensures NothingForgotten(states[i])
  {
    if i > 0 {
      EveryBegunMessageIsPushed(states, actions, i - 1);
      var s, a, s' := states[i - 1], actions[i - 1], states[i];
      assert Step(s, a, s');
      AuthorsAreProducers(s, a, s');
      forall p | 0 <= p < |s.producers| ensures KeepsWord(s', p) {
        StepKeepsWord(s, a, s', p);
      }
    }
  }

  lemma AuthorsAreProducers(s: State, a: Action, s': State)
    requires NothingForgotten(s) && Step(s, a, s')
    ensures |s'.pushed| == |s'.authors| && |s'.begun| == |s'.producers| == |s.producers|
    ensures forall i :: 0 <= i < |s'.authors| ==> s'.authors[i] < |s'.producers|
  {
    hide GetIndex, IsFull, Wrap, Pow2, Stored;
  }

  lemma {:induction false} OneAuthor(pushed: seq<Message>, authors: seq<nat>)
    requires |pushed| == |authors| && forall i :: 0 <= i < |authors| ==> authors[i] == 0
    ensures CommittedBy(pushed, authors, 0) == pushed
  {
    if pushed != [] {
      var n := |pushed| - 1;
      OneAuthor(pushed[..n], authors[..n]);
    }
  }

  /** With one producer: popped slots are the first begun messages, each in its place, in
      every field that the message stores and no later pass takes anew; and every begun
      message but the one in progress has been pushed. */
  lemma BegunMessagesArrive(states: seq<State>, actions: seq<Action>, i: nat)
    requires IsRun(states, actions) && i < |states| && |states[0].producers| == 1
    ensures var s := states[i];
      && |s.producers| == 1 && |s.begun| == 1
      && |s.begun[0]| == |s.pushed| + (if s.producers[0].Idle? then 0 else 1)
      && |s.popped| <= |s.begun[0]|
      && forall k, j :: 0 <= k < |s.popped| && 0 <= j < |s.begun[0][k]| && j !in s.clocked ==>
           |s.popped[k]| == |s.begun[0][k]|
           && (s.begun[0][k][j].Some? ==> s.popped[k][j] == s.begun[0][k][j].value)
  {
    EveryBegunMessageIsPushed(states, actions, i);
    ShapeIsFixed(states, actions, i);
    SingleProducerIsSerialised(states, actions);
    FifoAndNoLoss(states, actions, i);
    hide IsRun, Serialised, WellFormed, WindowIntact, CountersFit;
    var s := states[i];
    OneAuthor(s.pushed, s.authors);
    assert KeepsWord(s, 0);
    forall k | 0 <= k < |s.popped|
      ensures SamePush(s.clocked, s.begun[0][k], s.pushed[k]) && Delivers(s.pushed[k], s.popped[k])
    {
      assert s.pushed[k] == (s.pushed + InProgress(s.producers[0]))[k];
    }
  }

  // ----- What exactly a slot holds -----

  /** A slot over which a message has been written: fields it leaves alone keep their value. */
  function Overlay(slot: Slot, msg: Message): (r: Slot)
    ensures |r| == |slot|
  {
    seq(|slot|, j requires 0 <= j < |slot| => if j < |msg| && msg[j].Some? then msg[j].value else slot[j])
  }

  /** The slot of index k just before the k-th push writes it, in a ring of n slots: as it was
      constructed, or as the push one lap earlier left it. */
  function Before(blank: Slot, pushed: seq<Message>, n: nat, k: nat): (r: Slot)
    requires 0 < n && k < |pushed| + n
    ensures |r| == |blank|
    decreases k, 0
  {
    if k < n then blank else Content(blank, pushed, n, k - n)
  }

  /** The slot that the k-th push leaves behind. */
  function Content(blank: Slot, pushed: seq<Message>, n: nat, k: nat): (r: Slot)
    requires 0 < n && k < |pushed|
    ensures |r| == |blank|
    decreases k, 1
  {
    Overlay(Before(blank, pushed, n, k), pushed[k])
  }

  lemma {:induction false} BeforeIsStable(blank: Slot, pushed: seq<Message>, m: Message, n: nat, k: nat)
    requires 0 < n && k < |pushed| + n
    ensures Before(blank, pushed + [m], n, k) == Before(blank, pushed, n, k)
    decreases k
  {
    if k >= n {
      BeforeIsStable(blank, pushed, m, n, k - n);
    }
  }

  lemma ContentIsStable(blank: Slot, pushed: seq<Message>, m: Message, n: nat, k: nat)
    requires 0 < n && k < |pushed|
    ensures Content(blank, pushed + [m], n, k) == Content(blank, pushed, n, k)
  {
    BeforeIsStable(blank, pushed, m, n, k);
  }

  function SlotOf(s: State, k: nat): Slot
    requires WellFormed(s)
  {
    s.slots[k % Pow2(s.bits)]
  }

  function Due(s: State, k: nat): Slot
    requires k < |s.pushed| + Pow2(s.bits)
  {
    Before(s.blank, s.pushed, Pow2(s.bits), k)
  }

  /** All slots but the next free one hold what the last push there left. */
  predicate LapIntact(s: State)
    requires WellFormed(s) && |s.pushed| == s.write
  {
    forall k :: s.write < k < s.write + Pow2(s.bits) ==> SlotOf(s, k) == Due(s, k)
  }

  /** No push in progress stores field j. */
  predicate Spared(s: State, j: nat) {
    forall p :: 0 <= p < |s.producers| ==> !Stores(s.producers[p], j)
  }

  predicate Stores(me: Producer, j: nat) {
    !me.Idle? && j < |me.msg| && me.msg[j].Some?
  }

  /** So does the next free one, in every field that no push in progress stores, and in all
      fields while the ring is full. */
  predicate FreeSlotSpared(s: State)
    requires WellFormed(s) && |s.pushed| == s.write
  {
    forall j :: 0 <= j < s.fields && (Spared(s, j) || s.write - s.read >= Pow2(s.bits)) ==>
      SlotOf(s, s.write)[j] == Due(s, s.write)[j]
  }

  predicate CopyExact(s: State)
    requires |s.pushed| == s.write
  {
    s.consumer.Copying? && s.read < s.write && |s.consumer.copied| <= |s.blank| ==>
      forall j :: 0 <= j < |s.consumer.copied| ==>
        s.consumer.copied[j] == Content(s.blank, s.pushed, Pow2(s.bits), s.read)[j]
  }

  predicate PoppedExact(s: State) {
    && |s.popped| <= |s.pushed|
    && forall k :: 0 <= k < |s.popped| ==> s.popped[k] == Content(s.blank, s.pushed, Pow2(s.bits), k)
  }

  predicate ExactInv(s: State) {
    WellFormed(s) && |s.pushed| == s.write && LapIntact(s) && FreeSlotSpared(s) && CopyExact(s) && PoppedExact(s)
  }

  lemma OneLapLater(k: nat, n: nat)
    requires n > 0
    ensures (k + n) % n == k % n
  {
    RemainderUnique(k + n, n, k / n + 1, k % n);
  }

  /** The slot being read holds what its push left. */
  lemma ReadSlotIsExact(s: State)
    requires Inv(s) && ExactInv(s) && s.read < s.write
    ensures SlotOf(s, s.read) == Content(s.blank, s.pushed, Pow2(s.bits), s.read)
  {
    hide Pow2, Content;
    var n, k := Pow2(s.bits), s.read + Pow2(s.bits);
    OneLapLater(s.read, n);
    assert Due(s, k) == Content(s.blank, s.pushed, n, s.read);
    if k > s.write {
      assert SlotOf(s, k) == Due(s, k);
    } else {
      assert k == s.write && |SlotOf(s, k)| == |Due(s, k)|;
      assert SlotOf(s, k) == Due(s, k);
    }
  }

  lemma StoreKeepsExact(s: State, p: nat)
    requires Inv(s) && Serialised(s) && ExactInv(s) && Enabled(s, StoreField(p))
    ensures ExactInv(Next(s, StoreField(p)))
  {
    hide Pow2, Before, GetIndex, Wrap;
    var t := Next(s, StoreField(p));
    assert ProducerFits(s, p);
    MaskIsModulo(s.bits, s.write);
    forall k | t.write < k < t.write + Pow2(t.bits) ensures SlotOf(t, k) == Due(t, k) {
      CloseNumbersDiffer(k, s.write, Pow2(s.bits));
      assert SlotOf(s, k) == Due(s, k);
    }
    forall j | 0 <= j < t.fields && Spared(t, j) ensures SlotOf(t, t.write)[j] == Due(t, t.write)[j] {
      assert !Stores(t.producers[p], j);
      assert Spared(s, j);
    }
  }

  lemma CommitKeepsExact(s: State, p: nat)
    requires Inv(s) && Serialised(s) && ExactInv(s) && Enabled(s, CompareExchange(p, false))
    requires Wrap(s.write) == Wrap(s.producers[p].write)
    ensures ExactInv(Next(s, CompareExchange(p, false)))
  {
    hide Pow2, Before, Wrap, Content;
    var t, n := Next(s, CompareExchange(p, false)), Pow2(s.bits);
    var msg := s.producers[p].msg;
    assert ProducerFits(s, p);
    FilledSlotIsExact(s, p);
    OneLapLater(s.write, n);
    forall k | s.write < k <= s.write + n ensures SlotOf(t, k) == Due(t, k) {
      if k < s.write + n {
        BeforeIsStable(s.blank, s.pushed, msg, n, k);
        assert SlotOf(s, k) == Due(s, k);
      } else {
        LapBack(t.blank, t.pushed, n, s.write);
      }
    }
    forall k | 0 <= k < |t.popped| ensures t.popped[k] == Content(t.blank, t.pushed, n, k) {
      ContentIsStable(s.blank, s.pushed, msg, n, k);
    }
    if s.consumer.Copying? {
      ContentIsStable(s.blank, s.pushed, msg, n, s.read);
    }
    assert SlotOf(t, t.write) == Due(t, t.write);
  }

  lemma LapBack(blank: Slot, pushed: seq<Message>, n: nat, k: nat)
    requires 0 < n && k < |pushed|
    ensures Before(blank, pushed, n, k + n) == Content(blank, pushed, n, k)
  {
  }

  /** When all fields are stored the free slot is the overlay of the message. */
  lemma FilledSlotIsExact(s: State, p: nat)
    requires Inv(s) && Serialised(s) && ExactInv(s) && p < |s.producers|
    requires s.producers[p].Filling? && s.producers[p].next >= s.fields
    ensures SlotOf(s, s.write) == Content(s.blank, s.pushed + [s.producers[p].msg], Pow2(s.bits), s.write)
  {
    hide Pow2, Before;
    var msg := s.producers[p].msg;
    assert ProducerFits(s, p);
    BeforeIsStable(s.blank, s.pushed, msg, Pow2(s.bits), s.write);
    var slot, due := SlotOf(s, s.write), Due(s, s.write);
    forall j | 0 <= j < s.fields ensures slot[j] == Overlay(due, msg)[j] {
      if msg[j].None? {
        forall q | 0 <= q < |s.producers| ensures !Stores(s.producers[q], j) {
          if q != p {
            assert s.producers[q].Idle?;
          }
        }
        assert Spared(s, j);
      }
    }
    assert slot == Overlay(due, msg);
  }

  /** Begin, the loads, a failed exchange and the reader's loads touch no slot; they can only
      add fields to those a push in progress stores. */
  lemma ControlKeepsExact(s: State, a: Action)
    requires Inv(s) && ExactInv(s) && Enabled(s, a)
    requires !a.StoreField? && !a.CopyField? && !a.PopAdvance?
    requires Next(s, a).write == s.write
    ensures ExactInv(Next(s, a))
  {
    hide Pow2, Before, Wrap, Content, GetIndex;
    var t := Next(s, a);
    ControlLeaves(s, a);
    forall k | t.write < k < t.write + Pow2(t.bits) ensures SlotOf(t, k) == Due(t, k) {
      assert SlotOf(s, k) == Due(s, k);
    }
    forall j | 0 <= j < t.fields && (Spared(t, j) || t.write - t.read >= Pow2(t.bits))
      ensures SlotOf(t, t.write)[j] == Due(t, t.write)[j]
    {
      if Spared(t, j) {
        forall p | 0 <= p < |s.producers| ensures !Stores(s.producers[p], j) {
          assert !Stores(t.producers[p], j);
        }
        assert Spared(s, j);
      }
      assert SlotOf(s, s.write)[j] == Due(s, s.write)[j];
    }
  }

  lemma ControlLeaves(s: State, a: Action)
    requires Inv(s) && Enabled(s, a) && !a.StoreField? && !a.CopyField? && !a.PopAdvance?
    requires Next(s, a).write == s.write
    ensures var t := Next(s, a);
      && t.slots == s.slots && t.read == s.read && t.pushed == s.pushed && t.popped == s.popped
      && t.bits == s.bits && t.fields == s.fields && t.blank == s.blank
      && WellFormed(t) && |t.producers| == |s.producers|
      && (t.consumer == s.consumer || !t.consumer.Copying? || t.consumer.copied == [])
      && forall p, j: nat :: 0 <= p < |s.producers| && Stores(s.producers[p], j) ==> Stores(t.producers[p], j)
  {
    hide Pow2, Wrap, GetIndex;
  }

  lemma PopsKeepExact(s: State, a: Action)
    requires Inv(s) && ExactInv(s) && Enabled(s, a) && (a.CopyField? || a.PopAdvance?)
    ensures ExactInv(Next(s, a))
  {
    hide Pow2, Before, Wrap, Content, GetIndex;
    var t := Next(s, a);
    MaskIsModulo(s.bits, s.read);
    ReadSlotIsExact(s);
    forall k | t.write < k < t.write + Pow2(t.bits) ensures SlotOf(t, k) == Due(t, k) {
      assert SlotOf(s, k) == Due(s, k);
    }
    forall j | 0 <= j < t.fields && (Spared(t, j) || t.write - t.read >= Pow2(t.bits))
      ensures SlotOf(t, t.write)[j] == Due(t, t.write)[j]
    {
      if Spared(t, j) {
        forall p | 0 <= p < |s.producers| ensures !Stores(s.producers[p], j) {
          assert !Stores(t.producers[p], j);
        }
        assert Spared(s, j);
      }
      assert SlotOf(s, s.write)[j] == Due(s, s.write)[j];
    }
  }

  lemma StepKeepsExact(s: State, a: Action, s': State)
    requires Inv(s) && Serialised(s) && ExactInv(s) && Step(s, a, s')
    ensures ExactInv(s')
  {
    hide Inv, ExactInv, Serialised;
    if a.StoreField? {
      StoreKeepsExact(s, a.p);
    } else if a.CopyField? || a.PopAdvance? {
      PopsKeepExact(s, a);
    } else if s'.write != s.write {
      assert a == CompareExchange(a.p, false);
      CommitKeepsExact(s, a.p);
    } else {
      ControlKeepsExact(s, a);
    }
  }

  lemma InitialIsExact(s: State)
    requires Initial(s)
    ensures ExactInv(s)
  {
    var n := Pow2(s.bits);
    forall k | s.write < k < s.write + n ensures SlotOf(s, k) == Due(s, k) {
      assert s.slots[k % n] == s.blank;
    }
    assert s.slots[0 % n] == s.blank;
  }

  lemma {:induction false} ReachableIsExact(states: seq<State>, actions: seq<Action>, i: nat)
    requires IsRun(states, actions) && i < |states|
    requires forall j :: 0 <= j < |states| ==> Serialised(states[j])
    ensures ExactInv(states[i])
  {
    hide ExactInv, Inv, Serialised, Initial, Step;
    if i == 0 {
      InitialIsExact(states[0]);
    } else {
      ReachableIsExact(states, actions, i - 1);
      assert Step(states[i - 1], actions[i - 1], states[i]);
      ReachableInv(states, actions, i - 1);
      StepKeepsExact(states[i - 1], actions[i - 1], states[i]);
    }
  }

  /** Over every run with non-overlapping pushes a popped slot is, field by field, what its
      push stored, and in a field that the push leaves alone what the push one lap earlier
      left there, down to the slot as constructed. */
  lemma PoppedSlotsAreExact(states: seq<State>, actions: seq<Action>, i: nat)
    requires IsRun(states, actions) && i < |states|
    requires forall j :: 0 <= j < |states| ==> Serialised(states[j])
    ensures var s := states[i];
      && |s.popped| <= |s.pushed|
      && forall k :: 0 <= k < |s.popped| ==> s.popped[k] == Content(s.blank, s.pushed, Pow2(s.bits), k)
  {
    hide IsRun, LapIntact, FreeSlotSpared, CopyExact, WellFormed;
    ReachableIsExact(states, actions, i);
  }
}
