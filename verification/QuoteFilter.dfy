/** IsValidQuota: the cross-feed filter that keeps an instrument's time and volume from
    running backwards and drops a level-1 quote that repeats the level-2 quote before it. */
module QuoteFilter {
  import opened Wrappers
  import opened Bytes
  import opened InstMaps

  /** A double as the price comparison sees it. */
  datatype Price = NaN | Num(v: real)

  /** One quote as passed to IsValidQuota. */
  datatype Quote = Quote(extime: nat, vol: nat, level: nat, askPrice: Price, bidPrice: Price, askVol: nat, bidVol: nat)

  datatype Verdict = Ok | TimeError | VolError | RepeatL1

  /** The cached quote; level 0 marks an entry never written. */
  const ZERO: Quote := Quote(0, 0, 0, Num(0.0), Num(0.0), 0, 0)

  predicate PriceCom(a: Price, b: Price) {
    a.Num? && b.Num? && (if a.v >= b.v then a.v - b.v else b.v - a.v) < 0.00000001
  }

  // ----- The cached form -----

  function Judge(cache: Quote, q: Quote): Verdict {
    if cache.level != 0 then
      if q.extime < cache.extime then TimeError
      else if q.vol < cache.vol then VolError
      else if cache.level == 5 && q.level == 1 && q.vol == cache.vol
              && cache.askVol == q.askVol && cache.bidVol == q.bidVol
              && PriceCom(cache.askPrice, q.askPrice) && PriceCom(cache.bidPrice, q.bidPrice) then RepeatL1
      else Ok
    else Ok
  }

  function Cached(cache: Quote, q: Quote): Quote {
    if Judge(cache, q) == Ok then q else cache
  }

  /** QuotaInfo, written through the pointer that Find returned. */
  class QuotaInfo {
    var time: nat
    var volume: nat
    var askPrice: Price
    var bidPrice: Price
    var askVol: nat
    var bidVol: nat
    var level: nat

    function View(): Quote
      reads this
    {
      Quote(time, volume, level, askPrice, bidPrice, askVol, bidVol)
    }

    constructor ()
      ensures View() == ZERO
    {
      time, volume, level, askVol, bidVol := 0, 0, 0, 0, 0;
      askPrice, bidPrice := Num(0.0), Num(0.0);
    }

    method IsValidQuota(extime: nat, vol: nat, lev: nat, ap: Price, bp: Price, av: nat, bv: nat)
        returns (ret: Verdict)
      modifies this
      ensures ret == Judge(old(View()), Quote(extime, vol, lev, ap, bp, av, bv))
      ensures View() == Cached(old(View()), Quote(extime, vol, lev, ap, bp, av, bv))
    {
      ret := Ok;
      if level != 0 {
        if extime < time {
          return TimeError;
        }
        if vol < volume {
          return VolError;
        }
        if level == 5 && lev == 1 && vol == volume && askVol == av && bidVol == bv
           && PriceCom(askPrice, ap) && PriceCom(bidPrice, bp)
        {
          return RepeatL1;
        }
      }
      time := extime;
      volume := vol;
      level := lev;
      askPrice := ap;
      bidPrice := bp;
      askVol := av;
      bidVol := bv;
    }
  }

  // ----- Two feeds into one cache -----

  /** What reaches the filter for one instrument. A level-2 message carries its volume as
      an int32_t, a level-1 quote as a uint32_t. */
  datatype Event =
    | L1(extime: nat, volume: nat, askPrice: Price, bidPrice: Price, askVol: nat, bidVol: nat)
    | L2(extime: nat, signedVolume: int, askPrice: Price, bidPrice: Price, askVol: nat, bidVol: nat,
         lower: real, upper: real)

  predicate ValidEvent(e: Event) {
    match e
    case L1(_, volume, _, _, _, _) => volume < 0x1_0000_0000
    case L2(_, signedVolume, _, _, _, _, _, _) => -0x8000_0000 <= signedVolume < 0x8000_0000
  }

  const FIFTEEN_OCLOCK_MS: nat := 54000000

  predicate OutsideLimits(p: Price, lower: real, upper: real) {
    p.Num? && (p.v < lower || p.v > upper)
  }

  /** OnData_lv2 returns before the filter after 15:00, and when both best prices are out
      of the day's limits. */
  predicate ReachesFilter(e: Event) {
    e.L2? ==>
      && e.extime <= FIFTEEN_OCLOCK_MS
      && !(OutsideLimits(e.askPrice, e.lower, e.upper) && OutsideLimits(e.bidPrice, e.lower, e.upper))
  }

  /** The argument conversions: int32_t to uint64_t extends the sign. */
  function QuoteOf(e: Event): Quote
    requires ValidEvent(e)
  {
    match e
    case L1(t, v, ap, bp, av, bv) => Quote(t, v, 1, ap, bp, av, bv)
    case L2(t, v, ap, bp, av, bv, _, _) =>
      Quote(t, if v < 0 then 0x1_0000_0000_0000_0000 + v else v, 5, ap, bp, av, bv)
  }

  /** The uint32_t volume of the quote that is pushed to the ring. */
  function PushedVolume(e: Event): nat
    requires ValidEvent(e)
  {
    match e
    case L1(_, v, _, _, _, _) => v
    case L2(_, v, _, _, _, _, _, _) => if v < 0 then 0x1_0000_0000 + v else v
  }

  /** After the cache has advanced a level-2 quote with no volume on either side is dropped. */
  predicate IsPushed(e: Event) {
    e.L2? ==> !(e.askVol == 0 && e.bidVol == 0)
  }

  /** The cache, what the filter accepted, and what was pushed, after a run of events. */
  datatype Feed = Feed(cache: Quote, accepted: seq<Event>, pushed: seq<Event>)

  function FeedStep(f: Feed, e: Event): Feed
    requires ValidEvent(e)
  {
    if !ReachesFilter(e) then f
    else if Judge(f.cache, QuoteOf(e)) != Ok then f
    else Feed(Cached(f.cache, QuoteOf(e)), f.accepted + [e], if IsPushed(e) then f.pushed + [e] else f.pushed)
  }

  predicate ValidEvents(events: seq<Event>) {
    forall e :: e in events ==> ValidEvent(e)
  }

  function RunFeed(events: seq<Event>): Feed
    requires ValidEvents(events)
  {
    if events == [] then Feed(ZERO, [], [])
    else FeedStep(RunFeed(events[..|events| - 1]), events[|events| - 1])
  }

  /** Times and volumes of the pushed quotes never decrease. */
  ghost predicate NonDecreasing(pushed: seq<Event>)
    requires ValidEvents(pushed)
  {
    forall i, j :: 0 <= i < j < |pushed| ==>
      pushed[i].extime <= pushed[j].extime && PushedVolume(pushed[i]) <= PushedVolume(pushed[j])
  }

  /** No level-2 volume below -1, the least value whose two conversions stay in order. */
  predicate VolumesInOrder(events: seq<Event>) {
    forall e :: e in events && e.L2? ==> e.signedVolume >= -1
  }

  /** Two prices less than 10 to the minus 8 apart. */
  predicate NearlyEqual(a: Price, b: Price) {
    a.Num? && b.Num? && a.v - b.v < 0.00000001 && b.v - a.v < 0.00000001
  }

  lemma PriceComIsNearlyEqual(a: Price, b: Price)
    ensures PriceCom(a, b) <==> NearlyEqual(a, b)
  {
  }

  /** A level-1 quote that says nothing new after the level-2 quote before it. */
  predicate Repeats(before: Event, e: Event)
    requires ValidEvent(before) && ValidEvent(e)
  {
    && before.L2? && e.L1?
    && VolumeSeen(before) == VolumeSeen(e)
    && before.askVol == e.askVol && before.bidVol == e.bidVol
    && NearlyEqual(before.askPrice, e.askPrice) && NearlyEqual(before.bidPrice, e.bidPrice)
  }

  /** The volume as the filter compares it: the 64-bit word with the value's low bits, signed
      values extended. */
  function VolumeSeen(e: Event): (v: nat)
    requires ValidEvent(e)
    ensures v < 0x1_0000_0000_0000_0000
    ensures e.L1? ==> v == e.volume
    ensures e.L2? ==> (v - e.signedVolume) % 0x1_0000_0000_0000_0000 == 0
  {
    QuoteOf(e).vol
  }

  /** The pushed volume is the 32-bit word with the value's low bits. */
  lemma PushedVolumeIsTruncated(e: Event)
    requires ValidEvent(e)
    ensures PushedVolume(e) < 0x1_0000_0000
    ensures e.L1? ==> PushedVolume(e) == e.volume
    ensures e.L2? ==> (PushedVolume(e) - e.signedVolume) % 0x1_0000_0000 == 0
  {
  }

  ghost predicate FeedInv(f: Feed) {
    && ValidEvents(f.accepted) && ValidEvents(f.pushed)
    && (f.accepted == [] ==> f.cache == ZERO && f.pushed == [])
    && (f.accepted != [] ==> f.cache == QuoteOf(f.accepted[|f.accepted| - 1]))
    && (forall i :: 0 <= i < |f.pushed| ==>
          f.pushed[i].extime <= f.cache.extime && QuoteOf(f.pushed[i]).vol <= f.cache.vol)
    && (forall i :: 0 < i < |f.accepted| ==> !Repeats(f.accepted[i - 1], f.accepted[i]))
  }

  lemma FeedStepKeepsInv(f: Feed, e: Event)
    requires FeedInv(f) && ValidEvent(e)
    ensures FeedInv(FeedStep(f, e))
  {
  }

  lemma {:induction false} FeedInvHolds(events: seq<Event>)
    requires ValidEvents(events)
    ensures FeedInv(RunFeed(events))
  {
    if events != [] {
      var n := |events| - 1;
      FeedInvHolds(events[..n]);
      FeedStepKeepsInv(RunFeed(events[..n]), events[n]);
    }
  }

  /** Over every run: no accepted level-1 quote repeats the accepted level-2 quote directly
      before it, also when that one was not pushed. */
  lemma NoRepeatedLevel1(events: seq<Event>, i: nat)
    requires ValidEvents(events)
    ensures ValidEvents(RunFeed(events).accepted)
    ensures 0 < i < |RunFeed(events).accepted| ==>
      !Repeats(RunFeed(events).accepted[i - 1], RunFeed(events).accepted[i])
  {
    FeedInvHolds(events);
  }

  // ----- Which events are accepted and pushed -----

  predicate Between(p: Price, lower: real, upper: real) {
    p.NaN? || (lower <= p.v && p.v <= upper)
  }

  /** The gate before the filter: a level-2 quote must not be later than 15:00, and one of its
      two best prices must be within the day's limits. */
  predicate PassesGate(e: Event) {
    e.L2? ==>
      e.extime <= 15 * 3600 * 1000
      && (Between(e.askPrice, e.lower, e.upper) || Between(e.bidPrice, e.lower, e.upper))
  }

  predicate LaterBefore(f: Feed, e: Event) {
    exists i :: 0 <= i < |f.accepted| && f.accepted[i].extime > e.extime
  }

  predicate LargerBefore(f: Feed, e: Event)
    requires ValidEvents(f.accepted) && ValidEvent(e)
  {
    exists i :: 0 <= i < |f.accepted| && VolumeSeen(f.accepted[i]) > VolumeSeen(e)
  }

  predicate RepeatsLast(f: Feed, e: Event)
    requires ValidEvents(f.accepted) && ValidEvent(e)
  {
    f.accepted != [] && Repeats(f.accepted[|f.accepted| - 1], e)
  }

  /** The cache stands for the whole history: accepted times and volumes never decrease. */
  ghost predicate HistoryInv(f: Feed) {
    && ValidEvents(f.accepted)
    && f.cache == (if f.accepted == [] then ZERO else QuoteOf(f.accepted[|f.accepted| - 1]))
    && forall i :: 0 <= i < |f.accepted| ==>
         f.accepted[i].extime <= f.cache.extime && VolumeSeen(f.accepted[i]) <= f.cache.vol
  }

  /** The verdict on an event, by the history of accepted ones. */
  lemma VerdictByHistory(f: Feed, e: Event)
    requires HistoryInv(f) && ValidEvent(e)
    ensures Judge(f.cache, QuoteOf(e)) ==
      if LaterBefore(f, e) then TimeError
      else if LargerBefore(f, e) then VolError
      else if RepeatsLast(f, e) then RepeatL1
      else Ok
  {
    hide PriceCom, NearlyEqual;
    if f.accepted != [] {
      var last := f.accepted[|f.accepted| - 1];
      assert ValidEvent(last);
      PriceComIsNearlyEqual(last.askPrice, e.askPrice);
      PriceComIsNearlyEqual(last.bidPrice, e.bidPrice);
      assert e.extime < last.extime ==> LaterBefore(f, e);
      assert VolumeSeen(e) < VolumeSeen(last) ==> LargerBefore(f, e);
    }
  }

  lemma {:induction false} HistoryHolds(events: seq<Event>)
    requires ValidEvents(events)
    ensures HistoryInv(RunFeed(events))
  {
    if events != [] {
      var n := |events| - 1;
      HistoryHolds(events[..n]);
      VerdictByHistory(RunFeed(events[..n]), events[n]);
      HistoryStep(RunFeed(events[..n]), events[n]);
    }
  }

  lemma HistoryStep(f: Feed, e: Event)
    requires HistoryInv(f) && ValidEvent(e)
    ensures HistoryInv(FeedStep(f, e))
  {
    hide PriceCom, ReachesFilter, IsPushed;
    var g := FeedStep(f, e);
    if g != f {
      VerdictByHistory(f, e);
      forall i | 0 <= i < |g.accepted|
        ensures g.accepted[i].extime <= g.cache.extime && VolumeSeen(g.accepted[i]) <= g.cache.vol
      {
        if i < |f.accepted| {
          assert !(f.accepted[i].extime > e.extime);
        }
      }
    }
  }

  /** Main result for the filter: over every run an event is accepted if and only if it passes
      the gate, no accepted event was later or had a larger volume, and it does not repeat the
      last one; and it is pushed if and only if it is accepted and, on level 2, offers a volume
      on some side. */
  lemma AcceptedExactlyWhen(events: seq<Event>, e: Event)
    requires ValidEvents(events) && ValidEvent(e)
    ensures ValidEvents(events + [e]) && ValidEvents(RunFeed(events).accepted)
    ensures var f := RunFeed(events); var g := RunFeed(events + [e]);
      var good := PassesGate(e) && !LaterBefore(f, e) && !LargerBefore(f, e) && !RepeatsLast(f, e);
      && g.accepted == (if good then f.accepted + [e] else f.accepted)
      && g.pushed == (if good && (e.L1? || e.askVol > 0 || e.bidVol > 0) then f.pushed + [e] else f.pushed)
  {
    HistoryHolds(events);
    VerdictByHistory(RunFeed(events), e);
    assert (events + [e])[..|events|] == events;
    hide Judge, QuoteOf, LaterBefore, LargerBefore, RepeatsLast, HistoryInv;
  }

  lemma ConversionsKeepOrder(a: Event, b: Event)
    requires ValidEvent(a) && ValidEvent(b)
    requires (a.L2? ==> a.signedVolume >= -1) && (b.L2? ==> b.signedVolume >= -1)
    requires QuoteOf(a).vol <= QuoteOf(b).vol
    ensures PushedVolume(a) <= PushedVolume(b)
  {
  }

  /** Pushed quotes come from the events. */
  lemma {:induction false} PushedAreEvents(events: seq<Event>)
    requires ValidEvents(events)
    ensures forall e :: e in RunFeed(events).pushed ==> e in events
  {
    if events != [] {
      var n := |events| - 1;
      PushedAreEvents(events[..n]);
      assert events == events[..n] + [events[n]];
    }
  }

  /** Over every run whose level-2 volumes are at least -1, pushed quotes never go back in
      time or volume. */
  lemma {:induction false} PushesAreMonotone(events: seq<Event>)
    requires ValidEvents(events) && VolumesInOrder(events)
    ensures ValidEvents(RunFeed(events).pushed) && NonDecreasing(RunFeed(events).pushed)
  {
    FeedInvHolds(events);
    if events != [] {
      var n := |events| - 1;
      var f, e := RunFeed(events[..n]), events[n];
      PushesAreMonotone(events[..n]);
      FeedInvHolds(events[..n]);
      PushedAreEvents(events[..n]);
      var g := RunFeed(events);
      if g.pushed != f.pushed {
        assert g.pushed == f.pushed + [e];
        forall i | 0 <= i < |f.pushed|
          ensures f.pushed[i].extime <= e.extime && PushedVolume(f.pushed[i]) <= PushedVolume(e)
        {
          assert f.pushed[i] in events[..n];
          ConversionsKeepOrder(f.pushed[i], e);
        }
      }
    }
  }

  /** A level-2 volume below -1 after the greatest level-1 volume is pushed as a decrease. */
  lemma NegativeVolumeRunsBack(v: int) returns (events: seq<Event>)
    requires -0x8000_0000 <= v < -1
    ensures ValidEvents(events)
    ensures forall e :: e in events && e.L2? ==> e.signedVolume == v
    ensures ValidEvents(RunFeed(events).pushed) && !NonDecreasing(RunFeed(events).pushed)
  {
    var a := L1(0, 0xFFFF_FFFF, Num(1.0), Num(1.0), 1, 1);
    var b := L2(0, v, Num(1.0), Num(1.0), 1, 1, 0.0, 2.0);
    events := [a, b];
    assert events[..1] == [a] && [a][..0] == [];
    assert RunFeed([a]) == Feed(QuoteOf(a), [a], [a]);
    var f := RunFeed(events);
    assert f.pushed == [a, b];
    assert PushedVolume(f.pushed[0]) > PushedVolume(f.pushed[1]);
  }

  ghost predicate OnlyNegativeVolumeIs(events: seq<Event>, v: int) {
    forall e :: e in events && e.L2? ==> e.signedVolume >= 0 || e.signedVolume == v
  }

  /** Exactly which level-2 volumes are harmless: every run that contains no negative one
      other than v stays monotone, if and only if v is at least -1. */
  lemma MonotoneExactlyWhen(v: int)
    requires -0x8000_0000 <= v < 0x8000_0000
    ensures (forall events: seq<Event> {:trigger RunFeed(events)} ::
               ValidEvents(events) && OnlyNegativeVolumeIs(events, v) ==>
               ValidEvents(RunFeed(events).pushed) && NonDecreasing(RunFeed(events).pushed))
            <==> v >= -1
  {
    if v >= -1 {
      forall events: seq<Event> | ValidEvents(events) && OnlyNegativeVolumeIs(events, v)
        ensures ValidEvents(RunFeed(events).pushed) && NonDecreasing(RunFeed(events).pushed)
      {
        PushesAreMonotone(events);
      }
    } else {
      var events := NegativeVolumeRunsBack(v);
      assert OnlyNegativeVolumeIs(events, v);
    }
  }

  // ----- The explicit-map form -----

  datatype Named = Named(inst: seq<byte>, quote: Quote)

  function JudgeByMap(merge: map<seq<byte>, Quote>, n: Named): Verdict {
    if n.inst !in merge then Ok
    else
      var last := merge[n.inst];
      if n.quote.extime < last.extime then TimeError
      else if n.quote.vol < last.vol then VolError
      else if last.level == 5 && n.quote.level == 1 && n.quote.vol == last.vol
              && last.askVol == n.quote.askVol && last.bidVol == n.quote.bidVol
              && PriceCom(last.askPrice, n.quote.askPrice) && PriceCom(last.bidPrice, n.quote.bidPrice) then RepeatL1
      else Ok
  }

  function MapAfter(merge: map<seq<byte>, Quote>, n: Named): map<seq<byte>, Quote> {
    if JudgeByMap(merge, n) == Ok then merge[n.inst := n.quote] else merge
  }

  class QuotaMerge {
    var merge: map<seq<byte>, Quote>

    constructor ()
      ensures merge == map[]
    {
      merge := map[];
    }

    method IsValidQuota(inst: seq<byte>, q: Quote) returns (ret: Verdict)
      modifies this
      ensures ret == JudgeByMap(old(merge), Named(inst, q))
      ensures merge == MapAfter(old(merge), Named(inst, q))
    {
      ret := Ok;
      if inst !in merge {
        merge := merge[inst := q];
      } else {
        var last := merge[inst];
        if q.extime < merge[inst].extime {
          return TimeError;
        } else if q.vol < last.vol {
          return VolError;
        } else if last.level == 5 && q.level == 1 && q.vol == last.vol && last.askVol == q.askVol
                  && last.bidVol == q.bidVol
                  && PriceCom(last.askPrice, q.askPrice) && PriceCom(last.bidPrice, q.bidPrice)
        {
          return RepeatL1;
        }
        merge := merge[inst := q];
      }
    }
  }

  function MapVerdicts(merge: map<seq<byte>, Quote>, quotes: seq<Named>): seq<Verdict>
    decreases |quotes|
  {
    if quotes == [] then []
    else [JudgeByMap(merge, quotes[0])] + MapVerdicts(MapAfter(merge, quotes[0]), quotes[1..])
  }

  // ----- The cached form over the sorted vector -----

  /** The vector after one quote: nothing happens to an instrument that is not in it. */
  function VectorAfter(items: seq<Item<Quote>>, n: Named): seq<Item<Quote>> {
    FindMissesNothing(items, CharsToUint128(n.inst));
    match Find(items, CharsToUint128(n.inst))
    case None => items
    case Some(r) => items[r := items[r].(value := Cached(items[r].value, n.quote))]
  }

  function JudgeByVector(items: seq<Item<Quote>>, n: Named): Option<Verdict> {
    FindMissesNothing(items, CharsToUint128(n.inst));
    match Find(items, CharsToUint128(n.inst))
    case None => None
    case Some(r) => Some(Judge(items[r].value, n.quote))
  }

  /** A quote for an instrument that is not in the vector gets no verdict and changes nothing. */
  lemma UnknownInstrumentIsIgnored(items: seq<Item<Quote>>, n: Named)
    requires SortedByKey(items) && !HasKey(items, CharsToUint128(n.inst))
    ensures JudgeByVector(items, n) == None && VectorAfter(items, n) == items
  {
    hide CharsToUint128, Find;
    FindMissesNothing(items, CharsToUint128(n.inst));
  }

  function VectorVerdicts(items: seq<Item<Quote>>, quotes: seq<Named>): seq<Option<Verdict>>
    decreases |quotes|
  {
    if quotes == [] then []
    else [JudgeByVector(items, quotes[0])] + VectorVerdicts(VectorAfter(items, quotes[0]), quotes[1..])
  }

  function Answered(verdicts: seq<Verdict>): (r: seq<Option<Verdict>>)
  {
    if verdicts == [] then [] else [Some(verdicts[0])] + Answered(verdicts[1..])
  }

  /** Instrument names that the 16-byte keys tell apart. */
  predicate TellApart(names: set<seq<byte>>) {
    && (forall n :: n in names ==> NulFree(n))
    && (forall a, b :: a in names && b in names && a != b ==> Prefix(a) != Prefix(b))
  }

  /** The vector holds, for every name, the last accepted quote or the untouched entry. */
  ghost predicate Agree(names: set<seq<byte>>, items: seq<Item<Quote>>, merge: map<seq<byte>, Quote>) {
    && DistinctKeys(items) && SortedByKey(items)
    && (forall n :: n in names ==>
          && CharsToUint128(n) in ToMap(items)
          && ToMap(items)[CharsToUint128(n)] == if n in merge then merge[n] else ZERO)
    && (forall n :: n in merge ==> merge[n].level != 0)
  }

  lemma AgreeStep(names: set<seq<byte>>, items: seq<Item<Quote>>, merge: map<seq<byte>, Quote>, n: Named)
    requires TellApart(names) && Agree(names, items, merge)
    requires n.inst in names && n.quote.level != 0
    ensures JudgeByVector(items, n) == Some(JudgeByMap(merge, n))
    ensures Agree(names, VectorAfter(items, n), MapAfter(merge, n))
  {
    hide FromLE, PriceCom, CharsToUint128, ToMap, Find;
    var key := CharsToUint128(n.inst);
    FindMissesNothing(items, key);
    ToMapHasExactlyItems(items);
    var r := Find(items, key).value;
    WriteRefines(items, r, Cached(items[r].value, n.quote));
    var items', merge' := VectorAfter(items, n), MapAfter(merge, n);
    forall m | m in names
      ensures CharsToUint128(m) in ToMap(items')
      ensures ToMap(items')[CharsToUint128(m)] == if m in merge' then merge'[m] else ZERO
    {
      KeysCollideExactlyWhen(m, n.inst);
    }
  }

  /** Main result for the two forms: on every sequence of quotes for known instruments with
      a level other than 0 they give the same verdicts. */
  lemma {:induction false} SameVerdicts(names: set<seq<byte>>, items: seq<Item<Quote>>,
                                       merge: map<seq<byte>, Quote>, quotes: seq<Named>)
    requires TellApart(names) && Agree(names, items, merge)
    requires forall n :: n in quotes ==> n.inst in names && n.quote.level != 0
    ensures VectorVerdicts(items, quotes) == Answered(MapVerdicts(merge, quotes))
    decreases |quotes|
  {
    if quotes != [] {
      hide JudgeByVector, JudgeByMap, VectorAfter, MapAfter, Agree, TellApart;
      var n := quotes[0];
      AgreeStep(names, items, merge, n);
      SameVerdicts(names, VectorAfter(items, n), MapAfter(merge, n), quotes[1..]);
      var rest := MapVerdicts(MapAfter(merge, n), quotes[1..]);
      assert MapVerdicts(merge, quotes)[1..] == rest;
    }
  }

  /** A freshly filled and sorted vector agrees with the empty map. */
  lemma FreshVectorAgrees(names: set<seq<byte>>, items: seq<Item<Quote>>)
    requires DistinctKeys(items) && SortedByKey(items)
    requires forall i :: 0 <= i < |items| ==> items[i].value == ZERO
    requires forall n :: n in names ==> HasKey(items, CharsToUint128(n))
    ensures Agree(names, items, map[])
  {
    ToMapHasExactlyItems(items);
  }

  ghost predicate LevelsAreOneFiveOr(quotes: seq<Named>, names: set<seq<byte>>, level: nat) {
    forall n :: n in quotes ==>
      n.inst in names && (n.quote.level == 1 || n.quote.level == 5 || n.quote.level == level)
  }

  /** Two quotes whose time goes backwards, the first with level 0. */
  function BackwardsAfterLevelZero(inst: seq<byte>): seq<Named> {
    [Named(inst, Quote(5, 0, 0, Num(1.0), Num(1.0), 1, 1)), Named(inst, Quote(3, 0, 1, Num(1.0), Num(1.0), 1, 1))]
  }

  /** In any known instrument: after a quote of level 0 the cached form has forgotten the
      time, the explicit map has not. */
  lemma LevelZeroForgets(names: set<seq<byte>>, items: seq<Item<Quote>>, inst: seq<byte>)
    requires TellApart(names) && Agree(names, items, map[]) && inst in names
    ensures VectorVerdicts(items, BackwardsAfterLevelZero(inst)) == [Some(Ok), Some(Ok)]
    ensures MapVerdicts(map[], BackwardsAfterLevelZero(inst)) == [Ok, TimeError]
  {
    hide CharsToUint128, JudgeByVector, VectorAfter;
    var quotes := BackwardsAfterLevelZero(inst);
    var a, b := quotes[0], quotes[1];
    VectorForgets(names, items, a, b);
    var items' := VectorAfter(items, a);
    assert quotes[1..] == [b] && [b][1..] == [];
    assert VectorVerdicts(items', [b]) == [JudgeByVector(items', b)] + [];
    assert VectorVerdicts(items, quotes) == [JudgeByVector(items, a)] + VectorVerdicts(items', [b]);
    var merge := MapAfter(map[], a);
    assert MapVerdicts(merge, [b]) == [TimeError];
    assert MapVerdicts(map[], quotes) == [Ok] + MapVerdicts(merge, [b]);
  }

  lemma VectorForgets(names: set<seq<byte>>, items: seq<Item<Quote>>, a: Named, b: Named)
    requires Agree(names, items, map[]) && a.inst == b.inst && a.inst in names
    requires a.quote.level == 0
    ensures JudgeByVector(items, a) == Some(Ok)
    ensures JudgeByVector(VectorAfter(items, a), b) == Some(Ok)
  {
    hide CharsToUint128, Find, ToMap, PriceCom;
    var key := CharsToUint128(a.inst);
    FindMissesNothing(items, key);
    ToMapHasExactlyItems(items);
    var r := Find(items, key).value;
    WriteRefines(items, r, a.quote);
    var items' := VectorAfter(items, a);
    FindMissesNothing(items', key);
    assert items'[r].key == key;
  }

  /** Level 0 is the one level on which the two forms part, for any set of known instruments:
      allowing one more level besides 1 and 5 keeps all verdicts equal if and only if it is
      not 0. */
  lemma FormsAgreeExactlyWhen(names: set<seq<byte>>, items: seq<Item<Quote>>, level: nat)
    requires names != {} && TellApart(names) && Agree(names, items, map[])
    ensures (forall quotes: seq<Named> {:trigger LevelsAreOneFiveOr(quotes, names, level)} ::
               LevelsAreOneFiveOr(quotes, names, level) ==>
                 VectorVerdicts(items, quotes) == Answered(MapVerdicts(map[], quotes)))
            <==> level != 0
  {
    hide TellApart, Agree;
    if level == 0 {
      var inst :| inst in names;
      LevelZeroForgets(names, items, inst);
      var quotes := BackwardsAfterLevelZero(inst);
      assert LevelsAreOneFiveOr(quotes, names, 0);
      AnsweredOne([Ok, TimeError], 1);
    } else {
      forall quotes: seq<Named> | LevelsAreOneFiveOr(quotes, names, level)
        ensures VectorVerdicts(items, quotes) == Answered(MapVerdicts(map[], quotes))
      {
        SameVerdicts(names, items, map[], quotes);
      }
    }
  }

  lemma {:induction false} AnsweredOne(verdicts: seq<Verdict>, i: nat)
    requires i < |verdicts|
    ensures |Answered(verdicts)| == |verdicts| && Answered(verdicts)[i] == Some(verdicts[i])
  {
    if |verdicts| > 1 {
      AnsweredOne(verdicts[1..], if i > 0 then i - 1 else 0);
    } else {
      assert Answered(verdicts[1..]) == [];
    }
  }
}
