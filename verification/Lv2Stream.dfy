/** Reassembly of level-2 messages from TCP segments: the length classifier, the handler's
    half-message state, and the independence of what is delivered from where segments end. */
module Lv2Stream {
  import opened Wrappers
  import opened Bytes

  const LV2_OB_QUOTE_LEN: nat := 676
  const MAX_BUFFER_SIZE: nat := 1024

  // ----- The classifier as coded -----

  /** Reads byte 0 and the little-endian 32-bit word at 4. For the kinds 'l', 'p' and 's'
      the code compares a string of one character with two-letter names, which never match,
      so they fall through to 0. */
  function GetCurReadMsgLength(data: seq<byte>): nat
    requires |data| >= 8
  {
    if FromLE(data[4..8]) == LV2_OB_QUOTE_LEN then LV2_OB_QUOTE_LEN
    else
      var kind := data[0] as char;
      if kind == '2' then 536
      else if kind == '4' then 204
      else if kind == '5' then 104
      else if kind == '6' then 120
      else if kind == '7' then 216
      else if kind == 'a' then 6
      else 0
  }

  // ----- The heads that exist -----

  /** The length word of a level-2 quote: 676, least significant byte first. */
  predicate HasQuoteWord(head: seq<byte>)
    requires |head| >= 8
  {
    head[4] == 0xA4 && head[5] == 0x02 && head[6] == 0 && head[7] == 0
  }

  /** A message of this size starts with this head. */
  predicate IsHead(head: seq<byte>, size: nat)
    requires |head| >= 8
  {
    if HasQuoteWord(head) then size == 676
    else
      || (head[0] == 0x32 && size == 536)
      || (head[0] == 0x34 && size == 204)
      || (head[0] == 0x35 && size == 104)
      || (head[0] == 0x36 && size == 120)
      || (head[0] == 0x37 && size == 216)
      || (head[0] == 0x61 && size == 6)
  }

  predicate NoHead(head: seq<byte>)
    requires |head| >= 8
  {
    !HasQuoteWord(head) && head[0] !in {0x32, 0x34, 0x35, 0x36, 0x37, 0x61}
  }

  lemma FourBytes(b: seq<byte>)
    requires |b| == 4
    ensures FromLE(b) == b[0] as int + 256 * (b[1] as int + 256 * (b[2] as int + 256 * (b[3] as int)))
  {
    assert b[1..][1..] == b[2..] && b[2..][1..] == b[3..] && b[3..][1..] == [];
    assert FromLE(b[3..]) == b[3] && FromLE(b[2..]) == b[2] as int + 256 * (b[3] as int);
  }

  lemma QuoteWordIs676(data: seq<byte>)
    requires |data| >= 8
    ensures FromLE(data[4..8]) == 676 <==> HasQuoteWord(data)
  {
    FourBytes(data[4..8]);
  }

  /** What the classifier answers: the size of the head, and 0 where there is none. */
  lemma ClassifierAnswers(data: seq<byte>, n: nat)
    requires |data| >= 8
    ensures GetCurReadMsgLength(data) == n <==> if n == 0 then NoHead(data) else IsHead(data, n)
  {
    hide FromLE;
    QuoteWordIs676(data);
  }

  predicate RecognisedLength(n: nat) {
    n in {6, 104, 120, 204, 216, 536, 676}
  }

  lemma ClassifierLengths(data: seq<byte>)
    requires |data| >= 8
    ensures GetCurReadMsgLength(data) != 0 ==> RecognisedLength(GetCurReadMsgLength(data))
    ensures GetCurReadMsgLength(data) <= 676
  {
  }

  lemma ClassifierSeesEightBytes(a: seq<byte>, b: seq<byte>)
    requires |a| >= 8 && |b| >= 8 && a[..8] == b[..8]
    ensures GetCurReadMsgLength(a) == GetCurReadMsgLength(b)
  {
  }

  // ----- The handler as a function of its state and one segment -----

  /** g_half_size bytes of g_extern_msg_buffer, and g_miss_size. */
  datatype Pending = Pending(half: seq<byte>, miss: nat)

  const NOTHING := Pending([], 0)

  datatype Outcome = Outcome(delivered: seq<seq<byte>>, pending: Pending)

  /** The loop while no half message is held. The memory `data` holds the remaining `size`
      bytes of the segment and at least the 8 bytes behind it that the classifier may read. */
  function Scan(data: seq<byte>, size: nat): Outcome
    requires size + 8 <= |data|
    decreases size
  {
    if size <= 6 then Outcome([], NOTHING)
    else
      var len := GetCurReadMsgLength(data);
      if len == 0 then Outcome([], NOTHING)
      else if len <= size then
        var rest := Scan(data[len..], size - len);
        Outcome([data[..len]] + rest.delivered, rest.pending)
      else Outcome([], Pending(data[..size], len - size))
  }

  /** One call of Lv2Handler. None: the segment is a continuation shorter than the missing
      bytes, which the code copies without looking at the segment's length. */
  function Handle(p: Pending, data: seq<byte>, size: nat): Option<Outcome>
    requires size + 8 <= |data|
  {
    if size <= 6 then Some(Outcome([], p))
    else if p.half == [] || GetCurReadMsgLength(data) > 0 then Some(Scan(data, size))
    else if p.miss > size then None
    else
      var rest := Scan(data[p.miss..], size - p.miss);
      Some(Outcome([p.half + data[..p.miss]] + rest.delivered, rest.pending))
  }

  /** One turn of the loop while no half message is held. */
  lemma ScanCases(data: seq<byte>, size: nat)
    requires size + 8 <= |data|
    ensures var len := GetCurReadMsgLength(data);
            Scan(data, size) ==
              if size <= 6 || len == 0 then Outcome([], NOTHING)
              else if len <= size then
                Outcome([data[..len]] + Scan(data[len..], size - len).delivered, Scan(data[len..], size - len).pending)
              else Outcome([], Pending(data[..size], len - size))
    ensures GetCurReadMsgLength(data) > 0 ==> RecognisedLength(GetCurReadMsgLength(data))
    ensures GetCurReadMsgLength(data) <= LV2_OB_QUOTE_LEN
  {
  }

  predicate PendingFits(p: Pending) {
    p == NOTHING || (p.half != [] && p.miss > 0 && RecognisedLength(|p.half| + p.miss))
  }

  lemma {:induction false} ScanKeepsFit(data: seq<byte>, size: nat)
    requires size + 8 <= |data|
    ensures PendingFits(Scan(data, size).pending)
    decreases size
  {
    ClassifierLengths(data);
    if size > 6 && 0 < GetCurReadMsgLength(data) <= size {
      ScanKeepsFit(data[GetCurReadMsgLength(data)..], size - GetCurReadMsgLength(data));
    }
  }

  /** On any input: half and missing sizes stay both zero or add up to a recognised length,
      hence below the buffer size. */
  lemma HandleKeepsFit(p: Pending, data: seq<byte>, size: nat)
    requires size + 8 <= |data| && PendingFits(p) && Handle(p, data, size).Some?
    ensures PendingFits(Handle(p, data, size).value.pending)
    ensures |p.half| + p.miss <= LV2_OB_QUOTE_LEN < MAX_BUFFER_SIZE
  {
    ScanKeepsFit(data, size);
    if p.miss <= size {
      ScanKeepsFit(data[p.miss..], size - p.miss);
    }
  }

  // ----- Runs over many segments -----

  /** A segment and the bytes that happen to lie behind it in memory. */
  datatype Segment = Segment(payload: seq<byte>, behind: seq<byte>)

  predicate Readable(segs: seq<Segment>) {
    forall j :: 0 <= j < |segs| ==> |segs[j].behind| >= 8
  }

  function Then(first: Outcome, later: Option<Outcome>): Option<Outcome> {
    match later
    case None => None
    case Some(o) => Some(Outcome(first.delivered + o.delivered, o.pending))
  }

  function HandleSegment(p: Pending, seg: Segment): Option<Outcome>
    requires |seg.behind| >= 8
  {
    Handle(p, seg.payload + seg.behind, |seg.payload|)
  }

  function Run(p: Pending, segs: seq<Segment>): Option<Outcome>
    requires Readable(segs)
  {
    if segs == [] then Some(Outcome([], p))
    else
      match Run(p, segs[..|segs| - 1])
      case None => None
      case Some(before) => Then(before, HandleSegment(before.pending, segs[|segs| - 1]))
  }

  lemma RunLast(p: Pending, segs: seq<Segment>)
    requires Readable(segs) && segs != [] && Run(p, segs[..|segs| - 1]).Some?
    ensures var before := Run(p, segs[..|segs| - 1]).value;
            Run(p, segs) == Then(before, HandleSegment(before.pending, segs[|segs| - 1]))
  {
  }

  lemma {:induction false} RunKeepsFit(p: Pending, segs: seq<Segment>)
    requires Readable(segs) && PendingFits(p) && Run(p, segs).Some?
    ensures PendingFits(Run(p, segs).value.pending)
  {
    if segs != [] {
      var n := |segs| - 1;
      RunKeepsFit(p, segs[..n]);
      HandleKeepsFit(Run(p, segs[..n]).value.pending, segs[n].payload + segs[n].behind, |segs[n].payload|);
    }
  }

  lemma ThenAssociates(a: Outcome, b: Outcome, c: Option<Outcome>)
    ensures Then(a, Then(b, c)) == Then(Then(a, Some(b)).value, c)
  {
    if c.Some? {
      assert a.delivered + (b.delivered + c.value.delivered)
          == a.delivered + b.delivered + c.value.delivered;
    }
  }

  lemma {:induction false} RunSplits(p: Pending, a: seq<Segment>, b: seq<Segment>)
    requires Readable(a) && Readable(b) && Run(p, a).Some?
    ensures Readable(a + b)
    ensures Run(p, a + b) == Then(Run(p, a).value, Run(Run(p, a).value.pending, b))
    decreases |b|
  {
    var first := Run(p, a).value;
    if b == [] {
      assert a + b == a;
      assert first.delivered + [] == first.delivered;
    } else {
      var n := |b| - 1;
      RunSplits(p, a, b[..n]);
      assert (a + b)[..|a + b| - 1] == a + b[..n];
      assert (a + b)[|a + b| - 1] == b[n];
      var middle := Run(first.pending, b[..n]);
      if middle.Some? {
        ThenAssociates(first, middle.value, HandleSegment(middle.value.pending, b[n]));
      }
    }
  }

  // ----- Frames, streams and cuts -----

  predicate Frame(f: seq<byte>) {
    |f| >= 8 && IsHead(f, |f|)
  }

  function Flat(parts: seq<seq<byte>>): seq<byte> {
    if parts == [] then [] else Flat(parts[..|parts| - 1]) + parts[|parts| - 1]
  }

  function Payloads(segs: seq<Segment>): (r: seq<seq<byte>>)
    ensures |r| == |segs|
    ensures forall j :: 0 <= j < |segs| ==> r[j] == segs[j].payload
  {
    seq(|segs|, j requires 0 <= j < |segs| => segs[j].payload)
  }

  /** The stream holds the first i frames and the first k bytes of the next. */
  predicate EndsAt(stream: seq<byte>, frames: seq<seq<byte>>, i: nat, k: nat) {
    && i <= |frames|
    && (if i == |frames| then k == 0 else k < |frames[i]|)
    && stream == Flat(frames[..i]) + (if k == 0 then [] else frames[i][..k])
  }

  /** The bytes of the first j segments. */
  function Received(segs: seq<Segment>, j: nat): seq<byte>
    requires j <= |segs|
  {
    Flat(Payloads(segs[..j]))
  }

  /** The j-th segment boundary falls inside frame i, after k of its bytes. */
  predicate EndsInside(frames: seq<seq<byte>>, segs: seq<Segment>, j: nat, i: nat, k: nat) {
    j <= |segs| && 0 < k && EndsAt(Received(segs, j), frames, i, k)
  }

  /** Where segments may end: inside a frame only at least 8 bytes from both of its ends,
      at one place only, and where the rest of the frame does not look like a head. */
  ghost predicate CutsAllowed(frames: seq<seq<byte>>, segs: seq<Segment>) {
    && (forall j: nat, i: nat, k: nat :: EndsInside(frames, segs, j, i, k) ==> 8 <= k)
    && (forall j: nat, i: nat, k: nat :: EndsInside(frames, segs, j, i, k) && j < |segs| ==>
          k <= |frames[i]| - 8 && NoHead(frames[i][k..]))
    && (forall j: nat, j': nat, i: nat, k: nat, k': nat ::
          EndsInside(frames, segs, j, i, k) && EndsInside(frames, segs, j', i, k') ==> k == k')
  }

  function PendingAt(frames: seq<seq<byte>>, i: nat, k: nat): Pending
    requires if i < |frames| then k <= |frames[i]| else k == 0
  {
    if k == 0 then NOTHING else Pending(frames[i][..k], |frames[i]| - k)
  }

  function PartAt(frames: seq<seq<byte>>, i: nat, k: nat): seq<byte>
    requires if i < |frames| then k <= |frames[i]| else k == 0
  {
    if k == 0 then [] else frames[i][..k]
  }

  lemma {:induction false} FlatConcat(a: seq<seq<byte>>, b: seq<seq<byte>>)
    ensures Flat(a + b) == Flat(a) + Flat(b)
    decreases |b|
  {
    if b == [] {
      assert a + b == a;
    } else {
      var n := |b| - 1;
      FlatConcat(a, b[..n]);
      assert (a + b)[..|a + b| - 1] == a + b[..n];
    }
  }

  lemma FlatSplit(frames: seq<seq<byte>>, a: nat, b: nat)
    requires a < b <= |frames|
    ensures Flat(frames[..b]) == Flat(frames[..a]) + (frames[a] + Flat(frames[a + 1..b]))
  {
    assert frames[..b] == frames[..a] + ([frames[a]] + frames[a + 1..b]);
    FlatConcat(frames[..a], [frames[a]] + frames[a + 1..b]);
    FlatConcat([frames[a]], frames[a + 1..b]);
    assert Flat([frames[a]]) == frames[a];
  }

  lemma ScanOneFrame(f: seq<byte>, after: seq<byte>, size: nat)
    requires Frame(f) && size + 8 <= |after|
    ensures var rest := Scan(after, size);
            Scan(f + after, |f| + size) == Outcome([f] + rest.delivered, rest.pending)
  {
    hide GetCurReadMsgLength;
    var data := f + after;
    ClassifierAnswers(f, |f|);
    assert data[..8] == f[..8];
    ClassifierSeesEightBytes(data, f);
    assert data[..|f|] == f && data[|f|..] == after;
  }

  lemma ScanPart(part: seq<byte>, g: seq<byte>, behind: seq<byte>)
    requires Frame(g) && 8 <= |part| < |g| && part == g[..|part|] && |behind| >= 8
    ensures Scan(part + behind, |part|) == Outcome([], Pending(part, |g| - |part|))
  {
    hide GetCurReadMsgLength;
    var data := part + behind;
    ClassifierAnswers(g, |g|);
    assert data[..8] == g[..8];
    ClassifierSeesEightBytes(data, g);
    assert data[..|part|] == part;
  }

  /** Whole frames are delivered before whatever the loop makes of the bytes behind them. */
  lemma {:induction false} ScanFramesThen(fs: seq<seq<byte>>, tail: seq<byte>, behind: seq<byte>, held: Pending)
    requires forall f :: f in fs ==> Frame(f)
    requires |behind| >= 8 && Scan(tail + behind, |tail|) == Outcome([], held)
    ensures Scan(Flat(fs) + tail + behind, |Flat(fs) + tail|) == Outcome(fs, held)
    decreases |fs|
  {
    hide GetCurReadMsgLength, Scan, Flat;
    if fs == [] {
      FlatNone();
      assert Flat(fs) + tail == tail;
    } else {
      var f, rest := fs[0], fs[1..];
      ScanFramesThen(rest, tail, behind, held);
      assert f in fs;
      ScanOneFrame(f, Flat(rest) + tail + behind, |Flat(rest) + tail|);
      FlatFirst(fs);
      Assoc(f, Flat(rest), tail);
      Assoc(f, Flat(rest) + tail, behind);
      assert fs == [f] + rest;
    }
  }

  /** Starting at a head, the loop delivers the whole frames and keeps the last part. */
  lemma ScanDelivers(fs: seq<seq<byte>>, part: seq<byte>, g: seq<byte>, behind: seq<byte>)
    requires forall f :: f in fs ==> Frame(f)
    requires part == [] || (Frame(g) && 8 <= |part| < |g| && part == g[..|part|])
    requires |behind| >= 8
    ensures Scan(Flat(fs) + part + behind, |Flat(fs) + part|) ==
      Outcome(fs, if part == [] then NOTHING else Pending(part, |g| - |part|))
  {
    hide GetCurReadMsgLength, Scan, Flat;
    if part != [] {
      ScanPart(part, g, behind);
      ScanFramesThen(fs, part, behind, Pending(part, |g| - |part|));
    } else {
      ScanNothing(part + behind);
      ScanFramesThen(fs, part, behind, NOTHING);
    }
  }

  /** Bytes behind the last whole frame that are six or fewer, or start with no head, are
      dropped: nothing is held for the next segment. */
  lemma JunkIsDropped(fs: seq<seq<byte>>, junk: seq<byte>, behind: seq<byte>)
    requires forall f :: f in fs ==> Frame(f)
    requires |behind| >= 8 && (|junk| <= 6 || NoHead(junk + behind))
    ensures Scan(Flat(fs) + junk + behind, |Flat(fs) + junk|) == Outcome(fs, NOTHING)
  {
    hide GetCurReadMsgLength, Flat;
    ClassifierAnswers(junk + behind, 0);
    assert Scan(junk + behind, |junk|) == Outcome([], NOTHING);
    ScanFramesThen(fs, junk, behind, NOTHING);
  }

  lemma ScanNothing(data: seq<byte>)
    requires |data| >= 8
    ensures Scan(data, 0) == Outcome([], NOTHING)
  {
  }

  lemma FlatNone()
    ensures Flat([]) == []
  {
  }

  lemma FlatFirst(fs: seq<seq<byte>>)
    requires fs != []
    ensures Flat(fs) == fs[0] + Flat(fs[1..])
  {
    FlatConcat([fs[0]], fs[1..]);
    assert fs == [fs[0]] + fs[1..];
    assert Flat([fs[0]]) == fs[0];
  }

  /** A position in a stream falls at a frame boundary or inside one frame. */
  lemma {:induction false} Locate(frames: seq<seq<byte>>, i: nat, k: nat, stream: seq<byte>, n: nat)
      returns (i0: nat, k0: nat)
    requires forall f :: f in frames ==> |f| > 0
    requires EndsAt(stream, frames, i, k) && n <= |stream|
    ensures EndsAt(stream[..n], frames, i0, k0)
    ensures i0 < i || (i0 == i && k0 <= k)
    decreases i
  {
    var before := Flat(frames[..i]);
    if n >= |before| {
      i0, k0 := i, n - |before|;
      assert stream[..n] == before + PartAt(frames, i, k)[..k0];
      assert stream[..n] == before + PartAt(frames, i, k0);
    } else {
      assert frames[..i][..i - 1] == frames[..i - 1];
      var start := |Flat(frames[..i - 1])|;
      assert stream[..n] == before[..n];
      if n >= start {
        i0, k0 := i - 1, n - start;
        assert before[..n] == Flat(frames[..i - 1]) + PartAt(frames, i - 1, k0);
      } else {
        assert EndsAt(Flat(frames[..i - 1]), frames, i - 1, 0) by {
          assert Flat(frames[..i - 1]) + [] == Flat(frames[..i - 1]);
          assert frames[i - 1] in frames;
        }
        i0, k0 := Locate(frames, i - 1, 0, Flat(frames[..i - 1]), n);
        assert before[..n] == Flat(frames[..i - 1])[..n];
      }
    }
  }

  lemma CancelPrefix(a: seq<byte>, b: seq<byte>, c: seq<byte>)
    requires a + b == a + c
    ensures b == c
  {
    assert b == (a + b)[|a|..];
    assert c == (a + c)[|a|..];
  }

  /** What one segment carries when it starts inside frame i0 and ends later. */
  lemma SegmentShape(frames: seq<seq<byte>>, i0: nat, k0: nat, i: nat, k: nat, payload: seq<byte>)
    requires i0 < |frames| && k0 <= |frames[i0]| && i0 < i <= |frames|
    requires if i < |frames| then k <= |frames[i]| else k == 0
    requires Flat(frames[..i0]) + frames[i0][..k0] + payload == Flat(frames[..i]) + PartAt(frames, i, k)
    ensures payload == frames[i0][k0..] + (Flat(frames[i0 + 1..i]) + PartAt(frames, i, k))
  {
    var head, f, rest := Flat(frames[..i0]), frames[i0], Flat(frames[i0 + 1..i]) + PartAt(frames, i, k);
    FlatSplit(frames, i0, i);
    Assoc(head, f + Flat(frames[i0 + 1..i]), PartAt(frames, i, k));
    Assoc(f, Flat(frames[i0 + 1..i]), PartAt(frames, i, k));
    Assoc(head, f[..k0], payload);
    CancelPrefix(head, f[..k0] + payload, f + rest);
    assert f == f[..k0] + f[k0..];
    Assoc(f[..k0], f[k0..], rest);
    CancelPrefix(f[..k0], payload, f[k0..] + rest);
  }

  lemma SegmentFromBoundary(frames: seq<seq<byte>>, i0: nat, i: nat, k: nat, payload: seq<byte>)
    requires i0 <= i <= |frames|
    requires if i < |frames| then k <= |frames[i]| else k == 0
    requires Flat(frames[..i0]) + payload == Flat(frames[..i]) + PartAt(frames, i, k)
    ensures payload == Flat(frames[i0..i]) + PartAt(frames, i, k)
  {
    assert frames[..i] == frames[..i0] + frames[i0..i];
    FlatConcat(frames[..i0], frames[i0..i]);
    Assoc(Flat(frames[..i0]), Flat(frames[i0..i]), PartAt(frames, i, k));
    CancelPrefix(Flat(frames[..i0]), payload, Flat(frames[i0..i]) + PartAt(frames, i, k));
  }

  predicate AllFrames(frames: seq<seq<byte>>) {
    forall f :: f in frames ==> Frame(f)
  }

  /** A segment that starts at a frame boundary. */
  lemma HandleFromBoundary(frames: seq<seq<byte>>, i0: nat, i: nat, k: nat, seg: Segment)
    requires AllFrames(frames) && |seg.behind| >= 8
    requires i0 <= i <= |frames| && (if i < |frames| then k < |frames[i]| else k == 0)
    requires k == 0 || k >= 8
    requires seg.payload == Flat(frames[i0..i]) + PartAt(frames, i, k)
    ensures HandleSegment(NOTHING, seg) == Some(Outcome(frames[i0..i], PendingAt(frames, i, k)))
  {
    hide Scan, Flat, GetCurReadMsgLength;
    var part := PartAt(frames, i, k);
    var g := if i < |frames| then frames[i] else [];
    if i < |frames| {
      assert frames[i] in frames;
    }
    ScanDelivers(frames[i0..i], part, g, seg.behind);
    if frames[i0..i] != [] {
      FlatIsLong(frames[i0..i]);
    }
  }

  lemma FlatIsLong(fs: seq<seq<byte>>)
    requires AllFrames(fs) && fs != []
    ensures |Flat(fs)| >= 8
  {
    assert fs[|fs| - 1] in fs;
  }

  /** A segment that continues the held frame and ends beyond it. */
  lemma HandleContinuation(frames: seq<seq<byte>>, i0: nat, k0: nat, i: nat, k: nat, seg: Segment)
    requires AllFrames(frames) && |seg.behind| >= 8
    requires i0 < i <= |frames| && (if i < |frames| then k < |frames[i]| else k == 0)
    requires k == 0 || k >= 8
    requires 8 <= k0 <= |frames[i0]| - 8 && GetCurReadMsgLength(frames[i0][k0..]) == 0
    requires seg.payload == frames[i0][k0..] + (Flat(frames[i0 + 1..i]) + PartAt(frames, i, k))
    ensures HandleSegment(PendingAt(frames, i0, k0), seg) ==
      Some(Outcome(frames[i0..i], PendingAt(frames, i, k)))
  {
    hide Scan, Flat, HandleSegment;
    var f, rest := frames[i0], Flat(frames[i0 + 1..i]) + PartAt(frames, i, k);
    if i < |frames| {
      assert frames[i] in frames;
    }
    ScanDelivers(frames[i0 + 1..i], PartAt(frames, i, k), if i < |frames| then frames[i] else [], seg.behind);
    CompletesFrame(f[..k0], f[k0..], rest, seg);
    assert f[..k0] + f[k0..] == f;
    assert frames[i0..i] == [f] + frames[i0 + 1..i];
  }

  /** The continuation completes the held half to the frame it was cut from. */
  lemma CompletesFrame(half: seq<byte>, tail: seq<byte>, rest: seq<byte>, seg: Segment)
    requires |seg.behind| >= 8 && half != [] && |tail| >= 8 && GetCurReadMsgLength(tail) == 0
    requires seg.payload == tail + rest
    ensures HandleSegment(Pending(half, |tail|), seg) ==
      Then(Outcome([half + tail], NOTHING), Some(Scan(rest + seg.behind, |rest|)))
  {
    hide Scan, Handle, HandleSegment, GetCurReadMsgLength, Then;
    HandleOnParts(Pending(half, |tail|), seg, tail, rest);
    JoinsHalves(half, tail, rest + seg.behind, |rest|);
  }

  lemma HandleOnParts(p: Pending, seg: Segment, tail: seq<byte>, rest: seq<byte>)
    requires |seg.behind| >= 8 && seg.payload == tail + rest
    ensures HandleSegment(p, seg) == Handle(p, tail + (rest + seg.behind), |tail| + |rest|)
  {
    hide Handle;
    Assoc(tail, rest, seg.behind);
  }

  lemma JoinsHalves(half: seq<byte>, tail: seq<byte>, after: seq<byte>, size: nat)
    requires half != [] && |tail| >= 8 && GetCurReadMsgLength(tail) == 0 && size + 8 <= |after|
    ensures Handle(Pending(half, |tail|), tail + after, |tail| + size) ==
      Then(Outcome([half + tail], NOTHING), Some(Scan(after, size)))
  {
    hide Scan, FromLE, GetCurReadMsgLength;
    var data := tail + after;
    assert data[..8] == tail[..8];
    ClassifierSeesEightBytes(data, tail);
    assert data[..|tail|] == tail && data[|tail|..] == after;
  }

  lemma EmptyStreamIsAtStart(frames: seq<seq<byte>>, i: nat, k: nat)
    requires AllFrames(frames) && EndsAt([], frames, i, k)
    ensures i == 0 && k == 0
  {
    if i > 0 {
      FlatIsLong(frames[..i]);
    }
  }

  lemma ReceivedSnoc(segs: seq<Segment>, n: nat)
    requires n + 1 == |segs|
    ensures Received(segs, |segs|) == Received(segs, n) + segs[n].payload
    ensures Received(segs[..n], |segs[..n]|) == Received(segs, n)
  {
    var all := Payloads(segs[..|segs|]);
    assert all[..|all| - 1] == Payloads(segs[..n]);
    assert segs[..n][..n] == segs[..n];
  }

  lemma CutsAllowedPrefix(frames: seq<seq<byte>>, segs: seq<Segment>, n: nat)
    requires CutsAllowed(frames, segs) && n <= |segs|
    ensures CutsAllowed(frames, segs[..n])
  {
    forall j: nat, i: nat, k: nat | EndsInside(frames, segs[..n], j, i, k)
      ensures EndsInside(frames, segs, j, i, k)
    {
      assert segs[..n][..j] == segs[..j];
    }
  }

  /** Where the stream stood before the last segment. */
  lemma BeforeLastSegment(frames: seq<seq<byte>>, segs: seq<Segment>, i: nat, k: nat) returns (i0: nat, k0: nat)
    requires AllFrames(frames) && Readable(segs) && CutsAllowed(frames, segs) && segs != []
    requires EndsAt(Received(segs, |segs|), frames, i, k)
    ensures var n := |segs| - 1;
      && Readable(segs[..n]) && CutsAllowed(frames, segs[..n])
      && EndsAt(Received(segs, n), frames, i0, k0) && EndsAt(Received(segs[..n], n), frames, i0, k0)
    ensures i0 <= i <= |frames| && (i0 == i ==> k0 <= k)
  {
    hide Flat, CutsAllowed, Received;
    var n := |segs| - 1;
    var stream, soFar := Received(segs, |segs|), Received(segs, n);
    ReceivedSnoc(segs, n);
    assert stream[..|soFar|] == soFar;
    forall f | f in frames ensures |f| > 0 { assert Frame(f); }
    i0, k0 := Locate(frames, i, k, stream, |soFar|);
    CutsAllowedPrefix(frames, segs, n);
  }

  /** Main result for the stream. Whatever the cuts, the messages delivered over all segments
      are exactly the frames, in order, and only the last started frame is held back. */
  lemma {:induction false} DeliveryIgnoresSegmentation(frames: seq<seq<byte>>, segs: seq<Segment>, i: nat, k: nat)
    requires AllFrames(frames) && Readable(segs) && CutsAllowed(frames, segs)
    requires EndsAt(Received(segs, |segs|), frames, i, k)
    ensures Run(NOTHING, segs) == Some(Outcome(frames[..i], PendingAt(frames, i, k)))
    decreases |segs|
  {
    hide HandleSegment, Flat, CutsAllowed, Received, EndsAt, AllFrames, Readable, PendingAt, Run;
    if segs == [] {
      NothingReceived(frames, segs, i, k);
    } else {
      var i0, k0 := BeforeLastSegment(frames, segs, i, k);
      DeliveryIgnoresSegmentation(frames, segs[..|segs| - 1], i0, k0);
      LastSegment(frames, segs, i0, k0, i, k);
      RunLast(NOTHING, segs);
      assert frames[..i0] + frames[i0..i] == frames[..i];
    }
  }

  lemma NothingReceived(frames: seq<seq<byte>>, segs: seq<Segment>, i: nat, k: nat)
    requires AllFrames(frames) && segs == [] && EndsAt(Received(segs, |segs|), frames, i, k)
    ensures Readable(segs)
    ensures Run(NOTHING, segs) == Some(Outcome(frames[..i], PendingAt(frames, i, k)))
  {
    EmptyStreamIsAtStart(frames, i, k);
  }

  lemma LastSegment(frames: seq<seq<byte>>, segs: seq<Segment>, i0: nat, k0: nat, i: nat, k: nat)
    requires AllFrames(frames) && Readable(segs) && CutsAllowed(frames, segs) && segs != []
    requires EndsAt(Received(segs, |segs|), frames, i, k)
    requires EndsAt(Received(segs, |segs| - 1), frames, i0, k0)
    requires i0 < i || (i0 == i && k0 <= k)
    ensures HandleSegment(PendingAt(frames, i0, k0), segs[|segs| - 1]) ==
      Some(Outcome(frames[i0..i], PendingAt(frames, i, k)))
  {
    var n := |segs| - 1;
    var seg := segs[n];
    ReceivedSnoc(segs, n);
    hide HandleSegment, Received, Flat;
    assert k > 0 ==> EndsInside(frames, segs, |segs|, i, k);
    assert k0 > 0 ==> EndsInside(frames, segs, n, i0, k0);
    if k0 == 0 {
      SegmentFromBoundary(frames, i0, i, k, seg.payload);
      HandleFromBoundary(frames, i0, i, k, seg);
    } else if i0 < i {
      SegmentShape(frames, i0, k0, i, k, seg.payload);
      ClassifierAnswers(frames[i0][k0..], 0);
      HandleContinuation(frames, i0, k0, i, k, seg);
    } else {
      assert k0 == k;
      assert seg.payload == [];
      assert frames[i0..i] == [];
    }
  }

  /** A segment of six bytes or fewer leaves no trace, wherever it comes in a run. */
  lemma ShortSegmentsLeaveNoTrace(p: Pending, a: seq<Segment>, short: Segment, b: seq<Segment>)
    requires Readable(a) && Readable([short]) && Readable(b) && |short.payload| <= 6
    requires Run(p, a).Some?
    ensures Readable(a + [short] + b) && Readable(a + b)
    ensures Run(p, a + [short] + b) == Run(p, a + b)
  {
    hide GetCurReadMsgLength, Scan;
    var held := Run(p, a).value.pending;
    assert [short][..0] == [] && [short][0] == short;
    ThenFromNothing(held, HandleSegment(held, short));
    assert Run(held, [short]) == Some(Outcome([], held));
    RunSplits(p, a, [short]);
    assert Run(p, a).value.delivered + [] == Run(p, a).value.delivered;
    hide Run;
    RunSplits(p, a + [short], b);
    RunSplits(p, a, b);
  }

  // ----- One frame cut once, exactly -----

  /** What a caller can see of a cut: both parts are longer than the loop's bound, the first
      is recognised as the whole frame's head and the second as no head. */
  predicate CutWorks(f: seq<byte>, k: nat, first: Segment, second: Segment)
    requires k <= |f| && |first.behind| >= 8 && |second.behind| >= 8
  {
    && k > 6 && IsHead(f[..k] + first.behind, |f|)
    && |f| - k > 6 && NoHead(f[k..] + second.behind)
  }

  /** The first part of a cut frame. */
  lemma FirstPartOfCut(f: seq<byte>, k: nat, first: Segment)
    requires 0 < k < |f| && first.payload == f[..k] && |first.behind| >= 8
    ensures var len := GetCurReadMsgLength(f[..k] + first.behind);
            HandleSegment(NOTHING, first) == Some(
              if k <= 6 || len == 0 then Outcome([], NOTHING)
              else if len > k then Outcome([], Pending(f[..k], len - k))
              else Scan(f[..k] + first.behind, k))
  {
  }

  lemma {:induction false} ScanDeliversNoMoreThanItGets(data: seq<byte>, size: nat)
    requires size + 8 <= |data|
    ensures |Flat(Scan(data, size).delivered)| <= size
    decreases size
  {
    hide GetCurReadMsgLength;
    ClassifierLengths(data);
    var len := GetCurReadMsgLength(data);
    if size > 6 && 0 < len <= size {
      ScanDeliversNoMoreThanItGets(data[len..], size - len);
      var rest := Scan(data[len..], size - len).delivered;
      FlatFirst([data[..len]] + rest);
      assert ([data[..len]] + rest)[1..] == rest;
    }
  }

  lemma ThenFromNothing(p: Pending, later: Option<Outcome>)
    ensures Then(Outcome([], p), later) == later
  {
    if later.Some? {
      assert [] + later.value.delivered == later.value.delivered;
    }
  }

  lemma TwoSegments(first: Segment, second: Segment)
    requires |first.behind| >= 8 && |second.behind| >= 8
    ensures Readable([first, second])
    ensures Run(NOTHING, [first, second]) ==
      match HandleSegment(NOTHING, first)
      case None => None
      case Some(o) => Then(o, HandleSegment(o.pending, second))
  {
    hide HandleSegment;
    var both := [first, second];
    assert both[..1] == [first] && [first][..0] == [];
    ThenFromNothing(NOTHING, HandleSegment(NOTHING, first));
    assert Run(NOTHING, [first]) == HandleSegment(NOTHING, first);
  }

  /** Nothing is put together from two parts when the first was not held. */
  lemma SecondPartAlone(f: seq<byte>, k: nat, second: Segment)
    requires 0 < k < |f| && second.payload == f[k..] && |second.behind| >= 8
    ensures HandleSegment(NOTHING, second).Some? && HandleSegment(NOTHING, second).value.delivered != [f]
  {
    hide Scan;
    ScanDeliversNoMoreThanItGets(second.payload + second.behind, |second.payload|);
    OneFrameIsItself(f);
  }

  lemma OneFrameIsItself(f: seq<byte>)
    ensures Flat([f]) == f
  {
  }

  /** The second part meets a held first part that expects len bytes in all. */
  lemma SecondPartOfCut(f: seq<byte>, k: nat, len: nat, second: Segment)
    requires 0 < k < |f| && k < len && second.payload == f[k..] && |second.behind| >= 8
    ensures HandleSegment(Pending(f[..k], len - k), second) == Some(Outcome([f], NOTHING)) <==>
      len == |f| && |f| - k > 6 && GetCurReadMsgLength(f[k..] + second.behind) == 0
  {
    hide GetCurReadMsgLength, Scan;
    var data, size := f[k..] + second.behind, |f| - k;
    if size > 6 {
      if GetCurReadMsgLength(data) > 0 {
        SecondPartAlone(f, k, second);
      } else if len - k <= size {
        var whole := f[..k] + data[..len - k];
        var rest := Scan(data[len - k..], size - (len - k));
        assert |whole| == len;
        assert ([whole] + rest.delivered)[0] == whole;
        if len == |f| {
          assert data[..size] == f[k..] && whole == f;
          ScanNothing(data[size..]);
          assert [whole] + rest.delivered == [f];
        }
      }
    }
  }

  /** Exactly when one cut does no harm: a frame in two segments is delivered whole, with
      nothing left over, if and only if both parts look as CutWorks says. */
  lemma CutDeliversExactlyWhen(f: seq<byte>, k: nat, first: Segment, second: Segment)
    requires 0 < k < |f|
    requires first.payload == f[..k] && second.payload == f[k..]
    requires |first.behind| >= 8 && |second.behind| >= 8
    ensures Readable([first, second])
    ensures Run(NOTHING, [first, second]) == Some(Outcome([f], NOTHING)) <==> CutWorks(f, k, first, second)
  {
    hide GetCurReadMsgLength, HandleSegment, Scan, Run;
    TwoSegments(first, second);
    FirstPartOfCut(f, k, first);
    ClassifierAnswers(f[..k] + first.behind, |f|);
    ClassifierAnswers(f[k..] + second.behind, 0);
    var len := GetCurReadMsgLength(f[..k] + first.behind);
    if k <= 6 || len == 0 {
      SecondPartAlone(f, k, second);
      ThenFromNothing(NOTHING, HandleSegment(NOTHING, second));
    } else if len > k {
      SecondPartOfCut(f, k, len, second);
      ThenFromNothing(Pending(f[..k], len - k), HandleSegment(Pending(f[..k], len - k), second));
    } else {
      ScanCases(f[..k] + first.behind, k);
      var o := HandleSegment(NOTHING, first).value;
      assert |o.delivered[0]| == len < |f|;
      var r := HandleSegment(o.pending, second);
      if r.Some? {
        assert (o.delivered + r.value.delivered)[0] == o.delivered[0];
      }
    }
  }

  // ----- A lost continuation -----

  /** A segment that starts with a head makes the handler forget the half message. */
  lemma HeadClearsPending(p: Pending, seg: Segment)
    requires |seg.behind| >= 8 && |seg.payload| > 6
    requires !NoHead(seg.payload + seg.behind)
    ensures HandleSegment(p, seg) == HandleSegment(NOTHING, seg)
  {
    ClassifierAnswers(seg.payload + seg.behind, 0);
  }

  lemma {:induction false} HeadRunClearsPending(p: Pending, frames: seq<seq<byte>>, segs: seq<Segment>, i: nat, k: nat)
    requires AllFrames(frames) && Readable(segs) && CutsAllowed(frames, segs)
    requires EndsAt(Received(segs, |segs|), frames, i, k)
    ensures Run(p, segs) ==
      if Received(segs, |segs|) == [] then Some(Outcome([], p)) else Run(NOTHING, segs)
    decreases |segs|
  {
    if segs != [] {
      hide HandleSegment, Flat, CutsAllowed;
      var n := |segs| - 1;
      var i0, k0 := BeforeLastSegment(frames, segs, i, k);
      HeadRunClearsPending(p, frames, segs[..n], i0, k0);
      ReceivedSnoc(segs, n);
      if Received(segs, n) == [] && segs[n].payload != [] {
        DeliveryIgnoresSegmentation(frames, segs[..n], i0, k0);
        EmptyStreamIsAtStart(frames, i0, k0);
        LastCutIsDeep(frames, segs, i, k);
        FirstSegmentStartsWithHead(frames, i, k, segs[n]);
        ClassifierAnswers(segs[n].payload + segs[n].behind, 0);
        HeadClearsPending(p, segs[n]);
      }
    }
  }

  lemma LastCutIsDeep(frames: seq<seq<byte>>, segs: seq<Segment>, i: nat, k: nat)
    requires CutsAllowed(frames, segs) && EndsAt(Received(segs, |segs|), frames, i, k)
    ensures k == 0 || k >= 8
  {
    assert k > 0 ==> EndsInside(frames, segs, |segs|, i, k);
  }

  lemma FirstSegmentStartsWithHead(frames: seq<seq<byte>>, i: nat, k: nat, seg: Segment)
    requires AllFrames(frames) && |seg.behind| >= 8 && seg.payload != []
    requires EndsAt(seg.payload, frames, i, k) && (k == 0 || k >= 8)
    ensures |seg.payload| > 6 && GetCurReadMsgLength(seg.payload + seg.behind) > 0
  {
    hide GetCurReadMsgLength, Flat;
    FlatNone();
    assert frames[..0] == [];
    var f := frames[0];
    assert f in frames;
    if i > 0 {
      FlatSplit(frames, 0, i);
      StartsTheSame(seg, f, f, Flat(frames[1..i]) + PartAt(frames, i, k));
    } else {
      StartsTheSame(seg, f, f[..k], []);
    }
  }

  lemma StartsTheSame(seg: Segment, f: seq<byte>, front: seq<byte>, rest: seq<byte>)
    requires Frame(f) && 8 <= |front| <= |f| && front == f[..|front|]
    requires |seg.behind| >= 8 && seg.payload == front + rest
    ensures |seg.payload| > 6 && GetCurReadMsgLength(seg.payload + seg.behind) > 0
  {
    hide GetCurReadMsgLength;
    var data := seg.payload + seg.behind;
    ClassifierAnswers(f, |f|);
    assert data[..8] == front[..8] == f[..8];
    ClassifierSeesEightBytes(data, f);
  }

  /** If the segment that continues a cut frame is lost and the next one received starts
      with a head, only the cut frame is missing, and nothing mixed is delivered, wherever
      the stream stops afterwards. */
  lemma LostContinuationLosesOneFrame(framesA: seq<seq<byte>>, segsA: seq<Segment>, i: nat, k: nat,
                                      framesB: seq<seq<byte>>, segsB: seq<Segment>, i': nat, k': nat)
    requires AllFrames(framesA) && Readable(segsA) && CutsAllowed(framesA, segsA)
    requires EndsAt(Received(segsA, |segsA|), framesA, i, k)
    requires AllFrames(framesB) && Readable(segsB) && CutsAllowed(framesB, segsB)
    requires EndsAt(Received(segsB, |segsB|), framesB, i', k') && Received(segsB, |segsB|) != []
    ensures Readable(segsA + segsB)
    ensures Run(NOTHING, segsA + segsB) == Some(Outcome(framesA[..i] + framesB[..i'], PendingAt(framesB, i', k')))
  {
    hide Run, Received, CutsAllowed, AllFrames;
    DeliveryIgnoresSegmentation(framesA, segsA, i, k);
    RunSplits(NOTHING, segsA, segsB);
    DeliveryIgnoresSegmentation(framesB, segsB, i', k');
    HeadRunClearsPending(PendingAt(framesA, i, k), framesB, segsB, i', k');
  }
}
