/** The append log in a shared memory segment: a header and tagged records in one run of
    bytes, dumped to and loaded from a file, and walked record by record. */
module ShmLog {
  import opened Wrappers
  import opened Bytes

  // ----- The segment as bytes -----

  /** sizeof(SharedMemoryHeader_t): total_size, used_size, item_count, shm_stat, r_lock, res. */
  const HEADER: nat := 96

  const HALF_RANGE: nat := 0x8000_0000_0000_0000

  function Field(img: seq<byte>, at: nat): nat
    requires at + 8 <= |img|
  {
    FromLE(img[at..at + 8])
  }

  function TotalSize(img: seq<byte>): nat requires |img| >= HEADER { Field(img, 0) }
  function UsedSize(img: seq<byte>): nat requires |img| >= HEADER { Field(img, 8) }
  function ItemCount(img: seq<byte>): nat requires |img| >= HEADER { Field(img, 16) }

  /** The bytes of src stored at an offset. */
  function Put(img: seq<byte>, at: nat, src: seq<byte>): (r: seq<byte>)
    requires at + |src| <= |img|
    ensures |r| == |img|
    ensures r[at..at + |src|] == src
    ensures r[..at] == img[..at] && r[at + |src|..] == img[at + |src|..]
  {
    img[..at] + src + img[at + |src|..]
  }

  function PutField(img: seq<byte>, at: nat, v: nat): (r: seq<byte>)
    requires at + 8 <= |img|
    ensures |r| == |img|
  {
    Put(img, at, ToLE(v, 8))
  }

  lemma PutThenField(img: seq<byte>, at: nat, v: nat)
    requires at + 8 <= |img| && v < 0x1_0000_0000_0000_0000
    ensures Field(PutField(img, at, v), at) == v
    ensures forall b {:trigger Field(img, b)} :: 0 <= b && b + 8 <= |img| && (b + 8 <= at || at + 8 <= b) ==>
      Field(PutField(img, at, v), b) == Field(img, b)
  {
    assert Pow256(8) == 0x1_0000_0000_0000_0000;
    LoadAfterStore(v, 8);
    var r := PutField(img, at, v);
    forall b {:trigger Field(img, b)} | 0 <= b && b + 8 <= |img| && (b + 8 <= at || at + 8 <= b)
      ensures Field(r, b) == Field(img, b)
    {
      assert r[b..b + 8] == img[b..b + 8];
    }
  }

  lemma SameFrontSameField(a: seq<byte>, b: seq<byte>, n: nat, at: nat)
    requires at + 8 <= n <= |a| && n <= |b| && a[..n] == b[..n]
    ensures Field(a, at) == Field(b, at)
  {
    assert a[at..at + 8] == a[..n][at..at + 8] == b[at..at + 8];
  }

  // ----- appendData as coded -----

  datatype Record = Record(tag: byte, body: seq<byte>)

  function RequiredSize(img: seq<byte>, size: nat): nat
    requires |img| >= HEADER
  {
    (UsedSize(img) + 1 + size) % 0x1_0000_0000_0000_0000
  }

  /** None: refused. */
  function Append(img: seq<byte>, r: Record): (after: Option<seq<byte>>)
    requires HEADER <= TotalBound(img) && |r.body| < HALF_RANGE
    requires UsedSize(img) < HALF_RANGE
    ensures after.Some? ==> |after.value| == |img|
  {
    if RequiredSize(img, |r.body|) > TotalSize(img) then None
    else
      var a := Put(img, UsedSize(img), [r.tag] + r.body);
      var b := PutField(a, 8, RequiredSize(img, |r.body|));
      Some(PutField(b, 16, (ItemCount(b) + 1) % 0x1_0000_0000_0000_0000))
  }

  /** The segment's size when total_size does not promise more than that, else 0. */
  function TotalBound(img: seq<byte>): (n: nat)
    ensures n >= HEADER ==> |img| >= HEADER && TotalSize(img) <= |img|
  {
    if |img| >= HEADER && TotalSize(img) <= |img| then |img| else 0
  }

  // ----- What the bytes stand for -----

  function Payload(records: seq<Record>): seq<byte> {
    if records == [] then []
    else Payload(records[..|records| - 1]) + ([records[|records| - 1].tag] + records[|records| - 1].body)
  }

  /** The segment holds exactly these records, whatever total_size says. */
  predicate Holds(img: seq<byte>, records: seq<Record>) {
    && |img| >= HEADER
    && UsedSize(img) == HEADER + |Payload(records)| <= |img|
    && ItemCount(img) == |records|
    && img[HEADER..UsedSize(img)] == Payload(records)
  }

  /** A segment of its own capacity that holds these records. */
  predicate IsLog(img: seq<byte>, records: seq<Record>) {
    Holds(img, records) && TotalSize(img) == |img| < HALF_RANGE
  }

  lemma {:induction false} RecordsTakeRoom(records: seq<Record>)
    ensures |records| <= |Payload(records)|
  {
    if records != [] {
      RecordsTakeRoom(records[..|records| - 1]);
    }
  }

  lemma AppendFields(img: seq<byte>, r: Record)
    requires HEADER <= TotalBound(img) && |r.body| < HALF_RANGE
    requires HEADER <= UsedSize(img) < HALF_RANGE
    requires UsedSize(img) + 1 + |r.body| <= |img| < HALF_RANGE
    requires Append(img, r).Some?
    ensures var after := Append(img, r).value;
            && TotalSize(after) == TotalSize(img)
            && UsedSize(after) == UsedSize(img) + 1 + |r.body|
            && ItemCount(after) == (ItemCount(img) + 1) % 0x1_0000_0000_0000_0000
            && after[HEADER..] == Put(img, UsedSize(img), [r.tag] + r.body)[HEADER..]
  {
    hide Field, FromLE, ToLE;
    var a := Put(img, UsedSize(img), [r.tag] + r.body);
    assert a[..HEADER] == img[..HEADER];
    SameFrontSameField(a, img, HEADER, 0);
    SameFrontSameField(a, img, HEADER, 16);
    var required := RequiredSize(img, |r.body|);
    var b := PutField(a, 8, required);
    PutThenField(a, 8, required);
    assert ItemCount(b) == Field(a, 16) == ItemCount(img);
    var count := (ItemCount(b) + 1) % 0x1_0000_0000_0000_0000;
    PutThenField(b, 16, count);
    var c := PutField(b, 16, count);
    assert Field(c, 0) == Field(b, 0) == Field(a, 0);
    assert Field(c, 8) == Field(b, 8);
    assert c[HEADER..] == b[HEADER..] == a[HEADER..];
  }

  /** One append: refused exactly when the record does not fit, and then nothing changes;
      otherwise the record is added at the end and everything before it is kept. */
  lemma AppendAddsOneRecord(img: seq<byte>, records: seq<Record>, r: Record)
    requires IsLog(img, records) && |r.body| < HALF_RANGE
    ensures Append(img, r).Some? <==> HEADER + |Payload(records)| + 1 + |r.body| <= |img|
    ensures Append(img, r).Some? ==> IsLog(Append(img, r).value, records + [r])
  {
    hide FromLE, ToLE, Append, Put;
    var used := UsedSize(img);
    assert RequiredSize(img, |r.body|) == used + 1 + |r.body|;
    assert Append(img, r).Some? <==> used + 1 + |r.body| <= |img| by {
      AppendDecides(img, r);
    }
    if Append(img, r).Some? {
      AppendFields(img, r);
      RecordsTakeRoom(records);
      var piece := [r.tag] + r.body;
      var a, after := Put(img, used, piece), Append(img, r).value;
      assert (records + [r])[..|records|] == records;
      SameTailSameSlice(after, a, HEADER, used + |piece|);
      PutAtEnd(img, used, piece);
    }
  }

  lemma PutAtEnd(img: seq<byte>, used: nat, piece: seq<byte>)
    requires HEADER <= used && used + |piece| <= |img|
    ensures Put(img, used, piece)[HEADER..used + |piece|] == img[HEADER..used] + piece
  {
  }

  lemma AppendNeedsRoom(img: seq<byte>, r: Record)
    requires HEADER <= TotalBound(img) && |r.body| < HALF_RANGE && UsedSize(img) < HALF_RANGE
    ensures |img| >= HEADER
    ensures RequiredSize(img, |r.body|) <= TotalSize(img) ==> UsedSize(img) + 1 + |r.body| <= |img|
  {
  }

  lemma AppendDecides(img: seq<byte>, r: Record)
    requires HEADER <= TotalBound(img) && |r.body| < HALF_RANGE && UsedSize(img) < HALF_RANGE
    ensures Append(img, r).Some? <==> RequiredSize(img, |r.body|) <= TotalSize(img)
  {
  }

  // ----- Runs of appends -----

  /** The records a log of this capacity takes: each that still fits when it comes. */
  function Accepted(capacity: nat, requests: seq<Record>): seq<Record> {
    if requests == [] then []
    else Accept(capacity, Accepted(capacity, requests[..|requests| - 1]), requests[|requests| - 1])
  }

  function Accept(capacity: nat, before: seq<Record>, r: Record): seq<Record> {
    if HEADER + |Payload(before)| + 1 + |r.body| <= capacity then before + [r] else before
  }

  predicate SmallBodies(requests: seq<Record>) {
    forall r :: r in requests ==> |r.body| < HALF_RANGE
  }

  /** What appendData needs of the segment: a header, a total_size that is not larger than
      the segment, and sizes that do not wrap. */
  predicate CanAppend(img: seq<byte>, r: Record) {
    HEADER <= TotalBound(img) && UsedSize(img) < HALF_RANGE && |r.body| < HALF_RANGE
  }

  ghost predicate IsAppendRun(states: seq<seq<byte>>, requests: seq<Record>) {
    && |states| == |requests| + 1 && SmallBodies(requests)
    && IsLog(states[0], [])
    && forall i :: 0 <= i < |requests| && CanAppend(states[i], requests[i]) ==>
         states[i + 1] == StateAfter(states[i], requests[i])
  }

  /** After any sequence of appends to an empty log the segment holds the accepted records,
      so the used size is the header plus their sizes and stays within the capacity, and the
      next append finds the segment fit for it. */
  lemma {:induction false} RunHoldsAccepted(states: seq<seq<byte>>, requests: seq<Record>, n: nat)
    requires IsAppendRun(states, requests) && n <= |requests|
    ensures |states[n]| == |states[0]|
    ensures IsLog(states[n], Accepted(|states[0]|, requests[..n]))
    ensures n < |requests| ==> CanAppend(states[n], requests[n])
  {
    hide IsLog, Accept, CanAppend, StateAfter;
    if n > 0 {
      RunHoldsAccepted(states, requests, n - 1);
      AcceptStep(states[n - 1], Accepted(|states[0]|, requests[..n - 1]), requests[n - 1]);
      assert requests[..n][..n - 1] == requests[..n - 1];
    }
    if n < |requests| {
      LogCanAppend(states[n], Accepted(|states[0]|, requests[..n]), requests[n]);
    }
  }

  lemma LogCanAppend(img: seq<byte>, records: seq<Record>, r: Record)
    requires IsLog(img, records) && |r.body| < HALF_RANGE
    ensures CanAppend(img, r)
  {
  }

  function StateAfter(img: seq<byte>, r: Record): seq<byte>
    requires CanAppend(img, r)
  {
    match Append(img, r) case None => img case Some(s) => s
  }

  lemma AcceptStep(img: seq<byte>, records: seq<Record>, r: Record)
    requires IsLog(img, records) && CanAppend(img, r)
    ensures |StateAfter(img, r)| == |img| && IsLog(StateAfter(img, r), Accept(|img|, records, r))
  {
    AppendAddsOneRecord(img, records, r);
  }

  function SumOfSizes(records: seq<Record>): nat {
    if records == [] then 0 else SumOfSizes(records[..|records| - 1]) + 1 + |records[|records| - 1].body|
  }

  lemma {:induction false} PayloadLength(records: seq<Record>)
    ensures |Payload(records)| == SumOfSizes(records)
  {
    if records != [] {
      PayloadLength(records[..|records| - 1]);
    }
  }

  // ----- The walker -----

  /** sizeof of the record type behind each tag: NanoShfeMd, NanoCffexMd, NanoGfexMd. */
  function SizeOfTag(tag: byte): Option<nat> {
    if tag == 'a' as byte then Some(253)
    else if tag == 'b' as byte then Some(260)
    else if tag == 'c' as byte then Some(280)
    else None
  }

  // The packed types, field by field: name, numbers and times; prices; volumes; five levels
  // of prices and volumes on both sides; the rest.
  const SHFE_SIZE: nat := 32 + 4 + 4 + 2 + 2 + 4 + 5 * 8 + 2 * 4 + 10 * 8 + 10 * 4 + 4 + 8 + 4 + 8 + 4 + 1 + 8
  const CFFEX_SIZE: nat := 32 + 4 + 4 + 6 * 8 + 4 + 8 + 10 * 8 + 10 * 4 + 4 * 8 + 8
  const GFEX_SIZE: nat := 32 + 4 + 8 + 5 * 8 + 4 * 4 + 10 * 8 + 10 * 4 + 8 + 2 + 2 + 10 * 4 + 8

  /** A known tag with a body of its type's size. */
  predicate WellSized(r: Record) {
    || (r.tag == 97 && |r.body| == SHFE_SIZE)
    || (r.tag == 98 && |r.body| == CFFEX_SIZE)
    || (r.tag == 99 && |r.body| == GFEX_SIZE)
  }

  predicate UnknownTag(tag: byte) {
    tag < 97 || tag > 99
  }

  /** The walker's steps are the types' sizes, and it knows no other tags. */
  lemma TagsHaveTheirSizes(r: Record)
    ensures WellSized(r) <==> SizeOfTag(r.tag) == Some(|r.body|)
    ensures UnknownTag(r.tag) <==> SizeOfTag(r.tag) == None
    ensures HEADER == 3 * 8 + 2 * 4 + 64
  {
  }

  /** The loop over item_count with `start` moving by tag. An unknown tag writes nothing and
      does not move, so nothing more is written. None: it would leave the segment. */
  function Walk(img: seq<byte>, start: nat, n: nat): Option<seq<Record>>
    decreases n
  {
    if n == 0 then Some([])
    else if start >= |img| then None
    else
      match SizeOfTag(img[start])
      case None => Walk(img, start, n - 1)
      case Some(size) =>
        if start + 1 + size > |img| then None
        else
          match Walk(img, start + 1 + size, n - 1)
          case None => None
          case Some(rest) => Some([Record(img[start], img[start + 1..start + 1 + size])] + rest)
  }

  lemma {:induction false} PayloadCons(r: Record, rest: seq<Record>)
    ensures Payload([r] + rest) == [r.tag] + r.body + Payload(rest)
    decreases |rest|
  {
    var all := [r] + rest;
    if rest == [] {
      assert all[..|all| - 1] == [];
    } else {
      var n := |rest| - 1;
      assert all[..|all| - 1] == [r] + rest[..n];
      PayloadCons(r, rest[..n]);
      Assoc([r.tag] + r.body, Payload(rest[..n]), [rest[n].tag] + rest[n].body);
    }
  }

  lemma FirstRecordAt(img: seq<byte>, start: nat, r: Record, rest: seq<byte>)
    requires start + 1 + |r.body| + |rest| <= |img|
    requires img[start..start + 1 + |r.body| + |rest|] == [r.tag] + r.body + rest
    ensures img[start] == r.tag
    ensures img[start + 1..start + 1 + |r.body|] == r.body
    ensures img[start + 1 + |r.body|..start + 1 + |r.body| + |rest|] == rest
  {
    var size, all := |r.body|, [r.tag] + r.body + rest;
    SliceOfSlice(img, start, start + |all|, 0, 1);
    SliceOfSlice(img, start, start + |all|, 1, 1 + size);
    SliceOfSlice(img, start, start + |all|, 1 + size, |all|);
    assert all[0..1] == [r.tag] && all[1..1 + size] == r.body && all[1 + size..|all|] == rest;
    assert img[start] == img[start..start + 1][0];
  }

  /** Well-sized records are written, and the walk goes on behind them. */
  lemma {:induction false} WalkReadsThen(img: seq<byte>, start: nat, records: seq<Record>, n: nat, rest: seq<Record>)
    requires start + |Payload(records)| <= |img|
    requires img[start..start + |Payload(records)|] == Payload(records)
    requires forall r :: r in records ==> WellSized(r)
    requires Walk(img, start + |Payload(records)|, n) == Some(rest)
    ensures Walk(img, start, |records| + n) == Some(records + rest)
    decreases |records|
  {
    hide Payload, SizeOfTag, WellSized, Walk;
    if records == [] {
      NoPayload();
      assert records + rest == rest;
    } else {
      var r, more := records[0], records[1..];
      assert records == [r] + more;
      PayloadCons(r, more);
      FirstRecordAt(img, start, r, Payload(more));
      assert WellSized(r);
      TagsHaveTheirSizes(r);
      WalkOne(img, start, r, |more| + n);
      WalkReadsThen(img, start + 1 + |r.body|, more, n, rest);
      assert [r] + (more + rest) == records + rest;
    }
  }

  lemma WalkOne(img: seq<byte>, start: nat, r: Record, n: nat)
    requires start + 1 + |r.body| <= |img| && img[start] == r.tag
    requires img[start + 1..start + 1 + |r.body|] == r.body && SizeOfTag(r.tag) == Some(|r.body|)
    ensures Walk(img, start, n + 1) ==
      match Walk(img, start + 1 + |r.body|, n) case None => None case Some(rest) => Some([r] + rest)
  {
    hide SizeOfTag;
  }

  lemma NoPayload()
    ensures Payload([]) == []
  {
  }

  lemma WalkReadsRecords(img: seq<byte>, start: nat, records: seq<Record>)
    requires start + |Payload(records)| <= |img|
    requires img[start..start + |Payload(records)|] == Payload(records)
    requires forall r :: r in records ==> WellSized(r)
    ensures Walk(img, start, |records|) == Some(records)
  {
    hide Payload, WellSized;
    assert Walk(img, start + |Payload(records)|, 0) == Some([]);
    WalkReadsThen(img, start, records, 0, []);
    assert records + [] == records;
  }

  lemma {:induction false} WalkWritesWellSized(img: seq<byte>, start: nat, n: nat)
    ensures Walk(img, start, n).Some? ==> forall r :: r in Walk(img, start, n).value ==> WellSized(r)
    decreases n
  {
    hide SizeOfTag, WellSized;
    if n > 0 && start < |img| {
      match SizeOfTag(img[start])
      case None => WalkWritesWellSized(img, start, n - 1);
      case Some(size) =>
        if start + 1 + size <= |img| && Walk(img, start + 1 + size, n - 1).Some? {
          WalkWritesWellSized(img, start + 1 + size, n - 1);
          TagsHaveTheirSizes(Record(img[start], img[start + 1..start + 1 + size]));
        }
    }
  }

  /** The walker recovers exactly the records that were appended if and only if each of them
      has a known tag and the size of that tag's type. */
  lemma WalkRecoversExactlyWhen(img: seq<byte>, records: seq<Record>)
    requires Holds(img, records)
    ensures Walk(img, HEADER, ItemCount(img)) == Some(records) <==> forall r :: r in records ==> WellSized(r)
  {
    if forall r :: r in records ==> WellSized(r) {
      WalkReadsRecords(img, HEADER, records);
    }
    WalkWritesWellSized(img, HEADER, ItemCount(img));
  }

  lemma {:induction false} UnknownTagStops(img: seq<byte>, start: nat, n: nat)
    requires start < |img| && UnknownTag(img[start])
    ensures Walk(img, start, n) == Some([])
    decreases n
  {
    hide SizeOfTag, UnknownTag;
    TagsHaveTheirSizes(Record(img[start], []));
    if n > 0 {
      UnknownTagStops(img, start, n - 1);
    }
  }

  /** A record with an unknown tag ends the walk: what was written is exactly what lay before
      it, however many records follow. */
  lemma WalkEndsAtUnknownTag(img: seq<byte>, records: seq<Record>, k: nat)
    requires Holds(img, records) && k < |records|
    requires (forall r :: r in records[..k] ==> WellSized(r)) && UnknownTag(records[k].tag)
    ensures Walk(img, HEADER, ItemCount(img)) == Some(records[..k])
  {
    hide Payload, UsedSize, ItemCount, Walk, WellSized, UnknownTag;
    var front, r, rest := records[..k], records[k], records[k + 1..];
    assert records == front + ([r] + rest);
    PayloadConcat(front, [r] + rest);
    PayloadCons(r, rest);
    var at := HEADER + |Payload(front)|;
    SliceOfSlice(img, HEADER, UsedSize(img), 0, |Payload(front)|);
    SliceOfSlice(img, HEADER, UsedSize(img), |Payload(front)|, |Payload(records)|);
    assert Payload(records)[..|Payload(front)|] == Payload(front);
    assert Payload(records)[|Payload(front)|..] == [r.tag] + r.body + Payload(rest);
    FirstRecordAt(img, at, r, Payload(rest));
    UnknownTagStops(img, at, |records| - k);
    WalkReadsThen(img, HEADER, front, |records| - k, []);
    assert front + [] == front;
  }

  lemma {:induction false} PayloadConcat(a: seq<Record>, b: seq<Record>)
    ensures Payload(a + b) == Payload(a) + Payload(b)
    decreases |b|
  {
    if b == [] {
      assert a + b == a;
    } else {
      var n := |b| - 1;
      PayloadConcat(a, b[..n]);
      assert (a + b)[..|a + b| - 1] == a + b[..n];
      Assoc(Payload(a), Payload(b[..n]), [b[n].tag] + b[n].body);
    }
  }

  // ----- The layout, byte by byte -----

  /** Where a log keeps what: total size, used size and record count as little-endian words at
      0, 8 and 16, and the records from 96 on, each a tag and its body. */
  lemma LogIsLaidOut(img: seq<byte>, records: seq<Record>)
    requires IsLog(img, records)
    ensures img[0..8] == ToLE(|img|, 8)
    ensures img[8..16] == ToLE(96 + SumOfSizes(records), 8)
    ensures img[16..24] == ToLE(|records|, 8)
    ensures 96 + SumOfSizes(records) <= |img|
    ensures img[96..96 + SumOfSizes(records)] == Payload(records)
  {
    hide FromLE, ToLE, Payload, SumOfSizes;
    PayloadLength(records);
    StoreAfterLoad(img[0..8]);
    StoreAfterLoad(img[8..16]);
    StoreAfterLoad(img[16..24]);
  }

  /** An append changes the size and count words and the bytes of its record, no others. */
  lemma AppendTouchesNothingElse(img: seq<byte>, r: Record, at: nat)
    requires HEADER <= TotalBound(img) && |r.body| < HALF_RANGE
    requires HEADER <= UsedSize(img) < HALF_RANGE && Append(img, r).Some?
    requires at < |img| && !(8 <= at < 24) && !(UsedSize(img) <= at < UsedSize(img) + 1 + |r.body|)
    ensures Append(img, r).value[at] == img[at]
  {
    AppendNeedsRoom(img, r);
    hide FromLE, ToLE;
    var used := UsedSize(img);
    var a := Put(img, used, [r.tag] + r.body);
    var b := PutField(a, 8, RequiredSize(img, |r.body|));
    PutElsewhere(img, used, [r.tag] + r.body, at);
    PutElsewhere(a, 8, ToLE(RequiredSize(img, |r.body|), 8), at);
    PutElsewhere(b, 16, ToLE((ItemCount(b) + 1) % 0x1_0000_0000_0000_0000, 8), at);
  }

  lemma PutElsewhere(img: seq<byte>, at: nat, src: seq<byte>, i: nat)
    requires at + |src| <= |img| && i < |img| && !(at <= i < at + |src|)
    ensures Put(img, at, src)[i] == img[i]
  {
  }

  // ----- Dump and load -----

  function Dump(img: seq<byte>): seq<byte>
    requires |img| >= HEADER && UsedSize(img) <= |img|
  {
    img[..UsedSize(img)]
  }

  /** None: the file is larger than total_size. */
  function Load(img: seq<byte>, file: seq<byte>): (after: Option<seq<byte>>)
    requires TotalBound(img) >= HEADER
    ensures after.Some? ==> |after.value| == |img|
  {
    if |file| > TotalSize(img) then None else Some(file + img[|file|..])
  }

  /** A dump loads into any segment it fits in, and the walker sees the same records there;
      the loaded header describes that segment exactly when the two capacities are equal,
      because total_size comes from the file. */
  lemma LoadAfterDump(img: seq<byte>, records: seq<Record>, target: seq<byte>)
    requires IsLog(img, records)
    requires HEADER <= |target| == TotalSize(target) < HALF_RANGE
    ensures Load(target, Dump(img)).Some? <==> UsedSize(img) <= |target|
    ensures Load(target, Dump(img)).Some? ==>
      Load(target, Dump(img)).value[UsedSize(img)..] == target[UsedSize(img)..]
    ensures Load(target, Dump(img)).Some? ==>
      var after := Load(target, Dump(img)).value;
      && Holds(after, records)
      && (Walk(after, HEADER, ItemCount(after)) == Some(records) <==> forall r :: r in records ==> WellSized(r))
    ensures Load(target, Dump(img)).Some? ==>
      (IsLog(Load(target, Dump(img)).value, records) <==> |target| == |img|)
  {
    hide FromLE;
    var used := UsedSize(img);
    if used <= |target| {
      var after := Load(target, Dump(img)).value;
      assert after[..used] == img[..used];
      SameFrontSameField(after, img, used, 0);
      SameFrontSameField(after, img, used, 8);
      SameFrontSameField(after, img, used, 16);
      assert after[HEADER..used] == after[..used][HEADER..] == img[HEADER..used];
      WalkRecoversExactlyWhen(img, records);
      WalkRecoversExactlyWhen(after, records);
    }
  }

  // ----- The segment in place -----

  class SharedMemoryManager {
    const mem: array<byte>

    ghost predicate Valid()
      reads mem
    {
      HEADER <= TotalBound(mem[..]) && UsedSize(mem[..]) < HALF_RANGE
    }

    /** CREATE_NEW: a fresh segment with an empty header; the rest is as the system left it. */
    constructor (size: nat)
      requires HEADER <= size < HALF_RANGE
      ensures fresh(mem) && mem.Length == size
      ensures IsLog(mem[..], [])
    {
      mem := new byte[size](_ => 0);
      new;
      StoreField(0, size);
      StoreField(8, HEADER);
      StoreField(16, 0);
      assert mem[..][HEADER..HEADER] == [];
    }

    method StoreField(at: nat, v: nat)
      requires at + 8 <= mem.Length && v < 0x1_0000_0000_0000_0000
      modifies mem
      ensures mem[..] == PutField(old(mem[..]), at, v)
      ensures Field(mem[..], at) == v
      ensures forall b {:trigger Field(mem[..], b)} :: 0 <= b && b + 8 <= mem.Length && (b + 8 <= at || at + 8 <= b) ==>
        Field(mem[..], b) == Field(old(mem[..]), b)
    {
      PutThenField(mem[..], at, v);
      CopyIn(at, ToLE(v, 8));
    }

    method CopyIn(at: nat, src: seq<byte>)
      requires at + |src| <= mem.Length
      modifies mem
      ensures mem[..] == Put(old(mem[..]), at, src)
    {
      var i := 0;
      while i < |src|
        invariant 0 <= i <= |src|
        invariant mem[..] == Put(old(mem[..]), at, src[..i])
      {
        mem[at + i] := src[i];
        i := i + 1;
        assert src[..i] == src[..i - 1] + [src[i - 1]];
      }
      assert src[..i] == src;
    }

    method AppendData(r: Record) returns (ok: bool)
      requires Valid() && |r.body| < HALF_RANGE
      modifies mem
      ensures ok <==> Append(old(mem[..]), r).Some?
      ensures mem[..] == if ok then Append(old(mem[..]), r).value else old(mem[..])
    {
      hide Field, FromLE, ToLE, Put, PutField, TotalBound;
      AppendNeedsRoom(mem[..], r);
      var used := UsedSize(mem[..]);
      var required := RequiredSize(mem[..], |r.body|);
      if required > TotalSize(mem[..]) {
        return false;
      }
      CopyIn(used, [r.tag] + r.body);
      StoreField(8, required);
      StoreField(16, (ItemCount(mem[..]) + 1) % 0x1_0000_0000_0000_0000);
      return true;
    }

    method DumpToFile() returns (file: seq<byte>)
      requires Valid() && UsedSize(mem[..]) <= mem.Length
      ensures file == Dump(mem[..])
    {
      file := mem[..UsedSize(mem[..])];
      assert mem[..][..UsedSize(mem[..])] == file;
    }

    method LoadFromFile(file: seq<byte>) returns (ok: bool)
      requires TotalBound(mem[..]) >= HEADER
      modifies mem
      ensures ok <==> Load(old(mem[..]), file).Some?
      ensures mem[..] == if ok then Load(old(mem[..]), file).value else old(mem[..])
    {
      if |file| > TotalSize(mem[..]) {
        return false;
      }
      CopyIn(0, file);
      return true;
    }
  }
}
