/** The level-1 delta merge: a message body is a run of tag-length-value records, and each
    record overwrites one field of the instrument's standing quote. */
module TlvMerge {
  import opened Wrappers
  import opened Bytes

  datatype FieldId =
    | LastPrice | Volume | TurnOver | OpenInterest | BidPrice1 | BidVol1 | AskPrice1 | AskVol1
    | High | Low | Open | Close | Settle

  /** The merged fields of Quota_t. Doubles are their 64 bits. */
  datatype Fields = Fields(
    lastPrice: int, volume: int, turnOver: int, openInterest: int,
    bidPrice1: int, bidVol1: int, askPrice1: int, askVol1: int,
    high: int, low: int, open: int, close: int, settle: int)

  function Get(f: Fields, id: FieldId): int {
    match id
    case LastPrice => f.lastPrice
    case Volume => f.volume
    case TurnOver => f.turnOver
    case OpenInterest => f.openInterest
    case BidPrice1 => f.bidPrice1
    case BidVol1 => f.bidVol1
    case AskPrice1 => f.askPrice1
    case AskVol1 => f.askVol1
    case High => f.high
    case Low => f.low
    case Open => f.open
    case Close => f.close
    case Settle => f.settle
  }

  function TagOf(id: FieldId): nat {
    match id
    case LastPrice => 0x7b000000
    case Volume => 0x7f000000
    case TurnOver => 0x80000000
    case OpenInterest => 0x81000000
    case BidPrice1 => 0x86000000
    case BidVol1 => 0x87000000
    case AskPrice1 => 0x89000000
    case AskVol1 => 0x9a000000
    case High => 0x7c000000
    case Low => 0x7d000000
    case Open => 0x9d000000
    case Close => 0x9e000000
    case Settle => 0x83000000
  }

  predicate IsWide(id: FieldId) {
    id != Volume && id != OpenInterest && id != BidVol1 && id != AskVol1
  }

  // ----- One turn of the loop as coded -----

  function ReverseDouble(mem: seq<byte>): int
    requires |mem| >= 8
  {
    Bswap(FromLE(mem[..8]), 8)
  }

  function ReverseU32(mem: seq<byte>): int
    requires |mem| >= 4
  {
    Bswap(FromLE(mem[..4]), 4)
  }

  /** A uint32_t stored into an int32_t. */
  function ToInt32(x: int): int {
    if x >= 0x8000_0000 then x - 0x1_0000_0000 else x
  }

  function Assign(f: Fields, kind: nat, mem: seq<byte>): Fields
    requires |mem| >= 8
  {
    if kind == 0x7b000000 then f.(lastPrice := ReverseDouble(mem))
    else if kind == 0x7f000000 then f.(volume := ReverseU32(mem))
    else if kind == 0x80000000 then f.(turnOver := ReverseDouble(mem))
    else if kind == 0x81000000 then f.(openInterest := ToInt32(ReverseU32(mem)))
    else if kind == 0x86000000 then f.(bidPrice1 := ReverseDouble(mem))
    else if kind == 0x87000000 then f.(bidVol1 := ReverseU32(mem))
    else if kind == 0x89000000 then f.(askPrice1 := ReverseDouble(mem))
    else if kind == 0x9a000000 then f.(askVol1 := ReverseU32(mem))
    else if kind == 0x7c000000 then f.(high := ReverseDouble(mem))
    else if kind == 0x7d000000 then f.(low := ReverseDouble(mem))
    else if kind == 0x9d000000 then f.(open := ReverseDouble(mem))
    else if kind == 0x9e000000 then f.(close := ReverseDouble(mem))
    else if kind == 0x83000000 then f.(settle := ReverseDouble(mem))
    else f
  }

  const HEAD: nat := 6

  /** How far a record's d_type moves the pointer: 0 when it is neither of the two known. */
  function Advance(ptr: seq<byte>): (n: nat)
    requires |ptr| >= HEAD
    ensures n == 0 || n == HEAD + 4 || n == HEAD + 8
  {
    var dType := FromLE(ptr[4..6]);
    if dType == 0x0800 then HEAD + 8 else if dType == 0x0400 then HEAD + 4 else 0
  }

  /** Every record the loop reaches announces eight bytes (d_type bytes 00 08) or four
      (00 04), and is followed at once by the next: 14 or 10 bytes further on. */
  predicate WidthsKnown(ptr: seq<byte>, remain: int)
    requires remain > 0 ==> remain + 14 <= |ptr|
    decreases if remain > 0 then remain else 0
  {
    remain > 0 ==>
      || (ptr[4] == 0x00 && ptr[5] == 0x08 && WidthsKnown(ptr[14..], remain - 14))
      || (ptr[4] == 0x00 && ptr[5] == 0x04 && WidthsKnown(ptr[10..], remain - 10))
  }

  /** The code's step over a record is the announced one, and no step for any other d_type. */
  lemma AdvanceIsAnnounced(ptr: seq<byte>)
    requires |ptr| >= 6
    ensures Advance(ptr) ==
      if ptr[4] == 0x00 && ptr[5] == 0x08 then 14
      else if ptr[4] == 0x00 && ptr[5] == 0x04 then 10
      else 0
  {
    TwoBytes(ptr[4..6]);
  }

  function Merge(f: Fields, ptr: seq<byte>, remain: int): Fields
    requires remain > 0 ==> remain + 14 <= |ptr|
    requires WidthsKnown(ptr, remain)
    decreases if remain > 0 then remain else 0
  {
    if remain <= 0 then f
    else
      AdvanceIsAnnounced(ptr);
      Merge(Assign(f, FromLE(ptr[..4]), ptr[HEAD..]), ptr[Advance(ptr)..], remain - Advance(ptr))
  }

  // ----- Termination, exactly -----

  /** What is left of the body after n turns of the loop; the loop has ended when it is not
      positive. */
  function Left(ptr: seq<byte>, remain: int, n: nat): int
    requires remain > 0 ==> remain + 14 <= |ptr|
    decreases n
  {
    if n == 0 || remain <= 0 then remain
    else Left(ptr[Advance(ptr)..], remain - Advance(ptr), n - 1)
  }

  lemma {:induction false} KnownWidthsEnd(ptr: seq<byte>, remain: int)
      returns (n: nat)
    requires remain > 0 ==> remain + 14 <= |ptr|
    requires WidthsKnown(ptr, remain)
    ensures Left(ptr, remain, n) <= 0
    decreases if remain > 0 then remain else 0
  {
    if remain <= 0 {
      n := 0;
    } else {
      AdvanceIsAnnounced(ptr);
      n := KnownWidthsEnd(ptr[Advance(ptr)..], remain - Advance(ptr));
      n := n + 1;
    }
  }

  lemma {:induction false} EndedMeansKnownWidths(ptr: seq<byte>, remain: int, n: nat)
    requires remain > 0 ==> remain + 14 <= |ptr|
    requires Left(ptr, remain, n) <= 0
    ensures WidthsKnown(ptr, remain)
    decreases n
  {
    if remain > 0 {
      AdvanceIsAnnounced(ptr);
      var w := Advance(ptr);
      if w == 0 {
        StuckStaysStuck(ptr, remain, n);
        assert false;
      } else {
        EndedMeansKnownWidths(ptr[w..], remain - w, n - 1);
      }
    }
  }

  lemma {:induction false} StuckStaysStuck(ptr: seq<byte>, remain: int, n: nat)
    requires remain > 0 && remain + 14 <= |ptr| && Advance(ptr) == 0
    ensures Left(ptr, remain, n) == remain
    decreases n
  {
    if n > 0 {
      assert ptr[0..] == ptr;
      StuckStaysStuck(ptr, remain, n - 1);
    }
  }

  /** The loop ends exactly when every record it reaches has d_type 0x0800 or 0x0400. */
  lemma LoopEndsExactlyWhen(ptr: seq<byte>, remain: int)
    requires remain > 0 ==> remain + 14 <= |ptr|
    ensures (exists n: nat :: Left(ptr, remain, n) <= 0) <==> WidthsKnown(ptr, remain)
  {
    if WidthsKnown(ptr, remain) {
      var n := KnownWidthsEnd(ptr, remain);
    }
    if n: nat :| Left(ptr, remain, n) <= 0 {
      EndedMeansKnownWidths(ptr, remain, n);
    }
  }

  // ----- The standing quote -----

  class Quota {
    var lastPrice: int
    var volume: int
    var turnOver: int
    var openInterest: int
    var bidPrice1: int
    var bidVol1: int
    var askPrice1: int
    var askVol1: int
    var high: int
    var low: int
    var open: int
    var close: int
    var settle: int

    function View(): Fields
      reads this
    {
      Fields(lastPrice, volume, turnOver, openInterest, bidPrice1, bidVol1, askPrice1, askVol1,
             high, low, open, close, settle)
    }

    /** The assignments of one turn. */
    method AssignField(kind: nat, mem: seq<byte>)
      requires |mem| >= 8
      modifies this
      ensures View() == Assign(old(View()), kind, mem)
    {
      hide Bswap, FromLE;
      if kind == 0x7b000000 { lastPrice := ReverseDouble(mem); }
      else if kind == 0x7f000000 { volume := ReverseU32(mem); }
      else if kind == 0x80000000 { turnOver := ReverseDouble(mem); }
      else if kind == 0x81000000 { openInterest := ToInt32(ReverseU32(mem)); }
      else if kind == 0x86000000 { bidPrice1 := ReverseDouble(mem); }
      else if kind == 0x87000000 { bidVol1 := ReverseU32(mem); }
      else if kind == 0x89000000 { askPrice1 := ReverseDouble(mem); }
      else if kind == 0x9a000000 { askVol1 := ReverseU32(mem); }
      else if kind == 0x7c000000 { high := ReverseDouble(mem); }
      else if kind == 0x7d000000 { low := ReverseDouble(mem); }
      else if kind == 0x9d000000 { open := ReverseDouble(mem); }
      else if kind == 0x9e000000 { close := ReverseDouble(mem); }
      else if kind == 0x83000000 { settle := ReverseDouble(mem); }
    }

    /** The record loop of HandleLv1Quota: `body` is the readable memory behind QuotaBase,
        of which `len` bytes belong to the message. */
    method MergeBody(body: seq<byte>, len: int)
      requires len > 0 ==> len + 14 <= |body|
      requires WidthsKnown(body, len)
      modifies this
      ensures View() == Merge(old(View()), body, len)
    {
      hide Assign, Advance, View, FromLE;
      var ptr, remain := body, len;
      while remain > 0
        invariant remain > 0 ==> remain + 14 <= |ptr|
        invariant WidthsKnown(ptr, remain)
        invariant Merge(View(), ptr, remain) == Merge(old(View()), body, len)
        decreases remain
      {
        AdvanceIsAnnounced(ptr);
        AssignField(FromLE(ptr[..4]), ptr[HEAD..]);
        var step := Advance(ptr);
        ptr := ptr[step..];
        remain := remain - step;
      }
    }
  }

  // ----- Well-formed messages -----

  datatype Record = Record(tag: nat, payload: seq<byte>)

  /** Tag and width agree for every tracked field; other records have either width. */
  predicate WellFormedRecord(r: Record) {
    && r.tag < 0x1_0000_0000
    && (|r.payload| == 8 || |r.payload| == 4)
    && forall id :: r.tag == TagOf(id) ==> |r.payload| == if IsWide(id) then 8 else 4
  }

  function EncodeRecord(r: Record): (b: seq<byte>)
    ensures |b| == HEAD + |r.payload|
  {
    ToLE(r.tag, 4) + (if |r.payload| == 8 then [0x00, 0x08] else [0x00, 0x04]) + r.payload
  }

  function Encode(records: seq<Record>): seq<byte> {
    if records == [] then [] else EncodeRecord(records[0]) + Encode(records[1..])
  }

  /** The value a payload carries: most significant byte first, and for the open interest the
      int32_t with those four bytes. */
  predicate Carries(id: FieldId, payload: seq<byte>, v: int) {
    if id == OpenInterest then
      -0x8000_0000 <= v < 0x8000_0000 && (v - FromBE(payload)) % 0x1_0000_0000 == 0
    else v == FromBE(payload)
  }

  lemma CarriesOneValue(id: FieldId, payload: seq<byte>, v: int, w: int)
    requires Carries(id, payload, v) && Carries(id, payload, w)
    ensures v == w
    ensures id == OpenInterest && FromBE(payload) < 0x8000_0000 ==> v == FromBE(payload)
  {
  }

  lemma ToInt32Carries(payload: seq<byte>)
    requires |payload| == 4
    ensures Carries(OpenInterest, payload, ToInt32(FromBE(payload)))
  {
    hide FromBE, FromLE;
    SwapOfLoadIsBE(payload);
    assert Pow256(4) == 0x1_0000_0000;
  }

  /** The last of the records that carries the field. */
  function LastWith(records: seq<Record>, id: FieldId): Option<Record> {
    if records == [] then None
    else if records[|records| - 1].tag == TagOf(id) then Some(records[|records| - 1])
    else LastWith(records[..|records| - 1], id)
  }

  /** What the loop reads for a field from the memory behind the record head. */
  function Read(id: FieldId, mem: seq<byte>): int
    requires |mem| >= 8
  {
    if id == OpenInterest then ToInt32(ReverseU32(mem))
    else if IsWide(id) then ReverseDouble(mem)
    else ReverseU32(mem)
  }

  lemma AssignOther(f: Fields, kind: nat, mem: seq<byte>, id: FieldId)
    requires |mem| >= 8 && kind != TagOf(id)
    ensures Get(Assign(f, kind, mem), id) == Get(f, id)
  {
    hide ReverseDouble, ReverseU32, ToInt32;
  }

  lemma AssignTagged(f: Fields, mem: seq<byte>, id: FieldId)
    requires |mem| >= 8
    ensures Get(Assign(f, TagOf(id), mem), id) == Read(id, mem)
  {
    hide ReverseDouble, ReverseU32, ToInt32;
  }

  lemma AssignHitsOneField(f: Fields, r: Record, mem: seq<byte>, id: FieldId)
    requires WellFormedRecord(r) && |mem| >= 8 && mem[..|r.payload|] == r.payload
    ensures if r.tag == TagOf(id) then Carries(id, r.payload, Get(Assign(f, r.tag, mem), id))
            else Get(Assign(f, r.tag, mem), id) == Get(f, id)
  {
    hide Bswap, FromLE, FromBE, Assign, Get, TagOf, ToInt32;
    if r.tag == TagOf(id) {
      AssignTagged(f, mem, id);
      SwapOfLoadIsBE(r.payload);
      if id == OpenInterest {
        ToInt32Carries(r.payload);
      }
    } else {
      AssignOther(f, r.tag, mem, id);
    }
  }

  lemma RecordAtFront(r: Record, rest: seq<byte>)
    requires WellFormedRecord(r) && |rest| >= 8
    ensures var ptr := EncodeRecord(r) + rest;
            && FromLE(ptr[..4]) == r.tag && Advance(ptr) == HEAD + |r.payload|
            && ptr[HEAD..][..|r.payload|] == r.payload && ptr[Advance(ptr)..] == rest
  {
    var ptr := EncodeRecord(r) + rest;
    assert Pow256(4) == 0x1_0000_0000;
    LoadAfterStore(r.tag, 4);
    assert ptr[..4] == ToLE(r.tag, 4);
    TwoBytes(ptr[4..6]);
    assert ptr[HEAD..][..|r.payload|] == r.payload;
    assert ptr[HEAD + |r.payload|..] == rest;
  }

  lemma TwoBytes(b: seq<byte>)
    requires |b| == 2
    ensures FromLE(b) == b[0] as int + 256 * (b[1] as int)
  {
  }

  /** The loop over an encoded body assigns its records one after the other. */
  function AssignRecords(f: Fields, records: seq<Record>): Fields
    requires forall r :: r in records ==> WellFormedRecord(r)
    decreases |records|
  {
    if records == [] then f
    else
      AssignRecords(Assign(f, records[0].tag, records[0].payload + [0, 0, 0, 0, 0, 0, 0, 0]), records[1..])
  }

  lemma AssignReadsOnlyPayload(f: Fields, r: Record, a: seq<byte>, b: seq<byte>)
    requires WellFormedRecord(r) && |a| >= 8 && |b| >= 8
    requires a[..|r.payload|] == r.payload && b[..|r.payload|] == r.payload
    ensures Assign(f, r.tag, a) == Assign(f, r.tag, b)
  {
    hide Bswap, FromLE;
    if |r.payload| == 4 {
      assert r.tag !in {TagOf(LastPrice), TagOf(TurnOver), TagOf(BidPrice1), TagOf(AskPrice1), TagOf(High),
                        TagOf(Low), TagOf(Open), TagOf(Close), TagOf(Settle)};
      assert a[..4] == b[..4];
    } else {
      assert r.tag !in {TagOf(Volume), TagOf(OpenInterest), TagOf(BidVol1), TagOf(AskVol1)};
      assert a[..8] == b[..8];
    }
  }

  lemma {:induction false} MergeOfEncoded(f: Fields, records: seq<Record>, behind: seq<byte>)
    requires forall r :: r in records ==> WellFormedRecord(r)
    requires |behind| >= 14
    ensures WidthsKnown(Encode(records) + behind, |Encode(records)|)
    ensures Merge(f, Encode(records) + behind, |Encode(records)|) == AssignRecords(f, records)
    decreases |records|
  {
    hide Assign, Advance, FromLE, EncodeRecord;
    if records != [] {
      var r, rest := records[0], records[1..];
      var tail := Encode(rest) + behind;
      var ptr := Encode(records) + behind;
      assert ptr == EncodeRecord(r) + tail;
      RecordAtFront(r, tail);
      AdvanceIsAnnounced(ptr);
      var padded := r.payload + [0, 0, 0, 0, 0, 0, 0, 0];
      assert padded[..|r.payload|] == r.payload;
      AssignReadsOnlyPayload(f, r, ptr[HEAD..], padded);
      MergeOfEncoded(Assign(f, r.tag, padded), rest, behind);
    }
  }

  lemma {:induction false} LastRecordOfList(f: Fields, records: seq<Record>, id: FieldId)
    requires forall r :: r in records ==> WellFormedRecord(r)
    ensures match LastWith(records, id)
            case None => Get(AssignRecords(f, records), id) == Get(f, id)
            case Some(r) => Carries(id, r.payload, Get(AssignRecords(f, records), id))
    decreases |records|
  {
    hide Assign, Get, Carries;
    if records != [] {
      var r, rest := records[0], records[1..];
      var padded := r.payload + [0, 0, 0, 0, 0, 0, 0, 0];
      assert padded[..|r.payload|] == r.payload;
      AssignHitsOneField(f, r, padded, id);
      LastRecordOfList(Assign(f, r.tag, padded), rest, id);
      LastWithCons(r, rest, id);
      assert records == [r] + rest;
    }
  }

  lemma {:induction false} LastWithCons(r: Record, rest: seq<Record>, id: FieldId)
    ensures LastWith([r] + rest, id) ==
      if LastWith(rest, id).Some? then LastWith(rest, id)
      else if r.tag == TagOf(id) then Some(r) else None
    decreases |rest|
  {
    var all := [r] + rest;
    if rest == [] {
      assert all[..|all| - 1] == [];
    } else {
      var n := |rest| - 1;
      assert all[..|all| - 1] == [r] + rest[..n];
      LastWithCons(r, rest[..n], id);
    }
  }

  // ----- Many messages -----

  datatype Message = Message(records: seq<Record>, behind: seq<byte>)

  predicate WellFormedMessage(m: Message) {
    |m.behind| >= 14 && forall r :: r in m.records ==> WellFormedRecord(r)
  }

  function Records(msgs: seq<Message>): seq<Record> {
    if msgs == [] then [] else Records(msgs[..|msgs| - 1]) + msgs[|msgs| - 1].records
  }

  /** The standing quote after the messages have gone through the record loop in turn. */
  function AfterMessages(f: Fields, msgs: seq<Message>): Fields
    requires forall m :: m in msgs ==> WellFormedMessage(m)
  {
    if msgs == [] then f
    else
      var m := msgs[|msgs| - 1];
      assert WellFormedMessage(m);
      MergeOfEncoded(AfterMessages(f, msgs[..|msgs| - 1]), m.records, m.behind);
      Merge(AfterMessages(f, msgs[..|msgs| - 1]), Encode(m.records) + m.behind, |Encode(m.records)|)
  }

  lemma {:induction false} LastWithConcat(a: seq<Record>, b: seq<Record>, id: FieldId)
    ensures LastWith(a + b, id) == if LastWith(b, id).Some? then LastWith(b, id) else LastWith(a, id)
    decreases |b|
  {
    if b == [] {
      assert a + b == a;
    } else {
      assert (a + b)[..|a + b| - 1] == a + b[..|b| - 1];
      LastWithConcat(a, b[..|b| - 1], id);
    }
  }

  /** Main result for the merge: after any sequence of well-formed messages every field is
      the big-endian value of the last record that carried it, or still its first value. */
  lemma {:induction false} LastRecordWins(f: Fields, msgs: seq<Message>, id: FieldId)
    requires forall m :: m in msgs ==> WellFormedMessage(m)
    ensures match LastWith(Records(msgs), id)
            case None => Get(AfterMessages(f, msgs), id) == Get(f, id)
            case Some(r) => Carries(id, r.payload, Get(AfterMessages(f, msgs), id))
    decreases |msgs|
  {
    hide Get, Carries, Merge, Encode, WellFormedRecord;
    if msgs != [] {
      var n := |msgs| - 1;
      var m := msgs[n];
      assert WellFormedMessage(m);
      LastRecordWins(f, msgs[..n], id);
      var before := AfterMessages(f, msgs[..n]);
      MergeOfEncoded(before, m.records, m.behind);
      LastRecordOfList(before, m.records, id);
      LastWithConcat(Records(msgs[..n]), m.records, id);
    }
  }
}
