/** The DCE decoder: a key of period 64 guessed from one message of 290 bytes whose plaintext
    is partly known, and the gate that lets other messages through once the key is there. */
module Keystream {
  import opened Wrappers

  type Byte = bv8

  const KEY_LENGTH: nat := 64
  const GEN_LENGTH: nat := 290
  const LEVEL1_LENGTH: nat := 370
  const LEVEL2_LENGTH: nat := 366

  type Key = k: seq<Byte> | |k| == KEY_LENGTH witness seq(KEY_LENGTH, _ => 0)

  /** The four stored bytes of the system date yyyymmdd. */
  type Date = d: seq<Byte> | |d| == 4 witness [0, 0, 0, 0]

  const DBL_MAX_MEN: seq<Byte> := [0xff, 0xff, 0xff, 0xff, 0xff, 0xff, 0xef, 0x7f]

  function Mix(a: Byte, b: Byte): Byte {
    a ^ b
  }

  /** The XOR of a message with the repeated key: what `decrypt` computes. */
  function Xor(key: Key, input: seq<Byte>): (output: seq<Byte>)
    ensures |output| == |input|
    ensures forall i :: 0 <= i < |input| ==> output[i] == Mix(input[i], key[i % KEY_LENGTH])
  {
    seq(|input|, i requires 0 <= i < |input| => Mix(input[i], key[i % KEY_LENGTH]))
  }

  /** What the sender does: XOR with a key of 64 bytes, over and over. */
  function Sent(key: Key, plain: seq<Byte>): (cipher: seq<Byte>)
    ensures |cipher| == |plain|
  {
    seq(|plain|, i requires 0 <= i < |plain| => plain[i] ^ key[i % 64])
  }

  /** decrypt does the same. */
  lemma SentIsXor(key: Key, plain: seq<Byte>)
    ensures Sent(key, plain) == Xor(key, plain)
  {
  }

  lemma XorSeparates(a: Byte, k: Byte, k': Byte)
    ensures Mix(Mix(a, k), k') == a <==> k == k'
  {
    assert a ^ k ^ k' == a ^ (k ^ k');
    assert k ^ k' == 0 <==> k == k';
    assert a ^ (k ^ k') == a <==> k ^ k' == 0;
  }

  /** Messages of any length come back byte for byte where the two keys agree, and only there. */
  lemma DecryptsExactlyWhereKeysAgree(key: Key, guessed: Key, plain: seq<Byte>, i: nat)
    requires i < |plain|
    ensures Xor(guessed, Sent(key, plain))[i] == plain[i] <==> key[i % 64] == guessed[i % 64]
  {
    hide Mix, Sent;
    SentIsXor(key, plain);
    XorSeparates(plain[i], key[i % KEY_LENGTH], guessed[i % KEY_LENGTH]);
  }

  lemma DecryptUndoesEncrypt(key: Key, plain: seq<Byte>)
    ensures Xor(key, Sent(key, plain)) == plain
  {
    hide Sent, Mix;
    forall i | 0 <= i < |plain| ensures Xor(key, Sent(key, plain))[i] == plain[i] {
      DecryptsExactlyWhereKeysAgree(key, key, plain, i);
    }
  }

  // ----- What the key generator takes from where -----

  /** The byte of the 290-byte message that determines key byte k. Key byte 1 is first taken
      from byte 1 and then overwritten from byte 193. */
  function Source(k: nat): (at: nat)
    requires k < KEY_LENGTH
    ensures at < GEN_LENGTH
  {
    if k == 0 then 0
    else if k < 2 then k + 192
    else if k < 14 then k + 64
    else if k < 49 then k + 192
    else if k < 53 then k + 128
    else if k < 58 then k + 192
    else k
  }

  /** The plaintext byte assumed there: the low byte of 290, the date, DBL_MAX, or zero. */
  function Assumed(at: nat, date: Date): Byte
    requires at < GEN_LENGTH
  {
    if at == 0 then 0x22
    else if 177 <= at < 181 then date[at - 177]
    else if 206 <= at < 214 then DBL_MAX_MEN[at - 206]
    else if 218 <= at < 226 then DBL_MAX_MEN[at - 218]
    else if 226 <= at < 234 then DBL_MAX_MEN[at - 226]
    else if 234 <= at < 241 then DBL_MAX_MEN[at - 234]
    else if 245 <= at < 250 then DBL_MAX_MEN[at - 242]
    else 0
  }

  function GenKey(msg: seq<Byte>, date: Date): (key: Key)
    requires |msg| == GEN_LENGTH
    ensures forall k :: 0 <= k < KEY_LENGTH ==> key[k] == Mix(msg[Source(k)], Assumed(Source(k), date))
  {
    seq(KEY_LENGTH, k requires 0 <= k < KEY_LENGTH => Mix(msg[Source(k)], Assumed(Source(k), date)))
  }

  /** Every key byte comes from a message byte that was enciphered with it. */
  lemma SourcesCoverTheKey(k: nat)
    requires k < 64
    ensures Source(k) % 64 == k
  {
  }

  lemma KeyByteRightExactlyWhen(key: Key, plain: seq<Byte>, date: Date, k: nat)
    requires |plain| == GEN_LENGTH && k < KEY_LENGTH
    ensures GenKey(Sent(key, plain), date)[k] == key[k] <==> plain[Source(k)] == Assumed(Source(k), date)
  {
    hide Mix, Sent, Source, Assumed;
    SentIsXor(key, plain);
    SourcesCoverTheKey(k);
    XorFindsKeyExactlyWhen(plain[Source(k)], key[k], Assumed(Source(k), date));
  }

  lemma XorFindsKeyExactlyWhen(plain: Byte, k: Byte, assumed: Byte)
    ensures Mix(Mix(plain, k), assumed) == k <==> plain == assumed
  {
    assert plain ^ k ^ assumed == k ^ (plain ^ assumed);
    assert plain ^ assumed == 0 <==> plain == assumed;
    assert k ^ (plain ^ assumed) == k <==> plain ^ assumed == 0;
  }

  predicate Reads(plain: seq<Byte>, from: nat, bytes: seq<Byte>)
    requires from + |bytes| <= |plain|
  {
    forall i :: 0 <= i < |bytes| ==> plain[from + i] == bytes[i]
  }

  predicate ZeroRun(plain: seq<Byte>, from: nat, to: nat)
    requires from <= to <= |plain|
  {
    forall i :: from <= i < to ==> plain[i] == 0
  }

  /** What the 290-byte plaintext has to look like: length 290 in its low byte, today's date,
      a time string that ends in NUL, five absent prices (two of them seen in part), and
      zero padding. */
  predicate KnownBytes(plain: seq<Byte>, date: Date)
    requires |plain| == GEN_LENGTH
  {
    && plain[0] == 0x22
    && ZeroRun(plain, 58, 64) && ZeroRun(plain, 66, 78)
    && Reads(plain, 177, date)
    && plain[193] == 0
    && Reads(plain, 206, DBL_MAX_MEN)
    && ZeroRun(plain, 214, 218)
    && Reads(plain, 218, DBL_MAX_MEN) && Reads(plain, 226, DBL_MAX_MEN)
    && Reads(plain, 234, DBL_MAX_MEN[..7]) && Reads(plain, 245, DBL_MAX_MEN[3..])
  }

  lemma KnownBytesGiveSource(plain: seq<Byte>, date: Date, k: nat)
    requires |plain| == GEN_LENGTH && KnownBytes(plain, date) && k < KEY_LENGTH
    ensures plain[Source(k)] == Assumed(Source(k), date)
  {
  }

  /** The assumption holds at every position some key byte is taken from. */
  predicate SourcesAsAssumed(plain: seq<Byte>, date: Date)
    requires |plain| == GEN_LENGTH
  {
    forall k :: 0 <= k < KEY_LENGTH ==> plain[Source(k)] == Assumed(Source(k), date)
  }

  predicate IsSource(at: nat) {
    at < GEN_LENGTH && Source(at % KEY_LENGTH) == at
  }

  lemma SourcePositions(at: nat)
    ensures IsSource(at) <==>
      || at == 0 || 58 <= at < 64 || 66 <= at < 78 || 177 <= at < 181 || at == 193
      || 206 <= at < 241 || 245 <= at < 250
  {
  }

  lemma SourceHolds(plain: seq<Byte>, date: Date, at: nat)
    requires |plain| == GEN_LENGTH && SourcesAsAssumed(plain, date) && IsSource(at)
    ensures plain[at] == Assumed(at, date)
  {
  }

  lemma SourceRun(plain: seq<Byte>, date: Date, from: nat, bytes: seq<Byte>)
    requires |plain| == GEN_LENGTH && SourcesAsAssumed(plain, date)
    requires from + |bytes| <= GEN_LENGTH
    requires forall at :: from <= at < from + |bytes| ==> IsSource(at)
    requires forall i :: 0 <= i < |bytes| ==> bytes[i] == Assumed(from + i, date)
    ensures Reads(plain, from, bytes)
  {
    hide SourcesAsAssumed, Source, Assumed, IsSource;
    forall i | 0 <= i < |bytes| ensures plain[from + i] == bytes[i] {
      assert IsSource(from + i);
      SourceHolds(plain, date, from + i);
    }
  }

  lemma ZeroSourceRun(plain: seq<Byte>, date: Date, from: nat, to: nat)
    requires |plain| == GEN_LENGTH && SourcesAsAssumed(plain, date)
    requires from <= to <= GEN_LENGTH
    requires forall at :: from <= at < to ==> IsSource(at) && Assumed(at, date) == 0
    ensures ZeroRun(plain, from, to)
  {
    hide SourcesAsAssumed, Source, Assumed, IsSource;
    forall at | from <= at < to ensures plain[at] == 0 {
      SourceHolds(plain, date, at);
    }
  }

  lemma SourcesGiveKnownBytes(plain: seq<Byte>, date: Date)
    requires |plain| == GEN_LENGTH && SourcesAsAssumed(plain, date)
    ensures KnownBytes(plain, date)
  {
    SourcesGiveZeros(plain, date);
    SourcesGivePrices(plain, date);
    hide SourcesAsAssumed, Source, Assumed, Reads, ZeroRun;
  }

  lemma SourcesGiveZeros(plain: seq<Byte>, date: Date)
    requires |plain| == GEN_LENGTH && SourcesAsAssumed(plain, date)
    ensures plain[0] == 0x22 && plain[193] == 0
    ensures ZeroRun(plain, 58, 64) && ZeroRun(plain, 66, 78) && ZeroRun(plain, 214, 218)
  {
    hide SourcesAsAssumed, ZeroRun, IsSource;
    forall at: nat ensures IsSource(at) <== at == 0 || 58 <= at < 64 || 66 <= at < 78 || at == 193 || 214 <= at < 218 {
      SourcePositions(at);
    }
    SourceHolds(plain, date, 0);
    SourceHolds(plain, date, 193);
    ZeroSourceRun(plain, date, 58, 64);
    ZeroSourceRun(plain, date, 66, 78);
    ZeroSourceRun(plain, date, 214, 218);
  }

  lemma SourcesGivePrices(plain: seq<Byte>, date: Date)
    requires |plain| == GEN_LENGTH && SourcesAsAssumed(plain, date)
    ensures Reads(plain, 177, date) && Reads(plain, 206, DBL_MAX_MEN)
    ensures Reads(plain, 218, DBL_MAX_MEN) && Reads(plain, 226, DBL_MAX_MEN)
    ensures Reads(plain, 234, DBL_MAX_MEN[..7]) && Reads(plain, 245, DBL_MAX_MEN[3..])
  {
    hide SourcesAsAssumed, Reads, IsSource;
    forall at: nat ensures IsSource(at) <== 177 <= at < 181 || 206 <= at < 241 || 245 <= at < 250 {
      SourcePositions(at);
    }
    SourceRun(plain, date, 177, date);
    SourceRun(plain, date, 206, DBL_MAX_MEN);
    SourceRun(plain, date, 218, DBL_MAX_MEN);
    SourceRun(plain, date, 226, DBL_MAX_MEN);
    SourceRun(plain, date, 234, DBL_MAX_MEN[..7]);
    SourceRun(plain, date, 245, DBL_MAX_MEN[3..]);
  }

  /** Main result for the generator: it yields the sender's key if and only if the plaintext
      has the assumed bytes. Byte 1, the length's high byte, plays no part. */
  lemma GenKeyFindsKeyExactlyWhen(key: Key, plain: seq<Byte>, date: Date)
    requires |plain| == 290
    ensures GenKey(Sent(key, plain), date) == key <==> KnownBytes(plain, date)
  {
    hide Mix, Sent, Source, Assumed, KnownBytes;
    if KnownBytes(plain, date) {
      forall k | 0 <= k < KEY_LENGTH ensures plain[Source(k)] == Assumed(Source(k), date) {
        KnownBytesGiveSource(plain, date, k);
      }
    } else if SourcesAsAssumed(plain, date) {
      SourcesGiveKnownBytes(plain, date);
    }
    var guessed := GenKey(Sent(key, plain), date);
    forall k | 0 <= k < KEY_LENGTH
      ensures guessed[k] == key[k] <==> plain[Source(k)] == Assumed(Source(k), date)
    {
      KeyByteRightExactlyWhen(key, plain, date, k);
    }
    assert guessed == key <==> forall k :: 0 <= k < KEY_LENGTH ==> guessed[k] == key[k];
  }

  /** A wrong assumption spoils the same byte of every 64 in every later message, no other. */
  lemma WrongByteRecurs(key: Key, first: seq<Byte>, date: Date, plain: seq<Byte>, i: nat)
    requires |first| == 290 && i < |plain|
    ensures var at := Source(i % 64);
            Xor(GenKey(Sent(key, first), date), Sent(key, plain))[i] == plain[i] <==> first[at] == Assumed(at, date)
  {
    hide Mix, Sent, Source, Assumed;
    KeyByteRightExactlyWhen(key, first, date, i % KEY_LENGTH);
    DecryptsExactlyWhereKeysAgree(key, GenKey(Sent(key, first), date), plain, i);
  }

  /** A message that comes out right and is at least a key long leaves no choice of key. */
  lemma LongMessageFixesKey(key: Key, guessed: Key, plain: seq<Byte>)
    requires |plain| >= 64
    ensures Xor(guessed, Sent(key, plain)) == plain <==> guessed == key
  {
    hide Mix, Sent, Xor;
    DecryptUndoesEncrypt(key, plain);
    if Xor(guessed, Sent(key, plain)) == plain {
      forall k | 0 <= k < KEY_LENGTH ensures guessed[k] == key[k] {
        DecryptsExactlyWhereKeysAgree(key, guessed, plain, k);
      }
    }
  }

  /** One later message of at least a key's length comes out right if and only if the
      290-byte message had the assumed bytes. */
  lemma OneMessageTells(key: Key, first: seq<Byte>, date: Date, plain: seq<Byte>)
    requires |first| == 290 && |plain| >= 64
    ensures Xor(GenKey(Sent(key, first), date), Sent(key, plain)) == plain <==> KnownBytes(first, date)
  {
    hide KnownBytes, Xor, Sent, GenKey;
    GenKeyFindsKeyExactlyWhen(key, first, date);
    LongMessageFixesKey(key, GenKey(Sent(key, first), date), plain);
  }

  // ----- The gate -----

  const CODE_AT: nat := 38
  const CODE_BYTES: nat := 16

  function UntilNul(b: seq<Byte>): seq<Byte> {
    if b == [] || b[0] == 0 then [] else [b[0]] + UntilNul(b[1..])
  }

  /** The instrument as the cache looks it up: at most 16 bytes of the code field. */
  function CodeOf(plain: seq<Byte>): seq<Byte>
    requires |plain| >= CODE_AT + CODE_BYTES
  {
    UntilNul(plain[CODE_AT..CODE_AT + CODE_BYTES])
  }

  /** For each subscribed instrument the last level-1 message, if one was seen. */
  type Cache = map<seq<Byte>, Option<seq<Byte>>>

  /** A published quote. A level-2 message carries the cached level-1 part. */
  datatype Quote = Level1(plain: seq<Byte>) | Level2(plain: seq<Byte>, level1: Option<seq<Byte>>)

  datatype Published = Published(cache: Cache, quotes: seq<Quote>)

  /** What a message with this plaintext does. */
  function Publish(cache: Cache, plain: seq<Byte>): Published {
    if |plain| == LEVEL1_LENGTH && CodeOf(plain) in cache then
      Published(cache[CodeOf(plain) := Some(plain)], [Level1(plain)])
    else if |plain| == LEVEL2_LENGTH && CodeOf(plain) in cache then
      Published(cache, [Level2(plain, cache[CodeOf(plain)])])
    else Published(cache, [])
  }

  /** A message and the system date on its arrival. */
  datatype Datagram = Datagram(date: Date, bytes: seq<Byte>)

  datatype State = State(key: Key, ready: bool, cache: Cache)

  datatype Outcome = Outcome(state: State, quotes: seq<Quote>)

  function Step(s: State, d: Datagram): Outcome {
    if !s.ready then
      Outcome(if |d.bytes| == GEN_LENGTH then s.(key := GenKey(d.bytes, d.date), ready := true) else s, [])
    else
      var p := Publish(s.cache, Xor(s.key, d.bytes));
      Outcome(s.(cache := p.cache), p.quotes)
  }

  function Run(s: State, feed: seq<Datagram>): Outcome
    decreases |feed|
  {
    if feed == [] then Outcome(s, [])
    else
      var first := Step(s, feed[0]);
      var rest := Run(first.state, feed[1..]);
      Outcome(rest.state, first.quotes + rest.quotes)
  }

  /** The same feed for a receiver that is sent the plaintext. */
  function PlainRun(cache: Cache, feed: seq<Datagram>): Published
    decreases |feed|
  {
    if feed == [] then Published(cache, [])
    else
      var first := Publish(cache, feed[0].bytes);
      var rest := PlainRun(first.cache, feed[1..]);
      Published(rest.cache, first.quotes + rest.quotes)
  }

  function Enciphered(key: Key, feed: seq<Datagram>): (r: seq<Datagram>)
    ensures |r| == |feed|
    ensures forall i :: 0 <= i < |feed| ==> r[i] == Datagram(feed[i].date, Sent(key, feed[i].bytes))
  {
    seq(|feed|, i requires 0 <= i < |feed| => Datagram(feed[i].date, Sent(key, feed[i].bytes)))
  }

  lemma {:induction false} SilentWithoutKey(s: State, feed: seq<Datagram>)
    requires !s.ready && forall d :: d in feed ==> |d.bytes| != 290
    ensures Run(s, feed) == Outcome(s, [])
    decreases |feed|
  {
    if feed != [] {
      assert feed[0] in feed;
      SilentWithoutKey(s, feed[1..]);
    }
  }

  lemma {:induction false} RunSplits(s: State, a: seq<Datagram>, b: seq<Datagram>)
    ensures var first := Run(s, a);
            var later := Run(first.state, b);
            Run(s, a + b) == Outcome(later.state, first.quotes + later.quotes)
    decreases |a|
  {
    if a == [] {
      assert a + b == b;
    } else {
      hide Step, Run;
      var d, rest := a[0], a[1..];
      assert a == [d] + rest && a + b == [d] + (rest + b);
      RunFirst(s, d, rest);
      RunFirst(s, d, rest + b);
      RunSplits(Step(s, d).state, rest, b);
      var first := Run(Step(s, d).state, rest);
      InAnyGrouping(Step(s, d).quotes, first.quotes, Run(first.state, b).quotes);
    }
  }

  lemma InAnyGrouping(a: seq<Quote>, b: seq<Quote>, c: seq<Quote>)
    ensures a + b + c == a + (b + c)
  {
  }

  lemma RunFirst(s: State, d: Datagram, rest: seq<Datagram>)
    ensures var later := Run(Step(s, d).state, rest);
            Run(s, [d] + rest) == Outcome(later.state, Step(s, d).quotes + later.quotes)
  {
    hide Step;
    assert ([d] + rest)[1..] == rest;
  }

  /** Once there is a key it never changes: later 290-byte messages are ignored. */
  lemma {:induction false} KeyIsForGood(s: State, feed: seq<Datagram>)
    requires s.ready
    ensures Run(s, feed).state.ready && Run(s, feed).state.key == s.key
    decreases |feed|
  {
    if feed != [] {
      KeyIsForGood(Step(s, feed[0]).state, feed[1..]);
    }
  }

  /** With the sender's key the encrypted feed means what the plain one means. */
  lemma {:induction false} RightKeyRunsThePlainFeed(s: State, feed: seq<Datagram>)
    requires s.ready
    ensures Run(s, Enciphered(s.key, feed)) ==
      Outcome(s.(cache := PlainRun(s.cache, feed).cache), PlainRun(s.cache, feed).quotes)
    decreases |feed|
  {
    if feed != [] {
      hide Publish, Xor, Sent;
      var sent := Enciphered(s.key, feed);
      DecryptUndoesEncrypt(s.key, feed[0].bytes);
      assert sent[1..] == Enciphered(s.key, feed[1..]);
      RightKeyRunsThePlainFeed(Step(s, sent[0]).state, feed[1..]);
    }
  }

  lemma OpeningMakesKey(s: State, d: Datagram)
    requires !s.ready && |d.bytes| == GEN_LENGTH
    ensures Run(s, [d]) == Outcome(s.(key := GenKey(d.bytes, d.date), ready := true), [])
  {
  }

  /** The plaintext of the last level-1 message for an instrument. */
  function LastLevel1(feed: seq<Datagram>, code: seq<Byte>): Option<seq<Byte>> {
    if feed == [] then None
    else
      var last := feed[|feed| - 1].bytes;
      if |last| == 370 && CodeOf(last) == code then Some(last)
      else LastLevel1(feed[..|feed| - 1], code)
  }

  lemma {:induction false} LastLevel1Splits(first: Datagram, rest: seq<Datagram>, code: seq<Byte>)
    ensures LastLevel1([first] + rest, code) ==
      if LastLevel1(rest, code).Some? then LastLevel1(rest, code) else LastLevel1([first], code)
    decreases |rest|
  {
    hide CodeOf;
    var feed := [first] + rest;
    if rest == [] {
      assert feed == [first];
    } else {
      assert feed[..|feed| - 1] == [first] + rest[..|rest| - 1];
      LastLevel1Splits(first, rest[..|rest| - 1], code);
    }
  }

  /** What a level-2 quote carries besides its own bytes: the last level-1 message of its
      instrument, whatever came between. */
  lemma {:induction false} CacheIsLastLevel1(cache: Cache, feed: seq<Datagram>, code: seq<Byte>)
    requires code in cache
    ensures var after := PlainRun(cache, feed).cache;
            after.Keys == cache.Keys && after[code] ==
              if LastLevel1(feed, code).Some? then LastLevel1(feed, code) else cache[code]
    decreases |feed|
  {
    if feed != [] {
      hide CodeOf;
      CacheIsLastLevel1(Publish(cache, feed[0].bytes).cache, feed[1..], code);
      LastLevel1Splits(feed[0], feed[1..], code);
      assert feed == [feed[0]] + feed[1..];
      LastLevel1OfOne(feed[0], code);
    }
  }

  lemma LastLevel1OfOne(d: Datagram, code: seq<Byte>)
    ensures LastLevel1([d], code) ==
      if |d.bytes| == 370 && CodeOf(d.bytes) == code then Some(d.bytes) else None
  {
  }

  // ----- What is due, message by message -----

  /** The code field as a C string: the bytes from 38 on, up to the first NUL, at most 16. */
  lemma CodeIsTheNameField(plain: seq<Byte>, code: seq<Byte>)
    requires |plain| >= 54
    ensures CodeOf(plain) == code <==>
      && |code| <= 16 && code == plain[38..38 + |code|] && 0 !in code
      && (|code| < 16 ==> plain[38 + |code|] == 0)
  {
    UntilNulIsPrefix(plain[38..54], code);
    if |code| <= 16 {
      assert plain[38..54][..|code|] == plain[38..38 + |code|];
    }
  }

  lemma {:induction false} UntilNulIsPrefix(b: seq<Byte>, code: seq<Byte>)
    ensures UntilNul(b) == code <==>
      |code| <= |b| && code == b[..|code|] && 0 !in code && (|code| < |b| ==> b[|code|] == 0)
  {
    if b != [] && b[0] != 0 {
      if code != [] {
        UntilNulIsPrefix(b[1..], code[1..]);
        assert code == [code[0]] + code[1..];
        if |code| <= |b| {
          assert b[..|code|] == [b[0]] + b[1..][..|code| - 1];
        }
      }
    }
  }

  /** The last level-1 message of an instrument in the feed, else what the cache began with. */
  function Level1Part(cache: Cache, feed: seq<Datagram>, code: seq<Byte>): Option<seq<Byte>>
    requires code in cache
  {
    if LastLevel1(feed, code).Some? then LastLevel1(feed, code) else cache[code]
  }

  /** The quotes due for the i-th message of a feed of plaintexts: a message of 370 bytes for a
      subscribed instrument is published as it is, one of 366 with the level-1 part that came
      before it, and nothing else is. */
  function Due(cache: Cache, feed: seq<Datagram>, i: nat): seq<Quote>
    requires i < |feed|
  {
    var plain := feed[i].bytes;
    if |plain| == 370 && CodeOf(plain) in cache then [Level1(plain)]
    else if |plain| == 366 && CodeOf(plain) in cache then
      [Level2(plain, Level1Part(cache, feed[..i], CodeOf(plain)))]
    else []
  }

  function DueUpTo(cache: Cache, feed: seq<Datagram>, n: nat): seq<Quote>
    requires n <= |feed|
  {
    if n == 0 then [] else DueUpTo(cache, feed, n - 1) + Due(cache, feed, n - 1)
  }

  function AllDue(cache: Cache, feed: seq<Datagram>): seq<Quote> {
    DueUpTo(cache, feed, |feed|)
  }

  lemma {:induction false} DueUpToPrefix(cache: Cache, feed: seq<Datagram>, n: nat, m: nat)
    requires n <= m <= |feed|
    ensures DueUpTo(cache, feed[..m], n) == DueUpTo(cache, feed, n)
  {
    if n > 0 {
      DueUpToPrefix(cache, feed, n - 1, m);
      assert feed[..m][..n - 1] == feed[..n - 1];
    }
  }

  lemma {:induction false} PlainRunSnoc(cache: Cache, feed: seq<Datagram>, d: Datagram)
    ensures var before := PlainRun(cache, feed);
            PlainRun(cache, feed + [d]).quotes == before.quotes + Publish(before.cache, d.bytes).quotes
    decreases |feed|
  {
    hide Publish;
    if feed == [] {
      assert feed + [d] == [d] && [d][1..] == [];
      assert PlainRun(cache, [d]).quotes == Publish(cache, d.bytes).quotes + [];
    } else {
      assert (feed + [d])[1..] == feed[1..] + [d];
      var first := Publish(cache, feed[0].bytes);
      PlainRunSnoc(first.cache, feed[1..], d);
      var later := PlainRun(first.cache, feed[1..]);
      InAnyGrouping(first.quotes, later.quotes, Publish(later.cache, d.bytes).quotes);
    }
  }

  lemma {:induction false} PlainRunIsDue(cache: Cache, feed: seq<Datagram>)
    ensures PlainRun(cache, feed).quotes == AllDue(cache, feed)
    decreases |feed|
  {
    hide CodeOf, LastLevel1, PlainRun, Due;
    if feed == [] {
      NothingPublished(cache);
    } else {
      var n := |feed| - 1;
      PlainRunIsDue(cache, feed[..n]);
      DueUpToPrefix(cache, feed, n, n);
      assert feed == feed[..n] + [feed[n]];
      PlainRunSnoc(cache, feed[..n], feed[n]);
      LastIsDue(cache, feed);
    }
  }

  lemma NothingPublished(cache: Cache)
    ensures PlainRun(cache, []).quotes == []
  {
  }

  lemma LastIsDue(cache: Cache, feed: seq<Datagram>)
    requires feed != []
    ensures var n := |feed| - 1;
            Publish(PlainRun(cache, feed[..n]).cache, feed[n].bytes).quotes == Due(cache, feed, n)
  {
    hide CodeOf, LastLevel1, PlainRun;
    var n := |feed| - 1;
    SameSubscriptions(cache, feed[..n]);
    if |feed[n].bytes| >= CODE_AT + CODE_BYTES && CodeOf(feed[n].bytes) in cache {
      CacheIsLastLevel1(cache, feed[..n], CodeOf(feed[n].bytes));
    }
  }

  lemma {:induction false} SameSubscriptions(cache: Cache, feed: seq<Datagram>)
    ensures PlainRun(cache, feed).cache.Keys == cache.Keys
    decreases |feed|
  {
    if feed != [] {
      hide CodeOf;
      SameSubscriptions(Publish(cache, feed[0].bytes).cache, feed[1..]);
    }
  }

  /** Main result for the decoder, over every feed in which `before` holds no message of 290
      bytes. Nothing is published up to and including the first such message; after it the
      receiver publishes exactly what is due from the plaintexts, provided the bytes of that
      message were as assumed. OneMessageTells shows that otherwise every full message comes
      out wrong. */
  lemma DecoderRefinesPlainFeed(s: State, key: Key, before: seq<Datagram>, first: Datagram, after: seq<Datagram>)
    requires !s.ready && |first.bytes| == 290
    requires forall d :: d in before ==> |d.bytes| != 290
    ensures Run(s, Enciphered(key, before + [first])).quotes == []
    ensures KnownBytes(first.bytes, first.date) ==>
      Run(s, Enciphered(key, before + [first] + after)) ==
        Outcome(State(key, true, PlainRun(s.cache, after).cache), AllDue(s.cache, after))
  {
    hide KnownBytes, Publish, Xor, Sent, Run, Due, AllDue;
    GenKeyFindsKeyExactlyWhen(key, first.bytes, first.date);
    var sent := Enciphered(key, before);
    var opening := [Datagram(first.date, Sent(key, first.bytes))];
    assert Enciphered(key, before + [first]) == sent + opening;
    assert Enciphered(key, before + [first] + after) == sent + opening + Enciphered(key, after);
    SilentWithoutKey(s, sent);
    RunSplits(s, sent, opening);
    OpeningMakesKey(s, opening[0]);
    RunSplits(s, sent + opening, Enciphered(key, after));
    if KnownBytes(first.bytes, first.date) {
      RightKeyRunsThePlainFeed(Run(s, sent + opening).state, after);
      PlainRunIsDue(s.cache, after);
    }
  }

  // ----- The decoder in place -----

  function Learnt(key: Key, msg: seq<Byte>, from: nat, bytes: seq<Byte>): (r: Key)
    requires from + |bytes| <= |msg| && from % KEY_LENGTH + |bytes| <= KEY_LENGTH
    ensures forall k :: 0 <= k < KEY_LENGTH ==>
      r[k] == LearntByte(key, msg, from, bytes, k)
  {
    seq(KEY_LENGTH, k requires 0 <= k < KEY_LENGTH => LearntByte(key, msg, from, bytes, k))
  }

  function LearntByte(key: Key, msg: seq<Byte>, from: nat, bytes: seq<Byte>, k: nat): Byte
    requires from + |bytes| <= |msg| && from % KEY_LENGTH + |bytes| <= KEY_LENGTH && k < KEY_LENGTH
  {
    var i := k - from % KEY_LENGTH;
    if 0 <= i < |bytes| then Mix(msg[from + i], bytes[i]) else key[k]
  }

  /** The assignments of GenKey_290 in their order leave the key of GenKey, whatever was
      there before. */
  lemma LearntInOrder(key: Key, msg: seq<Byte>, date: Date)
    requires |msg| == GEN_LENGTH
    ensures
      var head := Learnt(Learnt(Learnt(key, msg, 0, [0x22, 0x01]), msg, 177, date), msg, 193, [0]);
      var some := Learnt(Learnt(Learnt(head, msg, 206, DBL_MAX_MEN), msg, 214, seq(4, _ => 0)), msg, 218, DBL_MAX_MEN);
      var more := Learnt(Learnt(Learnt(some, msg, 226, DBL_MAX_MEN), msg, 234, DBL_MAX_MEN[..7]),
                         msg, 245, DBL_MAX_MEN[3..]);
      Learnt(Learnt(more, msg, 58, seq(6, _ => 0)), msg, 66, seq(12, _ => 0)) == GenKey(msg, date)
  {
    hide Mix, Learnt;
  }

  class QxMdMgr {
    const calcKey: array<Byte>
    const buffer: array<Byte>
    var keyGenFinished: bool
    var quotaCache: Cache

    ghost predicate Valid()
      reads this
    {
      calcKey != buffer && calcKey.Length == KEY_LENGTH && buffer.Length == 1024
    }

    ghost function View(): State
      reads this, calcKey
      requires Valid()
    {
      State(calcKey[..], keyGenFinished, quotaCache)
    }

    constructor (subscribed: set<seq<Byte>>)
      ensures Valid() && fresh(calcKey) && fresh(buffer)
      ensures View() == State(seq(KEY_LENGTH, _ => 0), false, map c | c in subscribed :: None)
    {
      calcKey := new Byte[KEY_LENGTH](_ => 0);
      buffer := new Byte[1024](_ => 0);
      keyGenFinished := false;
      quotaCache := map c | c in subscribed :: None;
    }

    method Decrypt(input: seq<Byte>)
      requires Valid() && |input| <= buffer.Length
      modifies buffer
      ensures buffer[..|input|] == Xor(calcKey[..], input)
      ensures buffer[|input|..] == old(buffer[|input|..])
    {
      hide Mix;
      var i := 0;
      while i < |input|
        invariant 0 <= i <= |input|
        invariant forall j :: 0 <= j < i ==> buffer[j] == Mix(input[j], calcKey[j % KEY_LENGTH])
        invariant buffer[|input|..] == old(buffer[|input|..])
      {
        buffer[i] := Mix(input[i], calcKey[i % KEY_LENGTH]);
        i := i + 1;
      }
    }

    /** Consecutive assignments calcKey[(from + i) % 64] := msg[from + i] ^ bytes[i]. */
    method Learn(msg: seq<Byte>, from: nat, bytes: seq<Byte>)
      requires Valid() && |msg| == GEN_LENGTH
      requires from + |bytes| <= GEN_LENGTH && from % KEY_LENGTH + |bytes| <= KEY_LENGTH
      modifies calcKey
      ensures calcKey[..] == Learnt(old(calcKey[..]), msg, from, bytes)
    {
      hide Mix;
      var i := 0;
      while i < |bytes|
        invariant 0 <= i <= |bytes|
        invariant calcKey[..] == Learnt(old(calcKey[..]), msg, from, bytes[..i])
      {
        calcKey[from % KEY_LENGTH + i] := Mix(msg[from + i], bytes[i]);
        i := i + 1;
      }
      assert bytes[..i] == bytes;
    }

    method GenKey290(msg: seq<Byte>, date: Date)
      requires Valid() && |msg| == GEN_LENGTH
      modifies this`keyGenFinished, calcKey
      ensures View() == old(View()).(key := GenKey(msg, date), ready := true)
    {
      hide Learnt, GenKey;
      LearntInOrder(calcKey[..], msg, date);
      Learn(msg, 0, [0x22, 0x01]);
      Learn(msg, 177, date);
      Learn(msg, 193, [0]);
      Learn(msg, 206, DBL_MAX_MEN);
      Learn(msg, 214, seq(4, _ => 0));
      Learn(msg, 218, DBL_MAX_MEN);
      Learn(msg, 226, DBL_MAX_MEN);
      Learn(msg, 234, DBL_MAX_MEN[..7]);
      Learn(msg, 245, DBL_MAX_MEN[3..]);
      Learn(msg, 58, seq(6, _ => 0));
      Learn(msg, 66, seq(12, _ => 0));
      keyGenFinished := true;
    }

    /** DecodeMsg. `date` is what getsysdate2 returns if it is asked. */
    method DecodeMsg(msg: seq<Byte>, date: Date) returns (quotes: seq<Quote>)
      requires Valid()
      modifies this`keyGenFinished, this`quotaCache, calcKey, buffer
      ensures Outcome(View(), quotes) == Step(old(View()), Datagram(date, msg))
    {
      hide Xor, GenKey, CodeOf;
      if |msg| == GEN_LENGTH {
        if !keyGenFinished {
          GenKey290(msg, date);
          return [];
        }
      }
      if !keyGenFinished {
        return [];
      }
      if |msg| == LEVEL1_LENGTH {
        Decrypt(msg);
        var plain := buffer[..LEVEL1_LENGTH];
        if CodeOf(plain) !in quotaCache {
          return [];
        }
        quotaCache := quotaCache[CodeOf(plain) := Some(plain)];
        return [Level1(plain)];
      } else if |msg| == LEVEL2_LENGTH {
        Decrypt(msg);
        var plain := buffer[..LEVEL2_LENGTH];
        if CodeOf(plain) !in quotaCache {
          return [];
        }
        return [Level2(plain, quotaCache[CodeOf(plain)])];
      }
      return [];
    }
  }
}
