/** InstMap: a vector of (16-byte name, value) items that stands in for a map once sorted. */
module InstMaps {
  import opened Wrappers
  import opened Bytes

  const INST_LEN_MAX: nat := 16

  // ----- Names and keys -----

  function Zeros(n: nat): (z: seq<byte>)
    ensures |z| == n
  {
    seq(n, _ => 0)
  }

  /** chars_to_uint128: the name, cut at INST_LEN_MAX bytes or padded with zeros up to them,
      loaded as one word. */
  function CharsToUint128(name: seq<byte>): (key: nat) {
    var len := if |name| < INST_LEN_MAX then |name| else INST_LEN_MAX;
    FromLE(name[..len] + Zeros(INST_LEN_MAX - len))
  }

  /** The first 16 bytes of a name, or all of a shorter one. */
  function Prefix(name: seq<byte>): seq<byte> {
    if |name| < 16 then name else name[..16]
  }

  predicate NulFree(name: seq<byte>) {
    0 !in name
  }

  lemma PaddingShowsLength(pa: seq<byte>, za: seq<byte>, pb: seq<byte>, zb: seq<byte>)
    requires |pa| < |pb| && |pa + za| == |pb + zb|
    requires 0 !in pb && forall i :: 0 <= i < |za| ==> za[i] == 0
    ensures pa + za != pb + zb
  {
    assert (pa + za)[|pa|] == 0;
    assert (pb + zb)[|pa|] == pb[|pa|];
    assert pb[|pa|] in pb;
  }

  lemma KeyIsPaddedPrefix(name: seq<byte>)
    ensures CharsToUint128(name) == FromLE(Prefix(name) + Zeros(16 - |Prefix(name)|))
  {
    hide FromLE;
    assert |name| < 16 ==> name[..|name|] == name;
  }

  /** NUL-free names share a key exactly when their first 16 bytes agree. */
  lemma KeysCollideExactlyWhen(a: seq<byte>, b: seq<byte>)
    requires NulFree(a) && NulFree(b)
    ensures CharsToUint128(a) == CharsToUint128(b) <==> Prefix(a) == Prefix(b)
  {
    hide FromLE, CharsToUint128;
    KeyIsPaddedPrefix(a);
    KeyIsPaddedPrefix(b);
    var pa, pb := Prefix(a), Prefix(b);
    var za, zb := Zeros(16 - |pa|), Zeros(16 - |pb|);
    FromLEInjective(pa + za, pb + zb);
    if |pa| < |pb| {
      PaddingShowsLength(pa, za, pb, zb);
    } else if |pb| < |pa| {
      PaddingShowsLength(pb, zb, pa, za);
    } else {
      assert pa == (pa + za)[..|pa|] && pb == (pb + zb)[..|pa|];
    }
  }

  // ----- The vector and the map it stands for -----

  datatype Item<+T> = Item(key: nat, value: T)

  ghost predicate DistinctKeys<T>(items: seq<Item<T>>) {
    forall i, j :: 0 <= i < j < |items| ==> items[i].key != items[j].key
  }

  ghost predicate SortedByKey<T>(items: seq<Item<T>>) {
    forall i, j :: 0 <= i < j < |items| ==> items[i].key <= items[j].key
  }

  ghost predicate HasKey<T>(items: seq<Item<T>>, key: nat) {
    exists i :: 0 <= i < |items| && items[i].key == key
  }

  function ToMap<T>(items: seq<Item<T>>): map<nat, T> {
    if items == [] then map[]
    else ToMap(items[..|items| - 1])[items[|items| - 1].key := items[|items| - 1].value]
  }

  lemma {:induction false} ToMapHasExactlyItems<T>(items: seq<Item<T>>)
    requires DistinctKeys(items)
    ensures forall k :: k in ToMap(items) <==> HasKey(items, k)
    ensures forall i :: 0 <= i < |items| ==>
              items[i].key in ToMap(items) && ToMap(items)[items[i].key] == items[i].value
    decreases |items|
  {
    if items != [] {
      var n := |items| - 1;
      var front := items[..n];
      ToMapHasExactlyItems(front);
      forall k ensures k in ToMap(items) <==> HasKey(items, k) {
        if HasKey(front, k) {
          var i :| 0 <= i < |front| && front[i].key == k;
          assert items[i].key == k;
        }
        if HasKey(items, k) {
          var i :| 0 <= i < |items| && items[i].key == k;
          assert i < n ==> front[i].key == k;
        }
        assert items[n].key in ToMap(items);
      }
      forall i | 0 <= i < |items|
        ensures items[i].key in ToMap(items) && ToMap(items)[items[i].key] == items[i].value
      {
        assert i < n ==> front[i] == items[i];
      }
    }
  }

  /** Two vectors with distinct keys and the same items stand for the same map. */
  lemma SameItemsSameMap<T>(a: seq<Item<T>>, b: seq<Item<T>>)
    requires DistinctKeys(a) && DistinctKeys(b)
    requires forall x :: x in a <==> x in b
    ensures ToMap(a) == ToMap(b)
  {
    ToMapHasExactlyItems(a);
    ToMapHasExactlyItems(b);
    SameItemsSubMap(a, b);
    SameItemsSubMap(b, a);
  }

  lemma SameItemsSubMap<T>(a: seq<Item<T>>, b: seq<Item<T>>)
    requires DistinctKeys(a) && DistinctKeys(b)
    requires forall x :: x in a ==> x in b
    ensures forall k :: k in ToMap(a) ==> k in ToMap(b) && ToMap(a)[k] == ToMap(b)[k]
  {
    ToMapHasExactlyItems(a);
    ToMapHasExactlyItems(b);
    forall k | k in ToMap(a) ensures k in ToMap(b) && ToMap(a)[k] == ToMap(b)[k] {
      var i :| 0 <= i < |a| && a[i].key == k;
      assert a[i] in b;
      var j :| 0 <= j < |b| && b[j] == a[i];
    }
  }

  /** A permutation keeps distinct keys distinct. */
  lemma {:induction false} PermutationKeepsDistinct<T>(a: seq<Item<T>>, b: seq<Item<T>>)
    requires DistinctKeys(a) && multiset(a) == multiset(b)
    ensures DistinctKeys(b)
    ensures forall x :: x in a <==> x in b
  {
    forall x ensures x in a <==> x in b {
      assert x in a <==> x in multiset(a);
    }
    forall i, j | 0 <= i < j < |b| ensures b[i].key != b[j].key {
      if b[i].key == b[j].key {
        assert b[i] in b && b[j] in b;
        var m :| 0 <= m < |a| && a[m] == b[i];
        var n :| 0 <= n < |a| && a[n] == b[j];
        assert m == n;
        TwiceInMultiset(b, i, j);
        OnceInMultiset(a, m);
        assert false;
      }
    }
  }

  lemma TwiceInMultiset<T>(s: seq<T>, i: nat, j: nat)
    requires i < j < |s| && s[i] == s[j]
    ensures multiset(s)[s[i]] >= 2
  {
    assert s == s[..j] + [s[j]] + s[j + 1..];
    assert s[..j][i] == s[i];
    assert s[i] in s[..j];
  }

  lemma OnceInMultiset<T>(a: seq<Item<T>>, m: nat)
    requires DistinctKeys(a) && m < |a|
    ensures multiset(a)[a[m]] == 1
  {
    assert a == a[..m] + [a[m]] + a[m + 1..];
    assert a[m] !in a[..m] && a[m] !in a[m + 1..];
  }

  // ----- lower_bound and Find -----

  /** The halving search of std::lower_bound over items[first..first + len]. */
  function LowerBound<T>(items: seq<Item<T>>, key: nat, first: nat, len: nat): (r: nat)
    requires first + len <= |items|
    ensures first <= r <= first + len
    decreases len
  {
    if len == 0 then first
    else
      var half := len / 2;
      if items[first + half].key < key then LowerBound(items, key, first + half + 1, len - half - 1)
      else LowerBound(items, key, first, half)
  }

  lemma {:induction false} LowerBoundSplits<T>(items: seq<Item<T>>, key: nat, first: nat, len: nat)
    requires first + len <= |items| && SortedByKey(items)
    requires forall i :: 0 <= i < first ==> items[i].key < key
    requires forall i :: first + len <= i < |items| ==> items[i].key >= key
    ensures var r := LowerBound(items, key, first, len);
            && (forall i :: 0 <= i < r ==> items[i].key < key)
            && (forall i :: r <= i < |items| ==> items[i].key >= key)
    decreases len
  {
    hide SortedByKey, LowerBound;
    LowerBoundTurn(items, key, first, len);
    if len > 0 {
      var half := len / 2;
      var mid := first + half;
      OrderAround(items, mid);
      if items[mid].key < key {
        LowerBoundSplits(items, key, mid + 1, len - half - 1);
      } else {
        LowerBoundSplits(items, key, first, half);
      }
    }
  }

  lemma LowerBoundTurn<T>(items: seq<Item<T>>, key: nat, first: nat, len: nat)
    requires first + len <= |items|
    ensures LowerBound(items, key, first, len) ==
      if len == 0 then first
      else if items[first + len / 2].key < key then LowerBound(items, key, first + len / 2 + 1, len - len / 2 - 1)
      else LowerBound(items, key, first, len / 2)
  {
  }

  lemma OrderAround<T>(items: seq<Item<T>>, mid: nat)
    requires SortedByKey(items) && mid < |items|
    ensures forall i :: 0 <= i <= mid ==> items[i].key <= items[mid].key
    ensures forall i :: mid <= i < |items| ==> items[mid].key <= items[i].key
  {
  }

  function Inserted<T>(items: seq<Item<T>>, at: nat, x: Item<T>): (r: seq<Item<T>>)
    requires at <= |items|
    ensures |r| == |items| + 1
    ensures forall i :: 0 <= i <= |items| ==> r[i] == if i < at then items[i] else if i == at then x else items[i - 1]
  {
    items[..at] + [x] + items[at..]
  }

  lemma InsertKeepsOrder<T>(items: seq<Item<T>>, at: nat, x: Item<T>)
    requires SortedByKey(items) && at == LowerBound(items, x.key, 0, |items|)
    ensures SortedByKey(Inserted(items, at, x))
  {
    hide LowerBound;
    LowerBoundSplits(items, x.key, 0, |items|);
    var r := Inserted(items, at, x);
    forall i, j | 0 <= i < j < |r| ensures r[i].key <= r[j].key {
      if j < at {
        assert items[i].key <= items[j].key;
      } else if at < i {
        assert items[i - 1].key <= items[j - 1].key;
      } else {
        assert i < at ==> items[i].key < x.key;
        assert j > at ==> x.key <= items[j - 1].key;
      }
    }
  }

  lemma InsertAddsItem<T>(items: seq<Item<T>>, at: nat, x: Item<T>)
    requires at <= |items|
    ensures multiset(Inserted(items, at, x)) == multiset(items) + multiset{x}
  {
    assert items == items[..at] + items[at..];
  }

  function Find<T>(items: seq<Item<T>>, key: nat): Option<nat> {
    var r := LowerBound(items, key, 0, |items|);
    if r < |items| && items[r].key == key then Some(r) else None
  }

  /** On a sorted vector the search misses nothing; a hit always has the key. */
  lemma FindMissesNothing<T>(items: seq<Item<T>>, key: nat)
    ensures Find(items, key).Some? ==> Find(items, key).value < |items| && items[Find(items, key).value].key == key
    ensures SortedByKey(items) ==> (Find(items, key).Some? <==> HasKey(items, key))
  {
    if SortedByKey(items) {
      LowerBoundSplits(items, key, 0, |items|);
    }
  }

  /** The value that the pointer returned by Find refers to. */
  function Found<T>(items: seq<Item<T>>, key: nat): Option<T> {
    FindMissesNothing(items, key);
    match Find(items, key)
    case None => None
    case Some(r) => Some(items[r].value)
  }

  // ----- Any interleaving of operations refines a finite map -----

  datatype Op<+T> = InitOnce(key: nat) | Sort | FindAndWrite(key: nat, write: Option<T>)

  /** What one operation does to the vector; `found` is the value that Find points to. */
  ghost predicate Step<T(!new)>(op: Op<T>, zero: T, s: seq<Item<T>>, s': seq<Item<T>>, found: Option<T>) {
    match op
    case InitOnce(key) => s' == s + [Item(key, zero)] && found == None
    case Sort => SortedByKey(s') && multiset(s') == multiset(s) && found == None
    case FindAndWrite(key, write) =>
      match Find(s, key)
      case None => s' == s && found == None
      case Some(r) =>
        && r < |s| && found == Some(s[r].value)
        && s' == if write.Some? then s[r := s[r].(value := write.value)] else s
  }

  /** The calling discipline: keys are added once, and looked up in a sorted vector. */
  ghost predicate Allowed<T>(op: Op<T>, s: seq<Item<T>>) {
    match op
    case InitOnce(key) => !HasKey(s, key)
    case Sort => true
    case FindAndWrite(_, _) => SortedByKey(s)
  }

  function MapStep<T>(op: Op<T>, zero: T, m: map<nat, T>): map<nat, T> {
    match op
    case InitOnce(key) => m[key := zero]
    case Sort => m
    case FindAndWrite(key, write) => if key in m && write.Some? then m[key := write.value] else m
  }

  function MapFind<T>(op: Op<T>, m: map<nat, T>): Option<T> {
    if op.FindAndWrite? && op.key in m then Some(m[op.key]) else None
  }

  lemma InitRefines<T(!new)>(key: nat, zero: T, s: seq<Item<T>>)
    requires DistinctKeys(s) && !HasKey(s, key)
    ensures DistinctKeys(s + [Item(key, zero)])
    ensures ToMap(s + [Item(key, zero)]) == ToMap(s)[key := zero]
  {
  }

  lemma WriteRefines<T(!new)>(s: seq<Item<T>>, r: nat, v: T)
    requires DistinctKeys(s) && r < |s|
    ensures DistinctKeys(s[r := s[r].(value := v)])
    ensures s[r].key in ToMap(s) && ToMap(s[r := s[r].(value := v)]) == ToMap(s)[s[r].key := v]
  {
    var t := s[r := s[r].(value := v)];
    ToMapHasExactlyItems(s);
    ToMapHasExactlyItems(t);
    var m := ToMap(s)[s[r].key := v];
    forall k ensures k in ToMap(t) <==> k in m {
      if HasKey(t, k) {
        var i :| 0 <= i < |t| && t[i].key == k;
        assert s[i].key == k;
      }
      if HasKey(s, k) {
        var i :| 0 <= i < |s| && s[i].key == k;
        assert t[i].key == k;
      }
    }
    forall k | k in m ensures ToMap(t)[k] == m[k] {
      var i :| 0 <= i < |t| && t[i].key == k;
      assert i != r ==> t[i] == s[i];
    }
  }

  lemma StepRefinesMap<T(!new)>(op: Op<T>, zero: T, s: seq<Item<T>>, s': seq<Item<T>>, found: Option<T>)
    requires DistinctKeys(s) && Allowed(op, s) && Step(op, zero, s, s', found)
    ensures DistinctKeys(s')
    ensures ToMap(s') == MapStep(op, zero, ToMap(s)) && found == MapFind(op, ToMap(s))
  {
    match op
    case InitOnce(key) => InitRefines(key, zero, s);
    case Sort =>
      PermutationKeepsDistinct(s, s');
      SameItemsSameMap(s, s');
    case FindAndWrite(key, write) =>
      FindMissesNothing(s, key);
      ToMapHasExactlyItems(s);
      if Find(s, key).Some? && write.Some? {
        WriteRefines(s, Find(s, key).value, write.value);
      }
  }

  function MapRun<T>(ops: seq<Op<T>>, zero: T): map<nat, T> {
    if ops == [] then map[] else MapStep(ops[|ops| - 1], zero, MapRun(ops[..|ops| - 1], zero))
  }

  ghost predicate IsRun<T(!new)>(ops: seq<Op<T>>, zero: T, states: seq<seq<Item<T>>>, found: seq<Option<T>>) {
    && |states| == |ops| + 1 && |found| == |ops| && states[0] == []
    && forall i :: 0 <= i < |ops| ==>
         Allowed(ops[i], states[i]) && Step(ops[i], zero, states[i], states[i + 1], found[i])
  }

  lemma EmptyVectorIsEmptyMap<T(!new)>(zero: T)
    ensures DistinctKeys<T>([]) && ToMap<T>([]) == map[]
  {
  }

  /** Main result for the index: over any interleaving of adding, sorting, finding and
      writing, the vector is the finite map keyed by the padded names. */
  lemma {:induction false} RunRefinesMap<T(!new)>(ops: seq<Op<T>>, zero: T, states: seq<seq<Item<T>>>,
                                                found: seq<Option<T>>, n: nat)
    requires IsRun(ops, zero, states, found) && n <= |ops|
    ensures DistinctKeys(states[n]) && ToMap(states[n]) == MapRun(ops[..n], zero)
    ensures n < |ops| ==> found[n] == MapFind(ops[n], MapRun(ops[..n], zero))
    decreases n
  {
    hide Step, Allowed, MapStep, MapFind, ToMap, DistinctKeys;
    if n == 0 {
      EmptyVectorIsEmptyMap(zero);
    } else {
      RunRefinesMap(ops, zero, states, found, n - 1);
      StepRefinesMap(ops[n - 1], zero, states[n - 1], states[n], found[n - 1]);
      assert ops[..n][..n - 1] == ops[..n - 1];
    }
    if n < |ops| {
      StepRefinesMap(ops[n], zero, states[n], states[n + 1], found[n]);
    }
  }

  // ----- The class -----

  class InstMap<T(!new)> {
    const zero: T
    var data: seq<Item<T>>
    var sorted: bool

    constructor (zero: T)
      ensures data == [] && this.zero == zero && !sorted
    {
      this.zero := zero;
      data, sorted := [], false;
    }

    method InitOnce(inst: seq<byte>)
      modifies this
      ensures Step(Op.InitOnce(CharsToUint128(inst)), zero, old(data), data, None)
      ensures sorted == old(sorted)
    {
      data := data + [Item(CharsToUint128(inst), zero)];
    }

    /** Any sorting algorithm will do for std::sort; here by insertion. */
    method Sort()
      modifies this
      ensures Step(Op.Sort, zero, old(data), data, None)
      ensures sorted
    {
      hide LowerBound, Inserted;
      var done: seq<Item<T>> := [];
      var i := 0;
      while i < |data|
        invariant 0 <= i <= |data| && data == old(data)
        invariant SortedByKey(done) && multiset(done) == multiset(data[..i])
      {
        assert data[..i + 1] == data[..i] + [data[i]];
        var at := LowerBound(done, data[i].key, 0, |done|);
        InsertKeepsOrder(done, at, data[i]);
        InsertAddsItem(done, at, data[i]);
        done := Inserted(done, at, data[i]);
        i := i + 1;
      }
      assert data[..i] == data;
      data, sorted := done, true;
    }

    /** Find as it walks the vector; None is the null pointer, Some the item's position. */
    method Lookup(inst: seq<byte>) returns (at: Option<nat>)
      ensures at == Find(data, CharsToUint128(inst))
    {
      hide CharsToUint128;
      var searchKey := CharsToUint128(inst);
      var first: nat, len: nat := 0, |data|;
      while len > 0
        invariant first + len <= |data|
        invariant LowerBound(data, searchKey, first, len) == LowerBound(data, searchKey, 0, |data|)
        decreases len
      {
        var half := len / 2;
        if data[first + half].key < searchKey {
          first := first + half + 1;
          len := len - half - 1;
        } else {
          len := half;
        }
      }
      if first != |data| && data[first].key == searchKey {
        return Some(first);
      }
      return None;
    }

    /** A write through the pointer that Find returned. */
    method Write(inst: seq<byte>, v: T) returns (ok: bool)
      modifies `data
      ensures Step(FindAndWrite(CharsToUint128(inst), Some(v)), zero, old(data), data,
                   Found(old(data), CharsToUint128(inst)))
      ensures ok <==> Find(old(data), CharsToUint128(inst)).Some?
    {
      var at := Lookup(inst);
      FindMissesNothing(data, CharsToUint128(inst));
      if at == None {
        return false;
      }
      data := data[at.value := data[at.value].(value := v)];
      return true;
    }
  }
}
