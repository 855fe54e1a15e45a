/** Byte strings as the code reads them through casts: little-endian machine words,
    and the byte swap that turns them into the exchange's big-endian values. */
module Bytes {
  type byte = x: int | 0 <= x < 256

  function Pow256(n: nat): (r: nat)
    ensures r > 0
  {
    if n == 0 then 1 else 256 * Pow256(n - 1)
  }

  /** The value a little-endian machine loads from the bytes b. */
  function FromLE(b: seq<byte>): (v: nat)
    ensures v < Pow256(|b|)
  {
    if b == [] then 0 else b[0] + 256 * FromLE(b[1..])
  }

  /** The n bytes a little-endian machine stores for v. */
  function ToLE(v: nat, n: nat): (b: seq<byte>)
    ensures |b| == n
  {
    if n == 0 then [] else [v % 256] + ToLE(v / 256, n - 1)
  }

  /** The value read most significant byte first. */
  function FromBE(b: seq<byte>): (v: nat)
  {
    if b == [] then 0 else FromBE(b[..|b| - 1]) * 256 + b[|b| - 1]
  }

  function Reverse(b: seq<byte>): (r: seq<byte>)
    ensures |r| == |b|
  {
    if b == [] then [] else Reverse(b[1..]) + [b[0]]
  }

  /** __builtin_bswap32 and __builtin_bswap64: the stored bytes in opposite order. */
  function Bswap(v: nat, n: nat): (r: nat)
    ensures r < Pow256(n)
  {
    FromLE(Reverse(ToLE(v, n)))
  }

  lemma {:induction false} LoadAfterStore(v: nat, n: nat)
    requires v < Pow256(n)
    ensures FromLE(ToLE(v, n)) == v
  {
    if n > 0 {
      LoadAfterStore(v / 256, n - 1);
      assert ToLE(v, n)[1..] == ToLE(v / 256, n - 1);
    }
  }

  lemma {:induction false} StoreAfterLoad(b: seq<byte>)
    ensures ToLE(FromLE(b), |b|) == b
  {
    if b != [] {
      StoreAfterLoad(b[1..]);
      assert FromLE(b) / 256 == FromLE(b[1..]);
      assert FromLE(b) % 256 == b[0];
      assert b == [b[0]] + b[1..];
    }
  }

  lemma FromLEInjective(a: seq<byte>, b: seq<byte>)
    requires |a| == |b|
    ensures FromLE(a) == FromLE(b) <==> a == b
  {
  }

  lemma {:induction false} ReversedLEIsBE(b: seq<byte>)
    ensures FromLE(Reverse(b)) == FromBE(b)
    decreases |b|
  {
    if b != [] {
      var last := |b| - 1;
      ReverseSnoc(b[..last], b[last]);
      assert b[..last] + [b[last]] == b;
      assert Reverse(b)[1..] == Reverse(b[..last]);
      ReversedLEIsBE(b[..last]);
    }
  }

  lemma {:induction false} ReverseSnoc(b: seq<byte>, x: byte)
    ensures Reverse(b + [x]) == [x] + Reverse(b)
  {
    if b == [] {
      assert (b + [x])[1..] == [];
    } else {
      assert (b + [x])[1..] == b[1..] + [x];
      ReverseSnoc(b[1..], x);
    }
  }

  /** Swapping the bytes of a loaded word yields the big-endian value of the same bytes. */
  lemma SwapOfLoadIsBE(b: seq<byte>)
    ensures Bswap(FromLE(b), |b|) == FromBE(b)
  {
    StoreAfterLoad(b);
    ReversedLEIsBE(b);
  }

  // ----- Slices -----

  lemma SliceOfSlice(s: seq<byte>, a: nat, b: nat, c: nat, d: nat)
    requires a <= b <= |s| && c <= d <= b - a
    ensures s[a..b][c..d] == s[a + c..a + d]
  {
    forall i | 0 <= i < d - c ensures s[a..b][c..d][i] == s[a + c..a + d][i] {
      assert s[a..b][c + i] == s[a + c + i];
    }
  }

  lemma SameTailSameSlice(s: seq<byte>, t: seq<byte>, from: nat, to: nat)
    requires from <= to <= |s| && |s| == |t| && s[from..] == t[from..]
    ensures s[from..to] == t[from..to]
  {
  }

  lemma Assoc(a: seq<byte>, b: seq<byte>, c: seq<byte>)
    ensures a + b + c == a + (b + c)
  {
  }
}
