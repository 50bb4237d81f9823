/** Machine bytes and unsigned 32-bit words, shared by every other module. */
module Bytes {
  newtype byte = x: int | 0 <= x < 256

  datatype Option<+T> = None | Some(value: T)

  const UINT32: int := 0x1_0000_0000
  const UINT_MAX: int := 0xFFFF_FFFF

  /** What is left of an integer once it has been stored in a uint32_t. */
  function Wrap32(x: int): (r: nat)
    ensures r < UINT32
    ensures 0 <= x < UINT32 ==> r == x
  {
    x % UINT32
  }

  function Pow2(i: nat): (p: nat)
    ensures p > 0
  {
    if i == 0 then 1 else 2 * Pow2(i - 1)
  }

  /** A uint32_t as it lies in memory, least significant byte first. */
  function Le32(n: nat): (b: seq<byte>)
    requires n < UINT32
    ensures |b| == 4
  {
    [(n % 256) as byte, (n / 256 % 256) as byte, (n / 65536 % 256) as byte, (n / 16777216) as byte]
  }

  function FromLe32(b: seq<byte>): (n: nat)
    requires |b| == 4
    ensures n < UINT32
  {
    b[0] as int + 256 * b[1] as int + 65536 * b[2] as int + 16777216 * b[3] as int
  }

  lemma Le32RoundTrip(n: nat)
    requires n < UINT32
    ensures FromLe32(Le32(n)) == n
  {
    var m, l, k := n / 256, n / 65536, n / 16777216;
    assert n == 256 * m + n % 256 && m == 256 * l + m % 256 && l == 256 * k + l % 256;
  }

  /** All chunks of a gather list, one after the other. */
  function Flatten<T>(chunks: seq<seq<T>>): seq<T> {
    if chunks == [] then [] else chunks[0] + Flatten(chunks[1..])
  }

  lemma {:induction false} FlattenConcat<T>(a: seq<seq<T>>, b: seq<seq<T>>)
    ensures Flatten(a + b) == Flatten(a) + Flatten(b)
  {
    if a == [] {
      assert a + b == b;
    } else {
      assert (a + b)[1..] == a[1..] + b;
      FlattenConcat(a[1..], b);
    }
  }

  lemma ConcatAssociates<T>(a: seq<T>, b: seq<T>, c: seq<T>)
    ensures a + b + c == a + (b + c)
  {
  }

  lemma SliceOfSlice<T>(s: seq<T>, at: nat, end: nat, i: nat, j: nat)
    requires at <= end <= |s| && i <= j <= end - at
    ensures s[at..end][i..j] == s[at + i..at + j]
  {
    forall k | 0 <= k < j - i ensures s[at..end][i..j][k] == s[at + i..at + j][k] {
      assert s[at..end][i + k] == s[at + i + k];
    }
  }

  lemma SliceBehind<T>(a: seq<T>, b: seq<T>, i: nat, j: nat)
    requires i <= j <= |b|
    ensures (a + b)[|a| + i..|a| + j] == b[i..j]
  {
  }

  /** `s` with `b` written over it from index `at` on. */
  function Splice<T>(s: seq<T>, at: nat, b: seq<T>): (r: seq<T>)
    requires at + |b| <= |s|
    ensures |r| == |s|
  {
    s[..at] + b + s[at + |b|..]
  }

  /** Writing two pieces one after the other is writing them at once. */
  lemma SpliceJoin<T>(s: seq<T>, at: nat, a: seq<T>, b: seq<T>)
    requires at + |a| + |b| <= |s|
    ensures Splice(Splice(s, at, a), at + |a|, b) == Splice(s, at, a + b)
  {
  }

  /** A later piece may cover what the first one ended with. */
  lemma SpliceOver<T>(s: seq<T>, at: nat, a: seq<T>, c: seq<T>, b: seq<T>)
    requires |c| <= |b| && at + |a| + |b| <= |s|
    ensures Splice(Splice(s, at, a + c), at + |a|, b) == Splice(s, at, a + b)
  {
  }

  lemma SpliceNothing<T>(s: seq<T>, at: nat)
    requires at <= |s|
    ensures Splice(s, at, []) == s
  {
  }

  lemma SpliceIndex<T>(s: seq<T>, at: nat, b: seq<T>, i: nat)
    requires at + |b| <= |s| && i < |s|
    ensures Splice(s, at, b)[i] == if at <= i < at + |b| then b[i - at] else s[i]
  {
  }

  lemma SpliceFrom<T>(s: seq<T>, at: nat, b: seq<T>)
    requires at + |b| <= |s|
    ensures Splice(s, at, b)[at..] == b + s[at + |b|..]
  {
  }

  lemma SpliceUpdate<T>(s: seq<T>, a: seq<T>, c: seq<T>, x: T)
    requires |c| <= 1 && |a| < |s|
    ensures Splice(s, 0, a + c)[|a| := x] == Splice(s, 0, a + [x])
  {
  }

  method Memcpy(dst: array<byte>, at: nat, src: seq<byte>)
    requires at + |src| <= dst.Length
    modifies dst
    ensures dst[..] == Splice(old(dst[..]), at, src)
  {
    forall i | 0 <= i < |src| {
      dst[at + i] := src[i];
    }
  }
}
