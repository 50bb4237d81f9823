/** The 64-bit hash of HashNodes.h, on machine words modelled as naturals below 2^64. */
module HashMix {
  import opened Bytes

  const WORD: nat := 0x1_0000_0000_0000_0000
  const SEED: nat := 0x1234ABCD
  const MULTIPLIER: nat := 0xc6a4a7935bd1e995
  /** The inverse of the multiplier modulo 2^64. */
  const DIVISOR: nat := 0x5f7a0ea7e59b19bd
  const SHIFT: nat := 47

  // ------------------------------------------------------------------------------------------------
  // Exclusive or
  // ------------------------------------------------------------------------------------------------

  /** The machine's `^`, bit by bit. */
  function Xor(a: nat, b: nat): nat
    decreases a + b
  {
    if a == 0 && b == 0 then 0 else (a + b) % 2 + 2 * Xor(a / 2, b / 2)
  }

  lemma {:induction false} XorUnfolds(a: nat, b: nat)
    ensures Xor(a, b) == (a + b) % 2 + 2 * Xor(a / 2, b / 2)
  {
  }

  lemma {:induction false} XorBits(a: nat, b: nat)
    ensures Xor(a, b) % 2 == (a + b) % 2
    ensures Xor(a, b) / 2 == Xor(a / 2, b / 2)
  {
    hide Xor;
    XorUnfolds(a, b);
    LowBit((a + b) % 2, Xor(a / 2, b / 2));
  }

  lemma LowBit(t: nat, x: nat)
    requires t < 2
    ensures (t + 2 * x) % 2 == t && (t + 2 * x) / 2 == x
  {
  }

  lemma {:induction false} XorZero(a: nat)
    ensures Xor(a, 0) == a && Xor(0, a) == a
  {
    if a > 0 {
      XorZero(a / 2);
    }
  }

  /** The same word twice cancels, so `^` loses nothing of either side. */
  lemma {:induction false} XorCancels(a: nat, b: nat)
    ensures Xor(Xor(a, b), b) == a
    decreases a + b
  {
    if a > 0 || b > 0 {
      XorCancels(a / 2, b / 2);
      CancelsAbove(a, b);
    }
  }

  lemma CancelsAbove(a: nat, b: nat)
    requires Xor(Xor(a / 2, b / 2), b / 2) == a / 2
    ensures Xor(Xor(a, b), b) == a
  {
    hide Xor;
    XorBits(a, b);
    XorBits(Xor(a, b), b);
    SumParity(a, b, Xor(a, b));
    Halved(Xor(Xor(a, b), b), a);
  }

  lemma SumParity(a: nat, b: nat, x: nat)
    requires x % 2 == (a + b) % 2
    ensures (x + b) % 2 == a % 2
  {
  }

  lemma Halved(x: nat, y: nat)
    requires x % 2 == y % 2 && x / 2 == y / 2
    ensures x == y
  {
  }

  lemma {:induction false} XorSymmetric(a: nat, b: nat)
    ensures Xor(a, b) == Xor(b, a)
    decreases a + b
  {
    if a > 0 || b > 0 {
      XorSymmetric(a / 2, b / 2);
    }
  }

  lemma {:induction false} XorBound(a: nat, b: nat, n: nat)
    requires a < Pow2(n) && b < Pow2(n)
    ensures Xor(a, b) < Pow2(n)
  {
    if n > 0 {
      XorBits(a, b);
      XorBound(a / 2, b / 2, n - 1);
    }
  }

  /** The machine's `>>`. */
  function Shift(a: nat, n: nat): nat
    decreases n
  {
    if n == 0 then a else Shift(a / 2, n - 1)
  }

  /** It divides by a power of two. */
  lemma {:induction false} ShiftDivides(a: nat, n: nat)
    ensures Shift(a, n) == a / Pow2(n)
  {
    if n > 0 {
      ShiftDivides(a / 2, n - 1);
      HalfFirst(a, Pow2(n - 1));
    }
  }

  lemma HalfFirst(a: nat, p: nat)
    requires p > 0
    ensures a / (2 * p) == a / 2 / p
  {
    var q, r := a / 2 / p, a / 2 % p;
    assert a / 2 == p * q + r;
    assert a == (2 * p) * q + (2 * r + a % 2) by { assert (2 * p) * q == 2 * (p * q); }
    QuotientIs(a, 2 * p, q, 2 * r + a % 2);
  }

  lemma {:induction false} ShiftBound(a: nat, n: nat, m: nat)
    requires a < Pow2(n + m)
    ensures Shift(a, n) < Pow2(m)
    decreases n
  {
    if n > 0 {
      ShiftBound(a / 2, n - 1, m);
    }
  }

  lemma QuotientIs(a: nat, d: nat, q: nat, r: nat)
    requires d > 0 && r < d && a == d * q + r
    ensures a / d == q
  {
    var q', r' := a / d, a % d;
    assert a == d * q' + r';
    if q' < q {
      Gap(d, q', q);
    } else if q < q' {
      Gap(d, q, q');
    }
  }

  lemma Gap(d: nat, small: nat, big: nat)
    requires small < big
    ensures d * big >= d * small + d
  {
    assert d * big == d * small + d * (big - small);
    assert d * (big - small) == d * (big - small - 1) + d;
  }

  /** Shifting right distributes over `^`. */
  lemma {:induction false} XorShifts(a: nat, b: nat, n: nat)
    ensures Shift(Xor(a, b), n) == Xor(Shift(a, n), Shift(b, n))
    decreases n
  {
    hide Xor;
    if n > 0 {
      XorBits(a, b);
      XorShifts(a / 2, b / 2, n - 1);
    }
  }

  lemma WordIsPower()
    ensures Pow2(64) == WORD && Pow2(SHIFT) == 0x8000_0000_0000 && Pow2(17) == 0x2_0000 && Pow2(0) == 1
  {
    assert Pow2(8) == 16 * Pow2(4) == 256 * Pow2(0);
    assert Pow2(12) == 16 * Pow2(8);
    assert Pow2(16) == 16 * Pow2(12);
    assert Pow2(17) == 2 * Pow2(16);
    assert Pow2(20) == 16 * Pow2(16);
    assert Pow2(24) == 16 * Pow2(20);
    assert Pow2(28) == 16 * Pow2(24);
    assert Pow2(32) == 16 * Pow2(28);
    assert Pow2(36) == 16 * Pow2(32);
    assert Pow2(40) == 16 * Pow2(36);
    assert Pow2(44) == 16 * Pow2(40);
    assert Pow2(48) == 16 * Pow2(44);
    assert Pow2(52) == 16 * Pow2(48);
    assert Pow2(56) == 16 * Pow2(52);
    assert Pow2(60) == 16 * Pow2(56);
    assert Pow2(64) == 16 * Pow2(60);
    assert Pow2(47) == 8 * Pow2(44);
  }

  // ------------------------------------------------------------------------------------------------
  // The mixing steps and their inverses
  // ------------------------------------------------------------------------------------------------

  /** h ^= h >> r */
  function XorShift(h: nat): nat {
    Xor(h, Shift(h, SHIFT))
  }

  /** h *= m */
  function Times(h: nat): (r: nat)
    ensures r < WORD
  {
    h * MULTIPLIER % WORD
  }

  function Divided(h: nat): (r: nat)
    ensures r < WORD
  {
    h * DIVISOR % WORD
  }

  /** Xor-shift by 47 is its own inverse. */
  lemma XorShiftTwice(h: nat)
    requires h < WORD
    ensures XorShift(h) < WORD && XorShift(XorShift(h)) == h
  {
    hide Xor, Shift, Pow2;
    WordIsPower();
    var s := Shift(h, SHIFT);
    ShiftBound(h, SHIFT, 17);
    XorBound(h, s, 64);
    XorShifts(h, s, SHIFT);
    ShiftBound(s, SHIFT, 0);
    XorZero(s);
    XorCancels(h, s);
  }

  lemma ModTimes(a: nat, b: nat, n: nat)
    requires n > 0
    ensures a % n * b % n == a * b % n
  {
    var q, r := a / n, a % n;
    assert a == n * q + r;
    assert a * b == n * (q * b) + r * b by {
      assert (n * q + r) * b == n * q * b + r * b;
      assert n * q * b == n * (q * b);
    }
    ModPlusMultiple(r * b, q * b, n);
  }

  lemma ModPlusMultiple(x: nat, k: nat, n: nat)
    requires n > 0
    ensures (n * k + x) % n == x % n
  {
    var q, r := x / n, x % n;
    assert x == n * q + r;
    assert n * k + x == n * (k + q) + r by { assert n * (k + q) == n * k + n * q; }
    QuotientIs(n * k + x, n, k + q, r);
  }

  lemma InverseConstants()
    ensures MULTIPLIER * DIVISOR == WORD * 0x4a15d006d409ab6f + 1
  {
  }

  lemma TimesInverse(h: nat, m: nat, d: nat, c: nat, n: nat)
    requires n > 0 && h < n && m * d == n * c + 1
    ensures h * m % n * d % n == h
  {
    ModTimes(h * m, d, n);
    Regroup(h, m, d, c, n);
    ModPlusMultiple(h, h * c, n);
    SmallRemainder(h, n);
  }

  lemma Regroup(h: nat, m: nat, d: nat, c: nat, n: nat)
    requires m * d == n * c + 1
    ensures h * m * d == n * (h * c) + h
  {
    assert h * m * d == h * (m * d);
    assert h * (n * c + 1) == h * (n * c) + h;
    assert h * (n * c) == n * (h * c);
  }

  lemma SmallRemainder(h: nat, n: nat)
    requires h < n
    ensures h % n == h
  {
  }

  /** The odd multiplier is invertible modulo 2^64. */
  lemma TimesUndone(h: nat)
    requires h < WORD
    ensures Divided(Times(h)) == h && Times(Divided(h)) == h
  {
    InverseConstants();
    TimesInverse(h, MULTIPLIER, DIVISOR, 0x4a15d006d409ab6f, WORD);
    TimesInverse(h, DIVISOR, MULTIPLIER, 0x4a15d006d409ab6f, WORD);
  }

  /** HashNodes.h, lines 75-77: what happens to a block before it is absorbed. */
  function Mix(k: nat): nat {
    Times(XorShift(Times(k)))
  }

  function Unmix(k: nat): nat {
    Divided(XorShift(Divided(k)))
  }

  /** The block mix is a bijection on words. */
  lemma MixBijective(k: nat)
    requires k < WORD
    ensures Mix(k) < WORD && Unmix(k) < WORD
    ensures Unmix(Mix(k)) == k && Mix(Unmix(k)) == k
  {
    hide Times, Divided, XorShift;
    XorShiftTwice(Times(k));
    TimesUndone(k);
    TimesUndone(XorShift(Times(k)));
    XorShiftTwice(Divided(k));
    TimesUndone(XorShift(Divided(k)));
  }

  /** HashNodes.h, lines 94-96 */
  function Finalise(h: nat): nat {
    XorShift(Times(XorShift(h)))
  }

  function Unfinalise(h: nat): nat {
    XorShift(Divided(XorShift(h)))
  }

  /** The finaliser is a bijection on words. */
  lemma FinaliseBijective(h: nat)
    requires h < WORD
    ensures Finalise(h) < WORD && Unfinalise(h) < WORD
    ensures Unfinalise(Finalise(h)) == h && Finalise(Unfinalise(h)) == h
  {
    hide Times, Divided, XorShift;
    XorShiftTwice(h);
    TimesUndone(XorShift(h));
    XorShiftTwice(Times(XorShift(h)));
    XorShiftTwice(Divided(XorShift(h)));
  }

  /** HashNodes.h, lines 78-79, and 89-90 for a tail, which is absorbed unmixed. */
  function Absorb(h: nat, k: nat, full: bool): (r: nat)
    ensures r < WORD
  {
    Times(Xor(h, if full then Mix(k) else k))
  }

  /** Absorbing loses neither the state nor the block. */
  lemma AbsorbInjective(h1: nat, k1: nat, h2: nat, k2: nat, full: bool)
    requires h1 < WORD && k1 < WORD && h2 < WORD && k2 < WORD
    requires Absorb(h1, k1, full) == Absorb(h2, k2, full)
    ensures h1 == h2 <==> k1 == k2
  {
    hide Times, Mix, Xor;
    MixBijective(k1);
    MixBijective(k2);
    var m1, m2 := if full then Mix(k1) else k1, if full then Mix(k2) else k2;
    XorWord(h1, m1);
    XorWord(h2, m2);
    TimesUndone(Xor(h1, m1));
    TimesUndone(Xor(h2, m2));
    XorCancels(h1, m1);
    XorCancels(h2, m2);
    XorSymmetric(h1, m1);
    XorSymmetric(h2, m2);
    XorCancels(m1, h1);
    XorCancels(m2, h2);
  }

  lemma XorWord(a: nat, b: nat)
    requires a < WORD && b < WORD
    ensures Xor(a, b) < WORD
  {
    WordIsPower();
    XorBound(a, b, 64);
  }

  // ------------------------------------------------------------------------------------------------
  // The hash of a key
  // ------------------------------------------------------------------------------------------------

  /** At most eight bytes as a little-endian word, missing ones zero. */
  function Word(b: seq<byte>): (w: nat)
    requires |b| <= 8
    ensures w < Pow2(8 * |b|)
    decreases |b|
  {
    if b == [] then 0
    else
      WordStep(8 * |b| - 8);
      b[0] as nat + 256 * Word(b[1..])
  }

  lemma WordStep(n: nat)
    ensures Pow2(n + 8) == 256 * Pow2(n)
  {
    assert Pow2(n + 4) == 2 * Pow2(n + 3) == 4 * Pow2(n + 2) == 8 * Pow2(n + 1);
    assert Pow2(n + 8) == 2 * Pow2(n + 7) == 4 * Pow2(n + 6) == 8 * Pow2(n + 5);
  }

  lemma {:induction false} PowGrows(m: nat, n: nat)
    requires m <= n
    ensures Pow2(m) <= Pow2(n)
    decreases n
  {
    if m < n {
      PowGrows(m, n - 1);
    }
  }

  lemma WordBound(b: seq<byte>)
    requires |b| <= 8
    ensures Word(b) < WORD
  {
    hide Word;
    WordIsPower();
    PowGrows(8 * |b|, 64);
  }

  lemma WordParts(b: seq<byte>)
    requires 0 < |b| <= 8
    ensures b[0] as nat == Word(b) % 256 && Word(b[1..]) == Word(b) / 256
  {
    LowByte(b[0] as nat, Word(b[1..]));
  }

  lemma LowByte(b: nat, w: nat)
    requires b < 256
    ensures (b + 256 * w) % 256 == b && (b + 256 * w) / 256 == w
  {
  }

  lemma {:induction false} WordInjective(a: seq<byte>, b: seq<byte>)
    requires |a| == |b| <= 8 && Word(a) == Word(b)
    ensures a == b
    decreases |a|
  {
    hide Word;
    if a != [] {
      WordParts(a);
      WordParts(b);
      WordInjective(a[1..], b[1..]);
      assert a == [a[0]] + a[1..] && b == [b[0]] + b[1..];
    }
  }

  /** The i-th block of eight bytes; the last may be short. */
  function Block(key: seq<byte>, i: nat): (b: seq<byte>)
    requires 8 * i <= |key|
    ensures |b| <= 8
  {
    if 8 * i + 8 <= |key| then key[8 * i..8 * i + 8] else key[8 * i..]
  }

  function BlockCount(key: seq<byte>): (n: nat)
    ensures 8 * n < |key| + 8 && |key| <= 8 * n
  {
    (|key| + 7) / 8
  }

  /** The value of h after the first n blocks. */
  function State(key: seq<byte>, n: nat): (h: nat)
    requires n <= BlockCount(key)
    ensures h < WORD
    decreases n
  {
    if n == 0 then
      XorWord(SEED, Times(|key|));
      Xor(SEED, Times(|key|))
    else
      Absorb(State(key, n - 1), Word(Block(key, n - 1)), 8 * n <= |key|)
  }

  /** The value of h at HashNodes.h, line 96, before it is cut to 32 bits. */
  function Hash64(key: seq<byte>): nat {
    Finalise(State(key, BlockCount(key)))
  }

  function Hash32(key: seq<byte>): (h: nat)
    ensures h < UINT32
  {
    Wrap32(Hash64(key))
  }

  /** Two keys of one length that agree in every block up to n but for block j. */
  lemma {:induction false} StatesDiffer(a: seq<byte>, b: seq<byte>, j: nat, n: nat)
    requires |a| == |b| && n <= BlockCount(a)
    requires forall i: nat | i < n && i != j :: Block(a, i) == Block(b, i)
    requires j < n ==> Block(a, j) != Block(b, j)
    ensures State(a, n) == State(b, n) <==> n <= j
    decreases n
  {
    hide Absorb, Word;
    if n > 0 {
      StatesDiffer(a, b, j, n - 1);
      var ka, kb := Block(a, n - 1), Block(b, n - 1);
      WordBound(ka);
      WordBound(kb);
      if n - 1 >= j {
        if State(a, n) == State(b, n) {
          AbsorbInjective(State(a, n - 1), Word(ka), State(b, n - 1), Word(kb), 8 * n <= |a|);
          if Word(ka) == Word(kb) {
            WordInjective(ka, kb);
          }
        }
      }
    }
  }

  /** Nothing is lost before the cut to 32 bits: keys of one length that differ within a single block,
      the zero-padded tail included, always have different 64-bit hashes. */
  lemma OneBlockChangesHash(a: seq<byte>, b: seq<byte>, j: nat)
    requires |a| == |b| && a != b && j < BlockCount(a)
    requires forall i: nat | i < BlockCount(a) && i != j :: Block(a, i) == Block(b, i)
    ensures Hash64(a) != Hash64(b)
  {
    hide Absorb, Word, Finalise, Unfinalise, State;
    if Block(a, j) == Block(b, j) {
      SameBlocks(a, b);
    }
    StatesDiffer(a, b, j, BlockCount(a));
    FinaliseBijective(State(a, BlockCount(a)));
    FinaliseBijective(State(b, BlockCount(b)));
  }

  lemma SameBlocks(a: seq<byte>, b: seq<byte>)
    requires |a| == |b| && forall i: nat | i < BlockCount(a) :: Block(a, i) == Block(b, i)
    ensures a == b
  {
    forall x | 0 <= x < |a| ensures a[x] == b[x] {
      var i := x / 8;
      assert Block(a, i)[x - 8 * i] == a[x] && Block(b, i)[x - 8 * i] == b[x];
    }
  }

  lemma FullBlock(key: seq<byte>, n: nat)
    requires n % 8 == 0 && n + 8 <= |key|
    ensures State(key, n / 8 + 1) == Absorb(State(key, n / 8), Word(key[n..n + 8]), true)
  {
    hide Absorb, Word;
    assert Block(key, n / 8) == key[n..n + 8];
  }

  lemma LastBlock(key: seq<byte>, n: nat)
    requires n % 8 == 0 && n <= |key| < n + 8
    ensures n == |key| ==> BlockCount(key) == n / 8
    ensures n < |key| ==>
      BlockCount(key) == n / 8 + 1 && State(key, n / 8 + 1) == Absorb(State(key, n / 8), Word(key[n..]), false)
  {
    hide Absorb, Word;
    if n < |key| {
      assert Block(key, n / 8) == key[n..];
    }
  }

  /** HashNodes.h, lines 64-99 */
  method Hash(key: seq<byte>) returns (h: nat)
    ensures h == Hash32(key)
  {
    hide Word, XorShift, Times, Xor, State, BlockCount;
    h := Xor(SEED, Times(|key|));
    StateBegins(key);
    var n := 0;
    while n + 8 <= |key|
      invariant n % 8 == 0 && n <= |key| && h == State(key, n / 8)
    {
      FullBlock(key, n);
      var k := Word(key[n..n + 8]);
      k := Times(k);
      k := XorShift(k);
      k := Times(k);
      h := Xor(h, k);
      h := Times(h);
      n := n + 8;
    }
    LastBlock(key, n);
    if n < |key| {
      var k := Word(key[n..]);
      h := Xor(h, k);
      h := Times(h);
    }
    h := XorShift(h);
    h := Times(h);
    h := XorShift(h);
    h := Wrap32(h);
  }

  lemma StateBegins(key: seq<byte>)
    ensures State(key, 0) == Xor(SEED, Times(|key|))
  {
  }
}
