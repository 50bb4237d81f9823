/** What the hash of HashNodes.h yields, said without its own steps: equations for each step in quotients, remainders
    and single bits, and the values of three keys. */
module HashValues {
  import opened Bytes
  import opened HashMix

  // ------------------------------------------------------------------------------------------------
  // Exclusive or in closed form
  // ------------------------------------------------------------------------------------------------

  /** Bit n is set if exactly one side has it. */
  lemma XorBit(a: nat, b: nat, n: nat)
    ensures Xor(a, b) / Pow2(n) % 2 == (a / Pow2(n) + b / Pow2(n)) % 2
  {
    hide Xor, Shift;
    XorShifts(a, b, n);
    ShiftDivides(a, n);
    ShiftDivides(b, n);
    ShiftDivides(Xor(a, b), n);
    XorBits(Shift(a, n), Shift(b, n));
  }

  lemma XorNext(a: nat, b: nat, c: nat, x: nat, y: nat, z: nat)
    requires Xor(a, b) == c && x < 2 && y < 2 && z == (x + y) % 2
    ensures Xor(2 * a + x, 2 * b + y) == 2 * c + z
  {
    hide Xor;
    XorUnfolds(2 * a + x, 2 * b + y);
    LowBit(x, a);
    LowBit(y, b);
  }

  /** Four bits more, the highest first. */
  lemma XorFour(a: nat, b: nat, c: nat, x: nat, y: nat, z: nat,
                x3: nat, x2: nat, x1: nat, x0: nat, y3: nat, y2: nat, y1: nat, y0: nat)
    requires Xor(a, b) == c && x3 < 2 && x2 < 2 && x1 < 2 && x0 < 2 && y3 < 2 && y2 < 2 && y1 < 2 && y0 < 2
    requires x == 8 * x3 + 4 * x2 + 2 * x1 + x0 && y == 8 * y3 + 4 * y2 + 2 * y1 + y0
    requires z == 8 * ((x3 + y3) % 2) + 4 * ((x2 + y2) % 2) + 2 * ((x1 + y1) % 2) + (x0 + y0) % 2
    ensures Xor(16 * a + x, 16 * b + y) == 16 * c + z
  {
    hide Xor;
    var a1, b1, c1 := 2 * a + x3, 2 * b + y3, 2 * c + (x3 + y3) % 2;
    XorNext(a, b, c, x3, y3, (x3 + y3) % 2);
    var a2, b2, c2 := 2 * a1 + x2, 2 * b1 + y2, 2 * c1 + (x2 + y2) % 2;
    XorNext(a1, b1, c1, x2, y2, (x2 + y2) % 2);
    var a3, b3, c3 := 2 * a2 + x1, 2 * b2 + y1, 2 * c2 + (x1 + y1) % 2;
    XorNext(a2, b2, c2, x1, y1, (x1 + y1) % 2);
    XorNext(a3, b3, c3, x0, y0, (x0 + y0) % 2);
  }

  lemma FourBits(x: nat)
    requires x < 16
    ensures x == 8 * (x / 8) + 4 * (x / 4 % 2) + 2 * (x / 2 % 2) + x % 2 && x / 8 < 2
  {
  }

  /** A digit more. */
  lemma XorDigit(a: nat, b: nat, c: nat, x: nat, y: nat, z: nat)
    requires Xor(a, b) == c && x < 16 && y < 16 && z < 16
    requires z / 8 == (x / 8 + y / 8) % 2 && z / 4 % 2 == (x / 4 % 2 + y / 4 % 2) % 2
    requires z / 2 % 2 == (x / 2 % 2 + y / 2 % 2) % 2 && z % 2 == (x % 2 + y % 2) % 2
    ensures Xor(16 * a + x, 16 * b + y) == 16 * c + z
  {
    hide Xor;
    FourBits(x);
    FourBits(y);
    FourBits(z);
    XorFour(a, b, c, x, y, z, x / 8, x / 4 % 2, x / 2 % 2, x % 2, y / 8, y / 4 % 2, y / 2 % 2, y % 2);
  }

  /** A byte more, given by its two digits. */
  lemma XorByte(a: nat, b: nat, c: nat, x1: nat, x0: nat, y1: nat, y0: nat, z1: nat, z0: nat)
    requires Xor(a, b) == c && x1 < 16 && x0 < 16 && y1 < 16 && y0 < 16 && z1 < 16 && z0 < 16
    requires z1 / 8 == (x1 / 8 + y1 / 8) % 2 && z1 / 4 % 2 == (x1 / 4 % 2 + y1 / 4 % 2) % 2
    requires z1 / 2 % 2 == (x1 / 2 % 2 + y1 / 2 % 2) % 2 && z1 % 2 == (x1 % 2 + y1 % 2) % 2
    requires z0 / 8 == (x0 / 8 + y0 / 8) % 2 && z0 / 4 % 2 == (x0 / 4 % 2 + y0 / 4 % 2) % 2
    requires z0 / 2 % 2 == (x0 / 2 % 2 + y0 / 2 % 2) % 2 && z0 % 2 == (x0 % 2 + y0 % 2) % 2
    ensures Xor(256 * a + 16 * x1 + x0, 256 * b + 16 * y1 + y0) == 256 * c + 16 * z1 + z0
  {
    hide Xor;
    XorDigit(a, b, c, x1, y1, z1);
    XorDigit(16 * a + x1, 16 * b + y1, 16 * c + z1, x0, y0, z0);
  }

  lemma {:induction false} XorMod(a: nat, b: nat, n: nat)
    ensures Xor(a, b) % Pow2(n) == Xor(a % Pow2(n), b % Pow2(n))
  {
    hide Xor;
    if n == 0 {
      XorZero(0);
    } else {
      XorMod(a / 2, b / 2, n - 1);
      XorModStep(a, b, Pow2(n - 1));
    }
  }

  lemma XorModStep(a: nat, b: nat, p: nat)
    requires p > 0 && Xor(a / 2, b / 2) % p == Xor(a / 2 % p, b / 2 % p)
    ensures Xor(a, b) % (2 * p) == Xor(a % (2 * p), b % (2 * p))
  {
    hide Xor;
    ModTwice(a, p);
    ModTwice(b, p);
    ModTwice(Xor(a, b), p);
    XorBits(a, b);
    XorUnfolds(a, b);
    SameLowBit(a, b);
    XorNext(a / 2 % p, b / 2 % p, Xor(a / 2, b / 2) % p, a % 2, b % 2, (a % 2 + b % 2) % 2);
  }

  lemma SameLowBit(a: nat, b: nat)
    ensures (a % 2 + b % 2) % 2 == (a + b) % 2
  {
  }

  /** The low bit of a remainder, and the rest of it. */
  lemma ModTwice(a: nat, p: nat)
    requires p > 0
    ensures a % (2 * p) == 2 * (a / 2 % p) + a % 2
    ensures a % (2 * p) / 2 == a / 2 % p && a % (2 * p) % 2 == a % 2
  {
    HalfFirst(a, p);
    var q := a / (2 * p);
    assert a == (2 * p) * q + a % (2 * p) && a / 2 == p * q + a / 2 % p;
    assert (2 * p) * q == 2 * (p * q);
  }

  // ------------------------------------------------------------------------------------------------
  // The steps
  // ------------------------------------------------------------------------------------------------

  /** r is h ^ h >> 47: the upper 47 bits are those of h, and the lower 17 those of h against its highest 17. */
  ghost predicate Folded(h: nat, r: nat) {
    r / 0x2_0000 == h / 0x2_0000 && r % 0x2_0000 == Xor(h % 0x2_0000, h / 0x8000_0000_0000)
  }

  lemma XorShiftFolds(h: nat)
    requires h < WORD
    ensures Folded(h, XorShift(h))
  {
    hide Xor, Shift, Pow2;
    WordIsPower();
    var s := Shift(h, SHIFT);
    ShiftDivides(h, SHIFT);
    ShiftBound(h, SHIFT, 17);
    XorShifts(h, s, 17);
    ShiftDivides(Xor(h, s), 17);
    ShiftDivides(h, 17);
    ShiftBound(s, 17, 0);
    XorZero(Shift(h, 17));
    XorMod(h, s, 17);
    SmallRemainder(s, 0x2_0000);
  }

  /** That determines r. */
  lemma FoldedUnique(h: nat, r: nat, t: nat)
    requires Folded(h, r) && Folded(h, t)
    ensures r == t
  {
    hide Xor;
  }

  /** HashNodes.h, lines 94-96: fold, multiply modulo 2^64, fold. */
  lemma FinaliseIs(h: nat, x: nat)
    requires h < WORD && Folded(h, x)
    ensures Folded(x * 0xc6a4a7935bd1e995 % 0x1_0000_0000_0000_0000, Finalise(h))
  {
    hide Xor, Folded, XorShift;
    XorShiftFolds(h);
    FoldedUnique(h, x, XorShift(h));
    XorShiftFolds(Times(x));
  }

  /** HashNodes.h, lines 75-79: a full block is multiplied, folded and multiplied; its state takes it in and is
      multiplied. Lines 89-90: a tail is taken in as it is. */
  lemma AbsorbIs(h: nat, k: nat, x: nat)
    requires k < WORD && Folded(k * 0xc6a4a7935bd1e995 % 0x1_0000_0000_0000_0000, x)
    ensures Absorb(h, k, true) == Xor(h, x * 0xc6a4a7935bd1e995 % 0x1_0000_0000_0000_0000)
      * 0xc6a4a7935bd1e995 % 0x1_0000_0000_0000_0000
    ensures Absorb(h, k, false) == Xor(h, k) * 0xc6a4a7935bd1e995 % 0x1_0000_0000_0000_0000
  {
    hide Xor, Folded, XorShift;
    XorShiftFolds(Times(k));
    FoldedUnique(Times(k), x, XorShift(Times(k)));
  }

  /** HashNodes.h, line 69 */
  lemma StartIs(key: seq<byte>)
    ensures State(key, 0) == Xor(0x1234ABCD, |key| * 0xc6a4a7935bd1e995 % 0x1_0000_0000_0000_0000)
  {
    hide Xor;
  }

  /** The first byte of a block is its lowest. */
  lemma {:induction false} WordBytes(b: seq<byte>, i: nat)
    requires i < |b| <= 8
    ensures Word(b) / Pow2(8 * i) % 256 == b[i] as nat
    decreases i
  {
    hide Word;
    WordParts(b);
    if i == 0 {
      assert Pow2(0) == 1;
    } else {
      WordBytes(b[1..], i - 1);
      WordStep(8 * i - 8);
      DivideTwice(Word(b), 256, Pow2(8 * i - 8));
    }
  }

  lemma DivideTwice(a: nat, d: nat, p: nat)
    requires d > 0 && p > 0
    ensures d * p > 0 && a / (d * p) == a / d / p
  {
    var m := a / d;
    DividedTwice(a, d, p, m, a % d, m / p, m % p);
  }

  lemma DividedTwice(a: nat, d: nat, p: nat, m: nat, s: nat, q: nat, r: nat)
    requires a == d * m + s && m == p * q + r && s < d && r < p
    ensures d * p > 0 && a / (d * p) == q
  {
    Distribute(d, p, q, r);
    Below(d, p, r, s);
    QuotientIs(a, d * p, q, d * r + s);
  }

  lemma Distribute(d: nat, p: nat, q: nat, r: nat)
    ensures d * (p * q + r) == d * p * q + d * r
  {
  }

  lemma Below(d: nat, p: nat, r: nat, s: nat)
    requires r < p && s < d
    ensures d * r + s < d * p
  {
    assert d * p == d * r + d * (p - r) && d * (p - r) == d * (p - r - 1) + d;
    assert d * (p - r - 1) >= 0;
  }

  // ------------------------------------------------------------------------------------------------
  // Three keys
  // ------------------------------------------------------------------------------------------------

  lemma FinaliseSeedFirst()
    ensures XorShift(0x1234_abcd) == 0x1234_abcd
  {
    hide Xor, XorShift;
    XorZero(0xabcd);
    XorShiftFolds(0x1234_abcd);
    FoldedUnique(0x1234_abcd, XorShift(0x1234_abcd), 0x1234_abcd);
  }

  lemma FinaliseSeedLast()
    ensures XorShift(0x742d_0865_aa62_9351) == 0x742d_0865_aa62_7b0b
  {
    hide Xor, XorShift;
    XorZero(0x0);
    XorByte(0x0, 0x0, 0x0, 9, 3, 14, 8, 7, 11);
    XorByte(0x93, 0xe8, 0x7b, 5, 1, 5, 10, 0, 11);
    XorShiftFolds(0x742d_0865_aa62_9351);
    FoldedUnique(0x742d_0865_aa62_9351, XorShift(0x742d_0865_aa62_9351), 0x742d_0865_aa62_7b0b);
  }

  lemma FinaliseSeed()
    ensures Finalise(0x1234_abcd) == 0x742d_0865_aa62_7b0b
  {
    hide XorShift;
    FinaliseSeedFirst();
    FinaliseSeedLast();
    assert Times(0x1234_abcd) == 0x742d_0865_aa62_9351;
  }

  /** The hash of no bytes. */
  lemma EmptyKey()
    ensures Hash32([]) == 0xaa62_7b0b
  {
    hide Finalise, Xor, Word, State, Absorb;
    StateBegins([]);
    XorZero(SEED);
    FinaliseSeed();
  }

  lemma FinaliseOneByteFirst()
    ensures XorShift(0x243a_9f6b_ff3e_6c2d) == 0x243a_9f6b_ff3e_2458
  {
    hide Xor, XorShift;
    XorZero(0x0);
    XorByte(0x0, 0x0, 0x0, 6, 12, 4, 8, 2, 4);
    XorByte(0x6c, 0x48, 0x24, 2, 13, 7, 5, 5, 8);
    XorShiftFolds(0x243a_9f6b_ff3e_6c2d);
    FoldedUnique(0x243a_9f6b_ff3e_6c2d, XorShift(0x243a_9f6b_ff3e_6c2d), 0x243a_9f6b_ff3e_2458);
  }

  lemma FinaliseOneByteLast()
    ensures XorShift(0x6ee2_d45a_1217_3f38) == 0x6ee2_d45a_1217_e2fd
  {
    hide Xor, XorShift;
    XorZero(0x1);
    XorByte(0x1, 0x0, 0x1, 3, 15, 13, 13, 14, 2);
    XorByte(0x13f, 0xdd, 0x1e2, 3, 8, 12, 5, 15, 13);
    XorShiftFolds(0x6ee2_d45a_1217_3f38);
    FoldedUnique(0x6ee2_d45a_1217_3f38, XorShift(0x6ee2_d45a_1217_3f38), 0x6ee2_d45a_1217_e2fd);
  }

  lemma FinaliseOneByte()
    ensures Finalise(0x243a_9f6b_ff3e_6c2d) == 0x6ee2_d45a_1217_e2fd
  {
    hide XorShift;
    FinaliseOneByteFirst();
    FinaliseOneByteLast();
    assert Times(0x243a_9f6b_ff3e_2458) == 0x6ee2_d45a_1217_3f38;
  }

  lemma StartOne()
    ensures Xor(SEED, Times(1)) == 0xc6a4_a793_49e5_4258
  {
    hide Xor;
    XorZero(0xc6a4_a793);
    XorByte(0x0, 0xc6a4_a793, 0xc6a4_a793, 1, 2, 5, 11, 4, 9);
    XorByte(0x12, 0xc6_a4a7_935b, 0xc6_a4a7_9349, 3, 4, 13, 1, 14, 5);
    XorByte(0x1234, 0xc6a4_a793_5bd1, 0xc6a4_a793_49e5, 10, 11, 14, 9, 4, 2);
    XorByte(0x12_34ab, 0xc6_a4a7_935b_d1e9, 0xc6_a4a7_9349_e542, 12, 13, 9, 5, 5, 8);
  }

  /** The hash of a key that is only a tail: "a". */
  lemma OneByteKey()
    ensures Hash32([0x61]) == 0x1217_e2fd
  {
    hide Finalise, Xor, Word, State, Absorb;
    StateBegins([0x61]);
    StartOne();
    LastBlock([0x61], 0);
    assert [0x61][0..] == [0x61];
    WordOne(0x61);
    AbsorbOne();
    FinaliseOneByte();
  }

  lemma AbsorbOne()
    ensures Absorb(0xc6a4_a793_49e5_4258, 0x61, false) == 0x243a_9f6b_ff3e_6c2d
  {
    hide Xor;
    XorZero(0xc6_a4a7_9349_e542);
    XorByte(0xc6_a4a7_9349_e542, 0x0, 0xc6_a4a7_9349_e542, 5, 8, 6, 1, 3, 9);
  }

  lemma WordOne(b: byte)
    ensures Word([b]) == b as nat
  {
    assert [b][1..] == [];
  }

  lemma FinaliseNineBytesFirst()
    ensures XorShift(0xfa5e_74c0_611c_849b) == 0xfa5e_74c0_611d_7027
  {
    hide Xor, XorShift;
    XorZero(0x1);
    XorByte(0x0, 0x1, 0x1, 8, 4, 15, 4, 7, 0);
    XorByte(0x84, 0x1f4, 0x170, 9, 11, 11, 12, 2, 7);
    XorShiftFolds(0xfa5e_74c0_611c_849b);
    FoldedUnique(0xfa5e_74c0_611c_849b, XorShift(0xfa5e_74c0_611c_849b), 0xfa5e_74c0_611d_7027);
  }

  lemma FinaliseNineBytesLast()
    ensures XorShift(0x5fde_a3a7_be0c_c5b3) == 0x5fde_a3a7_be0c_7a0e
  {
    hide Xor, XorShift;
    XorZero(0x0);
    XorByte(0x0, 0x0, 0x0, 12, 5, 11, 15, 7, 10);
    XorByte(0xc5, 0xbf, 0x7a, 11, 3, 11, 13, 0, 14);
    XorShiftFolds(0x5fde_a3a7_be0c_c5b3);
    FoldedUnique(0x5fde_a3a7_be0c_c5b3, XorShift(0x5fde_a3a7_be0c_c5b3), 0x5fde_a3a7_be0c_7a0e);
  }

  lemma FinaliseNineBytes()
    ensures Finalise(0xfa5e_74c0_611c_849b) == 0x5fde_a3a7_be0c_7a0e
  {
    hide XorShift;
    FinaliseNineBytesFirst();
    FinaliseNineBytesLast();
    assert Times(0xfa5e_74c0_611d_7027) == 0x5fde_a3a7_be0c_c5b3;
  }

  lemma StartNine()
    ensures Xor(SEED, Times(9)) == 0xfbc9_e42e_2855_9df0
  {
    hide Xor;
    XorZero(0xfbc9_e42e);
    XorByte(0x0, 0xfbc9_e42e, 0xfbc9_e42e, 1, 2, 3, 10, 2, 8);
    XorByte(0x12, 0xfb_c9e4_2e3a, 0xfb_c9e4_2e28, 3, 4, 6, 1, 5, 5);
    XorByte(0x1234, 0xfbc9_e42e_3a61, 0xfbc9_e42e_2855, 10, 11, 3, 6, 9, 13);
    XorByte(0x12_34ab, 0xfb_c9e4_2e3a_6136, 0xfb_c9e4_2e28_559d, 12, 13, 3, 13, 15, 0);
  }

  lemma FoldBlock()
    ensures XorShift(0xf3de_f279_5b51_6a47) == 0xf3de_f279_5b50_8dfa
  {
    hide Xor, XorShift;
    XorZero(0x0);
    XorByte(0x0, 0x0, 0x0, 0, 1, 0, 1, 0, 0);
    XorByte(0x1, 0x1, 0x0, 6, 10, 14, 7, 8, 13);
    XorByte(0x16a, 0x1e7, 0x8d, 4, 7, 11, 13, 15, 10);
    XorShiftFolds(0xf3de_f279_5b51_6a47);
    FoldedUnique(0xf3de_f279_5b51_6a47, XorShift(0xf3de_f279_5b51_6a47), 0xf3de_f279_5b50_8dfa);
  }

  lemma MixBlock()
    ensures Mix(0x3433_3231_3a79_656b) == 0x4004_6088_3e35_2c82
  {
    hide XorShift;
    FoldBlock();
    assert Times(0x3433_3231_3a79_656b) == 0xf3de_f279_5b51_6a47;
    assert Times(0xf3de_f279_5b50_8dfa) == 0x4004_6088_3e35_2c82;
  }

  lemma AbsorbUpper()
    ensures Xor(0xfbc9_e42e, 0x4004_6088) == 0xbbcd_84a6
  {
    hide Xor;
    XorZero(0x0);
    XorByte(0x0, 0x0, 0x0, 15, 11, 4, 0, 11, 11);
    XorByte(0xfb, 0x40, 0xbb, 12, 9, 0, 4, 12, 13);
    XorByte(0xfbc9, 0x4004, 0xbbcd, 14, 4, 6, 0, 8, 4);
    XorByte(0xfb_c9e4, 0x40_0460, 0xbb_cd84, 2, 14, 8, 8, 10, 6);
  }

  lemma AbsorbBlock()
    ensures Absorb(0xfbc9_e42e_2855_9df0, 0x3433_3231_3a79_656b, true) == 0x7835_4583_6bda_095a
  {
    hide Xor, Mix;
    MixBlock();
    AbsorbUpper();
    XorByte(0xfbc9_e42e, 0x4004_6088, 0xbbcd_84a6, 2, 8, 3, 14, 1, 6);
    XorByte(0xfb_c9e4_2e28, 0x40_0460_883e, 0xbb_cd84_a616, 5, 5, 3, 5, 6, 0);
    XorByte(0xfbc9_e42e_2855, 0x4004_6088_3e35, 0xbbcd_84a6_1660, 9, 13, 2, 12, 11, 1);
    XorByte(0xfb_c9e4_2e28_559d, 0x40_0460_883e_352c, 0xbb_cd84_a616_60b1, 15, 0, 8, 2, 7, 2);
  }

  lemma AbsorbTail()
    ensures Absorb(0x7835_4583_6bda_095a, 0x35, false) == 0xfa5e_74c0_611c_849b
  {
    hide Xor;
    XorZero(0x78_3545_836b_da09);
    XorByte(0x78_3545_836b_da09, 0x0, 0x78_3545_836b_da09, 5, 10, 3, 5, 6, 15);
  }

  lemma WordNone()
    ensures Word([]) == 0
  {
  }

  lemma WordNext(b: seq<byte>, i: nat)
    requires i < |b| <= 8
    ensures Word(b[i..]) == b[i] as nat + 256 * Word(b[i + 1..])
  {
    assert b[i..][1..] == b[i + 1..];
  }

  lemma WordEight(b: seq<byte>)
    requires |b| == 8
    ensures Word(b) == b[0] as nat + 0x100 * b[1] as nat + 0x1_0000 * b[2] as nat + 0x100_0000 * b[3] as nat
      + 0x1_0000_0000 * b[4] as nat + 0x100_0000_0000 * b[5] as nat + 0x1_0000_0000_0000 * b[6] as nat
      + 0x100_0000_0000_0000 * b[7] as nat
  {
    hide Word;
    WordNext(b, 0);
    WordNext(b, 1);
    WordNext(b, 2);
    WordNext(b, 3);
    WordNext(b, 4);
    WordNext(b, 5);
    WordNext(b, 6);
    WordNext(b, 7);
    WordNone();
    assert b[0..] == b;
    assert b[8..] == [];
  }

  /** The hash of a full block and a tail: "key:12345". */
  lemma NineByteKey()
    ensures Hash32([0x6b, 0x65, 0x79, 0x3a, 0x31, 0x32, 0x33, 0x34, 0x35]) == 0xbe0c_7a0e
  {
    hide Finalise, Xor, Word, Absorb, State;
    var key: seq<byte> := [0x6b, 0x65, 0x79, 0x3a, 0x31, 0x32, 0x33, 0x34, 0x35];
    StateBegins(key);
    StartNine();
    FullBlock(key, 0);
    LastBlock(key, 8);
    WordEight(key[0..8]);
    assert key[8..] == [0x35];
    WordOne(0x35);
    AbsorbBlock();
    AbsorbTail();
    FinaliseNineBytes();
  }
}
