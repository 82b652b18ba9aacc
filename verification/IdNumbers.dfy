/** The id generator in plain 32-bit numbers: what shifting, xor-ing and seeding words of bits comes to,
    the whole step as a formula, and the first ids for fixed clocks. */
module IdNumbers {
  import opened Basics
  import opened IdGenerator
  import opened Fragmentation

  // ------------------------------------------------------------- reference

  /** Exclusive or of two 32-bit numbers: the binary digits in which they differ. */
  function XorOf(a: nat, b: nat): nat {
    Value(seq(32, i requires 0 <= i < 32 => Digit(a, i) != Digit(b, i)))
  }

  /** `x ^= x << 16; x ^= x >> 5; x ^= x << 1` on a 32-bit unsigned integer. */
  function Scrambled(x: nat): nat {
    var a := XorOf(x, x * 0x1_0000 % 0x1_0000_0000);
    var b := XorOf(a, a / 0x20);
    XorOf(b, b * 2 % 0x1_0000_0000)
  }

  // ------------------------------------------------------- words as numbers

  lemma ValueOfXor(a: Word, b: Word)
    ensures Value(Xor(a, b)) == XorOf(Value(a), Value(b))
  {
    var c := seq(32, i requires 0 <= i < 32 => Digit(Value(a), i) != Digit(Value(b), i));
    forall i: nat | i < 32
      ensures c[i] == Xor(a, b)[i]
    {
      DigitOfValue(a, i);
      DigitOfValue(b, i);
    }
    assert c == Xor(a, b);
  }

  lemma {:induction false} ValueOfZeros(w: seq<bool>)
    requires forall i | 0 <= i < |w| :: !w[i]
    ensures Value(w) == 0
  {
    if w != [] {
      ValueOfZeros(w[1..]);
    }
  }

  lemma {:induction false} Pow2Sum(m: nat, n: nat)
    ensures Pow2(m + n) == Pow2(m) * Pow2(n)
  {
    if m > 0 {
      Pow2Sum(m - 1, n);
      TimesDouble(Pow2(m - 1), Pow2(n));
    }
  }

  lemma PullOut(l: nat, h: nat, p: nat, q: nat)
    ensures (q * h + l) * p == (p * q) * h + p * l
  {
    assert (q * h + l) * p == (q * h) * p + l * p;
    assert (q * h) * p == (p * q) * h;
  }

  lemma TimesLess(p: nat, l: nat, q: nat)
    requires p > 0 && l < q
    ensures p * l < p * q
  {
    assert p * q == p * l + p * (q - l);
  }

  lemma WrapAround(v: nat, l: nat, h: nat, p: nat, q: nat)
    requires p > 0 && q > 0 && v == q * h + l && l < q
    ensures p * q > 0 && v * p % (p * q) == p * l
  {
    PullOut(l, h, p, q);
    TimesLess(p, l, q);
    RemainderIs(v * p, p * q, h, p * l);
  }

  lemma ShiftedLow(x: Word, k: nat)
    requires k <= 32
    ensures Value(ShiftLeft(x, k)) == Pow2(k) * Value(x[..32 - k])
  {
    var zeros := ShiftLeft(x, k)[..k];
    assert ShiftLeft(x, k) == zeros + x[..32 - k];
    ValueOfZeros(zeros);
    ValueConcat(zeros, x[..32 - k]);
  }

  /** `x << k` multiplies by 2^k, modulo 2^32. */
  lemma ShiftLeftMultiplies(x: Word, k: nat)
    requires k <= 32
    ensures Value(ShiftLeft(x, k)) == Value(x) * Pow2(k) % Pow2(32)
  {
    ShiftedLow(x, k);
    ValueSplit(x, 32 - k);
    Pow2Sum(k, 32 - k);
    WrapAround(Value(x), Value(x[..32 - k]), Value(x[32 - k..]), Pow2(k), Pow2(32 - k));
  }

  lemma ValueOfPadded(w: seq<bool>, zeros: seq<bool>)
    requires forall i | 0 <= i < |zeros| :: !zeros[i]
    ensures Value(w + zeros) == Value(w)
  {
    ValueConcat(w, zeros);
    ValueOfZeros(zeros);
  }

  /** `x >> k` divides by 2^k. */
  lemma ShiftRightDivides(x: Word, k: nat)
    requires k <= 32
    ensures Value(ShiftRight(x, k)) == Value(x) / Pow2(k)
  {
    var zeros := ShiftRight(x, k)[32 - k..];
    assert ShiftRight(x, k) == x[k..] + zeros;
    ValueOfPadded(x[k..], zeros);
    ShiftedValue(x, k);
  }

  lemma Powers()
    ensures Pow2(1) == 2 && Pow2(5) == 0x20 && Pow2(16) == 0x1_0000 && Pow2(32) == 0x1_0000_0000
  {
    assert Pow2(8) == 0x100;
    assert Pow2(16) == 0x1_0000;
    assert Pow2(24) == 0x100_0000;
  }

  // --------------------------------------------------------------- the step

  lemma ScrambleOnNumbers(x: Word)
    ensures Value(Scramble(x)) == Scrambled(Value(x))
  {
    Powers();
    var a := Xor(x, ShiftLeft(x, 16));
    var b := Xor(a, ShiftRight(a, 5));
    ShiftLeftMultiplies(x, 16);
    ValueOfXor(x, ShiftLeft(x, 16));
    ShiftRightDivides(a, 5);
    ValueOfXor(a, ShiftRight(a, 5));
    ShiftLeftMultiplies(b, 1);
    ValueOfXor(b, ShiftLeft(b, 1));
  }

  /** The step of the generator: the words move up, and the new one, which is the id, is the formula of
      the source on the numbers of the old ones. */
  lemma StepOnNumbers(s: State<Word>)
    ensures var n := Next(Mix, s);
      && n.x == s.y && n.y == s.z
      && ToUint32(n.z) == XorOf(XorOf(Scrambled(ToUint32(s.x)), ToUint32(s.y)), ToUint32(s.z))
  {
    ScrambleOnNumbers(s.x);
    ValueOfXor(Scramble(s.x), s.y);
    ValueOfXor(Xor(Scramble(s.x), s.y), s.z);
  }

  lemma HalfThenDivide(v: nat, p: nat)
    requires p > 0
    ensures v / 2 / p == v / (2 * p)
  {
    var h := v / 2;
    var q, r := h / p, h % p;
    assert h == p * q + r;
    TimesDouble(p, q);
    RemainderIs(v, 2 * p, q, 2 * r + v % 2);
  }

  lemma HalfThenPower(v: nat, i: nat)
    ensures v / 2 / Pow2(i) == v / Pow2(i + 1)
  {
    HalfThenDivide(v, Pow2(i));
  }

  lemma {:induction false} ValueOfBits(v: nat, n: nat)
    requires v < Pow2(n)
    ensures Value(Bits(v, n)) == v
    decreases n
  {
    if n > 0 {
      ValueOfBits(v / 2, n - 1);
      forall i: nat | i < n - 1
        ensures Bits(v, n)[1..][i] == Bits(v / 2, n - 1)[i]
      {
        HalfThenPower(v, i);
      }
      assert Bits(v, n)[1..] == Bits(v / 2, n - 1);
      assert Bits(v, n)[0] == Digit(v, 0);
    }
  }

  /** The word of a 32-bit number. */
  function WordOf(v: uint32): Word {
    Bits(v, 32)
  }

  lemma NumberOfWord(v: uint32)
    ensures ToUint32(WordOf(v)) == v
  {
    Powers();
    ValueOfBits(v, 32);
  }

  /** The generator starts with the clock and the two constants of the source. */
  lemma SeedNumbers(clock: uint32)
    ensures var s := Seed(WordOf(clock));
      ToUint32(s.x) == clock && ToUint32(s.y) == 362436069 && ToUint32(s.z) == 521288629
  {
    NumberOfWord(clock);
    NumberOfWord(362436069);
    NumberOfWord(521288629);
  }

  /** The first id for any clock. */
  lemma FirstId(clock: uint32)
    ensures ToUint32(Id(Mix, Seed(WordOf(clock)), 1)) == XorOf(XorOf(Scrambled(clock), 362436069), 521288629)
  {
    SeedNumbers(clock);
    StepOnNumbers(Seed(WordOf(clock)));
    assert After(Mix, Seed(WordOf(clock)), 0) == Seed(WordOf(clock));
  }

  /** The second id, from the first one. */
  lemma SecondId(clock: uint32)
    ensures ToUint32(Id(Mix, Seed(WordOf(clock)), 2))
      == XorOf(XorOf(Scrambled(362436069), 521288629), ToUint32(Id(Mix, Seed(WordOf(clock)), 1)))
  {
    SeedNumbers(clock);
    var s := After(Mix, Seed(WordOf(clock)), 1);
    assert After(Mix, Seed(WordOf(clock)), 0) == Seed(WordOf(clock));
    assert s == Next(Mix, Seed(WordOf(clock)));
    StepOnNumbers(s);
  }

  // --------------------------------------------------------------- fixed ids

  /** The digit with this weight is set in `c` if `a` and `b` differ in it. */
  predicate Differ(a: nat, b: nat, c: nat, weight: nat)
    requires weight > 0
  {
    (c / weight % 2 == 1) == ((a / weight % 2 == 1) != (b / weight % 2 == 1))
  }

  /** The same for this weight and the next three. */
  predicate DifferInFour(a: nat, b: nat, c: nat, weight: nat)
    requires weight > 0
  {
    && Differ(a, b, c, weight)
    && Differ(a, b, c, weight * 2)
    && Differ(a, b, c, weight * 4)
    && Differ(a, b, c, weight * 8)
  }

  predicate DigitwiseXor(a: nat, b: nat, c: nat) {
    && Differ(a, b, c, 0x1) && Differ(a, b, c, 0x2) && Differ(a, b, c, 0x4) && Differ(a, b, c, 0x8)
    && Differ(a, b, c, 0x10) && Differ(a, b, c, 0x20) && Differ(a, b, c, 0x40) && Differ(a, b, c, 0x80)
    && Differ(a, b, c, 0x100) && Differ(a, b, c, 0x200) && Differ(a, b, c, 0x400) && Differ(a, b, c, 0x800)
    && Differ(a, b, c, 0x1000) && Differ(a, b, c, 0x2000) && Differ(a, b, c, 0x4000) && Differ(a, b, c, 0x8000)
    && Differ(a, b, c, 0x10000) && Differ(a, b, c, 0x20000) && Differ(a, b, c, 0x40000) && Differ(a, b, c, 0x80000)
    && Differ(a, b, c, 0x100000) && Differ(a, b, c, 0x200000) && Differ(a, b, c, 0x400000) && Differ(a, b, c, 0x800000)
    && Differ(a, b, c, 0x1000000) && Differ(a, b, c, 0x2000000)
    && Differ(a, b, c, 0x4000000) && Differ(a, b, c, 0x8000000)
    && Differ(a, b, c, 0x10000000) && Differ(a, b, c, 0x20000000)
    && Differ(a, b, c, 0x40000000) && Differ(a, b, c, 0x80000000)
  }

  lemma HexPowers(k: nat)
    requires k < 8
    ensures Pow2(4 * k) == if k == 0 then 0x1 else if k == 1 then 0x10 else if k == 2 then 0x100
      else if k == 3 then 0x1000 else if k == 4 then 0x1_0000 else if k == 5 then 0x10_0000
      else if k == 6 then 0x100_0000 else 0x1000_0000
  {
    assert Pow2(4) == 0x10 && Pow2(8) == 0x100 && Pow2(12) == 0x1000 && Pow2(16) == 0x1_0000;
    assert Pow2(20) == 0x10_0000 && Pow2(24) == 0x100_0000 && Pow2(28) == 0x1000_0000;
  }

  lemma InFour(a: nat, b: nat, c: nat, weight: nat, j: nat)
    requires weight > 0 && DifferInFour(a, b, c, weight) && j < 4
    ensures weight * Pow2(j) > 0 && Differ(a, b, c, weight * Pow2(j))
  {
    assert Pow2(j) == if j == 0 then 1 else if j == 1 then 2 else if j == 2 then 4 else 8;
  }

  lemma DigitwiseDigit(a: nat, b: nat, c: nat, i: nat)
    requires DigitwiseXor(a, b, c) && i < 32
    ensures Differ(a, b, c, Pow2(i))
  {
    var k, j := i / 4, i % 4;
    HexPowers(k);
    assert DifferInFour(a, b, c, Pow2(4 * k));
    InFour(a, b, c, Pow2(4 * k), j);
    Pow2Sum(4 * k, j);
  }

  lemma XorByDigits(a: nat, b: nat, c: nat)
    requires DigitwiseXor(a, b, c) && c < 0x1_0000_0000
    ensures XorOf(a, b) == c
  {
    var w := seq(32, i requires 0 <= i < 32 => Digit(a, i) != Digit(b, i));
    forall i: nat | i < 32
      ensures w[i] == Bits(c, 32)[i]
    {
      DigitwiseDigit(a, b, c, i);
    }
    assert w == Bits(c, 32);
    Powers();
    ValueOfBits(c, 32);
  }

  lemma FixedXor1()
    ensures XorOf(1, 65536) == 65537
  {
    XorByDigits(1, 65536, 65537);
  }

  lemma FixedXor2()
    ensures XorOf(65537, 2048) == 67585
  {
    XorByDigits(65537, 2048, 67585);
  }

  lemma FixedXor3()
    ensures XorOf(67585, 135170) == 202755
  {
    XorByDigits(67585, 135170, 202755);
  }

  lemma FixedXor4()
    ensures XorOf(202755, 362436069) == 362368486
  {
    XorByDigits(202755, 362436069, 362368486);
  }

  lemma FixedXor5()
    ensures XorOf(362368486, 521288629) == 176911955
  {
    XorByDigits(362368486, 521288629, 176911955);
  }

  /** The first id for the clock value 1. */
  lemma FixedId()
    ensures ToUint32(Id(Mix, Seed(WordOf(1)), 1)) == 176911955
  {
    FixedXor1();
    FixedXor2();
    FixedXor3();
    FixedXor4();
    FixedXor5();
    assert Scrambled(1) == 202755;
    FirstId(1);
  }
}
