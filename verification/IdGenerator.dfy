/** The generator of message ids: `xorshf96` on three 32-bit words. A word is its 32 bits, least
    significant first, so that shifting and xor-ing are statements about bits. */
module IdGenerator {
  import opened Basics
  import opened Fragmentation

  type Word = w: seq<bool> | |w| == 32 witness seq(32, _ => false)

  const ZERO: Word := seq(32, _ => false)

  function Xor(a: Word, b: Word): (r: Word)
    ensures forall i | 0 <= i < 32 :: r[i] == (a[i] != b[i])
  {
    seq(32, i requires 0 <= i < 32 => a[i] != b[i])
  }

  /** `a << k` */
  function ShiftLeft(a: Word, k: nat): (r: Word)
    ensures forall i | 0 <= i < 32 :: r[i] == (i >= k && a[i - k])
  {
    seq(32, i requires 0 <= i < 32 => i >= k && a[i - k])
  }

  /** `a >> k` */
  function ShiftRight(a: Word, k: nat): (r: Word)
    ensures forall i | 0 <= i < 32 :: r[i] == (i + k < 32 && a[i + k])
  {
    seq(32, i requires 0 <= i < 32 => i + k < 32 && a[i + k])
  }

  // ------------------------------------------------------- undoing one step

  /** Bit `i` of the word that `x ^ (x << k)` turned into `a`: recovered from the low end. */
  function LeftBit(a: Word, k: nat, i: int): bool
    requires 0 < k && i < 32
    decreases if i < 0 then 0 else i + 1
  {
    i >= 0 && a[i] != LeftBit(a, k, i - k)
  }

  /** Bit `i` of the word that `x ^ (x >> k)` turned into `a`: recovered from the high end. */
  function RightBit(a: Word, k: nat, i: nat): bool
    requires 0 < k
    decreases if i < 32 then 32 - i else 0
  {
    i < 32 && a[i] != RightBit(a, k, i + k)
  }

  function UndoLeft(a: Word, k: nat): (r: Word)
    requires 0 < k
    ensures forall i | 0 <= i < 32 :: r[i] == LeftBit(a, k, i)
  {
    seq(32, i requires 0 <= i < 32 => LeftBit(a, k, i))
  }

  function UndoRight(a: Word, k: nat): (r: Word)
    requires 0 < k
    ensures forall i | 0 <= i < 32 :: r[i] == RightBit(a, k, i)
  {
    seq(32, i requires 0 <= i < 32 => RightBit(a, k, i))
  }

  lemma {:induction false} LeftBitUndoes(x: Word, k: nat, i: nat)
    requires 0 < k && i < 32
    ensures LeftBit(Xor(x, ShiftLeft(x, k)), k, i) == x[i]
  {
    if i >= k {
      LeftBitUndoes(x, k, i - k);
    }
  }

  lemma {:induction false} RightBitUndoes(x: Word, k: nat, i: nat)
    requires 0 < k && i < 32
    ensures RightBit(Xor(x, ShiftRight(x, k)), k, i) == x[i]
    decreases 32 - i
  {
    if i + k < 32 {
      RightBitUndoes(x, k, i + k);
    }
  }

  /** `x ^= x << k` is a bijection for every positive shift. */
  lemma LeftStepInverse(x: Word, k: nat)
    requires 0 < k
    ensures UndoLeft(Xor(x, ShiftLeft(x, k)), k) == x
    ensures Xor(UndoLeft(x, k), ShiftLeft(UndoLeft(x, k), k)) == x
  {
    forall i | 0 <= i < 32
      ensures UndoLeft(Xor(x, ShiftLeft(x, k)), k)[i] == x[i]
    {
      LeftBitUndoes(x, k, i);
    }
    var u := UndoLeft(x, k);
    forall i | 0 <= i < 32
      ensures Xor(u, ShiftLeft(u, k))[i] == x[i]
    {
      assert LeftBit(x, k, i) == (x[i] != LeftBit(x, k, i - k));
      assert i >= k ==> u[i - k] == LeftBit(x, k, i - k);
    }
  }

  /** `x ^= x >> k` is a bijection for every positive shift. */
  lemma RightStepInverse(x: Word, k: nat)
    requires 0 < k
    ensures UndoRight(Xor(x, ShiftRight(x, k)), k) == x
    ensures Xor(UndoRight(x, k), ShiftRight(UndoRight(x, k), k)) == x
  {
    forall i | 0 <= i < 32
      ensures UndoRight(Xor(x, ShiftRight(x, k)), k)[i] == x[i]
    {
      RightBitUndoes(x, k, i);
    }
    var u := UndoRight(x, k);
    forall i | 0 <= i < 32
      ensures Xor(u, ShiftRight(u, k))[i] == x[i]
    {
      assert RightBit(x, k, i) == (x[i] != RightBit(x, k, i + k));
      assert i + k < 32 ==> u[i + k] == RightBit(x, k, i + k);
    }
  }

  // ------------------------------------------------------- the whole step

  function Scramble(x: Word): Word {
    var a := Xor(x, ShiftLeft(x, 16));
    var b := Xor(a, ShiftRight(a, 5));
    Xor(b, ShiftLeft(b, 1))
  }

  function Unscramble(x: Word): Word {
    UndoLeft(UndoRight(UndoLeft(x, 1), 5), 16)
  }

  lemma ScrambleInverse(x: Word)
    ensures Unscramble(Scramble(x)) == x
    ensures Scramble(Unscramble(x)) == x
  {
    var a := Xor(x, ShiftLeft(x, 16));
    var b := Xor(a, ShiftRight(a, 5));
    LeftStepInverse(x, 16);
    RightStepInverse(a, 5);
    LeftStepInverse(b, 1);
    var c := UndoLeft(x, 1);
    var d := UndoRight(c, 5);
    LeftStepInverse(x, 1);
    RightStepInverse(c, 5);
    LeftStepInverse(d, 16);
  }

  /** The new third word. */
  function Mix(x: Word, y: Word, z: Word): Word {
    Xor(Xor(Scramble(x), y), z)
  }

  function Unmix(m: Word, y: Word, z: Word): Word {
    Unscramble(Xor(Xor(m, y), z))
  }

  lemma XorCancels(t: Word, y: Word, z: Word)
    ensures Xor(Xor(Xor(Xor(t, y), z), y), z) == t
  {
  }

  /** The step loses no information: the word that is shifted out can be recovered, so the step is
      a bijection on the 96 bits of state. */
  lemma MixInverse(x: Word, y: Word, z: Word)
    ensures Unmix(Mix(x, y, z), y, z) == x
    ensures Mix(Unmix(x, y, z), y, z) == x
  {
    ScrambleInverse(x);
    XorCancels(Scramble(x), y, z);
    ScrambleInverse(Xor(Xor(x, y), z));
    XorCancels(x, y, z);
  }

  // ------------------------------------------------------- runs

  /** The generator as a shift register of three words with an arbitrary feedback `mix`. */
  datatype State<W> = State(x: W, y: W, z: W)

  function Next<W>(mix: (W, W, W) -> W, s: State<W>): State<W> {
    State(s.y, s.z, mix(s.x, s.y, s.z))
  }

  /** The state after `n` ids. */
  function After<W>(mix: (W, W, W) -> W, s: State<W>, n: nat): State<W> {
    if n == 0 then s else Next(mix, After(mix, s, n - 1))
  }

  /** The `n`-th id (counted from 1) a generator started in `s` hands out. */
  function Id<W>(mix: (W, W, W) -> W, s: State<W>, n: nat): W
    requires n > 0
  {
    After(mix, s, n).z
  }

  /** Different words at the front give different feedback. */
  ghost predicate Invertible<W(!new)>(mix: (W, W, W) -> W) {
    forall x, x', y, z :: mix(x, y, z) == mix(x', y, z) ==> x == x'
  }

  /** Any three consecutive ids are the whole state: they determine every later id. */
  lemma ThreeIdsAreTheState<W>(mix: (W, W, W) -> W, s: State<W>, n: nat)
    requires n >= 1
    ensures After(mix, s, n + 2) == State(Id(mix, s, n), Id(mix, s, n + 1), Id(mix, s, n + 2))
  {
    assert After(mix, s, n + 2) == Next(mix, After(mix, s, n + 1));
    assert After(mix, s, n + 1) == Next(mix, After(mix, s, n));
  }

  /** Runs from different states never merge. */
  lemma {:induction false} RunsNeverMerge<W(!new)>(mix: (W, W, W) -> W, s: State<W>, t: State<W>, n: nat)
    requires Invertible(mix)
    requires After(mix, s, n) == After(mix, t, n)
    ensures s == t
  {
    if n > 0 {
      RunsNeverMerge(mix, s, t, n - 1);
    }
  }

  /** A state the step leaves alone is reached from itself only. */
  lemma {:induction false} FixpointIsIsolated<W(!new)>(mix: (W, W, W) -> W, zero: W, s: State<W>, n: nat)
    requires Invertible(mix) && mix(zero, zero, zero) == zero
    ensures After(mix, s, n) == State(zero, zero, zero) <==> s == State(zero, zero, zero)
  {
    if n > 0 {
      FixpointIsIsolated(mix, zero, s, n - 1);
      var t := After(mix, s, n - 1);
      assert mix(t.x, zero, zero) == mix(zero, zero, zero) ==> t.x == zero;
    }
  }

  /** Two runs that agree on three consecutive ids started in the same state. */
  lemma WindowDecides<W(!new)>(mix: (W, W, W) -> W, s: State<W>, t: State<W>, n: nat)
    requires Invertible(mix) && n >= 1
    requires forall i | n <= i <= n + 2 :: Id(mix, s, i) == Id(mix, t, i)
    ensures s == t
  {
    ThreeIdsAreTheState(mix, s, n);
    ThreeIdsAreTheState(mix, t, n);
    RunsNeverMerge(mix, s, t, n + 2);
  }

  lemma NotAllZero<W(!new)>(mix: (W, W, W) -> W, zero: W, s: State<W>, n: nat)
    requires Invertible(mix) && mix(zero, zero, zero) == zero
    requires n >= 1 && s != State(zero, zero, zero)
    ensures exists i | n <= i <= n + 2 :: Id(mix, s, i) != zero
  {
    ThreeIdsAreTheState(mix, s, n);
    FixpointIsIsolated(mix, zero, s, n + 2);
  }

  // --------------------------------------------------- words as integers

  function Pow2(n: nat): (r: nat)
    ensures r > 0
  {
    if n == 0 then 1 else 2 * Pow2(n - 1)
  }

  /** The number whose binary digits these are. */
  function Value(w: seq<bool>): (r: nat)
    ensures r < Pow2(|w|)
  {
    if w == [] then 0 else (if w[0] then 1 else 0) + 2 * Value(w[1..])
  }

  /** Binary digit `i` of a number. */
  function Digit(v: nat, i: nat): bool {
    v / Pow2(i) % 2 == 1
  }

  /** The lowest `n` binary digits of a number. */
  function Bits(v: nat, n: nat): (w: seq<bool>)
    ensures |w| == n
  {
    seq(n, i requires 0 <= i < n => Digit(v, i))
  }

  lemma {:induction false} ValueConcat(a: seq<bool>, b: seq<bool>)
    ensures Value(a + b) == Value(a) + Pow2(|a|) * Value(b)
  {
    if a == [] {
      assert a + b == b;
    } else {
      assert (a + b)[1..] == a[1..] + b;
      ValueConcat(a[1..], b);
      TimesDouble(Pow2(|a| - 1), Value(b));
      assert Pow2(|a|) * Value(b) == 2 * (Pow2(|a[1..]|) * Value(b));
    }
  }

  lemma TimesDouble(p: nat, v: nat)
    ensures (2 * p) * v == 2 * (p * v)
  {
  }

  lemma RemainderIs(a: nat, n: nat, q: nat, r: nat)
    requires r < n && a == n * q + r
    ensures a % n == r && a / n == q
  {
    assert n * q == q * n;
    ModUnique(q, n, r);
    QuotientUnique(a, n, q);
  }

  lemma ValueSplit(w: seq<bool>, i: nat)
    requires i <= |w|
    ensures Value(w) == Pow2(i) * Value(w[i..]) + Value(w[..i])
  {
    assert w == w[..i] + w[i..];
    ValueConcat(w[..i], w[i..]);
  }

  lemma ShiftedValue(w: seq<bool>, i: nat)
    requires i <= |w|
    ensures Value(w) / Pow2(i) == Value(w[i..])
  {
    ValueSplit(w, i);
    RemainderIs(Value(w), Pow2(i), Value(w[i..]), Value(w[..i]));
  }

  lemma LowestDigit(w: seq<bool>)
    requires w != []
    ensures Value(w) % 2 == 1 <==> w[0]
  {
  }

  lemma DigitOfValue(w: seq<bool>, i: nat)
    requires i < |w|
    ensures Digit(Value(w), i) == w[i]
  {
    ShiftedValue(w, i);
    LowestDigit(w[i..]);
  }

  lemma BitsOfValue(w: seq<bool>)
    ensures Bits(Value(w), |w|) == w
  {
    forall i: nat | i < |w|
      ensures Bits(Value(w), |w|)[i] == w[i]
    {
      DigitOfValue(w, i);
    }
  }

  function ToUint32(w: Word): (r: uint32) {
    assert Pow2(8) == 0x100;
    assert Pow2(16) == 0x1_0000;
    assert Pow2(24) == 0x100_0000;
    assert Pow2(32) == 0x1_0000_0000;
    Value(w)
  }

  /** Different words are different numbers. */
  lemma ToUint32Injective(v: Word, w: Word)
    ensures ToUint32(v) == ToUint32(w) <==> v == w
  {
    BitsOfValue(v);
    BitsOfValue(w);
  }

  // --------------------------------------------------- the builder's generator

  /** `x` is seeded from the clock; `y` and `z` are fixed. */
  function Seed(clock: Word): State<Word> {
    State(clock, Bits(362436069, 32), Bits(521288629, 32))
  }

  lemma MixIsInvertible()
    ensures Invertible(Mix)
  {
    forall x: Word, x': Word, y: Word, z: Word | Mix(x, y, z) == Mix(x', y, z)
      ensures x == x'
    {
      MixInverse(x, y, z);
      MixInverse(x', y, z);
    }
  }

  lemma ZeroStays()
    ensures Mix(ZERO, ZERO, ZERO) == ZERO
  {
    assert Xor(ZERO, ShiftLeft(ZERO, 16)) == ZERO;
    assert Xor(ZERO, ShiftRight(ZERO, 5)) == ZERO;
    assert Xor(ZERO, ShiftLeft(ZERO, 1)) == ZERO;
    assert Xor(ZERO, ZERO) == ZERO;
  }

  lemma SeedIsLive(clock: Word)
    ensures Seed(clock) != State(ZERO, ZERO, ZERO)
  {
    assert Digit(362436069, 0) && Bits(362436069, 32)[0] && !ZERO[0];
  }

  /** Whatever the clock said, the generator never gets stuck: three consecutive ids are never all
      zero. */
  lemma NeverThreeZeroIds(clock: Word, n: nat)
    requires n >= 1
    ensures exists i | n <= i <= n + 2 :: Id(Mix, Seed(clock), i) != ZERO
  {
    MixIsInvertible();
    ZeroStays();
    SeedIsLive(clock);
    NotAllZero(Mix, ZERO, Seed(clock), n);
  }

  /** The ids of two processes differ somewhere in every window of three exactly when their clocks
      differed. */
  lemma DifferentClocksDifferentIds(clock: Word, other: Word, n: nat)
    requires n >= 1
    ensures clock != other <==> exists i | n <= i <= n + 2 :: Id(Mix, Seed(clock), i) != Id(Mix, Seed(other), i)
  {
    MixIsInvertible();
    if forall i | n <= i <= n + 2 :: Id(Mix, Seed(clock), i) == Id(Mix, Seed(other), i) {
      WindowDecides(Mix, Seed(clock), Seed(other), n);
    }
  }

  /** The static generator variables of the datagram builder. */
  class Generator {
    var x: Word
    var y: Word
    var z: Word

    function Current(): State<Word>
      reads this
    {
      State(x, y, z)
    }

    constructor (clock: Word)
      ensures Current() == Seed(clock)
    {
      x, y, z := clock, Bits(362436069, 32), Bits(521288629, 32);
    }

    method Xorshf96() returns (id: uint32)
      modifies this
      ensures Current() == Next(Mix, old(Current()))
      ensures id == ToUint32(Next(Mix, old(Current())).z)
    {
      var t := ZERO;
      x := Xor(x, ShiftLeft(x, 16));
      x := Xor(x, ShiftRight(x, 5));
      x := Xor(x, ShiftLeft(x, 1));

      t := x;
      x := y;
      y := z;
      z := Xor(Xor(t, x), y);

      id := ToUint32(z);
    }
  }
}
