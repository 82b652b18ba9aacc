/** Machine integers, bytes and byte-sequence concatenation shared by all modules. */
module Basics {

  const U32_LIMIT: int := 0x1_0000_0000
  const U32_MAX: int := 0xFFFF_FFFF
  const INT_MAX: int := 0x7FFF_FFFF

  type uint8 = i: int | 0 <= i < 0x100
  type uint32 = i: int | 0 <= i < 0x1_0000_0000
  type int32 = i: int | -0x8000_0000 <= i < 0x8000_0000
  type bytes = seq<uint8>

  datatype Option<+T> = None | Some(value: T)

  /** Conversion to a 32-bit unsigned integer, as `static_cast<uint32_t>` does it. */
  function ToU32(n: int): (r: uint32) {
    n % 0x1_0000_0000
  }

  lemma FitsU32(n: nat)
    requires n < U32_LIMIT
    ensures ToU32(n) == n
  {
  }

  lemma WrapsU32(n: nat)
    requires U32_LIMIT <= n < 2 * U32_LIMIT
    ensures ToU32(n) == n - U32_LIMIT
  {
  }

  function Min(a: int, b: int): int {
    if a <= b then a else b
  }

  function Max(a: int, b: int): int {
    if a >= b then a else b
  }

  /** The bytes a scatter/gather list stands for. */
  function Concat(parts: seq<bytes>): bytes {
    if parts == [] then [] else parts[0] + Concat(parts[1..])
  }

  lemma {:induction false} ConcatAppend(parts: seq<bytes>, last: bytes)
    ensures Concat(parts + [last]) == Concat(parts) + last
  {
    if parts == [] {
      assert Concat([last]) == last;
    } else {
      assert (parts + [last])[1..] == parts[1..] + [last];
      ConcatAppend(parts[1..], last);
    }
  }

  /** Reaching element `i` of a list splits its concatenation there. */
  lemma {:induction false} ConcatSplit(parts: seq<bytes>, i: nat)
    requires i < |parts|
    ensures Concat(parts[..i + 1]) == Concat(parts[..i]) + parts[i]
    ensures Concat(parts[..i + 1]) <= Concat(parts)
  {
    assert parts[..i + 1] == parts[..i] + [parts[i]];
    ConcatAppend(parts[..i], parts[i]);
    ConcatPrefix(parts, i + 1);
  }

  lemma {:induction false} ConcatPrefix(parts: seq<bytes>, i: nat)
    requires i <= |parts|
    ensures Concat(parts[..i]) <= Concat(parts)
    decreases |parts| - i
  {
    if i == |parts| {
      assert parts[..i] == parts;
    } else {
      ConcatPrefix(parts, i + 1);
      assert parts[..i + 1] == parts[..i] + [parts[i]];
      ConcatAppend(parts[..i], parts[i]);
    }
  }

  /** The natural numbers below `n`. */
  function Range(n: nat): (r: set<nat>)
    ensures forall i: nat :: i in r <==> i < n
  {
    if n == 0 then {} else Range(n - 1) + {n - 1}
  }

  /** The numbers from `from` up to but not including `n`. */
  ghost function UpFrom(from: nat, n: nat): (r: seq<nat>)
    ensures |r| == if from <= n then n - from else 0
    decreases n - from
  {
    if from >= n then [] else [from] + UpFrom(from + 1, n)
  }

  lemma {:induction false} UpFromAt(from: nat, n: nat, k: nat)
    requires from + k < n
    ensures UpFrom(from, n)[k] == from + k
    decreases k
  {
    if k > 0 {
      UpFromAt(from + 1, n, k - 1);
    }
  }

  lemma {:induction false} RangeSize(n: nat)
    ensures |Range(n)| == n
  {
    if n > 0 {
      RangeSize(n - 1);
    }
  }

  lemma {:induction false} SubsetSize<T>(a: set<T>, b: set<T>)
    requires a <= b
    ensures |a| <= |b|
    ensures |a| == |b| ==> a == b
  {
    assert b == a + (b - a);
    assert |b| == |a| + |b - a|;
  }

  /** Pigeonhole: as many numbers below `n` as there are, are all of them. */
  lemma Pigeonhole(s: set<nat>, n: nat)
    requires forall i :: i in s ==> i < n
    ensures |s| <= n
    ensures |s| == n <==> s == Range(n)
  {
    RangeSize(n);
    SubsetSize(s, Range(n));
  }
}
