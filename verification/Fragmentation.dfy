/** What fragmentation means, as functions of the message bytes alone: chunk boundaries, the
    datagrams of a message, and the arithmetic of the announced count. */
module Fragmentation {
  import opened Basics
  import opened Wire

  // ------------------------------------------------------------ counting

  /** Unsigned integer division, by counting subtractions. */
  function Div(a: nat, p: nat): (q: nat)
    requires p > 0
    ensures q <= a
  {
    if a < p then 0 else 1 + Div(a - p, p)
  }

  lemma {:induction false} DivMod(a: nat, p: nat)
    requires p > 0
    ensures Div(a, p) * p <= a < Div(a, p) * p + p
  {
    if a >= p {
      DivMod(a - p, p);
      assert Div(a, p) * p == Div(a - p, p) * p + p;
    }
  }

  lemma QuotientUnique(a: nat, p: nat, q: nat)
    requires p > 0 && q * p <= a < q * p + p
    ensures q == a / p
  {
    var d := a / p;
    assert d * p <= a < d * p + p;
    SameQuotient(q, d, p);
  }

  lemma DivIsDivision(a: nat, p: nat)
    requires p > 0
    ensures Div(a, p) == a / p
  {
    DivMod(a, p);
    var q := Div(a, p);
    QuotientUnique(a, p, q);
  }

  /** Fragments needed for `total` bytes at `p` bytes each, in unbounded arithmetic. */
  function FragmentCount(total: nat, p: nat): nat
    requires p > 0
  {
    Div(total + (p - 1), p)
  }

  /** The count the sender announces: the same expression in 32-bit unsigned arithmetic, on a total
      that was itself accumulated in 32 bits. */
  function AnnouncedCount(total: nat, p: nat): uint32
    requires 0 < p < U32_LIMIT
  {
    Div(ToU32(ToU32(total) + (p - 1)), p)
  }

  lemma CountBounds(total: nat, p: nat)
    requires p > 0
    ensures var n := FragmentCount(total, p);
      n * p >= total && (total > 0 ==> n > 0 && (n - 1) * p < total)
  {
    var n := FragmentCount(total, p);
    DivMod(total + (p - 1), p);
    assert (n - 1) * p == n * p - p;
  }

  lemma MulMonotone(a: int, b: int, p: nat)
    requires p > 0 && a * p < b * p
    ensures a < b
  {
    if b <= a {
      MulLess(b, a, p);
    }
  }

  lemma MulLess(a: int, b: int, p: nat)
    requires a <= b
    ensures a * p <= b * p
  {
    assert b * p - a * p == (b - a) * p;
  }

  lemma {:induction false} MulGrows(a: nat, p: nat)
    requires p > 0
    ensures a <= a * p
  {
    if a > 0 {
      MulGrows(a - 1, p);
      assert a * p == (a - 1) * p + p;
    }
  }

  lemma CountFits(total: nat, p: nat)
    requires p > 0 && total < U32_LIMIT
    ensures FragmentCount(total, p) <= total
  {
    CountBounds(total, p);
    var n := FragmentCount(total, p);
    if n > 0 {
      MulGrows(n - 1, p);
    }
  }

  lemma CountWithoutOverflow(total: nat, p: nat)
    requires 0 < p < U32_LIMIT && total + (p - 1) < U32_LIMIT
    ensures AnnouncedCount(total, p) == FragmentCount(total, p)
  {
    FitsU32(total);
    FitsU32(total + (p - 1));
  }

  lemma CountOverflows(total: nat, p: nat)
    requires 0 < p < U32_LIMIT && total < U32_LIMIT <= total + (p - 1)
    ensures AnnouncedCount(total, p) == 0
  {
    FitsU32(total);
    WrapsU32(total + (p - 1));
  }

  /** The sharp bound on 32-bit counting: for a total that fits 32 bits, the announced count is the
      number of fragments exactly when the rounding does not overflow, and it is 0 otherwise. */
  lemma CountIsSharp(total: nat, p: nat)
    requires 0 < total < U32_LIMIT && 0 < p < U32_LIMIT
    ensures AnnouncedCount(total, p) == FragmentCount(total, p) <==> total + (p - 1) < U32_LIMIT
    ensures total + (p - 1) >= U32_LIMIT ==> AnnouncedCount(total, p) == 0
  {
    if total + (p - 1) < U32_LIMIT {
      CountWithoutOverflow(total, p);
    } else {
      CountBounds(total, p);
      CountOverflows(total, p);
    }
  }

  /** From 2^32 bytes on, fewer fragments are announced than there are. */
  lemma CountFallsShort(total: nat, p: nat)
    requires total >= U32_LIMIT && 0 < p < U32_LIMIT
    ensures AnnouncedCount(total, p) < FragmentCount(total, p)
    ensures AnnouncedCount(total, p) * p <= ToU32(total) + (p - 1)
  {
    var t := ToU32(total);
    DivMod(ToU32(t + (p - 1)), p);
    CountBounds(total, p);
    assert ToU32(t + (p - 1)) <= t + (p - 1) < total;
    MulMonotone(AnnouncedCount(total, p), FragmentCount(total, p), p);
  }

  lemma SameQuotient(q: nat, c: nat, p: nat)
    requires c * p < q * p + p && q * p < c * p + p
    ensures c == q
  {
    MulSucc(q, p);
    MulSucc(c, p);
    MulMonotone(c, q + 1, p);
    MulMonotone(q, c + 1, p);
  }

  lemma CountOfMultiple(q: nat, p: nat)
    requires p > 0
    ensures FragmentCount(q * p, p) == q
  {
    DivMod(q * p + (p - 1), p);
    SameQuotient(q, FragmentCount(q * p, p), p);
  }

  lemma MultipleIfEven(t: nat, p: nat)
    requires p > 0 && t % p == 0
    ensures FragmentCount(t, p) * p == t
  {
    var q: nat := t / p;
    assert t == q * p;
    CountOfMultiple(q, p);
  }

  lemma EvenIfMultiple(c: nat, p: nat, t: nat)
    requires p > 0 && c * p == t
    ensures t % p == 0
  {
    ModUnique(c, p, 0);
  }

  /** Fragments of full size add up to the announced length exactly when the truncated total is a
      multiple of the payload and the rounding does not overflow. */
  lemma FullFragmentsFit(total: nat, p: nat)
    requires 0 < p < U32_LIMIT
    ensures AnnouncedCount(total, p) * p == ToU32(total)
      <==> ToU32(total) % p == 0 && ToU32(total) + (p - 1) < U32_LIMIT
  {
    var t := ToU32(total);
    var c := AnnouncedCount(total, p);
    if t + (p - 1) < U32_LIMIT {
      assert c == FragmentCount(t, p);
      if t % p == 0 {
        MultipleIfEven(t, p);
      }
      if c * p == t {
        EvenIfMultiple(c, p, t);
      }
    } else {
      assert ToU32(t + (p - 1)) == t + (p - 1) - U32_LIMIT < p;
      assert c == 0 && t > 0;
    }
  }

  // ------------------------------------------------------------- chunks

  /** The message cut into payloads of `p` bytes. */
  function Chunks(flat: bytes, p: nat): seq<bytes>
    requires p > 0
  {
    if flat == [] then []
    else if |flat| <= p then [flat]
    else [flat[..p]] + Chunks(flat[p..], p)
  }

  /** There are as many chunks as the count says. */
  lemma {:induction false} ChunkCount(flat: bytes, p: nat)
    requires p > 0
    ensures |Chunks(flat, p)| == FragmentCount(|flat|, p)
  {
    if |flat| > p {
      ChunkCount(flat[p..], p);
      assert |flat| + (p - 1) - p == |flat[p..]| + (p - 1);
    } else if flat != [] {
      assert Div(|flat| - 1, p) == 0;
    }
  }

  /** Cutting loses nothing: the chunks in order are the message; every chunk but the last is full,
      and no chunk is empty. */
  lemma {:induction false} ChunksCover(flat: bytes, p: nat)
    requires p > 0
    ensures Concat(Chunks(flat, p)) == flat
    ensures forall k | 0 <= k < |Chunks(flat, p)| - 1 :: |Chunks(flat, p)[k]| == p
    ensures forall k | 0 <= k < |Chunks(flat, p)| :: 0 < |Chunks(flat, p)[k]| <= p
  {
    if |flat| > p {
      ChunksCover(flat[p..], p);
      assert flat == flat[..p] + flat[p..];
    } else if flat != [] {
      assert Concat([flat]) == flat;
    }
  }

  /** Fragment `k` carries the bytes from `k * p` up to `(k + 1) * p` or the end of the message. */
  lemma {:induction false} ChunkAt(flat: bytes, p: nat, k: nat)
    requires p > 0 && k < |Chunks(flat, p)|
    ensures 0 <= k * p < |flat|
    ensures Chunks(flat, p)[k] == flat[k * p..Min(k * p + p, |flat|)]
  {
    if |flat| > p && k > 0 {
      ChunkAt(flat[p..], p, k - 1);
      MulSucc(k - 1, p);
      var from := (k - 1) * p;
      SliceOfRest(flat, p, from, Min(from + p, |flat| - p));
    }
  }

  lemma MulSucc(k: nat, p: nat)
    ensures k * p >= 0 && (k + 1) * p == k * p + p
  {
  }

  lemma SliceOfRest(s: bytes, p: nat, from: nat, to: nat)
    requires from <= to && p + to <= |s|
    ensures s[p..][from..to] == s[from + p..to + p]
  {
  }

  /** Full pieces followed by a non-empty last one are the chunks of what they add up to. */
  lemma {:induction false} PiecesAreChunks(full: seq<bytes>, last: bytes, p: nat)
    requires p > 0 && 0 < |last| <= p
    requires forall k | 0 <= k < |full| :: |full[k]| == p
    ensures Chunks(Concat(full) + last, p) == full + [last]
  {
    if full == [] {
      assert Concat(full) + last == last;
    } else {
      var rest := Concat(full[1..]) + last;
      var flat := Concat(full) + last;
      PiecesAreChunks(full[1..], last, p);
      assert flat == full[0] + rest;
      assert flat[..p] == full[0] && flat[p..] == rest;
      assert full + [last] == [full[0]] + (full[1..] + [last]);
    }
  }

  lemma FullPiecesAreChunks(full: seq<bytes>, p: nat)
    requires p > 0
    requires forall k | 0 <= k < |full| :: |full[k]| == p
    ensures Chunks(Concat(full), p) == full
  {
    if full != [] {
      var front, last := full[..|full| - 1], full[|full| - 1];
      assert full == front + [last];
      ConcatAppend(front, last);
      PiecesAreChunks(front, last, p);
    }
  }

  lemma ModStep(a: nat, p: nat)
    requires p > 0
    ensures (a + p) % p == a % p
  {
    var q := a / p;
    assert a == p * q + a % p;
    assert a + p == p * (q + 1) + a % p;
    ModUnique(q + 1, p, a % p);
    assert p * (q + 1) == (q + 1) * p;
  }

  lemma ModUnique(q: nat, p: nat, r: nat)
    requires r < p
    ensures (q * p + r) % p == r
  {
    var a := q * p + r;
    var d := a / p;
    assert a == p * d + a % p;
    SameQuotient(q, d, p);
  }

  /** What is left over after the full pieces is what is left over of the sum. */
  lemma {:induction false} RestOfPieces(full: seq<bytes>, last: bytes, p: nat)
    requires 0 < p && |last| <= p
    requires forall k | 0 <= k < |full| :: |full[k]| == p
    ensures (|Concat(full)| + |last|) % p == 0 <==> |last| == 0 || |last| == p
  {
    if full == [] {
      if |last| == p { ModStep(0, p); }
    } else {
      RestOfPieces(full[1..], last, p);
      ModStep(|Concat(full[1..])| + |last|, p);
    }
  }

  // ---------------------------------------------------------- datagrams

  function WholeDatagram(magic: bytes, flat: bytes): bytes
    requires |magic| == 4
  {
    EncodeHeader(magic, TYPE_WHOLE, U32_MAX, 1, ToU32(|flat|)) + flat
  }

  function InfoDatagram(magic: bytes, id: uint32, num: uint32, len: uint32): bytes
    requires |magic| == 4
  {
    EncodeHeader(magic, TYPE_INFO, id, num, len)
  }

  function FragmentDatagram(magic: bytes, id: uint32, k: nat, chunk: bytes): bytes
    requires |magic| == 4
  {
    EncodeHeader(magic, TYPE_FRAGMENT, id, ToU32(k), ToU32(|chunk|)) + chunk
  }

  function FragmentDatagrams(magic: bytes, id: uint32, chunks: seq<bytes>): (r: seq<bytes>)
    requires |magic| == 4
    ensures |r| == |chunks|
  {
    seq(|chunks|, k requires 0 <= k < |chunks| => FragmentDatagram(magic, id, k, chunks[k]))
  }

  /** One info datagram and the fragments in order. */
  function FragmentedMessage(magic: bytes, id: uint32, flat: bytes, p: nat): seq<bytes>
    requires |magic| == 4 && 0 < p < U32_LIMIT
  {
    [InfoDatagram(magic, id, AnnouncedCount(|flat|, p), ToU32(|flat|))]
    + FragmentDatagrams(magic, id, Chunks(flat, p))
  }

  /** The datagrams of a message of bytes `flat`: one self-contained datagram when it fits. It is a
      function of the bytes, not of how the caller split them into buffers. */
  function Datagrams(magic: bytes, id: uint32, flat: bytes, maxSize: nat): seq<bytes>
    requires |magic| == 4 && HEADER_SIZE < maxSize
    requires maxSize <= INT_MAX || |flat| + HEADER_SIZE <= maxSize
  {
    if |flat| + HEADER_SIZE <= maxSize then [WholeDatagram(magic, flat)]
    else FragmentedMessage(magic, id, flat, maxSize - HEADER_SIZE)
  }

  lemma DatagramAt(magic: bytes, id: uint32, flat: bytes, maxSize: nat, k: nat)
    requires |magic| == 4 && HEADER_SIZE < maxSize <= INT_MAX
    requires |flat| + HEADER_SIZE > maxSize
    requires k < |Chunks(flat, maxSize - HEADER_SIZE)|
    ensures |Datagrams(magic, id, flat, maxSize)| == 1 + |Chunks(flat, maxSize - HEADER_SIZE)|
    ensures Datagrams(magic, id, flat, maxSize)[k + 1]
      == FragmentDatagram(magic, id, k, Chunks(flat, maxSize - HEADER_SIZE)[k])
  {
  }

  lemma ChunkSize(flat: bytes, p: nat, k: nat)
    requires p > 0 && k < |Chunks(flat, p)|
    ensures 0 < |Chunks(flat, p)[k]| <= p
    ensures k + 1 < |Chunks(flat, p)| ==> |Chunks(flat, p)[k]| == p
  {
    ChunksCover(flat, p);
  }

  lemma FragmentSize(magic: bytes, id: uint32, k: nat, chunk: bytes)
    requires |magic| == 4
    ensures |FragmentDatagram(magic, id, k, chunk)| == HEADER_SIZE + |chunk|
  {
  }

  /** No datagram is larger than allowed, and all but the first and the last are exactly that large. */
  predicate Sized(ds: seq<bytes>, maxSize: nat) {
    && (forall i | 0 <= i < |ds| :: |ds[i]| <= maxSize)
    && (forall i | 1 <= i < |ds| - 1 :: |ds[i]| == maxSize)
  }

  lemma FragmentSizes(magic: bytes, id: uint32, info: bytes, flat: bytes, p: nat)
    requires |magic| == 4 && |info| == HEADER_SIZE && p > 0
    ensures Sized([info] + FragmentDatagrams(magic, id, Chunks(flat, p)), HEADER_SIZE + p)
  {
    var chunks := Chunks(flat, p);
    var ds := [info] + FragmentDatagrams(magic, id, chunks);
    ChunksCover(flat, p);
    forall i | 1 <= i < |ds|
      ensures |ds[i]| == HEADER_SIZE + |chunks[i - 1]|
    {
      FragmentSize(magic, id, i - 1, chunks[i - 1]);
    }
  }

  lemma WholeSize(magic: bytes, flat: bytes, maxSize: nat)
    requires |magic| == 4 && |flat| + HEADER_SIZE <= maxSize
    ensures Sized([WholeDatagram(magic, flat)], maxSize)
  {
  }

  /** The datagrams of a message respect the size limit, and no inner fragment wastes room. */
  lemma DatagramSizes(magic: bytes, id: uint32, flat: bytes, maxSize: nat)
    requires |magic| == 4 && HEADER_SIZE < maxSize
    requires maxSize <= INT_MAX || |flat| + HEADER_SIZE <= maxSize
    ensures Sized(Datagrams(magic, id, flat, maxSize), maxSize)
  {
    if |flat| + HEADER_SIZE <= maxSize {
      WholeSize(magic, flat, maxSize);
    } else {
      var p := maxSize - HEADER_SIZE;
      var info := InfoDatagram(magic, id, AnnouncedCount(|flat|, p), ToU32(|flat|));
      FragmentSizes(magic, id, info, flat, p);
    }
  }

  lemma NumberFits(total: nat, p: nat, k: nat)
    requires 0 < p && total < U32_LIMIT && k < FragmentCount(total, p)
    ensures ToU32(k) == k
  {
    CountFits(total, p);
  }
}
