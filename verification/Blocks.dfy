/** From an interval of IPv4 addresses to CIDR blocks. */
module Blocks {
  import opened Bits
  import opened Prefixes

  const LIMIT := 0x1_0000_0000

  lemma LimitIsPow2()
    ensures Pow2(32) == LIMIT
  {
    Pow2Sum(16, 16);
    assert Pow2(16) == 65536 by {
      Pow2Sum(8, 8);
      assert Pow2(8) == 256;
    }
  }

  /** bits.TrailingZeros64 */
  function TrailingZeros(n: nat): nat
    requires n > 0
  {
    if n % 2 == 1 then 0 else 1 + TrailingZeros(n / 2)
  }

  /** `current & -current`: the lowest bit that is set. */
  function LowestBit(n: nat): nat
    requires n > 0
  {
    Pow2(TrailingZeros(n))
  }

  lemma {:induction false} TrailingZerosOfPow2(k: nat)
    ensures TrailingZeros(Pow2(k)) == k
  {
    if k > 0 {
      TrailingZerosOfPow2(k - 1);
    }
  }

  /** The blocks that may start at an address are those up to its lowest bit. */
  lemma {:induction false} AlignedExactly(n: nat, k: nat)
    requires n > 0
    ensures Aligned(n, k) <==> k <= TrailingZeros(n)
  {
    if k > 0 {
      Halves(n, k);
      if n % 2 == 0 {
        AlignedExactly(n / 2, k - 1);
      }
    }
  }

  lemma Halves(n: nat, k: nat)
    requires k > 0
    ensures Aligned(n, k) <==> n % 2 == 0 && Aligned(n / 2, k - 1)
  {
    var p := Pow2(k - 1);
    if Aligned(n, k) {
      var q := MultipleOf(n, 2 * p);
      assert n == 2 * (q * p);
      MultipleMod(q, p);
    }
    if n % 2 == 0 && Aligned(n / 2, k - 1) {
      var q := MultipleOf(n / 2, p);
      assert n == q * (2 * p);
      MultipleMod(q, 2 * p);
    }
  }

  lemma {:induction false} LowestBitAtMost(n: nat)
    requires n > 0
    ensures LowestBit(n) <= n
  {
    if n % 2 == 0 {
      LowestBitAtMost(n / 2);
    }
  }

  // ---------- the greedy tiling ----------

  /** The largest exponent up to k whose block fits. */
  function Fit(k: nat, remaining: nat): (r: nat)
    requires remaining > 0
    ensures r <= k && Pow2(r) <= remaining
    ensures forall j :: r < j <= k ==> Pow2(j) > remaining
  {
    if Pow2(k) <= remaining then k else Fit(k - 1, remaining)
  }

  function BlockExponent(current: nat, remaining: nat): nat
    requires remaining > 0
  {
    Fit(if current == 0 then 32 else TrailingZeros(current), remaining)
  }

  /** What starts at an address and stays below the end fits the block chosen there. */
  lemma BlockExponentGreedy(current: nat, end: nat, j: nat)
    requires current < end <= LIMIT && j <= 32
    ensures
      var k := BlockExponent(current, end - current);
      && k <= 32 && Aligned(current, k) && current + Pow2(k) <= end
      && (Aligned(current, j) && current + Pow2(j) <= end ==> j <= k)
  {
    var k := BlockExponent(current, end - current);
    LimitIsPow2();
    if current > 0 {
      AlignedExactly(current, k);
      AlignedExactly(current, j);
      LowestBitAtMost(current);
      if TrailingZeros(current) > 32 {
        Pow2Grows(32, TrailingZeros(current));
      }
    } else {
      assert Aligned(0, k);
    }
  }

  lemma BlockMasked(current: nat, end: nat)
    requires current < end <= LIMIT
    ensures BlockExponent(current, end - current) <= 32
    ensures Masked(Net(V4, current, 32 - BlockExponent(current, end - current)))
  {
    BlockExponentGreedy(current, end, 0);
    LimitIsPow2();
  }

  /** The block chosen at an address. */
  function Block(current: nat, end: nat): (p: Prefix)
    requires current < end <= LIMIT
    ensures p.Net? && p.family.V4? && p.addr == current && p.addr + Size(p) <= end
  {
    BlockMasked(current, end);
    Net(V4, current, 32 - BlockExponent(current, end - current))
  }

  function Tiling(lo: nat, end: nat): seq<Prefix>
    requires end <= LIMIT
    decreases end - lo
  {
    if lo >= end then [] else [Block(lo, end)] + Tiling(lo + Size(Block(lo, end)), end)
  }

  lemma TilingStep(lo: nat, end: nat)
    requires lo < end <= LIMIT
    ensures Tiling(lo, end) == [Block(lo, end)] + Tiling(lo + Size(Block(lo, end)), end)
  {
  }

  /** What was cut so far and what is still to be cut make up the whole. */
  ghost predicate Cut(out: seq<Prefix>, lo: nat, current: nat, end: nat) {
    end <= LIMIT && out + Tiling(current, end) == Tiling(lo, end)
  }

  lemma CutStep(out: seq<Prefix>, lo: nat, current: nat, end: nat, size: nat, block: Prefix)
    requires Cut(out, lo, current, end) && current < end && block == Block(current, end)
    requires size == Size(Block(current, end))
    ensures Cut(out + [block], lo, current + size, end)
  {
    TilingStep(current, end);
    hide Tiling, Block, Size, Masked;
    var rest := Tiling(current + size, end);
    assert out + ([block] + rest) == out + [block] + rest;
  }

  /** prefixesForIPv4Range */
  method PrefixesForIPv4Range(lo: nat, hi: nat) returns (out: seq<Prefix>)
    requires hi < LIMIT
    ensures out == Tiling(lo, hi + 1)
  {
    out := [];
    var current := lo;
    assert Cut(out, lo, current, hi + 1);
    hide Tiling, Block, Size, Masked, Cut;
    while current <= hi
      invariant Cut(out, lo, current, hi + 1)
      decreases hi + 1 - current
    {
      var size, block := NextBlock(current, hi);
      CutStep(out, lo, current, hi + 1, size, block);
      out := out + [block];
      current := current + size;
    }
    AllCut(out, lo, current, hi + 1);
  }

  lemma AllCut(out: seq<Prefix>, lo: nat, current: nat, end: nat)
    requires Cut(out, lo, current, end) && current >= end
    ensures out == Tiling(lo, end)
  {
    assert out + [] == out;
  }

  /** The body of the loop. */
  method NextBlock(current: nat, hi: nat) returns (size: nat, block: Prefix)
    requires current <= hi < LIMIT
    ensures block == Block(current, hi + 1) && size == Size(Block(current, hi + 1)) && size > 0
  {
    hide *;
    var prefixLen;
    size, prefixLen := BlockSize(current, hi);
    block := BlockAt(current, hi, size, prefixLen);
  }

  /** The prefix of the chosen size. */
  method BlockAt(current: nat, hi: nat, size: nat, prefixLen: nat) returns (p: Prefix)
    requires current <= hi < LIMIT && prefixLen <= 32 && prefixLen == 32 - BlockExponent(current, hi + 1 - current)
    requires size == Pow2(BlockExponent(current, hi + 1 - current))
    ensures p == Block(current, hi + 1) && size == Size(p) && size > 0
  {
    BlockMasked(current, hi + 1);
    p := Net(V4, current, prefixLen);
  }

  lemma ExponentAtMost32(current: nat)
    requires current < LIMIT
    ensures current > 0 ==> TrailingZeros(current) <= 32
  {
    if current > 0 {
      LimitIsPow2();
      LowestBitAtMost(current);
      if TrailingZeros(current) > 32 {
        Pow2Grows(32, TrailingZeros(current));
      }
    }
  }

  /** Start from the lowest bit, halve until it fits. */
  method BlockSize(current: nat, hi: nat) returns (size: nat, prefixLen: nat)
    requires current <= hi < LIMIT
    ensures var k := BlockExponent(current, hi + 1 - current);
      k <= 32 && prefixLen == 32 - k && size == Pow2(k)
  {
    var remaining := hi - current + 1;
    ghost var k: nat;
    if current == 0 {
      size := LIMIT;
      k := 32;
      LimitIsPow2();
    } else {
      size := LowestBit(current);
      k := TrailingZeros(current);
    }
    ExponentAtMost32(current);
    ghost var exponent := BlockExponent(current, remaining);
    assert size == Pow2(k) && Fit(k, remaining) == exponent;
    hide *;
    while size > remaining
      invariant k <= 32 && size == Pow2(k) && Fit(k, remaining) == exponent
      decreases k
    {
      FitHalf(k, remaining);
      size := size / 2;
      k := k - 1;
    }
    TrailingZerosOfPow2(k);
    FitsAlready(k, remaining);
    prefixLen := 32 - TrailingZeros(size);
  }

  lemma FitHalf(k: nat, remaining: nat)
    requires Pow2(k) > remaining > 0
    ensures k > 0 && Pow2(k) / 2 == Pow2(k - 1) && Fit(k, remaining) == Fit(k - 1, remaining)
  {
  }

  lemma FitsAlready(k: nat, remaining: nat)
    requires 0 < remaining && Pow2(k) <= remaining
    ensures Fit(k, remaining) == k
  {
  }

  lemma {:induction false} TilingInside(lo: nat, end: nat, i: nat)
    requires end <= LIMIT && i < |Tiling(lo, end)|
    ensures
      var p := Tiling(lo, end)[i];
      p.Net? && p.family.V4? && lo <= p.addr && p.addr + Size(p) <= end
        && (i > 0 ==> lo + Size(Block(lo, end)) <= p.addr)
    decreases end - lo
  {
    hide Masked, Size;
    SizePositive(Block(lo, end));
    TilingStep(lo, end);
    if i > 0 {
      TilingInside(lo + Size(Block(lo, end)), end, i - 1);
    }
  }

  lemma SizePositive(p: Prefix)
    requires p.Net?
    ensures Size(p) > 0
  {
  }

  /** The blocks follow each other. */
  lemma {:induction false} TilingApart(lo: nat, end: nat, i: nat, j: nat)
    requires end <= LIMIT && i < j < |Tiling(lo, end)|
    ensures
      var p, q := Tiling(lo, end)[i], Tiling(lo, end)[j];
      p.Net? && q.Net? && p.addr + Size(p) <= q.addr
    decreases end - lo
  {
    hide Masked, Size;
    SizePositive(Block(lo, end));
    TilingStep(lo, end);
    if i == 0 {
      TilingInside(lo, end, j);
    } else {
      TilingApart(lo + Size(Block(lo, end)), end, i - 1, j - 1);
    }
  }

  lemma {:induction false} TilingReaches(lo: nat, end: nat, a: nat) returns (i: nat)
    requires end <= LIMIT && lo <= a < end
    ensures i < |Tiling(lo, end)| && Contains(Tiling(lo, end)[i], Addr(V4, a))
    decreases end - lo
  {
    hide Masked, Size;
    var first := Block(lo, end);
    SizePositive(first);
    TilingStep(lo, end);
    if a < lo + Size(first) {
      i := 0;
    } else {
      var j := TilingReaches(lo + Size(first), end, a);
      i := j + 1;
    }
  }

  /** The blocks partition the interval: each of its addresses, and no other, is in exactly one. */
  lemma TilingPartitions(lo: nat, end: nat, a: Addr)
    requires end <= LIMIT
    ensures (a.family.V4? && lo <= a.value < end) <==>
        exists i :: 0 <= i < |Tiling(lo, end)| && Contains(Tiling(lo, end)[i], a)
    ensures forall i, j :: 0 <= i < j < |Tiling(lo, end)| ==>
        !(Contains(Tiling(lo, end)[i], a) && Contains(Tiling(lo, end)[j], a))
  {
    hide Masked, Size, Tiling;
    if a.family.V4? && lo <= a.value < end {
      var i := TilingReaches(lo, end, a.value);
    }
    forall i | 0 <= i < |Tiling(lo, end)| && Contains(Tiling(lo, end)[i], a)
      ensures a.family.V4? && lo <= a.value < end
    {
      TilingInside(lo, end, i);
    }
    forall i, j | 0 <= i < j < |Tiling(lo, end)|
      ensures !(Contains(Tiling(lo, end)[i], a) && Contains(Tiling(lo, end)[j], a))
    {
      TilingApart(lo, end, i, j);
    }
  }

  /** A prefix that starts inside the first block lies inside it, as long as it lies inside the interval. */
  lemma FirstBlockCovers(lo: nat, end: nat, q: Prefix)
    requires lo < end <= LIMIT && q.Net? && q.family.V4? && lo <= q.addr < lo + Size(Block(lo, end))
    requires q.addr + Size(q) <= end
    ensures Covers(Block(lo, end), q)
  {
    var first := Block(lo, end);
    if q.bits >= first.bits {
      NestOrApart(first, q);
    } else {
      NestOrApart(q, first);
      BlockExponentGreedy(lo, end, 32 - q.bits);
    }
  }

  /** Nothing is cut needlessly: any prefix inside the interval lies inside a single block. */
  lemma {:induction false} TilingMaximal(lo: nat, end: nat, q: Prefix) returns (i: nat)
    requires end <= LIMIT && q.Net? && q.family.V4? && lo <= q.addr && q.addr + Size(q) <= end
    ensures i < |Tiling(lo, end)| && Covers(Tiling(lo, end)[i], q)
    decreases end - lo
  {
    hide Masked, Size;
    SizePositive(q);
    var first := Block(lo, end);
    SizePositive(first);
    TilingStep(lo, end);
    if q.addr >= lo + Size(first) {
      var j := TilingMaximal(lo + Size(first), end, q);
      i := j + 1;
    } else {
      i := 0;
      FirstBlockCovers(lo, end, q);
    }
  }
}
