/** `GetPortMask`: splitting a closed port interval into prefix blocks.

    Starting at the left end, the loop takes the largest block of `2^i`
    ports, `i <= 16`, that passes the test against the table
    `port_bit_mask`, emits it with prefix length `16 - i`, and continues
    after it.  The arithmetic is on `int`; the only bitwise operation is `&`
    with a mask below `2^16`. */
module PortMask {
  import opened Bits

  /** One block: `[low, high]` with prefix length `prefixLen`. */
  datatype PrefixRange = PrefixRange(low: int, high: int, prefixLen: int)

  /** `port_bit_mask[i] = { 2^i - 1, 0xffff - (2^i - 1) }`, written out. */
  const PortBitMask: seq<(int, int)> := [
    (0, 0xffff),
    (0x1, 0xfffe), (0x3, 0xfffc), (0x7, 0xfff8), (0xf, 0xfff0),
    (0x1f, 0xffe0), (0x3f, 0xffc0), (0x7f, 0xff80),
    (0xff, 0xff00), (0x1ff, 0xfe00), (0x3ff, 0xfc00),
    (0x7ff, 0xf800), (0xfff, 0xf000), (0x1fff, 0xe000),
    (0x3fff, 0xc000), (0x7fff, 0x8000), (0xffff, 0)
  ]

  /** The first column of row `i` is the low mask `2^i - 1`. */
  lemma PortBitMaskLow(i: nat)
    requires i < 17
    ensures PortBitMask[i].0 == Pow2(i) - 1
  {
    PowersUpTo16();
  }

  /** The second column of row `i` is its complement within sixteen bits,
      the mask of bits `i .. 15`. */
  lemma PortBitMaskHigh(i: nat)
    requires i < 17
    ensures PortBitMask[i].1 == HighMask(16, i)
  {
    PowersUpTo16();
  }

  lemma PowersUpTo16()
    ensures Pow2(0) == 1 && Pow2(1) == 2 && Pow2(2) == 4 && Pow2(3) == 8
    ensures Pow2(4) == 16 && Pow2(5) == 32 && Pow2(6) == 64 && Pow2(7) == 128
    ensures Pow2(8) == 256 && Pow2(9) == 512 && Pow2(10) == 1024 && Pow2(11) == 2048
    ensures Pow2(12) == 4096 && Pow2(13) == 8192 && Pow2(14) == 16384 && Pow2(15) == 32768
    ensures Pow2(16) == 65536
  {
    assert Pow2(0) == 1 && Pow2(1) == 2 && Pow2(2) == 4 && Pow2(3) == 8;
    assert Pow2(4) == 16 && Pow2(5) == 32 && Pow2(6) == 64 && Pow2(7) == 128;
    assert Pow2(8) == 256 && Pow2(9) == 512 && Pow2(10) == 1024 && Pow2(11) == 2048;
    assert Pow2(12) == 4096 && Pow2(13) == 8192 && Pow2(14) == 16384 && Pow2(15) == 32768;
    assert Pow2(16) == 65536;
  }

  /** `x & m` on `int` for a mask `m` below `2^16`: only the low sixteen bits
      of the two's-complement representation of `x` take part. */
  function PortAnd(x: int, m: nat): nat
  {
    BitAnd(x % 0x1_0000, m)
  }

  /** The test of the inner loop for row `i`: the block of `2^i` ports at
      `pos` ends within `end`, and its first and last port agree on the bits
      that `port_bit_mask[i][1]` selects. */
  predicate Fits(pos: int, end: int, i: nat)
    requires 1 <= i < 17
  {
    var pos2 := pos + PortBitMask[i].0;
    !(pos2 > end || PortAnd(pos, PortBitMask[i].1) != PortAnd(pos2, PortBitMask[i].1))
  }

  /** The inner loop from row `i` on: the row before the first failing one,
      or 16 when every row passes. */
  function BlockExponent(pos: int, end: int, i: nat): (e: nat)
    requires 1 <= i <= 17
    ensures i - 1 <= e <= 16
    ensures e >= i ==> pos + PortBitMask[e].0 <= end
    decreases 17 - i
  {
    if i == 17 then 16
    else if !Fits(pos, end, i) then i - 1
    else BlockExponent(pos, end, i + 1)
  }

  /** The inner loop stops at the first row whose test fails: the row it
      settles on passes (unless no row was tried), and the next one fails. */
  lemma {:induction false} BlockExponentStops(pos: int, end: int, i: nat)
    requires 1 <= i <= 17
    ensures BlockExponent(pos, end, i) >= i ==> Fits(pos, end, BlockExponent(pos, end, i))
    ensures BlockExponent(pos, end, i) < 16 ==> !Fits(pos, end, BlockExponent(pos, end, i) + 1)
    decreases 17 - i
  {
    if i < 17 && Fits(pos, end, i) {
      BlockExponentStops(pos, end, i + 1);
    }
  }

  /** The block the inner loop chooses at `pos`: `2^e` ports where `e` is
      the row it settles on, with prefix length `16 - e`. */
  function FirstBlock(pos: int, end: int): (b: PrefixRange)
    requires pos <= end
    ensures b.low == pos && b.high <= end
    ensures 0 <= b.prefixLen <= 16
    ensures b.high == b.low + Pow2(16 - b.prefixLen) - 1
  {
    var e := BlockExponent(pos, end, 1);
    PortBitMaskLow(e);
    PrefixRange(pos, pos + PortBitMask[e].0, 16 - e)
  }

  /** The blocks of `[start, end]`, left to right: the first block, then the
      blocks of what remains after it.  An empty interval (`start > end`) has
      no blocks. */
  function GetPortMask(start: int, end: int): (r: seq<PrefixRange>)
    ensures r == [] <==> start > end
    ensures r != [] ==> r[0].low == start && r[|r| - 1].high == end
    ensures forall k :: 0 <= k < |r| - 1 ==> r[k + 1].low == r[k].high + 1
    ensures forall k :: 0 <= k < |r| ==> start <= r[k].low <= r[k].high <= end && 0 <= r[k].prefixLen <= 16
    decreases end - start + 1
  {
    if start > end then []
    else
      var block := FirstBlock(start, end);
      var rest := GetPortMask(block.high + 1, end);
      var r := [block] + rest;
      assert r[0] == block;
      assert forall k :: 1 <= k < |r| ==> r[k] == rest[k - 1];
      assert rest != [] ==> r[|r| - 1] == rest[|rest| - 1];
      r
  }

  // ---------------------------------------------------------------------
  // Cover and disjointness
  // ---------------------------------------------------------------------

  /** Blocks laid end to end from `start` to `end`. */
  predicate Tiles(r: seq<PrefixRange>, start: int, end: int)
  {
    && (r == [] <==> start > end)
    && (r != [] ==> r[0].low == start && r[|r| - 1].high == end)
    && (forall k :: 0 <= k < |r| ==> r[k].low <= r[k].high)
    && (forall k :: 0 <= k < |r| - 1 ==> r[k + 1].low == r[k].high + 1)
  }

  lemma GetPortMaskTiles(start: int, end: int)
    ensures Tiles(GetPortMask(start, end), start, end)
  {
  }

  /** In a tiling, blocks further right start after every block to their
      left ends. */
  lemma {:induction false} TilesOrdered(r: seq<PrefixRange>, start: int, end: int, a: nat, b: nat)
    requires Tiles(r, start, end) && a < b < |r|
    ensures r[a].high < r[b].low
    decreases b - a
  {
    if b > a + 1 {
      TilesOrdered(r, start, end, a + 1, b);
    }
  }

  /** Some block of `r` holds `x`. */
  predicate InSomeBlock(r: seq<PrefixRange>, x: int)
  {
    exists k :: 0 <= k < |r| && r[k].low <= x <= r[k].high
  }

  /** A tiling covers its interval: some block holds `x` exactly when `x`
      lies in `[start, end]`. */
  lemma {:induction false} TilesCover(r: seq<PrefixRange>, start: int, end: int, x: int)
    requires Tiles(r, start, end)
    ensures InSomeBlock(r, x) <==> start <= x <= end
    decreases |r|
  {
    if InSomeBlock(r, x) {
      var k :| 0 <= k < |r| && r[k].low <= x <= r[k].high;
      if k > 0 {
        TilesOrdered(r, start, end, 0, k);
      }
      if k < |r| - 1 {
        TilesOrdered(r, start, end, k, |r| - 1);
      }
    }
    if start <= x <= end && x > r[0].high {
      var rest := r[1..];
      assert forall k :: 0 <= k < |rest| ==> rest[k] == r[k + 1];
      TilesCover(rest, r[0].high + 1, end, x);
      var k :| 0 <= k < |rest| && rest[k].low <= x <= rest[k].high;
      assert r[k + 1].low <= x <= r[k + 1].high;
    } else if start <= x <= end {
      assert r[0].low <= x <= r[0].high;
    }
  }

  /** The blocks cover exactly `[start, end]`: a port lies in some block if
      and only if it lies in the interval. */
  lemma CoverExact(start: int, end: int, x: int)
    ensures InSomeBlock(GetPortMask(start, end), x) <==> start <= x <= end
  {
    GetPortMaskTiles(start, end);
    TilesCover(GetPortMask(start, end), start, end, x);
  }

  /** No port lies in two blocks. */
  lemma BlocksDisjoint(start: int, end: int, x: int, a: nat, b: nat)
    requires a < b < |GetPortMask(start, end)|
    ensures !(GetPortMask(start, end)[a].low <= x <= GetPortMask(start, end)[a].high &&
              GetPortMask(start, end)[b].low <= x <= GetPortMask(start, end)[b].high)
  {
    GetPortMaskTiles(start, end);
    TilesOrdered(GetPortMask(start, end), start, end, a, b);
  }

  // ---------------------------------------------------------------------
  // Alignment and maximality for sixteen-bit ports
  // ---------------------------------------------------------------------

  /** The last port of a block of `p` starting at `pos` has the same
      quotient by `p` as `pos` exactly when `pos` is a multiple of `p`. */
  lemma AlignedBlockQuotient(pos: nat, p: nat)
    requires p > 0
    ensures (pos + p - 1) / p == pos / p <==> pos % p == 0
  {
    var q, m := pos / p, pos % p;
    DivBounds(pos, p);
    if m == 0 {
      DivModUnique(pos + p - 1, p, q, p - 1);
    } else {
      assert (q + 1) * p == q * p + p;
      DivModUnique(pos + p - 1, p, q + 1, m - 1);
    }
  }

  lemma MulCancel(a: int, b: int, p: int)
    requires p > 0 && a * p == b * p
    ensures a == b
  {
    if a < b {
      assert b * p == a * p + (b - a) * p;
      assert (b - a) * p == (b - a - 1) * p + p;
      MulNonneg(b - a - 1, p);
      assert false;
    } else if a > b {
      assert a * p == b * p + (a - b) * p;
      assert (a - b) * p == (a - b - 1) * p + p;
      MulNonneg(a - b - 1, p);
      assert false;
    }
  }

  /** `x & (2^16 - 2^i)` keeps the multiple of `2^i` below a sixteen-bit `x`. */
  lemma PortAndHigh(x: int, i: nat)
    requires 0 <= x <= 0xffff && i <= 16
    ensures PortAnd(x, HighMask(16, i)) == x / Pow2(i) * Pow2(i)
  {
    Pow2Values();
    DivModUnique(x, 0x1_0000, 0, x);
    BitAndHighMask(x, 16, i);
  }

  /** The table test with the two table entries written as powers of two. */
  lemma FitsUnfold(pos: int, end: int, i: nat)
    requires 1 <= i < 17
    ensures Fits(pos, end, i) <==>
              pos + Pow2(i) - 1 <= end
              && PortAnd(pos, HighMask(16, i)) == PortAnd(pos + Pow2(i) - 1, HighMask(16, i))
  {
    PortBitMaskLow(i);
    PortBitMaskHigh(i);
  }

  /** Two sixteen-bit ports `2^i - 1` apart agree on bits `i .. 15` exactly
      when the first is a multiple of `2^i`. */
  lemma SameHighBits(pos: int, i: nat)
    requires 0 <= pos && pos + Pow2(i) - 1 <= 0xffff && i <= 16
    ensures PortAnd(pos, HighMask(16, i)) == PortAnd(pos + Pow2(i) - 1, HighMask(16, i))
            <==> pos % Pow2(i) == 0
  {
    var p := Pow2(i);
    var pos2 := pos + p - 1;
    PortAndHigh(pos, i);
    PortAndHigh(pos2, i);
    AlignedBlockQuotient(pos, p);
    if pos / p * p == pos2 / p * p {
      MulCancel(pos / p, pos2 / p, p);
    }
  }

  /** Inside the sixteen-bit port space the table test is the textbook one:
      the block of `2^i` ports at `pos` fits when `pos` is a multiple of
      `2^i` and the block ends within `end`. */
  lemma FitsAligned(pos: int, end: int, i: nat)
    requires 1 <= i < 17 && 0 <= pos && end <= 0xffff
    ensures Fits(pos, end, i) <==> pos % Pow2(i) == 0 && pos + Pow2(i) - 1 <= end
  {
    FitsUnfold(pos, end, i);
    if pos + Pow2(i) - 1 <= end {
      SameHighBits(pos, i);
    }
  }

  /** The condition "aligned to `2^b` and inside `[pos, end]`" gets weaker
      as the block shrinks. */
  lemma AlignedFitMonotone(pos: int, end: int, a: nat, b: nat)
    requires 0 <= pos && a <= b
    requires pos % Pow2(b) == 0 && pos + Pow2(b) - 1 <= end
    ensures pos % Pow2(a) == 0 && pos + Pow2(a) - 1 <= end
  {
    var pa, pb, pd := Pow2(a), Pow2(b), Pow2(b - a);
    Pow2Monotone(a, b);
    Pow2Add(b - a, a);
    var q := pos / pb;
    DivBounds(pos, pb);
    assert pos == q * pb;
    MulAssoc(q, pd, pa);
    MulNonneg(q, pd);
    MulMod(q * pd, pa);
  }

  lemma MulAssoc(a: int, b: int, c: int)
    ensures a * (b * c) == (a * b) * c
  {
  }

  /** Inside the sixteen-bit port space the block chosen at `pos` is aligned
      to its size, and the block twice as large would be misaligned or run
      past `end`. */
  lemma FirstBlockAligned(pos: int, end: int)
    requires 0 <= pos <= end <= 0xffff
    ensures var b := FirstBlock(pos, end);
            && b.low % Pow2(16 - b.prefixLen) == 0
            && (b.prefixLen > 0 ==>
                  b.low % Pow2(17 - b.prefixLen) != 0 || b.low + Pow2(17 - b.prefixLen) - 1 > end)
  {
    var e := BlockExponent(pos, end, 1);
    BlockExponentStops(pos, end, 1);
    if e >= 1 {
      FitsAligned(pos, end, e);
    } else {
      DivModUnique(pos, 1, pos, 0);
    }
    if e < 16 {
      FitsAligned(pos, end, e + 1);
    }
  }

  /** The greedy choice pinned down: at `pos` the loop takes exactly the
      largest aligned block that ends within `end`. */
  lemma FirstBlockExact(pos: int, end: int, e: nat)
    requires 0 <= pos <= end <= 0xffff && e <= 16
    requires pos % Pow2(e) == 0 && pos + Pow2(e) - 1 <= end
    requires e < 16 ==> !(pos % Pow2(e + 1) == 0 && pos + Pow2(e + 1) - 1 <= end)
    ensures FirstBlock(pos, end) == PrefixRange(pos, pos + Pow2(e) - 1, 16 - e)
  {
    var b := FirstBlock(pos, end);
    FirstBlockAligned(pos, end);
    LargestAlignedUnique(pos, end, e, 16 - b.prefixLen);
  }

  /** "Aligned to `2^e`, inside `[pos, end]`, and not so for `2^(e+1)`"
      determines `e`. */
  lemma LargestAlignedUnique(pos: int, end: int, e: nat, e': nat)
    requires 0 <= pos && e <= 16 && e' <= 16
    requires pos % Pow2(e) == 0 && pos + Pow2(e) - 1 <= end
    requires e < 16 ==> !(pos % Pow2(e + 1) == 0 && pos + Pow2(e + 1) - 1 <= end)
    requires pos % Pow2(e') == 0 && pos + Pow2(e') - 1 <= end
    requires e' < 16 ==> !(pos % Pow2(e' + 1) == 0 && pos + Pow2(e' + 1) - 1 <= end)
    ensures e == e'
  {
    if e' < e {
      AlignedFitMonotone(pos, end, e' + 1, e);
    } else if e' > e {
      AlignedFitMonotone(pos, end, e + 1, e');
    }
  }

  /** One step of the outer loop. */
  lemma GetPortMaskUnfold(start: int, end: int)
    requires start <= end
    ensures GetPortMask(start, end)
            == [FirstBlock(start, end)] + GetPortMask(FirstBlock(start, end).high + 1, end)
  {
  }

  /** Every block is the one the inner loop chooses at its own start. */
  lemma {:induction false} BlockIsFirst(start: int, end: int, k: nat)
    requires k < |GetPortMask(start, end)|
    ensures GetPortMask(start, end)[k] == FirstBlock(GetPortMask(start, end)[k].low, end)
    decreases k
  {
    GetPortMaskUnfold(start, end);
    var next := FirstBlock(start, end).high + 1;
    if k > 0 {
      BlockIsFirst(next, end, k - 1);
      assert GetPortMask(start, end)[k] == GetPortMask(next, end)[k - 1];
    }
  }

  /** Every block holds `2^(16 - prefixLen)` ports. */
  lemma BlockShape(start: int, end: int, k: nat)
    requires k < |GetPortMask(start, end)|
    ensures var b := GetPortMask(start, end)[k];
            b.high == b.low + Pow2(16 - b.prefixLen) - 1
  {
    BlockIsFirst(start, end, k);
  }

  /** Every block of a sixteen-bit interval is aligned to its own size, and
      the block twice as large would be misaligned or run past `end`. */
  lemma BlocksAlignedMaximal(start: int, end: int, k: nat)
    requires 0 <= start && end <= 0xffff && k < |GetPortMask(start, end)|
    ensures var b := GetPortMask(start, end)[k];
            && b.low % Pow2(16 - b.prefixLen) == 0
            && (b.prefixLen > 0 ==>
                  b.low % Pow2(17 - b.prefixLen) != 0 || b.low + Pow2(17 - b.prefixLen) - 1 > end)
  {
    var b := GetPortMask(start, end)[k];
    BlockIsFirst(start, end, k);
    FirstBlockAligned(b.low, end);
  }

  // ---------------------------------------------------------------------
  // Examples
  // ---------------------------------------------------------------------

  /** The whole port space is one block with prefix length 0. */
  lemma FullRangeSingleBlock()
    ensures GetPortMask(0, 0xffff) == [PrefixRange(0, 0xffff, 0)]
  {
    Pow2Values();
    FirstBlockExact(0, 0xffff, 16);
    assert GetPortMask(0x1_0000, 0xffff) == [];
  }

  /** `[0, 3]` is one block of four ports. */
  lemma BlockOfFour()
    ensures GetPortMask(0, 3) == [PrefixRange(0, 3, 14)]
  {
    PowersUpTo16();
    FirstBlockExact(0, 3, 2);
    GetPortMaskUnfold(0, 3);
    assert GetPortMask(4, 3) == [];
  }

  /** `[5, 5]` is a single port. */
  lemma SinglePort()
    ensures GetPortMask(5, 5) == [PrefixRange(5, 5, 16)]
  {
    PowersUpTo16();
    FirstBlockExact(5, 5, 0);
    GetPortMaskUnfold(5, 5);
    assert GetPortMask(6, 5) == [];
  }

  /** `[4, 5]` is one aligned block of two ports. */
  lemma BlockOfTwo()
    ensures GetPortMask(4, 5) == [PrefixRange(4, 5, 15)]
  {
    PowersUpTo16();
    FirstBlockExact(4, 5, 1);
    GetPortMaskUnfold(4, 5);
    assert GetPortMask(6, 5) == [];
  }

  /** `[0, 5]` is a block of four followed by a block of two. */
  lemma FourThenTwo()
    ensures GetPortMask(0, 5) == [PrefixRange(0, 3, 14), PrefixRange(4, 5, 15)]
  {
    PowersUpTo16();
    FirstBlockExact(0, 5, 2);
    GetPortMaskUnfold(0, 5);
    BlockOfTwo();
  }
}
