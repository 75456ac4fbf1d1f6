/**
 * `generateMosaic`: the mosaic effects redraw the screen in square blocks, each
 * filled with one sample of the picture. Blocks are laid out from the bottom
 * row up and from the left column on; a block's sample is its bottom-left
 * pixel, and the blocks at the top and right edges are clipped to the screen.
 * Pictures are arrays indexed by row and column.
 */
module Mosaic {
  import opened Bytes

  /** `160 >> level`, as the loop halving 160 `level` times computes it. */
  function BlockSize(level: int): nat
    decreases level
  {
    if level <= 0 then 160 else BlockSize(level - 1) / 2
  }

  /** The bottom row of the block holding row `y` of an `h`-row picture cut into
    * `w`-row blocks from the bottom up. */
  function RowAnchor(h: int, w: int, y: int): int
    requires w > 0
  {
    h - 1 - ((h - 1 - y) / w) * w
  }

  /** The left column of the block holding column `x`. */
  function ColAnchor(w: int, x: int): int
    requires w > 0
  {
    (x / w) * w
  }

  /** The sample a pixel takes: the bottom-left pixel of its block. */
  function Sample<T>(src: array2<T>, w: int, y: int, x: int): T
    reads src
    requires w > 0 && 0 <= y < src.Length0 && 0 <= x < src.Length1
  {
    AnchorNear(src.Length0, w, y, x);
    src[RowAnchor(src.Length0, w, y), ColAnchor(w, x)]
  }

  /** The block width: 160 halved `level` times. */
  method BlockWidth(level: int) returns (width: nat)
    ensures width == BlockSize(level)
  {
    width := 160;
    var i := 0;
    while i < level
      invariant 0 <= i && (level >= 0 ==> i <= level) && (level < 0 ==> i == 0)
      invariant width == BlockSize(i)
    {
      width := width / 2;
      i := i + 1;
    }
  }

  /** Fills the picture `acc` from `src` with blocks of the size `level` gives; every
    * pixel becomes the sample at the bottom-left corner of its block. */
  method GenerateMosaic<T>(src: array2<T>, acc: array2<T>, level: int)
    requires src != acc
    requires src.Length0 == acc.Length0 && src.Length1 == acc.Length1
    requires BlockSize(level) > 0
    modifies acc
    ensures forall y, x :: 0 <= y < acc.Length0 && 0 <= x < acc.Length1 ==>
      acc[y, x] == Sample(src, BlockSize(level), y, x)
  {
    var width := BlockWidth(level);
    var h := acc.Length0;
    var i := h - 1;
    ghost var k := 0;
    while i >= 0
      invariant k >= 0 && i == h - 1 - k * width
      invariant forall y, x :: 0 <= y < h && 0 <= x < acc.Length1 ==>
        acc[y, x] == if i < y then Sample(src, width, y, x) else old(acc[y, x])
    {
      BlockRow(src, acc, i, width, k);
      assert i - width == h - 1 - (k + 1) * width;
      i := i - width;
      k := k + 1;
    }
  }

  /** One row of blocks: the rows `i - width + 1 .. i` (clipped at the top), each
    * block filled with the sample at row `i` and its left column. */
  method BlockRow<T>(src: array2<T>, acc: array2<T>, i: int, width: nat, ghost k: nat)
    requires src != acc
    requires src.Length0 == acc.Length0 && src.Length1 == acc.Length1
    requires width > 0 && 0 <= i < acc.Length0 && i == acc.Length0 - 1 - k * width
    requires forall y, x :: 0 <= y < acc.Length0 && 0 <= x < acc.Length1 && i < y ==>
      acc[y, x] == Sample(src, width, y, x)
    modifies acc
    ensures forall y, x :: 0 <= y < acc.Length0 && 0 <= x < acc.Length1 ==>
      acc[y, x] == if i - width < y then Sample(src, width, y, x) else old(acc[y, x])
  {
    ghost var h := acc.Length0;
    forall y | i - width < y <= i && 0 <= y
      ensures RowAnchor(h, width, y) == i
    {
      DivUnique(h - 1 - y, width, k, i - y);
    }
    var j := 0;
    ghost var m := 0;
    while j < acc.Length1
      invariant m >= 0 && j == m * width
      invariant forall y, x :: 0 <= y < h && 0 <= x < acc.Length1 ==>
        acc[y, x] == if i - width < y <= i && x < j then src[i, ColAnchor(width, x)]
                     else old(acc[y, x])
    {
      var p := src[i, j];
      var height2 := if i + 1 - width < 0 then i + 1 else width;
      var width2 := if j + width > acc.Length1 then acc.Length1 - j else width;
      forall x | j <= x < j + width2
        ensures ColAnchor(width, x) == j
      {
        DivUnique(x, width, m, x - j);
      }
      FillBlock(acc, i, height2, j, width2, p);
      assert j + width == (m + 1) * width;
      j := j + width;
      m := m + 1;
    }
  }

  /** Fills rows `i - height2 + 1 .. i` and columns `j .. j + width2 - 1` with `p`. */
  method FillBlock<T>(acc: array2<T>, i: int, height2: int, j: int, width2: int, p: T)
    requires 0 <= i - height2 + 1 && i < acc.Length0 && height2 >= 0
    requires 0 <= j && 0 <= width2 && j + width2 <= acc.Length1
    modifies acc
    ensures forall y, x :: 0 <= y < acc.Length0 && 0 <= x < acc.Length1 ==>
      acc[y, x] == if i - height2 < y <= i && j <= x < j + width2 then p else old(acc[y, x])
  {
    for ii := 0 to height2
      invariant forall y, x :: 0 <= y < acc.Length0 && 0 <= x < acc.Length1 ==>
        acc[y, x] == if i - ii < y <= i && j <= x < j + width2 then p else old(acc[y, x])
    {
      for jj := 0 to width2
        invariant forall y, x :: 0 <= y < acc.Length0 && 0 <= x < acc.Length1 ==>
          acc[y, x] == if (i - ii < y <= i && j <= x < j + width2) || (y == i - ii && j <= x < j + jj)
                       then p else old(acc[y, x])
      {
        acc[i - ii, j + jj] := p;
      }
    }
  }

  // ================================================================ properties

  /** The block widths of the mosaic levels 0 to 5 are 160, 80, 40, 20, 10 and 5: 160
    * halved without remainder. Levels up to 7 still give a positive width; from level
    * 8 on the width is 0. */
  lemma {:induction false} BlockSizes(level: int)
    ensures 0 <= level <= 5 ==> BlockSize(level) * Pow2(level) == 160
    ensures BlockSize(level) > 0 <==> level <= 7
    decreases level
  {
    if level > 0 {
      BlockSizes(level - 1);
      if level <= 5 {
        assert Pow2(level) == 2 * Pow2(level - 1);
        assert BlockSize(level - 1) % 2 == 0 by {
          assert level - 1 <= 4;
          if level - 1 == 0 { } else if level - 1 == 1 {
            assert BlockSize(1) == 80;
          } else if level - 1 == 2 {
            assert BlockSize(2) == 40;
          } else if level - 1 == 3 {
            assert BlockSize(3) == 20;
          } else {
            assert BlockSize(4) == 10;
          }
        }
      }
      if level == 8 {
        assert BlockSize(7) == 1;
      } else if level == 7 {
        assert BlockSize(6) == 2;
      }
    }
  }

  /** Every pixel's sample lies in its own block: at most `w - 1` rows below and
    * columns left of it, and on the picture. */
  lemma AnchorNear(h: int, w: int, y: int, x: int)
    requires w > 0 && 0 <= y < h && 0 <= x
    ensures y <= RowAnchor(h, w, y) < h && RowAnchor(h, w, y) - y < w
    ensures 0 <= ColAnchor(w, x) <= x && x - ColAnchor(w, x) < w
  {
    DivNat(h - 1 - y, w);
    DivNat(x, w);
  }
}
