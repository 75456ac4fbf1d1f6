/**
 * The geometry of `BlendOnSurface` in the experimental old-movie layer: the blur
 * averages the picture with a copy of itself shifted by `(rx, ry)`, over a clip
 * rectangle. The blend reads the shifted copy from column `clip.x - rx` and row
 * `clip.y - ry`; rows above the picture are skipped and copied unblurred
 * afterwards, and the rightmost column is copied unblurred when the shifted
 * copy does not reach it.
 */
module Blur {

  datatype Rect = Rect(x: int, y: int, w: int, h: int)

  /** A clip rectangle on a `width` by `height` picture. */
  predicate OnScreen(clip: Rect, width: int, height: int)
  {
    0 <= clip.x && 0 <= clip.w && clip.x + clip.w <= width
    && 0 <= clip.y && 0 <= clip.h && clip.y + clip.h <= height
  }

  /** The blend of one clip rectangle: the shifted copy's first column and row, the
    * `left` columns copied unblurred before the `cols` blended ones, the `skip` rows
    * copied unblurred above the `rows` blended ones, and the first column `fixFrom`
    * of the unblurred copy that runs to the clip's right edge. */
  datatype Plan = Plan(srcx: int, srcy: int, left: int, cols: int, skip: int, rows: int, fixFrom: int)

  /** The plan as the program computes it: no columns skipped at the left, as many
    * rows skipped as lie above the picture, and the picture's last column fixed up
    * whenever `rx` is not 0 and the clip reaches the right edge. */
  function PlanAsWritten(width: int, clip: Rect, rx: int, ry: int): Plan
  {
    var srcx := clip.x - rx;
    var srcy := clip.y - ry;
    var cols := if srcx + clip.w > width then width - srcx else clip.w;
    var skip := if srcy < 0 then -srcy else 0;
    var fixFrom := if rx != 0 && clip.x + clip.w >= width then width - 1 else clip.x + clip.w;
    Plan(srcx, srcy, 0, cols, skip, clip.h - skip, fixFrom)
  }

  function Max(a: int, b: int): int
  {
    if a >= b then a else b
  }

  function Min(a: int, b: int): int
  {
    if a <= b then a else b
  }

  /** The plan with the shifted copy clipped on all four sides: the columns whose
    * shifted source lies left of the picture are copied unblurred like the rows above
    * it, no more rows are skipped than the clip has, and every column right of the
    * blended ones is copied unblurred. */
  function BlendPlan(width: int, clip: Rect, rx: int, ry: int): Plan
  {
    var srcx := clip.x - rx;
    var srcy := clip.y - ry;
    var left := Min(Max(-srcx, 0), clip.w);
    var cols := Max(Min(clip.w, width - srcx) - left, 0);
    var skip := Min(Max(-srcy, 0), clip.h);
    Plan(srcx, srcy, left, cols, skip, clip.h - skip, clip.x + left + cols)
  }

  /** Every pixel the blend reads from the shifted copy lies on the picture, and the
    * loop over the blended rows counts down from a non-negative number. */
  predicate ReadsOnScreen(p: Plan, width: int, height: int)
  {
    p.rows >= 0 && p.cols >= 0 && p.left >= 0
    && (p.rows > 0 && p.cols > 0 ==>
          0 <= p.srcx + p.left && p.srcx + p.left + p.cols <= width
          && 0 <= p.srcy + p.skip && p.srcy + p.skip + p.rows <= height)
  }

  /** Every pixel of the clip is either blended or copied: the skipped and blended rows
    * make up the clip's height, and the left, blended and fixed-up right columns its
    * width. */
  predicate CoversClip(p: Plan, clip: Rect)
  {
    p.skip + p.rows == clip.h && p.left + p.cols <= clip.w && p.fixFrom <= clip.x + p.left + p.cols
  }

  // ================================================================ properties

  /** For the offsets the fix-ups were written for, a horizontal offset of `-1` or `0`
    * and a vertical one no larger than the clip's bottom, the program's plan for a
    * clip at least one column wide reads only the picture, covers the clip, and
    * blends what the clipped plan blends. */
  lemma AsWrittenSafe(width: int, height: int, clip: Rect, rx: int, ry: int)
    requires OnScreen(clip, width, height) && 0 < clip.w && -1 <= rx <= 0 && 0 <= ry <= clip.y + clip.h
    ensures ReadsOnScreen(PlanAsWritten(width, clip, rx, ry), width, height)
    ensures CoversClip(PlanAsWritten(width, clip, rx, ry), clip)
    ensures var p := PlanAsWritten(width, clip, rx, ry); var q := BlendPlan(width, clip, rx, ry);
      p.cols == q.cols && p.left == q.left && p.skip == q.skip && p.rows == q.rows
  {
  }

  /** A horizontal offset of 1 on a full-screen clip starts the shifted copy one
    * pixel before the picture's first one. */
  lemma AsWrittenReadsBefore(width: int, height: int)
    requires width > 1 && height > 0
    ensures var p := PlanAsWritten(width, Rect(0, 0, width, height), 1, 0);
      p.srcx + p.left == -1 && p.srcy + p.skip == 0 && p.rows > 0 && p.cols > 0
    ensures !ReadsOnScreen(PlanAsWritten(width, Rect(0, 0, width, height), 1, 0), width, height)
  {
  }

  /** A vertical offset of 2 on a clip one row high at the top of the picture skips
    * two rows, leaving `-1` blended rows: the countdown `while (rows--)` does not stop at 0. */
  lemma AsWrittenRowsNegative(width: int, height: int)
    requires width > 0 && height > 0
    ensures PlanAsWritten(width, Rect(0, 0, width, 1), 0, 2).rows == -1
  {
  }

  /** The clipped plan reads only the picture and covers the clip for every offset
    * with a non-negative vertical part. */
  lemma PlanSafe(width: int, height: int, clip: Rect, rx: int, ry: int)
    requires OnScreen(clip, width, height) && 0 <= ry
    ensures ReadsOnScreen(BlendPlan(width, clip, rx, ry), width, height)
    ensures CoversClip(BlendPlan(width, clip, rx, ry), clip)
  {
  }
}
