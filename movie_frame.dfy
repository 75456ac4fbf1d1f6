/**
 * The per-frame parameters every revision of the old-movie effect draws: a blur
 * offset and a noise screen, each re-rolled until it differs from the previous
 * frame's, and a glow level that walks up and down between its limits.
 */
module MovieFrame {
  import opened Bytes

  /** `gv += go`, then the two reversals at the ends: reaching `maxGlow` steps back to
    * `maxGlow - 2` going down, reaching `-1` steps back to `1` going up. */
  function GlowStep(gv: int, go: int, maxGlow: int): (int, int)
  {
    var g := gv + go;
    var (g1, o1) := if g == maxGlow then (maxGlow - 2, -1) else (g, go);
    if g1 == -1 then (1, 1) else (g1, o1)
  }

  /** The glow level is a row of the glow surface, and the direction is a unit step. */
  predicate GlowInRange(gv: int, go: int, maxGlow: int)
  {
    0 <= gv < maxGlow && (go == 1 || go == -1)
  }

  /** The blur offset of the next frame: `rx` in `xlo .. xhi` and `ry` in `0 .. yhi`,
    * re-rolled until the pair differs from the previous frame's. */
  method PickOffset(xlo: int, xhi: int, yhi: int, lastX: int, lastY: int) returns (rx: int, ry: int)
    requires xlo < xhi && 0 <= yhi
    ensures xlo <= rx <= xhi && 0 <= ry <= yhi
    ensures rx != lastX || ry != lastY
  {
    var x0 := if lastX != xlo then xlo else xhi;
    assert xlo <= x0 <= xhi && 0 <= 0 <= yhi && (x0 != lastX || 0 != lastY);
    rx, ry :| xlo <= rx <= xhi && 0 <= ry <= yhi && (rx != lastX || ry != lastY);
  }

  /** The noise screen of the next frame: one of the ten, re-rolled until it differs
    * from the previous one. */
  method PickNoise(last: int) returns (ns: int)
    ensures 0 <= ns <= 9 && ns != last
  {
    var n0 := if last == 0 then 1 else 0;
    assert 0 <= n0 <= 9 && n0 != last;
    ns :| 0 <= ns <= 9 && ns != last;
  }

  /** The grey level of glow row `y`: `y * (26 / maxGlow) + 4`. */
  function GlowShade(maxGlow: int, y: int): byte
    requires maxGlow > 0 && 0 <= y < maxGlow
  {
    GlowRowsFit(maxGlow, y);
    y * (26 / maxGlow) + 4
  }

  // ================================================================ properties

  /** The glow step keeps the level on the glow surface and the direction a unit step,
    * and the direction reverses exactly when the step would leave `0 .. maxGlow - 1`. */
  lemma GlowBounce(gv: int, go: int, maxGlow: int)
    requires maxGlow >= 2 && GlowInRange(gv, go, maxGlow)
    ensures GlowInRange(GlowStep(gv, go, maxGlow).0, GlowStep(gv, go, maxGlow).1, maxGlow)
    ensures GlowStep(gv, go, maxGlow).1 != go <==> (gv + go == maxGlow || gv + go == -1)
    ensures GlowStep(gv, go, maxGlow).1 == go ==> GlowStep(gv, go, maxGlow).0 == gv + go
  {
  }

  /** From `gv = 0, go = 1`, any number of glow steps stays in range. */
  lemma {:induction false} GlowStaysInRange(n: nat, maxGlow: int)
    requires maxGlow >= 2
    ensures GlowInRange(GlowAfter(n, maxGlow).0, GlowAfter(n, maxGlow).1, maxGlow)
  {
    if n > 0 {
      GlowStaysInRange(n - 1, maxGlow);
      GlowBounce(GlowAfter(n - 1, maxGlow).0, GlowAfter(n - 1, maxGlow).1, maxGlow);
    }
  }

  /** The glow level and direction after `n` frames from `gv = 0, go = 1`. */
  function GlowAfter(n: nat, maxGlow: int): (int, int)
  {
    if n == 0 then (0, 1)
    else GlowStep(GlowAfter(n - 1, maxGlow).0, GlowAfter(n - 1, maxGlow).1, maxGlow)
  }

  /** Row `y < maxGlow` of the glow surface `y * (26 / maxGlow) + 4` is a byte: at most 30. */
  lemma GlowRowsFit(maxGlow: int, y: int)
    requires maxGlow > 0 && 0 <= y < maxGlow
    ensures y * (26 / maxGlow) + 4 <= 30
  {
    MulMono(y, maxGlow, 26 / maxGlow);
    DivNat(26, maxGlow);
    assert maxGlow * (26 / maxGlow) <= 26;
  }
}
