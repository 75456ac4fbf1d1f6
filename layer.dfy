/**
 * The `OldMovieLayer` of `Layer.cpp`: an overlay that blurs the picture by a
 * random offset, darkens it with one of ten noise screens, brightens it with a
 * glow row and draws scratches. `init` generates the noise and glow surfaces;
 * `update` re-rolls the frame parameters once a frame.
 */
module MovieLayer {
  import opened Bytes
  import opened Pixel
  import opened Scratches
  import opened MovieFrame

  /** The number of scratch objects. */
  const ScratchObjects := 6

  class OldMovieLayer {
    const width: int
    const height: int
    /** The number of glow rows; `Layer.cpp` uses it without defining it. */
    const maxGlow: int
    const scratches: ScratchSet
    /** The blur offset, the noise screen, the glow row and the glow direction. */
    var rx: int
    var ry: int
    var ns: int
    var gv: int
    var go: int
    var initialized: bool
    /** Ten noise screens of `width * height` pixels, and one pixel per glow row. */
    var noise: array2<pixel>
    var glow: array<pixel>

    /** The layer's own fields: a glow row on the glow surface, surfaces of the screen's size. */
    ghost predicate Shape()
      reads this
    {
      width > 20 && height >= 0 && maxGlow >= 2 && initialized
      && GlowInRange(gv, go, maxGlow)
      && noise.Length0 == 10 && noise.Length1 == width * height && glow.Length == maxGlow
    }

    ghost predicate Valid()
      reads this, scratches, scratches.items, scratches.tally
    {
      Shape() && scratches.Valid() && scratches.HasWidth(width) && scratches.tally.count <= 4
    }

    /** A layer for a `w` by `h` screen, initialised at once. */
    constructor(w: int, h: int, maxGlow: int)
      requires w > 20 && h >= 0 && maxGlow >= 2
      ensures width == w && height == h && this.maxGlow == maxGlow
      ensures Valid() && gv == 0 && go == 1
      ensures forall i, j :: 0 <= i < noise.Length0 && 0 <= j < noise.Length1 ==> IsNoise(noise[i, j], 6, 6)
      ensures forall y :: 0 <= y < glow.Length ==> glow[y] == Grey(GlowShade(maxGlow, y))
    {
      width, height, this.maxGlow := w, h, maxGlow;
      scratches := new ScratchSet(ScratchObjects, w);
      noise := new pixel[0, 0];
      glow := new pixel[0];
      new;
      Init();
    }

    /** `init`: the glow starts at row 0 going up, every scratch gets the layer's width,
      * ten screens of noise in the grey levels `0, 6, .., 30` and one grey glow row
      * `y * (26 / maxGlow) + 4` per glow level are generated. */
    method Init()
      requires width > 20 && height >= 0 && maxGlow >= 2
      requires scratches.Valid() && scratches.tally.count <= 4
      modifies this, scratches.items
      ensures Valid() && gv == 0 && go == 1
      ensures fresh(noise) && fresh(glow)
      ensures forall i, j :: 0 <= i < noise.Length0 && 0 <= j < noise.Length1 ==> IsNoise(noise[i, j], 6, 6)
      ensures forall y :: 0 <= y < glow.Length ==> glow[y] == Grey(GlowShade(maxGlow, y))
    {
      gv := 0;
      go := 1;
      scratches.SetWindow(width);
      noise, glow := Surfaces(width, height, maxGlow);
      initialized := true;
    }

    /** `update`: a blur offset in `-2 .. 1` by `0 .. 1` and a noise screen, each
      * different from the last frame's, the next glow row, and one frame of every
      * scratch with at most four visible. */
    method Update()
      requires Valid()
      modifies this, scratches.items, scratches.tally
      ensures Valid()
      ensures -2 <= rx <= 1 && 0 <= ry <= 1 && (rx != old(rx) || ry != old(ry))
      ensures 0 <= ns <= 9 && ns != old(ns)
      ensures (gv, go) == GlowStep(old(gv), old(go), maxGlow)
      ensures noise == old(noise) && glow == old(glow)
      ensures forall i :: 0 <= i < |scratches.items| ==>
        Stepped(old(scratches.States())[i], scratches.States()[i], width)
    {
      Roll();
      scratches.UpdateCapped(width);
    }

    /** The frame parameters of `update`. */
    method Roll()
      requires Shape()
      modifies this
      ensures Shape()
      ensures -2 <= rx <= 1 && 0 <= ry <= 1 && (rx != old(rx) || ry != old(ry))
      ensures 0 <= ns <= 9 && ns != old(ns)
      ensures (gv, go) == GlowStep(old(gv), old(go), maxGlow)
      ensures noise == old(noise) && glow == old(glow)
    {
      rx, ry := PickOffset(-2, 1, 1, rx, ry);
      ns := PickNoise(ns);
      GlowBounce(gv, go, maxGlow);
      var next := GlowStep(gv, go, maxGlow);
      gv, go := next.0, next.1;
    }
  }

  /** The surfaces `init` allocates: ten `width * height` screens of noise in the grey
    * levels `0, 6, .., 30`, and one grey glow row `y * (26 / maxGlow) + 4` per level. */
  method Surfaces(width: int, height: int, maxGlow: int) returns (noise: array2<pixel>, glow: array<pixel>)
    requires width >= 0 && height >= 0 && maxGlow >= 1
    ensures fresh(noise) && fresh(glow)
    ensures noise.Length0 == 10 && noise.Length1 == width * height && glow.Length == maxGlow
    ensures forall i, j :: 0 <= i < noise.Length0 && 0 <= j < noise.Length1 ==> IsNoise(noise[i, j], 6, 6)
    ensures forall y :: 0 <= y < glow.Length ==> glow[y] == Grey(GlowShade(maxGlow, y))
  {
    MulMono(0, width, height);
    noise := new pixel[10, width * height];
    FillNoise(noise, 6, 6);
    glow := new pixel[maxGlow];
    FillGlow(glow, seq(maxGlow, y requires 0 <= y < maxGlow => GlowShade(maxGlow, y)));
  }
}
