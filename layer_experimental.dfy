/**
 * The `OldMovieLayer` of the experimental-effects branch. Its levels are set by an
 * `s|` message and clamped to their ranges; `om_init` generates the noise screens
 * in steps of 2 up to twice the noise level and 25 glow rows; `update` re-rolls a
 * blur offset whose range grows with the blur level; `refresh` draws the blur,
 * noise, glow and scratch passes that have a positive level.
 *
 * The scratches, the surfaces, the visible-scratch counter and the reference count
 * `om_count` are file-level variables every layer shares; they live in `Globals`.
 * The flag that the surfaces exist is never set, so every `om_init` generates them.
 */
module ExperimentalLayer {
  import opened Bytes
  import opened Pixel
  import opened Scratches
  import opened MovieFrame
  import opened MovieMessage
  import Blur

  /** The number of scratch objects. */
  const ScratchObjects := 6
  /** The glow level walks through `0 .. GlowLevels - 1`. */
  const GlowLevels := 5
  /** The number of rows of the glow surface (`max_glow`). */
  const GlowRows := 25
  /** Message field 6 names a sprite below this number. */
  const MaxSpriteNum := 1000

  /** `v` clamped to `0 .. hi`, as each level of a message is. */
  function Limit(v: int, hi: int): (r: int)
    requires hi >= 0
    ensures 0 <= r <= hi
    ensures 0 <= v <= hi ==> r == v
    ensures r == 0 || r == hi || r == v
  {
    if v < 0 then 0 else if v > hi then hi else v
  }

  /** The grey level of glow row `y`: `y * 30 / 25 + 4`. */
  function GlowRowShade(y: int): (b: byte)
    requires 0 <= y < GlowRows
    ensures 4 <= b <= 32
  {
    y * 30 / GlowRows + 4
  }

  /** The row of the glow surface `refresh` adds: `gv * glow_level / 4`. */
  function GlowRow(gv: int, glowLevel: int): int
  {
    gv * glowLevel / 4
  }

  /** The file-level state every layer shares. */
  class Globals {
    var omCount: int
    /** Whether the surfaces exist; nothing sets it. */
    var surfacesReady: bool
    var noise: array2<pixel>
    var glow: array<pixel>
    const scratches: ScratchSet

    /** Six scratches keeping their counter, and the surfaces never marked as existing. */
    ghost predicate Valid()
      reads this, scratches, scratches.items, scratches.tally
    {
      scratches.Valid() && |scratches.items| == ScratchObjects && !surfacesReady
    }

    /** The scratches and surfaces were made for a `width` by `height` layer. */
    ghost predicate Fits(width: int, height: int)
      reads this, scratches, scratches.items
    {
      scratches.HasWidth(width)
      && noise.Length0 == 10 && noise.Length1 == width * height && glow.Length == GlowRows
    }

    /** The program's start: no layer initialised, six invisible scratches, no surfaces. */
    constructor()
      ensures omCount == 0 && Valid() && scratches.tally.count == 0
      ensures fresh(scratches) && fresh(scratches.tally) && fresh(scratches.items)
    {
      omCount := 0;
      surfacesReady := false;
      noise := new pixel[0, 0];
      glow := new pixel[0];
      scratches := new ScratchSet(ScratchObjects, 0);
    }

    /** The shared half of `om_init`: one more initialised layer and, since the
      * surfaces are never marked as existing, the scratches set to the layer's size,
      * ten screens of noise in the grey levels `0, 2, .., 2 * noiseLevel` and the 25
      * glow rows. */
    method Attach(width: int, height: int, noiseLevel: int)
      requires Valid() && width >= 0 && height >= 0 && 0 <= noiseLevel <= 24
      modifies this, scratches.items
      ensures Valid() && Fits(width, height)
      ensures omCount == old(omCount) + 1
      ensures scratches.tally.count == old(scratches.tally.count)
      ensures fresh(noise) && fresh(glow)
      ensures forall i, j :: 0 <= i < noise.Length0 && 0 <= j < noise.Length1 ==> IsNoise(noise[i, j], 2, noiseLevel + 1)
      ensures forall y :: 0 <= y < glow.Length ==> glow[y] == Grey(GlowRowShade(y))
    {
      omCount := omCount + 1;
      if !surfacesReady {
        scratches.SetWindow(width);
        noise, glow := Surfaces(width, height, noiseLevel);
      }
    }
  }

  /** A pass `refresh` draws over the clip: the blur with its plan, the subtraction
    * of a noise screen, the addition of a glow row, or the scratches. */
  datatype Pass = BlendPass(plan: Blur.Plan) | NoisePass(screen: int) | GlowPass(row: int) | ScratchPass

  class OldMovieLayer {
    const width: int
    const height: int
    const globals: Globals
    var blurLevel: int
    var noiseLevel: int
    var glowLevel: int
    var scratchLevel: int
    var dustLevel: int
    /** The index of the dust sprite, `-1` before a message names one. */
    var dustSprite: int
    var rx: int
    var ry: int
    var ns: int
    var gv: int
    var go: int
    var initialized: bool

    /** The levels within their ranges and a noise screen that exists. */
    ghost predicate Ranges()
      reads this
    {
      width > 20 && height >= 0
      && 0 <= blurLevel <= 3 && 0 <= noiseLevel <= 24 && 0 <= glowLevel <= 24
      && 0 <= scratchLevel <= 400 && 0 <= dustLevel <= 400
      && 0 <= ns <= 9
    }

    /** The layer's own fields: the levels within their ranges and, once initialised,
      * a glow level on its walk and the blur offset within the blur level's range (or
      * reset to 0). */
    ghost predicate Levels()
      reads this
    {
      Ranges()
      && (initialized ==>
            GlowInRange(gv, go, GlowLevels)
            && ((rx == 0 && ry == 0) || (-1 <= rx <= blurLevel - 1 && 0 <= ry <= blurLevel)))
    }

    /** The shared state: six scratches and, once initialised, scratches and surfaces
      * made for this layer's size. */
    ghost predicate Shared()
      reads this, globals, globals.scratches, globals.scratches.items, globals.scratches.tally
    {
      globals.Valid()
      && (initialized ==> globals.Fits(width, height))
    }

    ghost predicate Valid()
      reads this, globals, globals.scratches, globals.scratches.items, globals.scratches.tally
    {
      Levels() && Shared()
    }

    /** The constructor and `init`: every level 0, not initialised. */
    constructor(w: int, h: int, g: Globals)
      requires w > 20 && h >= 0
      requires g.Valid()
      ensures width == w && height == h && globals == g
      ensures Valid() && !initialized
      ensures blurLevel == 0 && noiseLevel == 0 && glowLevel == 0 && scratchLevel == 0 && dustLevel == 0
    {
      width, height, globals := w, h, g;
      blurLevel, noiseLevel, glowLevel, scratchLevel, dustLevel := 0, 0, 0, 0, 0;
      dustSprite := -1;
      rx, ry, ns, gv, go := 0, 0, 0, 0, 1;
      initialized := false;
    }

    /** `om_init`: the glow at row 0 going up, no blur offset, and the shared
      * surfaces generated for this layer with its noise level. */
    method OmInit()
      requires Ranges() && Shared()
      modifies this, globals, globals.scratches.items
      ensures Valid() && initialized
      ensures gv == 0 && go == 1 && rx == 0 && ry == 0
      ensures globals.omCount == old(globals.omCount) + 1
      ensures blurLevel == old(blurLevel) && noiseLevel == old(noiseLevel) && glowLevel == old(glowLevel)
      ensures scratchLevel == old(scratchLevel) && dustLevel == old(dustLevel)
      ensures dustSprite == old(dustSprite) && ns == old(ns)
      ensures fresh(globals.noise) && fresh(globals.glow)
      ensures forall i, j :: 0 <= i < globals.noise.Length0 && 0 <= j < globals.noise.Length1 ==>
        IsNoise(globals.noise[i, j], 2, noiseLevel + 1)
      ensures forall y :: 0 <= y < globals.glow.Length ==> globals.glow[y] == Grey(GlowRowShade(y))
    {
      gv, go := 0, 1;
      rx, ry := 0, 0;
      initialized := true;
      assert Levels();
      globals.Attach(width, height, noiseLevel);
    }

    /** `update`, once a frame when initialised: with a positive blur level a blur
      * offset in `-1 .. blur_level - 1` by `0 .. blur_level` different from the last,
      * a noise screen different from the last, the next glow level, and one frame of
      * every scratch re-rolled with the scratch level. */
    method Update()
      requires Valid()
      modifies this, globals.scratches.items, globals.scratches.tally
      ensures Valid()
      ensures !old(initialized) ==>
        unchanged(this) && unchanged(globals.scratches.items) && unchanged(globals.scratches.tally)
      ensures old(initialized) && blurLevel > 0 ==>
        -1 <= rx <= blurLevel - 1 && 0 <= ry <= blurLevel && (rx != old(rx) || ry != old(ry))
      ensures old(initialized) && blurLevel == 0 ==> rx == old(rx) && ry == old(ry)
      ensures old(initialized) ==>
        0 <= ns <= 9 && ns != old(ns) && (gv, go) == GlowStep(old(gv), old(go), GlowLevels)
      ensures old(initialized) ==> forall i :: 0 <= i < |globals.scratches.items| ==>
        Stepped(old(globals.scratches.States())[i], globals.scratches.States()[i], width)
        && LevelRule(old(globals.scratches.States())[i], globals.scratches.States()[i], scratchLevel)
      ensures blurLevel == old(blurLevel) && noiseLevel == old(noiseLevel) && glowLevel == old(glowLevel)
      ensures scratchLevel == old(scratchLevel) && dustLevel == old(dustLevel)
      ensures initialized == old(initialized) && dustSprite == old(dustSprite)
    {
      if initialized {
        Roll();
        globals.scratches.UpdateLevel(width, scratchLevel);
      }
    }

    /** The frame parameters of `update`. */
    method Roll()
      requires Levels() && initialized
      modifies this
      ensures Levels() && initialized
      ensures blurLevel > 0 ==>
        -1 <= rx <= blurLevel - 1 && 0 <= ry <= blurLevel && (rx != old(rx) || ry != old(ry))
      ensures blurLevel == 0 ==> rx == old(rx) && ry == old(ry)
      ensures 0 <= ns <= 9 && ns != old(ns)
      ensures (gv, go) == GlowStep(old(gv), old(go), GlowLevels)
      ensures blurLevel == old(blurLevel) && noiseLevel == old(noiseLevel) && glowLevel == old(glowLevel)
      ensures scratchLevel == old(scratchLevel) && dustLevel == old(dustLevel)
      ensures dustSprite == old(dustSprite)
    {
      if blurLevel > 0 {
        rx, ry := PickOffset(-1, blurLevel - 1, blurLevel, rx, ry);
      }
      ns := PickNoise(ns);
      GlowBounce(gv, go, GlowLevels);
      gv := gv + go;
      if gv >= 5 {
        gv, go := 3, -1;
      }
      if gv < 0 {
        gv, go := 1, 1;
      }
    }

    /** The levels a message with values `v` sets, each clamped to its range, the dust
      * sprite it names when field 6 is a sprite number (`sprite` otherwise), and the
      * state `om_init` leaves. */
    ghost predicate Configured(v: seq<int>, sprite: int)
      requires |v| == 6
      reads this
    {
      blurLevel == Limit(v[0], 3) && noiseLevel == Limit(v[1], 24) && glowLevel == Limit(v[2], 24)
      && scratchLevel == Limit(v[3], 400) && dustLevel == Limit(v[4], 400)
      && dustSprite == (if 0 <= v[5] < MaxSpriteNum then v[5] else sprite)
      && initialized && gv == 0 && go == 1 && rx == 0 && ry == 0
    }

    /** `message`: a settings message with exactly six fields sets the five levels and
      * the dust sprite and runs `om_init`; any other message changes nothing. */
    method Message(msg: string)
      requires Valid()
      modifies this, globals, globals.scratches.items
      ensures Valid()
      ensures !Accepted(msg) ==>
        unchanged(this) && unchanged(globals) && unchanged(globals.scratches.items)
      ensures Accepted(msg) ==>
        Configured(Values(msg), old(dustSprite)) && globals.omCount == old(globals.omCount) + 1
    {
      if |msg| >= 2 && msg[..2] == "s|" {
        var f := ParseFields(msg[2..]);
        if f.cnt == 5 {
          Configure(if f.neg then f.vals[5 := -f.vals[5]] else f.vals);
        }
      }
    }

    /** The settings half of `message`, for the six values `v`. */
    method Configure(v: seq<int>)
      requires Valid() && |v| == 6
      modifies this, globals, globals.scratches.items
      ensures Valid() && Configured(v, old(dustSprite))
      ensures globals.omCount == old(globals.omCount) + 1
    {
      SetLevels(v);
      OmInit();
    }

    /** The five levels of a message clamped to their ranges, and the dust sprite when
      * field 6 names one. */
    method SetLevels(v: seq<int>)
      requires Ranges() && |v| == 6
      modifies this
      ensures Ranges() && initialized == old(initialized)
      ensures blurLevel == Limit(v[0], 3) && noiseLevel == Limit(v[1], 24) && glowLevel == Limit(v[2], 24)
      ensures scratchLevel == Limit(v[3], 400) && dustLevel == Limit(v[4], 400)
      ensures dustSprite == if 0 <= v[5] < MaxSpriteNum then v[5] else old(dustSprite)
      ensures ns == old(ns)
    {
      blurLevel := Limit(v[0], 3);
      noiseLevel := Limit(v[1], 24);
      glowLevel := Limit(v[2], 24);
      scratchLevel := Limit(v[3], 400);
      dustLevel := Limit(v[4], 400);
      if 0 <= v[5] < MaxSpriteNum {
        dustSprite := v[5];
      }
    }

    /** The passes `refresh` draws over `clip`, in order: nothing before `om_init`;
      * the blur when there is an offset, the noise subtraction, the glow addition and
      * the scratches when their levels are positive. */
    function Passes(clip: Blur.Rect): (ps: seq<Pass>)
      reads this
      ensures !initialized ==> ps == []
      ensures initialized ==>
        (BlendPass(Blur.BlendPlan(width, clip, rx, ry)) in ps <==> rx != 0 || ry != 0)
        && (NoisePass(ns) in ps <==> noiseLevel > 0)
        && (GlowPass(GlowRow(gv, glowLevel)) in ps <==> glowLevel > 0)
        && (ScratchPass in ps <==> scratchLevel > 0)
    {
      if !initialized then []
      else
        (if rx != 0 || ry != 0 then [BlendPass(Blur.BlendPlan(width, clip, rx, ry))] else [])
        + (if noiseLevel > 0 then [NoisePass(ns)] else [])
        + (if glowLevel > 0 then [GlowPass(GlowRow(gv, glowLevel))] else [])
        + (if scratchLevel > 0 then [ScratchPass] else [])
    }

    /** Every pass `refresh` draws on a clip of the screen stays on its surfaces: the
      * blur reads only the picture and covers the clip, the noise screen is one of
      * the ten, and the glow row is one of the 25. */
    lemma RefreshOnSurfaces(clip: Blur.Rect)
      requires Valid() && Blur.OnScreen(clip, width, height)
      ensures forall p :: p in Passes(clip) ==>
        match p
        case BlendPass(plan) => Blur.ReadsOnScreen(plan, width, height) && Blur.CoversClip(plan, clip)
        case NoisePass(n) => 0 <= n < 10
        case GlowPass(row) => 0 <= row < GlowRows
        case ScratchPass => true
    {
      if initialized {
        Blur.PlanSafe(width, height, clip, rx, ry);
        GlowRowOnSurface(gv, glowLevel);
      }
    }
  }

  /** The noise and glow surfaces `om_init` generates: ten `width * height` screens in
    * the grey levels `0, 2, .., 2 * noiseLevel`, and the 25 glow rows. */
  method Surfaces(width: int, height: int, noiseLevel: int) returns (noise: array2<pixel>, glow: array<pixel>)
    requires width >= 0 && height >= 0 && 0 <= noiseLevel <= 24
    ensures fresh(noise) && fresh(glow)
    ensures noise.Length0 == 10 && noise.Length1 == width * height && glow.Length == GlowRows
    ensures forall i, j :: 0 <= i < noise.Length0 && 0 <= j < noise.Length1 ==> IsNoise(noise[i, j], 2, noiseLevel + 1)
    ensures forall y :: 0 <= y < glow.Length ==> glow[y] == Grey(GlowRowShade(y))
  {
    MulMono(0, width, height);
    noise := new pixel[10, width * height];
    FillNoise(noise, 2, noiseLevel + 1);
    glow := new pixel[GlowRows];
    FillGlow(glow, seq(GlowRows, y requires 0 <= y < GlowRows => GlowRowShade(y)));
  }

  /** The scan loop of `message` over the text after `s|`: the leading sign, then a
    * comma closes a field and opens the next, and any other character is a digit of
    * the open field; the loop stops at the end or at a comma past the sixth field. */
  method ParseFields(body: string) returns (f: Fields)
    ensures f == Parse(body)
  {
    var vals := Zeros;
    var cnt: nat := 0;
    var neg := false;
    var i: nat := 0;
    if |body| > 0 && body[0] == '-' {
      i, neg := 1, true;
    }
    while i < |body|
      invariant i <= |body| && |vals| == 6 && cnt <= 6
      invariant Scan(body, i, Fields(vals, cnt, neg)) == Parse(body)
      decreases |body| - i
    {
      if body[i] == ',' {
        if cnt > 5 {
          break;
        }
        if neg {
          vals := vals[cnt := -vals[cnt]];
        }
        if cnt + 1 < 6 {
          vals := vals[cnt + 1 := 0];
        }
        cnt := cnt + 1;
        neg := false;
        if i + 1 < |body| && body[i + 1] == '-' {
          i, neg := i + 1, true;
        }
      } else if cnt < 6 {
        vals := vals[cnt := vals[cnt] * 10 + Digit(body[i])];
      }
      i := i + 1;
    }
    f := Fields(vals, cnt, neg);
  }

  // ================================================================ properties

  /** The glow row `refresh` adds is on the glow surface for every glow level a
    * message can set. */
  lemma GlowRowOnSurface(gv: int, glowLevel: int)
    requires 0 <= gv < GlowLevels && 0 <= glowLevel <= 24
    ensures 0 <= GlowRow(gv, glowLevel) < GlowRows
  {
    MulMono(gv, 4, glowLevel);
    MulMono(0, gv, glowLevel);
  }
}
