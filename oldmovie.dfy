/**
 * The old-movie effect of `ONScripterLabel_oldmovie.cpp`, where the effect state
 * is a set of file-level variables for a fixed 640 by 480 screen:
 * `updateOldMovie` creates the noise and glow surfaces on first use and, while
 * sprite 120 is shown, re-rolls the frame parameters once a frame.
 */
module OldMovie {
  import opened Pixel
  import opened Scratches
  import opened MovieFrame

  const ScreenWidth := 640
  const ScreenHeight := 480
  /** The number of glow rows. */
  const MaxGlow := 5
  /** The number of scratch objects. */
  const ScratchObjects := 6

  /** The file-level state: the blur offset, noise screen, glow row and direction,
    * whether the surfaces exist, the surfaces and the scratches with their counter. */
  class OldMovieState {
    var rx: int
    var ry: int
    var ns: int
    var gv: int
    var go: int
    var initialised: bool
    var noise: array2<pixel>
    var glow: array<pixel>
    const scratches: ScratchSet

    ghost predicate Shape()
      reads this
    {
      GlowInRange(gv, go, MaxGlow)
      && (initialised ==> noise.Length0 == 10 && noise.Length1 == ScreenWidth * ScreenHeight
                          && glow.Length == MaxGlow)
    }

    ghost predicate Valid()
      reads this, scratches, scratches.items, scratches.tally
    {
      Shape() && scratches.Valid() && scratches.HasWidth(ScreenWidth) && scratches.tally.count <= 4
    }

    /** The variables as the program starts: zero, except the glow direction 1, with six
      * invisible scratches and no surfaces yet. */
    constructor()
      ensures Valid() && !initialised
      ensures rx == 0 && ry == 0 && ns == 0 && gv == 0 && go == 1 && scratches.tally.count == 0
    {
      rx, ry, ns, gv, go := 0, 0, 0, 0, 1;
      initialised := false;
      noise := new pixel[0, 0];
      glow := new pixel[0];
      scratches := new ScratchSet(ScratchObjects, ScreenWidth);
    }

    /** `om_init`: ten 640 by 480 screens of noise in the grey levels `0, 6, .., 30`,
      * five glow rows of grey `5 * y + 4`, and the flag that they exist. */
    method OmInit()
      requires Shape()
      modifies this
      ensures Shape() && initialised
      ensures rx == old(rx) && ry == old(ry) && ns == old(ns) && gv == old(gv) && go == old(go)
      ensures fresh(noise) && fresh(glow)
      ensures forall i, j :: 0 <= i < noise.Length0 && 0 <= j < noise.Length1 ==> IsNoise(noise[i, j], 6, 6)
      ensures forall y :: 0 <= y < glow.Length ==> glow[y] == Grey(5 * y + 4)
    {
      noise := new pixel[10, ScreenWidth * ScreenHeight];
      FillNoise(noise, 6, 6);
      glow := new pixel[MaxGlow];
      FillGlow(glow, seq(MaxGlow, y requires 0 <= y < MaxGlow => GlowShade(MaxGlow, y)));
      initialised := true;
    }

    /** `updateOldMovie`. Outside the effect event mode the surfaces are created if they
      * do not exist yet; the parameters change only then and only while sprite 120 has
      * a picture and is visible: a blur offset in `-1 .. 0` by `0 .. 1` and a noise
      * screen, each different from the last, the next glow row, and one frame of every
      * scratch, at most four of them visible. */
    method UpdateOldMovie(effectMode: bool, spriteShown: bool)
      requires Valid()
      modifies this, scratches.items, scratches.tally
      ensures Valid()
      ensures effectMode ==> unchanged(this) && unchanged(scratches.tally) && unchanged(scratches.items)
      ensures !effectMode ==> initialised && (old(initialised) ==> noise == old(noise) && glow == old(glow))
      ensures !effectMode && spriteShown ==>
        -1 <= rx <= 0 && 0 <= ry <= 1 && (rx != old(rx) || ry != old(ry))
        && 0 <= ns <= 9 && ns != old(ns)
        && (gv, go) == GlowStep(old(gv), old(go), MaxGlow)
        && (forall i :: 0 <= i < |scratches.items| ==>
              Stepped(old(scratches.States())[i], scratches.States()[i], ScreenWidth))
      ensures !(!effectMode && spriteShown) ==>
        rx == old(rx) && ry == old(ry) && ns == old(ns) && gv == old(gv) && go == old(go)
        && unchanged(scratches.tally) && unchanged(scratches.items)
    {
      if !effectMode {
        if !initialised {
          OmInit();
        }
        if spriteShown {
          Roll();
          scratches.UpdateCapped(ScreenWidth);
        }
      }
    }

    /** The frame parameters of `updateOldMovie`. */
    method Roll()
      requires Shape()
      modifies this
      ensures Shape()
      ensures -1 <= rx <= 0 && 0 <= ry <= 1 && (rx != old(rx) || ry != old(ry))
      ensures 0 <= ns <= 9 && ns != old(ns)
      ensures (gv, go) == GlowStep(old(gv), old(go), MaxGlow)
      ensures initialised == old(initialised) && noise == old(noise) && glow == old(glow)
    {
      rx, ry := PickOffset(-1, 0, 1, rx, ry);
      ns := PickNoise(ns);
      GlowBounce(gv, go, MaxGlow);
      var next := GlowStep(gv, go, MaxGlow);
      gv, go := next.0, next.1;
    }
  }

  /** The glow rows of this revision are `5 * y + 4`: `26 / 5` is 5. */
  lemma GlowShades(y: int)
    requires 0 <= y < MaxGlow
    ensures GlowShade(MaxGlow, y) == 5 * y + 4
  {
  }
}
