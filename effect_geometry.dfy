/**
 * The integer geometry of the transition effects: every effect draws, at
 * `counter` milliseconds into a `duration`-millisecond transition, a set of
 * rectangles whose extents are `k * counter / duration` for a per-effect
 * constant `k`.  `Frame` lists the drawing requests one frame of an effect
 * makes; the executor in module Effect is proved to issue exactly these.
 */
module EffectGeometry {

  /** An `SDL_Rect`. */
  datatype Rect = Rect(x: int, y: int, w: int, h: int)

  /** The surfaces a transition reads from: the old picture, the new picture, or the
    * mask-blend scratch surface. */
  datatype Surface = SrcSurface | DstSurface | TmpSurface

  datatype BlendMode = BlendConst | BlendFadeMask | BlendCrossfadeMask

  /** One drawing request to the accumulation surface, or a transfer of it. */
  datatype Op =
    | Draw(dst: Rect, src: Rect, from: Surface)  // drawEffect: copy `src` of `from` to `dst`
    | Blend(blend: BlendMode, alpha: int)        // alphaBlend with a constant or a mask
    | Mosaic(image: Surface, level: int)         // generateMosaic
    | FillBlack                                  // clear the accumulation surface to black
    | Shake(horizontal: bool)                    // quakex / quakey: offset computed with sin()
    | CascadeFrame(mode: int, width: int, edge: int)  // cascade.dll: strip edge and the previous edge
    | Trvswave(params: string)                   // trvswave.dll
    | Whirl(params: string)                      // whirl.dll
    | SaveSource                                 // the accumulation surface copied to effect_src_surface
    | Flush(clearDirty: bool)                    // flush(REFRESH_NONE_MODE, NULL, clearDirty) to the screen

  /** The screen and the constants derived from it. `stripe` and `curtain` are
    * `EFFECT_STRIPE_WIDTH` and `EFFECT_STRIPE_CURTAIN_WIDTH`; `custom` is
    * `CUSTOM_EFFECT_NO`, the number of the first quake effect. */
  datatype Screen = Screen(width: int, height: int, stripe: int, curtain: int, custom: int)
  {
    predicate Valid() {
      width > 0 && height > 0 && stripe > 0 && curtain > 0 && custom >= 20
    }
  }

  /** A transition as the script describes it: `EffectLink`. */
  datatype EffectLink = EffectLink(effect: int, duration: int, no: int, imageName: string)

  datatype Side = LeftSide | RightSide | TopSide | BottomSide
  {
    predicate Horizontal() { this == LeftSide || this == RightSide }
  }

  /** Effects 2-5, 6-9 and 11-14 each come in the order left, right, top, bottom. */
  function SideOf(k: int): Side
  {
    if k == 0 then LeftSide else if k == 1 then RightSide else if k == 2 then TopSide else BottomSide
  }

  /** The effect actually run: the cut flag in normal skip mode turns every effect into
    * effect 1, an instant display. */
  function EffectNo(effect: int, cut: bool, skipNormal: bool): (no: int)
    ensures cut && skipNormal ==> no == 1
    ensures !(cut && skipNormal) ==> no == effect
  {
    if cut && skipNormal then 1 else effect
  }

  /** `k * counter / duration`, the progress of the transition scaled to `k`. */
  function Progress(k: int, c: int, d: int): int
    requires d > 0
  {
    k * c / d
  }

  // ---------------------------------------------------------------- shutters

  /** The number of stripes of a shutter. */
  function ShutterCount(scr: Screen, side: Side): nat
    requires scr.Valid()
  {
    if side.Horizontal() then scr.width / scr.stripe else scr.height / scr.stripe
  }

  /** Stripe `t` of a shutter whose stripes are `width` wide: the left and top shutters
    * grow each stripe from its start `t * stripe`, the right and bottom shutters from
    * one pixel before the end of stripe `t + 1`. */
  function Stripe(scr: Screen, side: Side, width: int, t: int): Rect
  {
    match side
    case LeftSide => Rect(t * scr.stripe, 0, width, scr.height)
    case RightSide => Rect((t + 1) * scr.stripe - width - 1, 0, width, scr.height)
    case TopSide => Rect(0, t * scr.stripe, scr.width, width)
    case BottomSide => Rect(0, (t + 1) * scr.stripe - width - 1, scr.width, width)
  }

  /** The drawing requests for the first `k` stripes of a shutter. */
  function ShutterOps(scr: Screen, side: Side, width: int, k: nat): (ops: seq<Op>)
    ensures |ops| == k
  {
    if k == 0 then []
    else
      var r := Stripe(scr, side, width, k - 1);
      ShutterOps(scr, side, width, k - 1) + [Draw(r, r, DstSurface)]
  }

  // ---------------------------------------------------------------- curtains

  /** The extent a curtain opens along. */
  function Extent(scr: Screen, side: Side): int
  {
    if side.Horizontal() then scr.width else scr.height
  }

  function CurtainCount(scr: Screen, side: Side): nat
    requires scr.Valid()
  {
    Extent(scr, side) / scr.curtain + 1
  }

  /** Stripe `i` of a curtain whose leading stripe is `width` wide; stripe `i` lags
    * `curtain * curtain * i / extent` behind and is not drawn while that is
    * more than `width`. The right curtain draws at most `curtain` pixels. */
  function CurtainStripe(scr: Screen, side: Side, width: int, i: int): Option<Rect>
    requires scr.Valid()
  {
    var w2 := width - scr.curtain * scr.curtain * i / Extent(scr, side);
    if w2 < 0 then None
    else
      match side
      case LeftSide => Some(Rect(i * scr.curtain, 0, w2, scr.height))
      case RightSide =>
        var w3 := if w2 > scr.curtain then scr.curtain else w2;
        Some(Rect(scr.width - i * scr.curtain - w3, 0, w3, scr.height))
      case TopSide => Some(Rect(0, i * scr.curtain, scr.width, w2))
      case BottomSide => Some(Rect(0, scr.height - i * scr.curtain - w2, scr.width, w2))
  }

  datatype Option<T> = None | Some(value: T)

  /** The drawing requests for curtain stripes `0 .. k-1`. */
  function CurtainOps(scr: Screen, side: Side, width: int, k: nat): (ops: seq<Op>)
    requires scr.Valid()
    ensures |ops| <= k
  {
    if k == 0 then []
    else
      var s := CurtainStripe(scr, side, width, k - 1);
      CurtainOps(scr, side, width, k - 1) + (if s.Some? then [Draw(s.value, s.value, DstSurface)] else [])
  }

  // ---------------------------------------------------------------- scrolls

  /** A scroll moves the old picture `width` pixels on and brings in the matching part of
    * the new one. */
  function ScrollOps(scr: Screen, side: Side, width: int): (ops: seq<Op>)
    ensures |ops| == 2
  {
    var W, H := scr.width, scr.height;
    match side
    case LeftSide =>
      [Draw(Rect(width, 0, W - width, H), Rect(0, 0, W - width, H), SrcSurface),
       Draw(Rect(0, 0, width, H), Rect(W - width - 1, 0, width, H), DstSurface)]
    case RightSide =>
      [Draw(Rect(0, 0, W - width, H), Rect(width, 0, W - width, H), SrcSurface),
       Draw(Rect(W - width - 1, 0, width, H), Rect(0, 0, width, H), DstSurface)]
    case TopSide =>
      [Draw(Rect(0, width, W, H - width), Rect(0, 0, W, H - width), SrcSurface),
       Draw(Rect(0, 0, W, width), Rect(0, H - width - 1, W, width), DstSurface)]
    case BottomSide =>
      [Draw(Rect(0, 0, W, H - width), Rect(0, width, W, H - width), SrcSurface),
       Draw(Rect(0, H - width - 1, W, width), Rect(0, 0, W, width), DstSurface)]
  }

  // ---------------------------------------------------------------- cascade.dll

  const CascadeDir := 1    // moves down or right
  const CascadeLR := 2     // moves horizontally
  const CascadeCross := 4  // cross-fades as well
  const CascadeIn := 8     // cascades the new picture in

  /** Whether the bit `bit` (a power of two) is set in `m`. */
  predicate Has(m: int, bit: int)
    requires bit > 0
  {
    (m / bit) % 2 == 1
  }

  /** The character at `i` of a parameter string, NUL past its end. */
  function CharAt(p: string, i: nat): char
  {
    if i < |p| then p[i] else 0 as char
  }

  /** The mode `effectCascade` reads from its first two parameter characters. */
  function CascadeMode(p: string): (m: int)
    ensures 0 <= m < 16
  {
    var base := if CharAt(p, 0) == 'u' then 0 else if CharAt(p, 0) == 'd' then 1
                else if CharAt(p, 0) == 'r' then 3 else 2;
    base + (if CharAt(p, 1) == 'i' then CascadeIn
            else if CharAt(p, 1) == 'x' then CascadeIn + CascadeCross else 0)
  }

  /** The position of the cascade's moving edge. */
  function CascadeWidth(scr: Screen, m: int, c: int, d: int): int
    requires d > 0
  {
    var ext := if Has(m, CascadeLR) then scr.width else scr.height;
    var w := ext * c / d;
    if Has(m, CascadeIn) then w else ext - w
  }

  /** The previous edge a cascade frame continues from: reset on the first frame. */
  function CascadeFrom(c: int, tmp: int): int
  {
    if c == 0 then 0 else tmp
  }

  /** What a cascade frame remembers as the edge for the next frame. */
  function CascadeNext(scr: Screen, m: int, c: int, d: int, tmp: int): int
    requires d > 0
  {
    if Has(m, CascadeIn) && CascadeWidth(scr, m, c, d) > 0 then CascadeWidth(scr, m, c, d)
    else CascadeFrom(c, tmp)
  }

  function CascadeOps(scr: Screen, p: string, c: int, d: int, tmp: int): seq<Op>
    requires d > 0
  {
    var m := CascadeMode(p);
    [CascadeFrame(m, CascadeWidth(scr, m, c, d), CascadeFrom(c, tmp))]
      + (if Has(m, CascadeCross) then [Blend(BlendConst, 256 * c / d)] else [])
  }

  // ---------------------------------------------------------------- dll effects

  /** The index of the first `/` of `s`, or `|s|`. */
  function FirstSlash(s: string): (i: nat)
    ensures i <= |s|
    ensures forall k :: 0 <= k < i ==> s[k] != '/'
    ensures i < |s| ==> s[i] == '/'
  {
    if |s| == 0 || s[0] == '/' then 0 else 1 + FirstSlash(s[1..])
  }

  /** A dll effect's image name split at its first `/` into the dll name and its parameters. */
  function DllSplit(name: string): (string, string)
  {
    var i := FirstSlash(name);
    if i < |name| then (name[..i], name[i + 1..]) else (name, "")
  }

  function DllOps(scr: Screen, name: string, c: int, d: int, tmp: int): seq<Op>
    requires d > 0
  {
    var (dll, params) := DllSplit(name);
    if dll == "cascade.dll" then CascadeOps(scr, params, c, d, tmp)
    else if dll == "trvswave.dll" then [Trvswave(params)]
    else if dll == "whirl.dll" then [Whirl(params)]
    else [Blend(BlendConst, Progress(256, c, d))]
  }

  function DllTmp(scr: Screen, name: string, c: int, d: int, tmp: int): int
    requires d > 0
  {
    var (dll, params) := DllSplit(name);
    if dll == "cascade.dll" then CascadeNext(scr, CascadeMode(params), c, d, tmp) else tmp
  }

  // ---------------------------------------------------------------- the stored name as written

  const Nul: char := 0 as char

  /** Where the program's walk over the stored image name stops: its first `/` or NUL,
    * or the end of the buffer. */
  function DllScan(buf: seq<char>): (i: nat)
    ensures i <= |buf|
    ensures forall k :: 0 <= k < i ==> buf[k] != '/' && buf[k] != Nul
    ensures i < |buf| ==> buf[i] == '/' || buf[i] == Nul
  {
    if |buf| == 0 || buf[0] == '/' || buf[0] == Nul then 0 else 1 + DllScan(buf[1..])
  }

  /** The stored image name after one frame of the dll effect: the `/` the walk
    * stopped at, if any, overwritten by a NUL. */
  function DllCut(buf: seq<char>): seq<char>
  {
    var i := DllScan(buf);
    if i < |buf| && buf[i] == '/' then buf[i := Nul] else buf
  }

  /** The C string a pointer into the buffer stands for: the characters before the
    * first NUL. */
  function CStr(buf: seq<char>): (r: string)
    ensures |r| <= |buf| && r == buf[..|r|] && Nul !in r
    ensures |r| < |buf| ==> buf[|r|] == Nul
  {
    if |buf| == 0 || buf[0] == Nul then [] else [buf[0]] + CStr(buf[1..])
  }

  /** The split as the program makes it on the stored buffer: the dll name is what
    * precedes the stop, and the parameters are the memory past the `/` or, without
    * one, the memory from the stop on. */
  function DllSplitAsWritten(buf: seq<char>): (seq<char>, seq<char>)
  {
    var i := DllScan(buf);
    if i < |buf| && buf[i] == '/' then (buf[..i], buf[i + 1..]) else (buf[..i], buf[i..])
  }

  /** One frame of the dll effect as written, on the stored buffer: the cascade reads
    * the raw parameter memory, the other plug-ins the C string there. */
  function DllOpsAsWritten(scr: Screen, buf: seq<char>, c: int, d: int, tmp: int): seq<Op>
    requires d > 0
  {
    var (dll, params) := DllSplitAsWritten(buf);
    if dll == "cascade.dll" then CascadeOps(scr, params, c, d, tmp)
    else if dll == "trvswave.dll" then [Trvswave(CStr(params))]
    else if dll == "whirl.dll" then [Whirl(CStr(params))]
    else [Blend(BlendConst, Progress(256, c, d))]
  }

  // ---------------------------------------------------------------- one frame

  /** Whether effect `no` divides by the duration: every effect but the instant
    * displays 0 and 1 and `quake`, which only shifts the picture by `no`. */
  predicate Timed(scr: Screen, no: int)
  {
    no != 0 && no != 1 && no != scr.custom + 2
  }

  /** quakey and quakex, which clamp the timer step by `duration / 4 / no`. */
  predicate Clamped(scr: Screen, no: int)
  {
    no == scr.custom || no == scr.custom + 1
  }

  /** The drawing requests of one frame of effect `no` at `c` milliseconds; `roll` is
    * the pair of random numbers in `0 .. 2` that `quake` draws, `tmp` the cascade's
    * previous edge. Effect 10 and every number without an effect of its own cross-fade. */
  function Frame(scr: Screen, no: int, c: int, e: EffectLink, roll: (int, int), tmp: int): seq<Op>
    requires scr.Valid()
    requires Timed(scr, no) ==> e.duration > 0
  {
    if 0 <= no <= 18 then NumberedFrame(scr, no, c, e.duration)
    else CustomFrame(scr, no, c, e, roll, tmp)
  }

  /** The frames of effects 0 to 18. */
  function NumberedFrame(scr: Screen, no: int, c: int, d: int): seq<Op>
    requires scr.Valid() && 0 <= no <= 18
    requires Timed(scr, no) ==> d > 0
  {
    if no == 0 || no == 1 then []
    else if 2 <= no <= 5 then
      var side := SideOf(no - 2);
      ShutterOps(scr, side, Progress(scr.stripe, c, d), ShutterCount(scr, side))
    else if 6 <= no <= 9 then
      var side := SideOf(no - 6);
      CurtainOps(scr, side, Progress(scr.curtain * 2, c, d), CurtainCount(scr, side))
    else if 11 <= no <= 14 then
      var side := SideOf(no - 11);
      ScrollOps(scr, side, Progress(Extent(scr, side), c, d))
    else if no == 15 then [Blend(BlendFadeMask, Progress(256, c, d))]
    else if no == 16 then [Mosaic(SrcSurface, 5 - Progress(6, c, d))]
    else if no == 17 then [Mosaic(DstSurface, Progress(6, c, d))]
    else if no == 18 then [Blend(BlendCrossfadeMask, Progress(512, c, d))]
    else [Blend(BlendConst, Progress(256, c, d))]
  }

  /** The frames of the quake and dll effects, and the cross-fade that every other
    * number falls back to. */
  function CustomFrame(scr: Screen, no: int, c: int, e: EffectLink, roll: (int, int), tmp: int): seq<Op>
    requires scr.Valid() && (no != scr.custom + 2 ==> e.duration > 0)
  {
    if no == scr.custom then [FillBlack, Shake(false)]
    else if no == scr.custom + 1 then [Shake(true)]
    else if no == scr.custom + 2 then
      [FillBlack,
       Draw(Rect(e.no * (roll.0 - 1) * 2, e.no * (roll.1 - 1) * 2, scr.width, scr.height),
            Rect(0, 0, scr.width, scr.height), DstSurface)]
    else if no == scr.custom - 1 then DllOps(scr, e.imageName, c, e.duration, tmp)
    else [Blend(BlendConst, Progress(256, c, e.duration))]
  }

  /** The cascade edge remembered after one frame. */
  function FrameTmp(scr: Screen, no: int, c: int, e: EffectLink, tmp: int): int
    requires scr.Valid()
    requires Timed(scr, no) ==> e.duration > 0
  {
    if no == scr.custom - 1 then DllTmp(scr, e.imageName, c, e.duration, tmp) else tmp
  }

  // ================================================================ properties

  lemma DivBelow(a: int, d: int, k: int)
    requires d > 0 && 0 <= a < k * d
    ensures 0 <= a / d < k
  {
    var q := a / d;
    if q >= k {
      MulMonoNat(k, q, d);
    }
  }

  lemma MulMonoNat(a: int, b: int, c: nat)
    requires a <= b
    ensures a * c <= b * c
  {
  }

  /** While `0 <= counter < duration`, a progress scaled to `k` lies in `0 .. k-1`. */
  lemma ProgressRange(k: int, c: int, d: int)
    requires k > 0 && 0 <= c < d
    ensures 0 <= Progress(k, c, d) < k
  {
    assert k * c < k * d by {
      assert k * d - k * c == k * (d - c);
    }
    DivBelow(k * c, d, k);
  }

  /** A progress never goes back as the counter grows. */
  lemma ProgressMono(k: int, c1: int, c2: int, d: int)
    requires k >= 0 && d > 0 && 0 <= c1 <= c2
    ensures Progress(k, c1, d) <= Progress(k, c2, d)
  {
    var q1, q2 := k * c1 / d, k * c2 / d;
    MulMonoNat(c1, c2, k);
    assert k * c1 <= k * c2;
    if q1 > q2 {
      MulMonoNat(q2 + 1, q1, d);
    }
  }

  /** The cross-fade alpha, used by effect 10, by every unknown effect number and by
    * an unknown dll, is an opacity in `0 .. 255`; the masked cross-fade of effect 18
    * runs twice as fast, through `0 .. 511`. */
  lemma CrossfadeAlpha(c: int, d: int)
    requires 0 <= c < d
    ensures 0 <= Progress(256, c, d) < 256
    ensures 0 <= Progress(512, c, d) < 512
  {
    ProgressRange(256, c, d);
    ProgressRange(512, c, d);
  }

  /** Every number that is not one of the effects 0-9, 11-18 or the quake and dll
    * effects draws the same frame as effect 10, the cross-fade. */
  lemma UnknownIsCrossfade(scr: Screen, no: int, c: int, e: EffectLink, roll: (int, int), tmp: int)
    requires scr.Valid() && e.duration > 0
    requires !(0 <= no <= 18) && !(scr.custom - 1 <= no <= scr.custom + 2)
    ensures Frame(scr, no, c, e, roll, tmp) == Frame(scr, 10, c, e, roll, tmp)
    ensures Frame(scr, no, c, e, roll, tmp) == [Blend(BlendConst, Progress(256, c, e.duration))]
  {
  }

  /** `quake` divides by neither its duration nor its amplitude: with both 0 it still
    * draws its frame, the new picture unshifted over a black screen. */
  lemma QuakeWithoutDuration(scr: Screen, c: int, e: EffectLink, roll: (int, int), tmp: int)
    requires scr.Valid() && e.duration <= 0 && e.no == 0
    ensures Frame(scr, scr.custom + 2, c, e, roll, tmp)
      == [FillBlack, Draw(Rect(0, 0, scr.width, scr.height), Rect(0, 0, scr.width, scr.height), DstSurface)]
  {
  }

  /** The two mosaic effects choose a level in `0 .. 5`: mosaic-out coarsens from 5
    * down to 0 as the counter grows, mosaic-in refines from 0 up to 5. */
  lemma MosaicLevels(c: int, d: int)
    requires 0 <= c < d
    ensures 0 <= 5 - Progress(6, c, d) <= 5
    ensures 0 <= Progress(6, c, d) <= 5
  {
    ProgressRange(6, c, d);
  }

  // ---------------------------------------------------------------- shutters

  /** Within a frame every shutter stripe is narrower than the stripe pitch. */
  lemma ShutterWidth(scr: Screen, c: int, d: int)
    requires scr.Valid() && 0 <= c < d
    ensures 0 <= Progress(scr.stripe, c, d) < scr.stripe
  {
    ProgressRange(scr.stripe, c, d);
  }

  /** Two rectangles that share no pixel. */
  predicate Apart(a: Rect, b: Rect)
  {
    a.x + a.w <= b.x || b.x + b.w <= a.x || a.y + a.h <= b.y || b.y + b.h <= a.y
  }

  /** Stripe `t` starts within its pitch and stops before stripe `t + 1` starts. */
  lemma StripeSpan(scr: Screen, side: Side, width: int, t: int)
    requires scr.Valid() && 0 <= width < scr.stripe && t >= 0
    ensures var r := Stripe(scr, side, width, t);
      var lo := if side.Horizontal() then r.x else r.y;
      var len := if side.Horizontal() then r.w else r.h;
      t * scr.stripe <= lo && lo + len < (t + 1) * scr.stripe
  {
    assert (t + 1) * scr.stripe == t * scr.stripe + scr.stripe;
  }

  /** The stripes of a shutter never overlap. */
  lemma ShutterApart(scr: Screen, side: Side, c: int, d: int, t: int, u: int)
    requires scr.Valid() && 0 <= c < d && 0 <= t < u
    ensures Apart(Stripe(scr, side, Progress(scr.stripe, c, d), t),
                  Stripe(scr, side, Progress(scr.stripe, c, d), u))
  {
    var width := Progress(scr.stripe, c, d);
    ShutterWidth(scr, c, d);
    StripeSpan(scr, side, width, t);
    StripeSpan(scr, side, width, u);
    MulMonoNat(t + 1, u, scr.stripe);
  }

  /** The whole stripes of a shutter fit on the screen. */
  lemma CountFits(scr: Screen, side: Side)
    requires scr.Valid()
    ensures ShutterCount(scr, side) * scr.stripe <= Extent(scr, side)
  {
    var ext := Extent(scr, side);
    assert ext == (ext / scr.stripe) * scr.stripe + ext % scr.stripe;
  }

  /** Every shutter stripe lies on the screen. */
  lemma ShutterOnScreen(scr: Screen, side: Side, c: int, d: int, t: int)
    requires scr.Valid() && 0 <= c < d && 0 <= t < ShutterCount(scr, side)
    ensures var r := Stripe(scr, side, Progress(scr.stripe, c, d), t);
      0 <= r.x && r.x + r.w <= scr.width && 0 <= r.y && r.y + r.h <= scr.height
  {
    var width := Progress(scr.stripe, c, d);
    ShutterWidth(scr, c, d);
    StripeSpan(scr, side, width, t);
    MulMonoNat(t + 1, ShutterCount(scr, side), scr.stripe);
    MulMonoNat(0, t, scr.stripe);
    CountFits(scr, side);
  }

  /** Request `t` of a shutter frame copies stripe `t` of the new picture. */
  lemma {:induction false} ShutterOpsAt(scr: Screen, side: Side, width: int, k: nat, t: nat)
    requires t < k
    ensures ShutterOps(scr, side, width, k)[t]
      == Draw(Stripe(scr, side, width, t), Stripe(scr, side, width, t), DstSurface)
  {
    if t < k - 1 {
      ShutterOpsAt(scr, side, width, k - 1, t);
    }
  }

  // ---------------------------------------------------------------- curtains

  /** Within a frame the leading curtain stripe is narrower than two curtain pitches. */
  lemma CurtainWidth(scr: Screen, c: int, d: int)
    requires scr.Valid() && 0 <= c < d
    ensures 0 <= Progress(scr.curtain * 2, c, d) < 2 * scr.curtain
  {
    ProgressRange(scr.curtain * 2, c, d);
  }

  /** A curtain stripe is drawn exactly when its lag does not exceed the leading width;
    * a drawn stripe is never negative, and a right-curtain stripe is at most one pitch
    * wide and ends where stripe `i` of the screen's right edge ends. */
  lemma CurtainStripeShape(scr: Screen, side: Side, width: int, i: int)
    requires scr.Valid() && i >= 0
    ensures var lag := scr.curtain * scr.curtain * i / Extent(scr, side);
      CurtainStripe(scr, side, width, i).Some? <==> lag <= width
    ensures var s := CurtainStripe(scr, side, width, i);
      s.Some? ==> s.value.w >= 0 && s.value.h >= 0
    ensures var s := CurtainStripe(scr, side, width, i);
      s.Some? && side == RightSide ==>
        s.value.w <= scr.curtain && s.value.x + s.value.w == scr.width - i * scr.curtain
  {
  }

  /** The lag grows with the stripe number, so the stripes drawn in a frame are the
    * first ones: if stripe `j` is drawn, so is every stripe before it. */
  lemma CurtainPrefix(scr: Screen, side: Side, width: int, i: int, j: int)
    requires scr.Valid() && 0 <= i <= j
    requires CurtainStripe(scr, side, width, j).Some?
    ensures CurtainStripe(scr, side, width, i).Some?
  {
    var cc := scr.curtain * scr.curtain;
    MulMonoNat(i, j, cc);
    assert cc * i <= cc * j;
    ProgressMono(cc, i, j, Extent(scr, side));
  }

  /** Every request of a curtain frame copies a drawn stripe of the new picture with a
    * non-negative size, at most one pitch wide for the right curtain. */
  lemma {:induction false} CurtainOpsShape(scr: Screen, side: Side, width: int, k: nat, t: nat)
    requires scr.Valid() && t < |CurtainOps(scr, side, width, k)|
    ensures var op := CurtainOps(scr, side, width, k)[t];
      op.Draw? && op.from == DstSurface && op.src == op.dst && op.dst.w >= 0 && op.dst.h >= 0
      && (side == RightSide ==> op.dst.w <= scr.curtain)
  {
    var prev := CurtainOps(scr, side, width, k - 1);
    if t < |prev| {
      CurtainOpsShape(scr, side, width, k - 1, t);
    } else {
      CurtainStripeShape(scr, side, width, k - 1);
    }
  }

  // ---------------------------------------------------------------- scrolls

  /** The two parts of a scroll frame together span the screen: their extents along
    * the scroll add up to the screen's width or height, both are non-negative, and
    * across the scroll each part covers the whole screen. */
  lemma ScrollExtents(scr: Screen, side: Side, c: int, d: int)
    requires scr.Valid() && 0 <= c < d
    ensures var ops := ScrollOps(scr, side, Progress(Extent(scr, side), c, d));
      ops[0].Draw? && ops[1].Draw? && ops[0].from == SrcSurface && ops[1].from == DstSurface
      && ops[0].src.w == ops[0].dst.w && ops[0].src.h == ops[0].dst.h
      && ops[1].src.w == ops[1].dst.w && ops[1].src.h == ops[1].dst.h
      && (side.Horizontal() ==>
            ops[0].dst.w + ops[1].dst.w == scr.width && ops[0].dst.w > 0 && ops[1].dst.w >= 0
            && ops[0].dst.h == ops[1].dst.h == scr.height)
      && (!side.Horizontal() ==>
            ops[0].dst.h + ops[1].dst.h == scr.height && ops[0].dst.h > 0 && ops[1].dst.h >= 0
            && ops[0].dst.w == ops[1].dst.w == scr.width)
  {
    ProgressRange(Extent(scr, side), c, d);
  }

  /** The left and top scrolls tile the screen: the old picture moves to the far end
    * and the new one fills the near end, with no gap and no overlap. */
  lemma ScrollTiles(scr: Screen, c: int, d: int)
    requires scr.Valid() && 0 <= c < d
    ensures var ops := ScrollOps(scr, LeftSide, Progress(scr.width, c, d));
      ops[1].dst.x == 0 && ops[1].dst.x + ops[1].dst.w == ops[0].dst.x
      && ops[0].dst.x + ops[0].dst.w == scr.width
    ensures var ops := ScrollOps(scr, TopSide, Progress(scr.height, c, d));
      ops[1].dst.y == 0 && ops[1].dst.y + ops[1].dst.h == ops[0].dst.y
      && ops[0].dst.y + ops[0].dst.h == scr.height
  {
  }

  // ---------------------------------------------------------------- cascade and dll

  /** The cascade mode is the two parameter letters read back: the first one chooses
    * the direction (`u`p, `d`own, `r`ight, anything else left), the second one `i`n
    * or cross-fade `x` (which also cascades in). */
  lemma CascadeModeBits(p: string)
    ensures var m := CascadeMode(p);
      (Has(m, CascadeLR) <==> CharAt(p, 0) != 'u' && CharAt(p, 0) != 'd')
      && (Has(m, CascadeDir) <==> CharAt(p, 0) == 'd' || CharAt(p, 0) == 'r')
      && (Has(m, CascadeIn) <==> CharAt(p, 1) == 'i' || CharAt(p, 1) == 'x')
      && (Has(m, CascadeCross) <==> CharAt(p, 1) == 'x')
  {
  }

  /** A cascade that moves in keeps the edge it reached, so each frame's tail strip
    * `from .. width` has a non-negative size as long as the counter does not go back. */
  lemma CascadeTail(scr: Screen, m: int, c1: int, c2: int, d: int)
    requires scr.Valid() && d > 0 && 0 <= c1 <= c2 && Has(m, CascadeIn)
    ensures CascadeWidth(scr, m, c1, d) <= CascadeWidth(scr, m, c2, d)
  {
    var ext := if Has(m, CascadeLR) then scr.width else scr.height;
    ProgressMono(ext, c1, c2, d);
  }

  /** Splitting a dll name at its first `/` loses nothing: the dll name has no `/`,
    * and with a `/` the two parts joined by it are the name. */
  lemma DllSplitJoin(name: string)
    ensures var (dll, params) := DllSplit(name);
      '/' !in dll
      && ('/' in name ==> dll + "/" + params == name)
      && ('/' !in name ==> dll == name && params == "")
  {
    var i := FirstSlash(name);
    if i < |name| {
      assert name == name[..i] + "/" + name[i + 1..];
    }
  }

  /** A stored buffer stops the walk exactly where a NUL-free name has its first `/`,
    * or at the terminator. */
  lemma {:induction false} DllScanTerminated(name: string)
    requires Nul !in name
    ensures DllScan(name + [Nul]) == FirstSlash(name)
  {
    if |name| > 0 && name[0] != '/' {
      assert (name + [Nul])[1..] == name[1..] + [Nul];
      DllScanTerminated(name[1..]);
    }
  }

  /** A parameter string's terminator changes nothing the cascade reads. */
  lemma CascadeModeTerminated(p: string)
    ensures CascadeMode(p + [Nul]) == CascadeMode(p)
  {
    assert CharAt(p + [Nul], 0) == CharAt(p, 0);
    assert CharAt(p + [Nul], 1) == CharAt(p, 1);
  }

  /** A NUL-terminated C string reads back as itself. */
  lemma {:induction false} CStrTerminated(p: string)
    requires Nul !in p
    ensures CStr(p + [Nul]) == p
  {
    if |p| > 0 {
      assert (p + [Nul])[1..] == p[1..] + [Nul];
      CStrTerminated(p[1..]);
    }
  }

  /** On the first frame of a dll effect as written, the stored buffer splits into
    * the corrected dll name and parameters, the parameters still terminated. */
  lemma DllFirstSplit(name: string)
    requires Nul !in name
    ensures DllSplitAsWritten(name + [Nul]) ==
      (DllSplit(name).0, if '/' in name then DllSplit(name).1 + [Nul] else [Nul])
  {
    var i := FirstSlash(name);
    DllScanTerminated(name);
    var buf := name + [Nul];
    assert buf[..i] == name[..i];
    if i < |name| {
      assert buf[i] == '/' && '/' in name;
      assert buf[i + 1..] == name[i + 1..] + [Nul];
    } else {
      assert buf[i] == Nul && buf[..i] == name && buf[i..] == [Nul];
    }
  }

  /** The first frame of a dll effect as written does what the corrected split does. */
  lemma DllFirstFrame(scr: Screen, name: string, c: int, d: int, tmp: int)
    requires d > 0 && Nul !in name
    ensures DllOpsAsWritten(scr, name + [Nul], c, d, tmp) == DllOps(scr, name, c, d, tmp)
  {
    DllFirstSplit(name);
    var p := DllSplit(name).1;
    if '/' in name {
      assert Nul !in p;
      CascadeModeTerminated(p);
      CStrTerminated(p);
    } else {
      assert p == "";
      CascadeModeTerminated("");
      CStrTerminated("");
    }
  }

  /** From the second frame of a dll effect on, as written: the stored name no longer
    * changes, the dll name is still found, but the parameters start at the NUL that
    * replaced the `/`, so the plug-ins see an empty C string and the cascade reads
    * the NUL and then the first parameter letter. */
  lemma DllLaterFrames(name: string)
    requires Nul !in name && '/' in name
    ensures var buf := DllCut(name + [Nul]);
      DllCut(buf) == buf
      && DllSplitAsWritten(buf) == (DllSplit(name).0, [Nul] + DllSplit(name).1 + [Nul])
      && CStr(DllSplitAsWritten(buf).1) == ""
  {
    var i := FirstSlash(name);
    DllScanTerminated(name);
    var buf := DllCut(name + [Nul]);
    assert buf == (name + [Nul])[i := Nul];
    assert forall k :: 0 <= k < i ==> buf[k] == name[k];
    assert buf[i] == Nul;
    assert buf[i..] == [Nul] + name[i + 1..] + [Nul];
    assert buf[..i] == name[..i];
  }

  /** `cascade.dll/ui` names the cascade with the parameters `ui`. */
  lemma CascadeUiSplit()
    ensures Nul !in "cascade.dll/ui" && '/' in "cascade.dll/ui"
    ensures DllSplit("cascade.dll/ui") == ("cascade.dll", "ui")
  {
    var name := "cascade.dll/ui";
    assert name[11] == '/';
    assert forall k :: 0 <= k < 11 ==> name[k] != '/';
    assert forall k :: 0 <= k < |name| ==> name[k] != Nul;
    assert name[..11] == "cascade.dll" && name[12..] == "ui";
  }

  /** `cascade.dll/ui` cascades up and in on its first frame and left, not in, on
    * every later one. */
  lemma CascadeModeFlips()
    ensures CascadeMode(DllSplitAsWritten("cascade.dll/ui" + [Nul]).1) == CascadeIn
    ensures CascadeMode(DllSplitAsWritten(DllCut("cascade.dll/ui" + [Nul])).1) == 2
  {
    var name := "cascade.dll/ui";
    var p := DllSplitAsWritten(name + [Nul]).1;
    assert p == "ui" + [Nul] by {
      CascadeUiSplit();
      DllFirstSplit(name);
    }
    assert CharAt(p, 0) == 'u' && CharAt(p, 1) == 'i';
    var q := DllSplitAsWritten(DllCut(name + [Nul])).1;
    assert q == [Nul] + "ui" + [Nul] by {
      CascadeUiSplit();
      DllLaterFrames(name);
    }
    assert CharAt(q, 0) == Nul && CharAt(q, 1) == 'u';
  }
}
