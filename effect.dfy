/**
 * The transition-effect executor: `setEffect` arms a transition, and the engine
 * then calls `doEffect` once per frame until it answers `Continue`.  The
 * executor keeps the effect counter (milliseconds into the transition), the
 * event mode, the previous frame's clock reading and the cascade effect's edge;
 * the pictures themselves are abstract, and every drawing request a frame makes
 * is appended to the canvas's log.
 */
module Effect {
  import opened EffectGeometry

  /** What a command answers the script interpreter: go on with the next command, or
    * wait for the next event and re-read the current one (`RET_WAIT | RET_REREAD`). */
  datatype Status = Continue | WaitReread

  datatype EventMode = IdleEventMode | EffectEventMode | OtherEventMode

  /** The accumulation surface, seen as the log of the drawing requests made to it. */
  class Canvas {
    var ops: seq<Op>

    constructor()
      ensures ops == []
    {
      ops := [];
    }

    method Append(op: Op)
      modifies this
      ensures ops == old(ops) + [op]
    {
      ops := ops + [op];
    }
  }

  /** `effect_timer_resolution` after the quake effects' clamp as the source writes it:
    * lowered to `duration / 4 / no`, which is 0 for a quake shorter than `4 * no`. */
  function QuakeResolutionAsWritten(res: int, duration: int, no: int): int
    requires duration > 0 && no > 0
  {
    if res > duration / 4 / no then duration / 4 / no else res
  }

  /** The clamp as intended: at most `duration / 4 / no` milliseconds a frame, but
    * never less than one, so that the quake still advances. */
  function QuakeResolution(res: int, duration: int, no: int): (r: int)
    requires duration > 0 && no > 0
    ensures r <= res
    ensures res >= 1 ==> r >= 1
    ensures r == res || r == duration / 4 / no || r == 1
    ensures r <= duration / 4 / no || r <= 1
  {
    if res > duration / 4 / no then (if duration / 4 / no >= 1 then duration / 4 / no else 1) else res
  }

  /** The clock difference `doEffect` adds to the counter: one millisecond on the first
    * frame, the time since the previous frame afterwards. */
  function Resolution(counter: int, ticks: int, startTimeOld: int): int
  {
    if counter == 0 then 1 else ticks - startTimeOld
  }

  class Executor {
    const screen: Screen
    const canvas: Canvas
    /** `effect_counter`: milliseconds into the transition. */
    var counter: int
    var eventMode: EventMode
    /** `effect_start_time_old`: the clock reading of the previous frame. */
    var startTimeOld: int
    /** `effect_timer_resolution`: what the last frame added to the counter. */
    var timerResolution: int
    /** `effect_tmp`: the edge the cascade effect reached in the previous frame. */
    var effectTmp: int
    /** `dirty_rect.bounding_box`: the part of the screen to be refreshed. */
    var dirty: Rect
    /** `DISPLAY_MODE_UPDATED` of `display_mode`. */
    var displayUpdated: bool

    ghost predicate Valid()
      reads this
    {
      screen.Valid() && counter >= 0
    }

    /** An executor for a `width` by `height` screen scaled by `ratio1 / ratio2`, whose
      * quake effects are numbered from `custom`. */
    constructor(width: int, height: int, ratio1: int, ratio2: int, custom: int)
      requires width > 0 && height > 0 && ratio1 > 0 && ratio2 > 0 && 16 * ratio1 >= ratio2
      requires custom >= 20
      ensures Valid() && fresh(canvas) && canvas.ops == []
      ensures screen == Screen(width, height, 16 * ratio1 / ratio2, 24 * ratio1 / ratio2, custom)
      ensures counter == 0 && eventMode == IdleEventMode && effectTmp == 0
      ensures dirty == Rect(0, 0, 0, 0) && !displayUpdated
    {
      assert 24 * ratio1 / ratio2 >= 16 * ratio1 / ratio2 >= 1 by {
        DivMono(16 * ratio1, 24 * ratio1, ratio2);
      }
      screen := Screen(width, height, 16 * ratio1 / ratio2, 24 * ratio1 / ratio2, custom);
      canvas := new Canvas();
      counter, eventMode, startTimeOld, timerResolution, effectTmp := 0, IdleEventMode, 0, 0, 0;
      dirty, displayUpdated := Rect(0, 0, 0, 0), false;
    }

    /** `setEffect`: effect 0 is no transition and changes nothing; any other effect
      * keeps the current picture as the old one, restarts the counter and switches to
      * the effect event mode. The scrolls and the mosaics redraw the whole screen. */
    method SetEffect(e: EffectLink, cut: bool, skipNormal: bool) returns (r: Status)
      requires Valid()
      modifies this, canvas
      ensures Valid()
      ensures e.effect == 0 ==> r == Continue && unchanged(this) && unchanged(canvas)
      ensures e.effect != 0 ==>
        r == WaitReread && counter == 0 && eventMode == EffectEventMode
        && canvas.ops == old(canvas.ops) + [SaveSource]
        && dirty == (if FillsScreen(EffectNo(e.effect, cut, skipNormal))
                     then Rect(0, 0, screen.width, screen.height) else old(dirty))
        && startTimeOld == old(startTimeOld) && timerResolution == old(timerResolution)
        && effectTmp == old(effectTmp) && displayUpdated == old(displayUpdated)
    {
      if e.effect == 0 {
        return Continue;
      }
      var no := EffectNo(e.effect, cut, skipNormal);
      canvas.Append(SaveSource);
      if FillsScreen(no) {
        dirty := Rect(0, 0, screen.width, screen.height);
      }
      counter := 0;
      eventMode := EffectEventMode;
      r := WaitReread;
    }

    /** `doEffect`: one frame. The counter grows by the clock difference (one on the
      * first frame); the frame waits for the next one while the counter is below the
      * duration, and otherwise copies the new picture over the dirty region and
      * returns to the idle event mode. Effect 1 is done after a single frame and
      * resets the counter. Every effect but 0 flushes its frame to the screen, the
      * last one clearing the dirty region if `clearDirty` says so. */
    method DoEffect(e: EffectLink, clearDirty: bool, ticks: int, cut: bool, skipNormal: bool, roll: (int, int))
      returns (r: Status)
      requires Valid()
      requires counter != 0 ==> ticks >= startTimeOld
      requires Timed(screen, EffectNo(e.effect, cut, skipNormal)) ==> e.duration > 0
      requires Clamped(screen, EffectNo(e.effect, cut, skipNormal)) ==> e.no > 0
      requires 0 <= roll.0 < 3 && 0 <= roll.1 < 3
      modifies this, canvas
      ensures Valid()
      ensures var no := EffectNo(e.effect, cut, skipNormal);
        var res := Resolution(old(counter), ticks, old(startTimeOld));
        timerResolution
          == (if Clamped(screen, no) then QuakeResolution(res, e.duration, e.no) else res)
      ensures startTimeOld == ticks && dirty == old(dirty)
      ensures var no := EffectNo(e.effect, cut, skipNormal);
        effectTmp == FrameTmp(screen, no, old(counter), e, old(effectTmp))
      ensures var no := EffectNo(e.effect, cut, skipNormal);
        var c := old(counter) + timerResolution;
        (r == WaitReread <==> c < e.duration && no != 1)
        && (r == WaitReread ==>
              counter == c && eventMode == old(eventMode) && displayUpdated == old(displayUpdated)
              && canvas.ops == old(canvas.ops) + Frame(screen, no, old(counter), e, roll, old(effectTmp))
                               + (if no != 0 then [Flush(false)] else []))
        && (r == Continue ==>
              counter == (if no == 1 then 0 else c) && eventMode == IdleEventMode && !displayUpdated
              && canvas.ops == old(canvas.ops) + Frame(screen, no, old(counter), e, roll, old(effectTmp))
                               + [Draw(dirty, dirty, DstSurface)]
                               + (if no != 0 then [Flush(clearDirty)] else []))
    {
      if counter == 0 {
        startTimeOld := ticks - 1;
      }
      timerResolution := ticks - startTimeOld;
      startTimeOld := ticks;
      var no := EffectNo(e.effect, cut, skipNormal);
      if Clamped(screen, no) {
        timerResolution := QuakeResolution(timerResolution, e.duration, e.no);
      }
      effectTmp := DrawFrame(no, e, roll, counter, effectTmp);
      counter := counter + timerResolution;
      if counter < e.duration && no != 1 {
        if no != 0 {
          canvas.Append(Flush(false));
        }
        r := WaitReread;
      } else {
        canvas.Append(Draw(dirty, dirty, DstSurface));
        if no != 0 {
          canvas.Append(Flush(clearDirty));
        }
        if no == 1 {
          counter := 0;
        }
        eventMode := IdleEventMode;
        displayUpdated := false;
        r := Continue;
      }
    }

    /** The drawing part of `doEffect` for effect `no` at counter `c`; answers the new
      * cascade edge. */
    method DrawFrame(no: int, e: EffectLink, roll: (int, int), c: int, tmp: int) returns (tmp': int)
      requires screen.Valid()
      requires Timed(screen, no) ==> e.duration > 0
      modifies canvas
      ensures canvas.ops == old(canvas.ops) + Frame(screen, no, c, e, roll, tmp)
      ensures tmp' == FrameTmp(screen, no, c, e, tmp)
    {
      if 0 <= no <= 18 {
        DrawNumbered(no, c, e.duration);
        tmp' := tmp;
      } else {
        tmp' := DrawCustom(no, e, roll, c, tmp);
      }
    }

    /** The switch over effects 0 to 18. */
    method DrawNumbered(no: int, c: int, d: int)
      requires screen.Valid() && 0 <= no <= 18
      requires Timed(screen, no) ==> d > 0
      modifies canvas
      ensures canvas.ops == old(canvas.ops) + NumberedFrame(screen, no, c, d)
    {
      if no == 0 || no == 1 {
      } else if 2 <= no <= 5 {
        DrawShutter(SideOf(no - 2), screen.stripe * c / d);
      } else if 6 <= no <= 9 {
        assert screen.curtain * c * 2 == screen.curtain * 2 * c;
        DrawCurtain(SideOf(no - 6), screen.curtain * c * 2 / d);
      } else if 11 <= no <= 14 {
        var side := SideOf(no - 11);
        DrawScroll(side, Extent(screen, side) * c / d);
      } else if no == 15 {
        canvas.Append(Blend(BlendFadeMask, 256 * c / d));
      } else if no == 16 {
        canvas.Append(Mosaic(SrcSurface, 5 - 6 * c / d));
      } else if no == 17 {
        canvas.Append(Mosaic(DstSurface, 6 * c / d));
      } else if no == 18 {
        canvas.Append(Blend(BlendCrossfadeMask, 256 * c * 2 / d));
      } else {
        canvas.Append(Blend(BlendConst, 256 * c / d));
      }
    }

    /** The quake and dll cases, and the cross-fade every other number falls back to. */
    method DrawCustom(no: int, e: EffectLink, roll: (int, int), c: int, tmp: int) returns (tmp': int)
      requires screen.Valid() && (no != screen.custom + 2 ==> e.duration > 0)
      modifies canvas
      ensures canvas.ops == old(canvas.ops) + CustomFrame(screen, no, c, e, roll, tmp)
      ensures tmp' == (if no == screen.custom - 1 then DllTmp(screen, e.imageName, c, e.duration, tmp) else tmp)
    {
      tmp' := tmp;
      if no == screen.custom {
        canvas.Append(FillBlack);
        canvas.Append(Shake(false));
      } else if no == screen.custom + 1 {
        canvas.Append(Shake(true));
      } else if no == screen.custom + 2 {
        var dx, dy := e.no * (roll.0 - 1) * 2, e.no * (roll.1 - 1) * 2;
        canvas.Append(FillBlack);
        canvas.Append(Draw(Rect(dx, dy, screen.width, screen.height),
                           Rect(0, 0, screen.width, screen.height), DstSurface));
      } else if no == screen.custom - 1 {
        tmp' := DrawDll(e.imageName, c, e.duration, tmp);
      } else {
        canvas.Append(Blend(BlendConst, 256 * c / e.duration));
      }
    }

    /** A shutter: one loop over the stripes. */
    method DrawShutter(side: Side, width: int)
      requires screen.Valid()
      modifies canvas
      ensures canvas.ops == old(canvas.ops) + ShutterOps(screen, side, width, ShutterCount(screen, side))
    {
      var n := ShutterCount(screen, side);
      for t := 0 to n
        invariant canvas.ops == old(canvas.ops) + ShutterOps(screen, side, width, t)
      {
        var r := Stripe(screen, side, width, t);
        canvas.Append(Draw(r, r, DstSurface));
      }
    }

    /** A curtain: one loop over the stripes, skipping those that have not started. */
    method DrawCurtain(side: Side, width: int)
      requires screen.Valid()
      modifies canvas
      ensures canvas.ops == old(canvas.ops) + CurtainOps(screen, side, width, CurtainCount(screen, side))
    {
      var n := CurtainCount(screen, side);
      for i := 0 to n
        invariant canvas.ops == old(canvas.ops) + CurtainOps(screen, side, width, i)
      {
        var s := CurtainStripe(screen, side, width, i);
        if s.Some? {
          canvas.Append(Draw(s.value, s.value, DstSurface));
        }
      }
    }

    /** A scroll: the old picture moved on, and the new one brought in behind it. */
    method DrawScroll(side: Side, width: int)
      modifies canvas
      ensures canvas.ops == old(canvas.ops) + ScrollOps(screen, side, width)
    {
      var ops := ScrollOps(screen, side, width);
      canvas.Append(ops[0]);
      canvas.Append(ops[1]);
    }

    /** The dll-based effect: the image name holds the dll and, after a `/`, its
      * parameters; cascade.dll, trvswave.dll and whirl.dll run their effect and any
      * other dll cross-fades. */
    method DrawDll(name: string, c: int, d: int, tmp: int) returns (tmp': int)
      requires d > 0
      modifies canvas
      ensures canvas.ops == old(canvas.ops) + DllOps(screen, name, c, d, tmp)
      ensures tmp' == DllTmp(screen, name, c, d, tmp)
    {
      var dll, params := SplitDll(name);
      tmp' := tmp;
      if dll == "cascade.dll" {
        tmp' := DrawCascade(params, c, d, tmp);
      } else if dll == "trvswave.dll" {
        canvas.Append(Trvswave(params));
      } else if dll == "whirl.dll" {
        canvas.Append(Whirl(params));
      } else {
        canvas.Append(Blend(BlendConst, 256 * c / d));
      }
    }

    /** `effectCascade`: parses its mode, resets the remembered edge on the first frame,
      * and when cascading in remembers the edge it reached. */
    method DrawCascade(params: string, c: int, d: int, tmp: int) returns (tmp': int)
      requires d > 0
      modifies canvas
      ensures canvas.ops == old(canvas.ops) + CascadeOps(screen, params, c, d, tmp)
      ensures tmp' == CascadeNext(screen, CascadeMode(params), c, d, tmp)
    {
      var mode := ParseCascadeMode(params);
      tmp' := tmp;
      if c == 0 {
        tmp' := 0;
      }
      var ext := if Has(mode, CascadeLR) then screen.width else screen.height;
      var width := ext * c / d;
      if !Has(mode, CascadeIn) {
        width := ext - width;
      }
      canvas.Append(CascadeFrame(mode, width, tmp'));
      if Has(mode, CascadeIn) && width > 0 {
        tmp' := width;
      }
      if Has(mode, CascadeCross) {
        canvas.Append(Blend(BlendConst, 256 * c / d));
      }
    }
  }

  /** Effects whose frames redraw the whole screen rather than the dirty region. */
  predicate FillsScreen(no: int)
  {
    11 <= no <= 14 || no == 16 || no == 17
  }

  /** The mode letters of `effectCascade`, as its chain of tests reads them. */
  method ParseCascadeMode(params: string) returns (mode: int)
    ensures mode == CascadeMode(params)
  {
    var c0 := if |params| > 0 then params[0] else 0 as char;
    if c0 == 'u' {
      mode := 0;
    } else if c0 == 'd' {
      mode := 1;
    } else if c0 == 'r' {
      mode := 3;
    } else {
      mode := 2;
    }
    var c1 := if |params| > 1 then params[1] else 0 as char;
    if c1 == 'i' {
      mode := mode + CascadeIn;
    } else if c1 == 'x' {
      mode := mode + CascadeIn + CascadeCross;
    }
  }

  /** The walk over a dll effect's image name to its first `/`. */
  method SplitDll(name: string) returns (dll: string, params: string)
    ensures (dll, params) == DllSplit(name)
  {
    var i := 0;
    while i < |name| && name[i] != '/'
      invariant 0 <= i <= |name|
      invariant forall k :: 0 <= k < i ==> name[k] != '/'
      invariant FirstSlash(name) >= i
    {
      i := i + 1;
    }
    if i < |name| {
      dll, params := name[..i], name[i + 1..];
    } else {
      dll, params := name, "";
    }
  }

  /** The walk over the stored image name as the program writes it: it stops at the
    * first `/` or NUL and overwrites a `/` it stopped at with a NUL, in the buffer the
    * effect keeps for its later frames. */
  method SplitDllAsWritten(buf: array<char>) returns (dll: seq<char>, params: seq<char>)
    modifies buf
    ensures buf[..] == DllCut(old(buf[..]))
    ensures (dll, params) == DllSplitAsWritten(old(buf[..]))
  {
    var i := 0;
    while i < buf.Length && buf[i] != '/' && buf[i] != Nul
      invariant 0 <= i <= buf.Length
      invariant DllScan(buf[..]) >= i
    {
      i := i + 1;
    }
    if i < buf.Length && buf[i] == '/' {
      dll, params := buf[..i], buf[i + 1..];
      buf[i] := Nul;
    } else {
      dll, params := buf[..i], buf[i..];
    }
  }

  lemma DivMono(a: int, b: int, d: int)
    requires d > 0 && 0 <= a <= b
    ensures 0 <= a / d <= b / d
  {
    ProgressMono(1, a, b, d);
    assert 1 * a == a && 1 * b == b;
  }

  // ================================================================ properties

  /** The counter of a quake after frames whose clock differences are `steps`: each
    * frame adds its difference, clamped as the program clamps it. */
  function QuakeCounterAsWritten(steps: seq<int>, duration: int, no: int): int
    requires duration > 0 && no > 0
  {
    if |steps| == 0 then 0
    else QuakeCounterAsWritten(steps[..|steps| - 1], duration, no)
         + QuakeResolutionAsWritten(steps[|steps| - 1], duration, no)
  }

  /** The same counter with the clamp as intended. */
  function QuakeCounter(steps: seq<int>, duration: int, no: int): int
    requires duration > 0 && no > 0
  {
    if |steps| == 0 then 0
    else QuakeCounter(steps[..|steps| - 1], duration, no) + QuakeResolution(steps[|steps| - 1], duration, no)
  }

  /** The quake clamp as written stalls a short quake: with `duration` 3 and `no` 1
    * every frame adds nothing to the counter, whatever the clock says, so after any
    * number of frames the counter is still 0, below the duration, and `doEffect`
    * asks for another frame. */
  lemma {:induction false} QuakeStalls(steps: seq<int>)
    requires forall k :: 0 <= k < |steps| ==> steps[k] >= 0
    ensures QuakeCounterAsWritten(steps, 3, 1) == 0 < 3
  {
    if |steps| > 0 {
      QuakeStalls(steps[..|steps| - 1]);
    }
  }

  /** With the clamp as intended every frame whose clock moved adds at least one, so
    * a quake of any duration ends after at most `duration` such frames. */
  lemma {:induction false} QuakeAdvances(steps: seq<int>, duration: int, no: int)
    requires duration > 0 && no > 0
    requires forall k :: 0 <= k < |steps| ==> steps[k] >= 1
    ensures QuakeCounter(steps, duration, no) >= |steps|
    ensures |steps| >= duration ==> QuakeCounter(steps, duration, no) >= duration
  {
    if |steps| > 0 {
      QuakeAdvances(steps[..|steps| - 1], duration, no);
    }
  }

}
