/**
 * The scratches of the old-movie effect: light or dark vertical lines that drift
 * across the picture and are re-rolled every few frames. A counter shared by
 * all scratches holds how many of them are visible. Every revision keeps six
 * scratch objects; they differ in when a re-rolled scratch becomes visible.
 */
module Scratches {

  /** The shared visible-scratch counter (`count` / `scratch_count`). */
  class Tally {
    var count: int

    constructor(count: int)
      ensures this.count == count
    {
      this.count := count;
    }
  }

  function Visible(offs: int): nat
  {
    if offs != 0 then 1 else 0
  }

  /** The number of visible scratches among a sequence of tints. */
  function CountVisible(offs: seq<int>): nat
  {
    if offs == [] then 0 else CountVisible(offs[..|offs| - 1]) + Visible(offs[|offs| - 1])
  }

  /** What one scratch holds from frame to frame: its tint, its two ends, its drift
    * and the frames left before it is re-rolled. */
  datatype Snap = Snap(offs: int, x1: int, x2: int, dx: int, time: int)

  /** One frame of one scratch, `b` before and `a` after, on a `w`-wide screen, as
    * every revision takes it. While time is left, the scratch counts down, keeps its
    * tint and drift, and moves both ends by the drift when visible. When its time
    * runs out it is re-rolled: 3 to 9 frames, a visible line starting inside the
    * margins, an invisible one keeping its ends and drift. */
  predicate Stepped(b: Snap, a: Snap, w: int)
  {
    if b.time != 1 then
      a.time == b.time - 1 && a.offs == b.offs && a.dx == b.dx
      && a.x1 == b.x1 + (if b.offs != 0 then b.dx else 0)
      && a.x2 == b.x2 + (if b.offs != 0 then b.dx else 0)
    else
      3 <= a.time <= 9
      && (a.offs != 0 ==> 10 <= a.x1 <= w - 11)
      && (a.offs == 0 ==> a.x1 == b.x1 && a.x2 == b.x2 && a.dx == b.dx)
  }

  /** The experimental re-roll: a level of 0 or less never shows a scratch, and one of
    * 600 or more always does. */
  predicate LevelRule(b: Snap, a: Snap, level: int)
  {
    b.time == 1 ==> (level <= 0 ==> a.offs == 0) && (level >= 600 ==> a.offs != 0)
  }

  class Scratch {
    /** The tint of the line: 64 light, -64 dark, 0 no scratch. */
    var offs: int
    /** The columns of the line at the top and at the bottom of the screen. */
    var x1: int
    var x2: int
    /** How far the line moves each frame. */
    var dx: int
    /** Frames left before the scratch is re-rolled. */
    var time: int
    /** The screen width `setwindow` gives. */
    var width: int

    /** What every scratch keeps between frames. */
    ghost predicate Valid()
      reads this
    {
      1 <= time <= 9 && (offs == 0 || offs == 64 || offs == -64)
      && (offs != 0 ==> -6 <= dx <= 5 && x2 == x1 - dx)
    }

    ghost function State(): Snap
      reads this
    {
      Snap(offs, x1, x2, dx, time)
    }

    /** A fresh scratch is invisible and is re-rolled on the first frame. */
    constructor(width: int)
      ensures Valid() && offs == 0 && time == 1 && this.width == width
    {
      offs := 0;
      time := 1;
      this.width := width;
    }

    /** `setwindow`: the width the line positions are drawn from. */
    method SetWindow(w: int)
      modifies this
      ensures width == w && offs == old(offs) && x1 == old(x1) && x2 == old(x2)
      ensures dx == old(dx) && time == old(time)
    {
      width := w;
    }

    /** Re-rolls a scratch visible with one chance in three, but only while fewer than
      * four others are visible (`Scratch::init` of `Layer.cpp` and of
      * `ONScripterLabel_oldmovie.cpp`, where the width is 640). */
    method InitCapped(tally: Tally)
      requires width > 20
      modifies this, tally
      ensures Valid() && 3 <= time <= 9 && width == old(width)
      ensures tally.count == old(tally.count) - Visible(old(offs)) + Visible(offs)
      ensures old(tally.count) - Visible(old(offs)) > 3 ==> offs == 0
      ensures offs != 0 ==> 10 <= x1 <= width - 11
      ensures offs == 0 ==> x1 == old(x1) && x2 == old(x2) && dx == old(dx)
    {
      if offs != 0 {
        tally.count := tally.count - 1;
      }
      var t :| 0 <= t < 7;
      time := t + 3;
      var spawn: bool :| true;  // rand() % 3 == 1
      if tally.count <= 3 && spawn {
        Spawn(tally);
      } else {
        offs := 0;
      }
    }

    /** Re-rolls a scratch visible when `rand() % 600 < level`, with no cap on how many
      * are visible (`Scratch::init` of the experimental branch). */
    method InitLevel(tally: Tally, level: int)
      requires width > 20 || level <= 0
      modifies this, tally
      ensures Valid() && 3 <= time <= 9 && width == old(width)
      ensures tally.count == old(tally.count) - Visible(old(offs)) + Visible(offs)
      ensures level <= 0 ==> offs == 0
      ensures level >= 600 ==> offs != 0
      ensures offs != 0 ==> 10 <= x1 <= width - 11
      ensures offs == 0 ==> x1 == old(x1) && x2 == old(x2) && dx == old(dx)
    {
      if offs != 0 {
        tally.count := tally.count - 1;
      }
      var t :| 0 <= t < 7;
      time := t + 3;
      var r :| 0 <= r < 600;
      if r < level {
        Spawn(tally);
      } else {
        offs := 0;
      }
    }

    /** A visible scratch: light or dark, somewhere in `10 .. width - 11`, drifting
      * by `-6 .. 5` columns a frame and slanted by its drift. */
    method Spawn(tally: Tally)
      requires width > 20 && 3 <= time <= 9
      modifies this, tally
      ensures Valid() && time == old(time) && width == old(width)
      ensures tally.count == old(tally.count) + 1
      ensures offs != 0 && 10 <= x1 <= width - 11
    {
      tally.count := tally.count + 1;
      var light: bool :| true;
      offs := if light then 64 else -64;
      var x :| 0 <= x < width - 20;
      x1 := x + 10;
      var d :| 0 <= d < 12;
      dx := d - 6;
      x2 := x1 - dx;
    }

    /** One frame: the scratch is re-rolled when its time runs out, and otherwise a
      * visible one moves both ends by `dx`. */
    method UpdateCapped(tally: Tally)
      requires Valid() && width > 20
      modifies this, tally
      ensures Valid() && width == old(width)
      ensures Stepped(old(State()), State(), width)
      ensures old(time) == 1 ==>
        tally.count == old(tally.count) - Visible(old(offs)) + Visible(offs)
        && (old(tally.count) - Visible(old(offs)) > 3 ==> offs == 0)
      ensures old(time) != 1 ==> tally.count == old(tally.count)
    {
      time := time - 1;
      if time == 0 {
        InitCapped(tally);
      } else if offs != 0 {
        x1 := x1 + dx;
        x2 := x2 + dx;
      }
    }

    /** One frame of an experimental-branch scratch, re-rolled with `level`. */
    method UpdateLevel(tally: Tally, level: int)
      requires Valid() && (width > 20 || level <= 0)
      modifies this, tally
      ensures Valid() && width == old(width)
      ensures Stepped(old(State()), State(), width) && LevelRule(old(State()), State(), level)
      ensures old(time) == 1 ==> tally.count == old(tally.count) - Visible(old(offs)) + Visible(offs)
      ensures old(time) != 1 ==> tally.count == old(tally.count)
    {
      time := time - 1;
      if time == 0 {
        InitLevel(tally, level);
      } else if offs != 0 {
        x1 := x1 + dx;
        x2 := x2 + dx;
      }
    }
  }

  /** The six scratch objects and their shared counter. */
  class ScratchSet {
    const items: seq<Scratch>
    const tally: Tally

    /** The tints of the scratches, in order. */
    ghost function Tints(): seq<int>
      reads this, items
    {
      seq(|items|, i reads items requires 0 <= i < |items| => items[i].offs)
    }

    /** The scratches' states, in order. */
    ghost function States(): (r: seq<Snap>)
      reads this, items
      ensures |r| == |items|
    {
      seq(|items|, i reads items requires 0 <= i < |items| => items[i].State())
    }

    /** The counter equals the number of visible scratches. */
    ghost predicate Valid()
      reads this, items, tally
    {
      (forall i, j :: 0 <= i < j < |items| ==> items[i] != items[j])
      && (forall i :: 0 <= i < |items| ==> items[i].Valid())
      && tally.count == CountVisible(Tints())
    }

    /** The screen width every scratch draws against. */
    ghost predicate HasWidth(w: int)
      reads this, items
    {
      forall i :: 0 <= i < |items| ==> items[i].width == w
    }

    constructor(n: nat, width: int)
      ensures |items| == n && Valid() && HasWidth(width) && tally.count == 0
      ensures fresh(tally) && forall i :: 0 <= i < n ==> fresh(items[i])
    {
      var s: seq<Scratch> := [];
      for k := 0 to n
        invariant |s| == k
        invariant forall i, j :: 0 <= i < j < k ==> s[i] != s[j]
        invariant forall i :: 0 <= i < k ==> fresh(s[i]) && s[i].Valid() && s[i].offs == 0 && s[i].width == width
      {
        var x := new Scratch(width);
        s := s + [x];
      }
      items := s;
      tally := new Tally(0);
      new;
      ZeroTints(Tints());
    }

    /** `setwindow` on every scratch. */
    method SetWindow(w: int)
      requires Valid()
      modifies items
      ensures Valid() && HasWidth(w) && Tints() == old(Tints())
    {
      for k := 0 to |items|
        invariant Valid() && Tints() == old(Tints())
        invariant forall i :: 0 <= i < k ==> items[i].width == w
      {
        items[k].SetWindow(w);
        assert Tints() == old(Tints());
      }
    }

    /** One frame of every scratch, capped at four visible: the counter keeps counting
      * the visible scratches and stays within `0 .. 4`. */
    method UpdateCapped(ghost w: int)
      requires Valid() && HasWidth(w) && w > 20 && tally.count <= 4
      modifies items, tally
      ensures Valid() && HasWidth(w) && 0 <= tally.count <= 4
      ensures forall i :: 0 <= i < |items| ==> Stepped(old(States())[i], States()[i], w)
    {
      ghost var s0 := States();
      for k := 0 to |items|
        invariant Valid() && HasWidth(w) && tally.count <= 4
        invariant SteppedUpTo(s0, States(), k, w)
      {
        UpdateOneCapped(k, w, s0);
      }
    }

    /** One frame of scratch `k`, at most four visible; the counter follows its tint. */
    method UpdateOneCapped(k: nat, ghost w: int, ghost s0: seq<Snap>)
      requires Valid() && HasWidth(w) && w > 20 && tally.count <= 4 && k < |items|
      requires SteppedUpTo(s0, States(), k, w)
      modifies items[k], tally
      ensures Valid() && HasWidth(w) && tally.count <= 4
      ensures SteppedUpTo(s0, States(), k + 1, w)
    {
      ghost var before := Tints();
      ghost var b := States();
      items[k].UpdateCapped(tally);
      assert Tints() == before[k := items[k].offs];
      CountUpdate(before, k, items[k].offs);
      assert States() == b[k := items[k].State()];
    }

    /** One frame of every scratch, re-rolled with the experimental `level`. */
    method UpdateLevel(ghost w: int, level: int)
      requires Valid() && HasWidth(w) && (w > 20 || level <= 0)
      modifies items, tally
      ensures Valid() && HasWidth(w)
      ensures 0 <= tally.count <= |items|
      ensures forall i :: 0 <= i < |items| ==>
        Stepped(old(States())[i], States()[i], w) && LevelRule(old(States())[i], States()[i], level)
    {
      ghost var s0 := States();
      for k := 0 to |items|
        invariant Valid() && HasWidth(w)
        invariant LeveledUpTo(s0, States(), k, w, level)
      {
        UpdateOneLevel(k, w, level, s0);
      }
      CountBound(Tints());
    }

    /** One frame of scratch `k`, re-rolled with `level`; the counter follows its tint. */
    method UpdateOneLevel(k: nat, ghost w: int, level: int, ghost s0: seq<Snap>)
      requires Valid() && HasWidth(w) && (w > 20 || level <= 0) && k < |items|
      requires LeveledUpTo(s0, States(), k, w, level)
      modifies items[k], tally
      ensures Valid() && HasWidth(w)
      ensures LeveledUpTo(s0, States(), k + 1, w, level)
    {
      ghost var before := Tints();
      ghost var b := States();
      items[k].UpdateLevel(tally, level);
      assert Tints() == before[k := items[k].offs];
      CountUpdate(before, k, items[k].offs);
      assert States() == b[k := items[k].State()];
    }
  }

  /** After the loop over the scratches has reached `k`: the scratches before `k`
    * have had their frame, and the others are as they were. */
  predicate SteppedUpTo(s0: seq<Snap>, s: seq<Snap>, k: int, w: int)
  {
    |s| == |s0| && 0 <= k <= |s|
    && (forall i :: 0 <= i < k ==> Stepped(s0[i], s[i], w))
    && (forall i :: k <= i < |s| ==> s[i] == s0[i])
  }

  /** The same with the experimental re-roll rule. */
  predicate LeveledUpTo(s0: seq<Snap>, s: seq<Snap>, k: int, w: int, level: int)
  {
    |s| == |s0| && 0 <= k <= |s|
    && (forall i :: 0 <= i < k ==> Stepped(s0[i], s[i], w) && LevelRule(s0[i], s[i], level))
    && (forall i :: k <= i < |s| ==> s[i] == s0[i])
  }

  // ================================================================ properties

  /** Changing one tint changes the count by that scratch's visibility alone. */
  lemma {:induction false} CountUpdate(s: seq<int>, k: int, v: int)
    requires 0 <= k < |s|
    ensures CountVisible(s[k := v]) == CountVisible(s) - Visible(s[k]) + Visible(v)
    decreases |s|
  {
    var t := s[k := v];
    if k < |s| - 1 {
      assert t[..|t| - 1] == s[..|s| - 1][k := v];
      CountUpdate(s[..|s| - 1], k, v);
    } else {
      assert t[..|t| - 1] == s[..|s| - 1];
    }
  }

  /** No more scratches are visible than there are. */
  lemma {:induction false} CountBound(s: seq<int>)
    ensures CountVisible(s) <= |s|
    decreases |s|
  {
    if s != [] {
      CountBound(s[..|s| - 1]);
    }
  }

  /** Invisible scratches count for nothing. */
  lemma {:induction false} ZeroTints(s: seq<int>)
    requires forall i :: 0 <= i < |s| ==> s[i] == 0
    ensures CountVisible(s) == 0
    decreases |s|
  {
    if s != [] {
      ZeroTints(s[..|s| - 1]);
    }
  }
}
