/**
 * Pixels of the old-movie effect: 32-bit `0x00RRGGBB` values, the per-channel
 * tint a scratch applies, the byte-wise filter kernels that blend, darken and
 * brighten scanlines, and the noise and glow surfaces the effect generates.
 */
module Pixel {
  import opened Bytes

  type pixel = x: int | 0 <= x < 0x1_0000_0000

  /** Channel `k` of a pixel: 0 blue, 1 green, 2 red, 3 the unused top byte. */
  function Channel(c: pixel, k: nat): byte
    requires k < 4
  {
    if k == 0 then c % 256
    else if k == 1 then (c / 256) % 256
    else if k == 2 then (c / 65536) % 256
    else c / 16777216
  }

  /** `c1 | c2 << 8 | c3 << 16` for three bytes, whose bits do not overlap. */
  function Pack(c1: byte, c2: byte, c3: byte): pixel
  {
    c1 + c2 * 256 + c3 * 65536
  }

  /** The distance of a byte from a value. */
  function Dist(b: int, v: int): nat
  {
    if b <= v then v - b else b - v
  }

  /** A channel value limited to `0 .. 255`: the byte closest to `v`. */
  function Clamp(v: int): (b: byte)
    ensures forall t: byte :: Dist(b, v) <= Dist(t, v)
    ensures 0 <= v <= 255 ==> b == v
  {
    if v < 0 then 0 else if v > 255 then 255 else v
  }

  /** A scratch line passing over pixel `c`: each colour channel lightened or darkened
    * by `offs` and clamped, the top byte cleared. */
  function Tint(c: pixel, offs: int): pixel
  {
    Pack(Clamp(Channel(c, 0) + offs), Clamp(Channel(c, 1) + offs), Clamp(Channel(c, 2) + offs))
  }

  /** A grey pixel `0 | v << 16 | v << 8 | v`. */
  function Grey(v: byte): pixel
  {
    Pack(v, v, v)
  }

  // ---------------------------------------------------------------- kernels

  /** The byte kernels of the scanline filters. `Mean`, `Add` and `Sub` compute in
    * `int`; `MeanHalves` and `AddHalves` halve each operand first, in `unsigned char`. */
  datatype Kernel = Mean | Add | Sub | MeanHalves | AddHalves

  function Apply(k: Kernel, a: byte, b: byte): byte
  {
    match k
    case Mean => (a + b) / 2
    case Add => if ((a + b) / 256) % 2 == 1 then 255 else a + b  // result & 0x0100
    case Sub => if a - b < 0 then 0 else a - b
    case MeanHalves => a / 2 + b / 2
    case AddHalves => if a / 2 + b / 2 >= 128 then 255 else 2 * (a / 2 + b / 2)
  }

  /** `imageFilterMean`, `imageFilterAdd` and `imageFilterSub`: `length` bytes of
    * `dst` from `od` on become the kernel applied to the matching bytes of `src1` and
    * `src2`. `dst` may be `src1` or `src2` itself, at the same offset: each byte is
    * read before it is written. */
  method ImageFilter(k: Kernel, src1: array<byte>, o1: nat, src2: array<byte>, o2: nat,
                     dst: array<byte>, od: nat, length: nat)
    requires o1 + length <= src1.Length && o2 + length <= src2.Length && od + length <= dst.Length
    requires src1 == dst ==> o1 == od
    requires src2 == dst ==> o2 == od
    modifies dst
    ensures forall p :: 0 <= p < dst.Length ==>
      dst[p] == if od <= p < od + length
                then Apply(k, old(src1[o1 + p - od]), old(src2[o2 + p - od])) else old(dst[p])
  {
    ghost var a, b := src1[..], src2[..];
    var i := 0;
    while i < length
      invariant 0 <= i <= length
      invariant forall p :: 0 <= p < dst.Length ==>
        dst[p] == if od <= p < od + i then Apply(k, a[o1 + p - od], b[o2 + p - od]) else old(dst[p])
    {
      var x := src1[o1 + i];
      var y := src2[o2 + i];
      assert x == a[o1 + i] && y == b[o2 + i];
      dst[od + i] := Apply(k, x, y);
      i := i + 1;
    }
  }

  // ---------------------------------------------------------------- generated surfaces

  /** A noise pixel: grey, with a level that is one of `0, step, .., (levels - 1) * step`. */
  predicate IsNoise(c: pixel, step: int, levels: int)
    requires step > 0
  {
    c == Grey(Channel(c, 0)) && Channel(c, 0) % step == 0 && Channel(c, 0) / step < levels
  }

  /** Fills every pixel of the noise screens with a random noise level `(rand() % levels) * step`. */
  method FillNoise(px: array2<pixel>, step: int, levels: int)
    requires step > 0 && levels > 0 && (levels - 1) * step <= 255
    modifies px
    ensures forall i, j :: 0 <= i < px.Length0 && 0 <= j < px.Length1 ==> IsNoise(px[i, j], step, levels)
  {
    for i := 0 to px.Length0
      invariant forall i', j :: 0 <= i' < i && 0 <= j < px.Length1 ==> IsNoise(px[i', j], step, levels)
    {
      for j := 0 to px.Length1
        invariant forall i', j' :: 0 <= j' < px.Length1 && (0 <= i' < i || (i' == i && j' < j)) ==>
          IsNoise(px[i', j'], step, levels)
      {
        var r :| 0 <= r < levels;
        var rm := r * step;
        MulMono(r, levels - 1, step);
        GreyNoise(r, step, levels);
        px[i, j] := Grey(rm);
      }
    }
  }

  /** Fills row `y` of the glow surface with the grey level `shade[y]`. */
  method FillGlow(glow: array<pixel>, shade: seq<byte>)
    requires |shade| == glow.Length
    modifies glow
    ensures forall y :: 0 <= y < glow.Length ==> glow[y] == Grey(shade[y])
  {
    for y := 0 to glow.Length
      invariant forall y' :: 0 <= y' < y ==> glow[y'] == Grey(shade[y'])
    {
      glow[y] := Grey(shade[y]);
    }
  }

  // ================================================================ properties

  /** The channels of a packed pixel are the packed bytes, and its top byte is 0. */
  lemma PackChannels(c1: byte, c2: byte, c3: byte)
    ensures var c := Pack(c1, c2, c3);
      Channel(c, 0) == c1 && Channel(c, 1) == c2 && Channel(c, 2) == c3 && Channel(c, 3) == 0
  {
    var c := Pack(c1, c2, c3);
    DivUnique(c, 256, c2 + c3 * 256, c1);
    DivUnique(c, 65536, c3, c1 + c2 * 256);
    DivUnique(c2 + c3 * 256, 256, c3, c2);
    DivUnique(c, 16777216, 0, c);
  }

  /** A pixel is the packing of its four channels. */
  lemma ChannelsPack(c: pixel)
    ensures c == Channel(c, 0) + Channel(c, 1) * 256 + Channel(c, 2) * 65536 + Channel(c, 3) * 16777216
  {
    DivNat(c, 256);
    DivNat(c / 256, 256);
    DivNat(c / 65536, 256);
    assert c / 256 / 256 == c / 65536 by {
      DivUnique(c, 65536, c / 256 / 256, (c / 256 % 256) * 256 + c % 256);
    }
    assert c / 65536 / 256 == c / 16777216 by {
      DivUnique(c, 16777216, c / 65536 / 256, (c / 65536 % 256) * 65536 + c % 65536);
      DivNat(c, 65536);
      DivUnique(c, 65536, c / 256 / 256, (c / 256 % 256) * 256 + c % 256);
    }
  }

  /** The scratch tint changes each colour channel to `clamp(c + offs, 0, 255)` and
    * clears the top byte. */
  lemma TintChannels(c: pixel, offs: int)
    ensures var t := Tint(c, offs);
      Channel(t, 0) == Clamp(Channel(c, 0) + offs) && Channel(t, 1) == Clamp(Channel(c, 1) + offs)
      && Channel(t, 2) == Clamp(Channel(c, 2) + offs) && Channel(t, 3) == 0
  {
    PackChannels(Clamp(Channel(c, 0) + offs), Clamp(Channel(c, 1) + offs), Clamp(Channel(c, 2) + offs));
  }

  /** Tinting with offset 0 leaves the colour channels of a pixel as they are. */
  lemma TintZero(c: pixel)
    requires Channel(c, 3) == 0
    ensures Tint(c, 0) == c
  {
    ChannelsPack(c);
  }

  /** A grey level picked for the noise is a noise pixel. */
  lemma GreyNoise(r: int, step: int, levels: int)
    requires step > 0 && 0 <= r < levels && r * step <= 255
    ensures IsNoise(Grey(r * step), step, levels)
  {
    PackChannels(r * step, r * step, r * step);
    DivUnique(r * step, step, r, 0);
  }

  /** What the kernels compute: the integer mean, the sum saturated at 255 and the
    * difference floored at 0. */
  lemma KernelMeaning(a: byte, b: byte)
    ensures Apply(Mean, a, b) == (a + b) / 2
    ensures Apply(Add, a, b) == if a + b > 255 then 255 else a + b
    ensures Apply(Sub, a, b) == if a < b then 0 else a - b
    ensures (if a <= b then a else b) <= Apply(Mean, a, b) <= (if a <= b then b else a)
  {
  }

  /** Halving each operand first costs at most one step of the mean, and at most two of
    * the saturated sum; the halving sum is 255 exactly when the saturated sum is. */
  lemma HalvesApproximate(a: byte, b: byte)
    ensures Apply(Mean, a, b) - 1 <= Apply(MeanHalves, a, b) <= Apply(Mean, a, b)
    ensures Apply(Add, a, b) - 2 <= Apply(AddHalves, a, b) <= Apply(Add, a, b)
    ensures Apply(AddHalves, a, b) == 255 ==> Apply(Add, a, b) == 255
  {
    KernelMeaning(a, b);
  }
}
