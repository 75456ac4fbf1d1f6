/**
 * The SPB image format as DirectReader decodes it: a width and a height, then
 * three colour planes coded as a run/delta bit stream, unpacked into a 24-bit
 * Windows bitmap (a 14-byte file header and a 40-byte info header, then
 * bottom-up rows padded to a multiple of four bytes).
 *
 * This module holds the reference definitions: what the header is, what
 * samples a plane decodes to, and where each sample lands.  The decoding
 * method of module DirectReader is proved against them.
 */
module Spb {
  import opened Bytes
  import opened BitStream

  const HeaderSize: nat := 54

  /** Padding after the `3 * w` bytes of a row. */
  function Pad(w: nat): (r: nat)
    ensures r < 4 && (3 * w + r) % 4 == 0
  {
    (4 - w * 3 % 4) % 4
  }

  /** Bytes per row. */
  function Stride(w: nat): (r: nat)
    ensures r % 4 == 0 && 3 * w <= r < 3 * w + 4
  {
    3 * w + Pad(w)
  }

  /** The number of pixels, one sample of each plane per pixel. */
  function Pixels(w: nat, h: nat): (n: nat)
    ensures n == w * h
  {
    MulMono(0, w, h);
    w * h
  }

  /** The size of the bitmap: header plus padded rows. */
  function Total(w: nat, h: nat): (r: nat)
    ensures r == Stride(w) * h + HeaderSize && r >= HeaderSize
  {
    MulMono(0, Stride(w), h);
    Stride(w) * h + HeaderSize
  }

  // ------------------------------------------------------------------ header

  /** Byte `k` of the 54 header bytes `decodeSPB` writes for a `w` by `h` bitmap of
    * `t` bytes, zero where it writes nothing. */
  function HeaderByteOf(t: nat, w: nat, h: nat, k: nat): (b: byte)
  {
    if k == 0 then 66                        // 'B'
    else if k == 1 then 77                   // 'M'
    else if k == 2 then t % 256
    else if k == 3 then (t / 0x100) % 256
    else if k == 4 then (t / 0x1_0000) % 256
    else if k == 5 then (t / 0x100_0000) % 256
    else if k == 10 then 54                  // offset of the body
    else if k == 14 then 40                  // size of the info header
    else if k == 18 then w % 256
    else if k == 19 then (w / 0x100) % 256
    else if k == 22 then h % 256
    else if k == 23 then (h / 0x100) % 256
    else if k == 26 then 1                   // planes
    else if k == 28 then 24                  // bits per pixel
    else if k == 34 then (t - 54) % 256      // low byte of the body size
    else 0
  }

  function HeaderByte(w: nat, h: nat, k: nat): (b: byte)
    requires w < 65536 && h < 65536
  {
    HeaderByteOf(Total(w, h), w, h, k)
  }

  function HeaderOf(t: nat, w: nat, h: nat): (r: seq<byte>)
    ensures |r| == HeaderSize
    ensures forall k :: 0 <= k < HeaderSize ==> r[k] == HeaderByteOf(t, w, h, k)
  {
    seq(54, k requires 0 <= k < 54 => HeaderByteOf(t, w, h, k))
  }

  function Header(w: nat, h: nat): (r: seq<byte>)
    requires w < 65536 && h < 65536
    ensures |r| == HeaderSize
    ensures forall k :: 0 <= k < HeaderSize ==> r[k] == HeaderByte(w, h, k)
  {
    HeaderOf(Total(w, h), w, h)
  }

  /** A little-endian field, as a bitmap reader takes it. */
  function LittleEndian(s: seq<byte>): (v: nat)
    ensures v < Pow2(8 * |s|)
  {
    if |s| == 0 then 0
    else
      var v := LittleEndian(s[1..]);
      assert Pow2(8 * |s|) == 256 * Pow2(8 * (|s| - 1)) by { Pow2Add(8, 8 * (|s| - 1)); }
      s[0] + 256 * v
  }

  lemma LittleEndian2(s: seq<byte>)
    requires |s| == 2
    ensures LittleEndian(s) == s[0] as int + 256 * (s[1] as int)
  {
    assert s[1..][1..] == [];
  }

  lemma LittleEndian4(s: seq<byte>)
    requires |s| == 4
    ensures LittleEndian(s) == s[0] as int + 256 * (s[1] as int + 256 * (s[2] as int + 256 * (s[3] as int)))
  {
    assert s[1..][1..][1..][1..] == [];
    assert LittleEndian(s[1..][1..][1..]) == s[3];
    assert LittleEndian(s[1..][1..]) == s[2] as int + 256 * (s[3] as int);
  }

  lemma Field4(hd: seq<byte>, k: nat)
    requires k + 4 <= |hd|
    ensures LittleEndian(hd[k..k + 4]) == hd[k] as int + 256 * (hd[k + 1] as int + 256 * (hd[k + 2] as int + 256 * (hd[k + 3] as int)))
  {
    LittleEndian4(hd[k..k + 4]);
  }

  /** A four-byte field of the header, least significant byte first. */
  lemma HeaderLong(t: nat, w: nat, h: nat, k: nat)
    requires k + 4 <= HeaderSize
    ensures LittleEndian(HeaderOf(t, w, h)[k..k + 4])
            == HeaderByteOf(t, w, h, k) as int + 256 * (HeaderByteOf(t, w, h, k + 1) as int
               + 256 * (HeaderByteOf(t, w, h, k + 2) as int + 256 * (HeaderByteOf(t, w, h, k + 3) as int)))
  {
    Field4(HeaderOf(t, w, h), k);
  }

  /** The four low bytes of `t`, least significant first, are `t` modulo 2^32. */
  lemma LowBytes(t: nat)
    ensures t % 0x1_0000_0000
            == t % 256 + 256 * ((t / 0x100) % 256 + 256 * ((t / 0x1_0000) % 256 + 256 * ((t / 0x100_0000) % 256)))
  {
    var q1 := t / 0x100;
    var q2 := q1 / 0x100;
    ByteSplit(t, 0x100_0000);
    ByteSplit(q1, 0x1_0000);
    ByteSplit(q2, 0x100);
    ByteSplit(t, 0x100);
    ByteSplit(t, 0x1_0000);
    ByteSplit(q1, 0x100);
  }

  /** The two low bytes of a 16-bit `v`, least significant first, are `v`. */
  lemma ShortBytes(v: nat)
    requires v < 65536
    ensures v % 256 + 256 * ((v / 0x100) % 256) == v
  {
    assert v == (v / 0x100) * 256 + v % 256;
    DivUnique(v / 0x100, 256, 0, v / 0x100);
  }

  /** The file header: the signature, the size modulo 2^32 and the body offset. */
  lemma FileFields(t: nat, w: nat, h: nat)
    ensures var hd := HeaderOf(t, w, h);
      && hd[0] == 'B' as int && hd[1] == 'M' as int
      && LittleEndian(hd[2..6]) == t % 0x1_0000_0000
      && LittleEndian(hd[10..14]) == HeaderSize
  {
    HeaderLong(t, w, h, 2);
    LowBytes(t);
    HeaderLong(t, w, h, 10);
  }

  /** The info header: its size, the dimensions, the planes and bits per pixel. */
  lemma InfoFields(t: nat, w: nat, h: nat)
    requires w < 65536 && h < 65536
    ensures var hd := HeaderOf(t, w, h);
      && LittleEndian(hd[14..18]) == 40
      && LittleEndian(hd[18..22]) == w
      && LittleEndian(hd[22..26]) == h
      && LittleEndian(hd[26..28]) == 1
      && LittleEndian(hd[28..30]) == 24
  {
    var hd := HeaderOf(t, w, h);
    HeaderLong(t, w, h, 14);
    assert LittleEndian(hd[18..22]) == w by {
      HeaderLong(t, w, h, 18);
      ShortBytes(w);
    }
    assert LittleEndian(hd[22..26]) == h by {
      HeaderLong(t, w, h, 22);
      ShortBytes(h);
    }
    LittleEndian2(hd[26..28]);
    LittleEndian2(hd[28..30]);
  }

  /** The low byte of the body size, and zeros in every byte no field covers. */
  lemma SizeAndZeros(t: nat, w: nat, h: nat)
    requires t >= HeaderSize
    ensures var hd := HeaderOf(t, w, h);
      && LittleEndian(hd[34..38]) == (t - HeaderSize) % 256
      && (forall k :: 6 <= k < 10 || 30 <= k < 34 || 35 <= k < 54 ==> hd[k] == 0)
  {
    HeaderLong(t, w, h, 34);
  }

  /** What a bitmap reader finds in the header: the signature, the file size
    * modulo 2^32, the body offset, the info-header size, the dimensions, one
    * plane of 24 bits per pixel, the low byte of the body size, and zeros in
    * every other byte. */
  lemma HeaderFields(w: nat, h: nat)
    requires w < 65536 && h < 65536
    ensures var hd := Header(w, h);
      && hd[0] == 'B' as int && hd[1] == 'M' as int
      && LittleEndian(hd[2..6]) == Total(w, h) % 0x1_0000_0000
      && LittleEndian(hd[10..14]) == HeaderSize
      && LittleEndian(hd[14..18]) == 40
      && LittleEndian(hd[18..22]) == w
      && LittleEndian(hd[22..26]) == h
      && LittleEndian(hd[26..28]) == 1
      && LittleEndian(hd[28..30]) == 24
      && LittleEndian(hd[34..38]) == (Total(w, h) - HeaderSize) % 256
      && (forall k :: 6 <= k < 10 || 30 <= k < 34 || 35 <= k < 54 ==> hd[k] == 0)
  {
    var t := Total(w, h);
    assert Header(w, h) == HeaderOf(t, w, h);
    FileFields(t, w, h);
    InfoFields(t, w, h);
    SizeAndZeros(t, w, h);
  }

  // ------------------------------------------------------------------ planes

  /** Apply a delta code: an odd code `k` adds `k/2 + 1`, an even one subtracts `k/2`. */
  function ApplyCode(c: byte, k: nat): (r: byte)
  {
    if k % 2 == 1 then ToByte(c + k / 2 + 1) else ToByte(c - k / 2)
  }

  /** The code an encoder sends to go from `c` to `t`: twice the step up, less one,
    * or twice the step down, taking the shorter way round modulo 256. */
  function CodeFor(c: byte, t: byte): (k: nat)
    ensures k < 256
    ensures ApplyCode(c, k) == t
    ensures (k == 0) == (c == t)
  {
    var d := if t >= c then t - c else t - c + 256;
    if 1 <= d <= 128 then
      assert (2 * d - 1) / 2 == d - 1;
      assert ToByte(c + d) == t by { DivUnique(c + d, 256, (c + d - t) / 256, t); }
      2 * d - 1
    else if d == 0 then 0
    else
      assert (2 * (256 - d)) / 2 == 256 - d;
      assert ToByte(c - (256 - d)) == t by { DivUnique(c + d - 256, 256, (c + d - 256 - t) / 256, t); }
      2 * (256 - d)
  }

  /** One sample of a delta group: a literal byte when `m == 8`, otherwise an
    * `m`-bit code.  A failed read of a code leaves the value (the source adds
    * 2^63 to an `int`, which keeps its low 32 bits). */
  function Delta(s: seq<bit>, p: nat, c: byte, m: nat): (r: (byte, nat))
    requires p <= |s|
    ensures p <= r.1 <= |s|
  {
    if m == 8 then
      var (v, p') := GetBits(s, p, 8);
      (ToByte(v), p')
    else
      var (k, p') := GetBits(s, p, m);
      if k == -1 then (c, p') else (ApplyCode(c, k), p')
  }

  /** The first `n` delta samples of width `m`: the samples, the last value and
    * the position after them. */
  function Deltas(s: seq<bit>, p: nat, c: byte, m: nat, n: nat): (r: (seq<byte>, byte, nat))
    requires p <= |s|
    ensures |r.0| == n && p <= r.2 <= |s|
    ensures n > 0 ==> r.1 == r.0[n - 1]
    ensures n == 0 ==> r == ([], c, p)
  {
    if n == 0 then ([], c, p)
    else
      var (done, c1, p1) := Deltas(s, p, c, m, n - 1);
      var (c2, p2) := Delta(s, p1, c1, m);
      (done + [c2], c2, p2)
  }

  /** The delta width selected by a 3-bit selector `1 <= n <= 6`, or by the
    * extra bit after selector 7 (EOF there gives width 0, and EOF on the
    * selector itself width 1). */
  function Width(s: seq<bit>, p: nat, n: int): (r: (nat, nat))
    requires p <= |s| && -1 <= n <= 7 && n != 0
    ensures p <= r.1 <= |s| && r.0 <= 8
    ensures 1 <= n <= 6 ==> r == (n + 2, p)
  {
    if n == 7 then
      var (b, p') := GetBits(s, p, 1);
      (b + 1, p')
    else if n == -1 then (1, p)
    else (n + 2, p)
  }

  /** One group of four samples after the first. */
  function Group(s: seq<bit>, p: nat, c: byte): (r: (seq<byte>, byte, nat))
    requires p <= |s|
    ensures |r.0| == 4 && r.1 == r.0[3] && r.2 <= |s|
  {
    var (n, p1) := GetBits(s, p, 3);
    if n == 0 then ([c, c, c, c], c, p1)
    else
      var (m, p2) := Width(s, p1, n);
      Deltas(s, p2, c, m, 4)
  }

  /** A plane's first sample and its first `k` groups: the samples, the value
    * of the last and the position after them. */
  function PlaneGroups(s: seq<bit>, p: nat, k: nat): (r: (seq<byte>, byte, nat))
    requires p <= |s|
    ensures |r.0| == 1 + 4 * k && r.1 == r.0[|r.0| - 1] && p <= r.2 <= |s|
  {
    if k == 0 then
      var (c0, p1) := GetBits(s, p, 8);
      ([ToByte(c0)], ToByte(c0), p1)
    else
      var (done, c, p1) := PlaneGroups(s, p, k - 1);
      var (g, c', p2) := Group(s, p1, c);
      (done + g, c', p2)
  }

  /** How many groups follow the first sample in a plane of `total` samples:
    * groups are read while fewer than `total` samples are out. */
  /** One group more, after the first `k` groups gave `done`. */
  lemma PlaneGroupsStep(s: seq<bit>, p: nat, k: nat, done: seq<byte>, c: byte, p1: nat)
    requires p <= |s| && PlaneGroups(s, p, k) == (done, c, p1)
    ensures var g := Group(s, p1, c);
      PlaneGroups(s, p, k + 1) == (done + g.0, g.1, g.2)
  {
  }

  function GroupCount(total: nat): (k: nat)
    ensures total <= 1 + 4 * k && (k == 0 || 1 + 4 * (k - 1) < total)
  {
    DivNat(total + 2, 4);
    (total + 2) / 4
  }

  /** The group loop stops after exactly `GroupCount(total)` groups. */
  lemma GroupCountExact(total: nat, k: nat)
    requires total <= 1 + 4 * k && (k == 0 || 1 + 4 * (k - 1) < total)
    ensures k == GroupCount(total)
  {
  }

  /** A plane of `total` samples: a literal first sample, then groups of four
    * until at least `total` samples are out, so at most `total + 3` of them. */
  function Plane(s: seq<bit>, p: nat, total: nat): (r: (seq<byte>, nat))
    requires p <= |s|
    ensures r.1 <= |s|
    ensures |r.0| >= total && |r.0| >= 1 && |r.0| <= total + 3
    ensures |r.0| % 4 == 1
  {
    var (samples, _, p') := PlaneGroups(s, p, GroupCount(total));
    (samples, p')
  }

  /** Where plane `i` starts in the stream: each plane follows the previous one. */
  function PlaneStart(s: seq<bit>, total: nat, i: nat): (p: nat)
    ensures p <= |s|
  {
    if i == 0 then 0 else Plane(s, PlaneStart(s, total, i - 1), total).1
  }

  /** The three planes of an image of `total` pixels, decoded one after another. */
  function Planes(s: seq<bit>, total: nat): (r: seq<seq<byte>>)
    ensures |r| == 3 && forall i :: 0 <= i < 3 ==> |r[i]| >= total
  {
    seq(3, i requires 0 <= i < 3 => Plane(s, PlaneStart(s, total, i), total).0)
  }

  // ------------------------------------------------------------------ placement

  /** Body offset of sample `t` of plane `i`: row `j = t / w` is stored bottom-up,
    * even rows left to right and odd rows right to left. */
  function Where(w: nat, h: nat, i: nat, t: nat): (o: int)
    requires i < 3 && t < w * h
  {
    var j, k := t / w, t % w;
    (h - 1 - j) * Stride(w) + 3 * (if j % 2 == 0 then k else w - 1 - k) + i
  }

  /** The plane a body byte belongs to, or 3 for row padding. */
  function ChannelAt(w: nat, o: nat): (ch: nat)
    requires w > 0
    ensures ch <= 3
  {
    var col := o % Stride(w);
    if col < 3 * w then col % 3 else 3
  }

  /** The sample a non-padding body byte holds. */
  function SampleAt(w: nat, h: nat, o: nat): (t: int)
    requires w > 0
  {
    var r, col := o / Stride(w), o % Stride(w);
    var pix, j := col / 3, h - 1 - r;
    j * w + (if j % 2 == 0 then pix else w - 1 - pix)
  }

  /** The body after the first `done` planes are placed over `prev`. */
  function Body(w: nat, h: nat, planes: seq<seq<byte>>, done: nat, prev: seq<byte>): (r: seq<byte>)
    requires done <= |planes| && done <= 3 && |prev| == Stride(w) * h
    requires forall i :: 0 <= i < done ==> |planes[i]| >= w * h
    ensures |r| == |prev|
  {
    if w == 0 then prev
    else
      seq(|prev|, o requires 0 <= o < |prev| =>
        var ch := ChannelAt(w, o);
        if ch < done then (SampleInRange(w, h, o); planes[ch][SampleAt(w, h, o)]) else prev[o])
  }

  /** With no plane placed, the body is what it was. */
  lemma BodyNone(w: nat, h: nat, planes: seq<seq<byte>>, prev: seq<byte>)
    requires |prev| == Stride(w) * h
    ensures Body(w, h, planes, 0, prev) == prev
  {
  }

  /** Every body byte of a channel holds a sample of the image. */
  lemma SampleInRange(w: nat, h: nat, o: nat)
    requires w > 0 && o < Stride(w) * h && ChannelAt(w, o) < 3
    ensures 0 <= SampleAt(w, h, o) < w * h
  {
    var st := Stride(w);
    var r, col := o / st, o % st;
    DivNat(o, st);
    if r >= h {
      MulMono(h, r, st);
      assert false;
    }
    assert col < 3 * w;
    var pix, j := col / 3, h - 1 - r;
    assert 0 <= pix < w && 0 <= j < h;
    var k := if j % 2 == 0 then pix else w - 1 - pix;
    assert 0 <= k < w;
    GridIndex(j, k, w, h);
  }

  /** Sample `t` of plane `i` lies in the body, in channel `i`, and is the sample stored there. */
  lemma WhereInverse(w: nat, h: nat, i: nat, t: nat)
    requires i < 3 && t < w * h
    ensures w > 0 && 0 <= Where(w, h, i, t) < Stride(w) * h
    ensures ChannelAt(w, Where(w, h, i, t)) == i
    ensures SampleAt(w, h, Where(w, h, i, t)) == t
  {
    assert w > 0;
    var st := Stride(w);
    var j, k := t / w, t % w;
    DivNat(t, w);
    if j >= h {
      MulMono(h, j, w);
      assert false;
    }
    var pix := if j % 2 == 0 then k else w - 1 - k;
    var col := 3 * pix + i;
    var o := (h - 1 - j) * st + col;
    assert o == Where(w, h, i, t);
    assert 0 <= pix < w && 0 <= col < st;
    GridIndex(h - 1 - j, col, st, h);
    DivUnique(o, st, h - 1 - j, col);
    DivUnique(col, 3, pix, i);
  }

  /** Every channel byte of the body is the place of the sample it holds. */
  lemma SampleAtInverse(w: nat, h: nat, o: nat)
    requires w > 0 && o < Stride(w) * h && ChannelAt(w, o) < 3
    ensures 0 <= SampleAt(w, h, o) < w * h
    ensures Where(w, h, ChannelAt(w, o), SampleAt(w, h, o)) == o
  {
    SampleInRange(w, h, o);
    var st := Stride(w);
    var r, col := o / st, o % st;
    DivNat(o, st);
    var pix, j := col / 3, h - 1 - r;
    var k := if j % 2 == 0 then pix else w - 1 - pix;
    DivUnique(j * w + k, w, j, k);
    assert col == 3 * pix + col % 3;
  }

  /** Sample `t` of plane `i` lands at `(h-1-j)*stride + 3*(j even ? k : w-1-k) + i`. */
  lemma Placement(w: nat, h: nat, planes: seq<seq<byte>>, prev: seq<byte>, i: nat, t: nat)
    requires |planes| == 3 && forall q :: 0 <= q < 3 ==> |planes[q]| >= w * h
    requires i < 3 && t < w * h
    requires |prev| == Stride(w) * h
    ensures w > 0 && 0 <= Where(w, h, i, t) < |prev|
    ensures Body(w, h, planes, 3, prev)[Where(w, h, i, t)] == planes[i][t]
  {
    WhereInverse(w, h, i, t);
  }

  /** The body after the first `n` samples of plane `i` are placed over `prev`. */
  function Placed(w: nat, h: nat, i: nat, plane: seq<byte>, prev: seq<byte>, n: nat): (r: seq<byte>)
    requires i < 3 && n <= w * h && n <= |plane| && |prev| == Stride(w) * h
    ensures |r| == |prev|
  {
    if w == 0 then prev
    else
      seq(|prev|, o requires 0 <= o < |prev| =>
        if ChannelAt(w, o) == i && (SampleInRange(w, h, o); SampleAt(w, h, o) < n)
        then plane[SampleAt(w, h, o)] else prev[o])
  }

  /** Placing no sample changes nothing. */
  lemma PlacedNone(w: nat, h: nat, i: nat, plane: seq<byte>, prev: seq<byte>)
    requires i < 3 && |prev| == Stride(w) * h
    ensures Placed(w, h, i, plane, prev, 0) == prev
  {
    if w > 0 {
      forall o | 0 <= o < |prev| && ChannelAt(w, o) == i
        ensures SampleAt(w, h, o) >= 0
      {
        SampleInRange(w, h, o);
      }
    }
  }

  /** Placing sample `t` writes it at `Where(w, h, i, t)` and nowhere else. */
  lemma PlacedStep(w: nat, h: nat, i: nat, plane: seq<byte>, prev: seq<byte>, t: nat)
    requires i < 3 && t < w * h && t < |plane| && |prev| == Stride(w) * h
    ensures 0 <= Where(w, h, i, t) < |prev|
    ensures Placed(w, h, i, plane, prev, t + 1) == Placed(w, h, i, plane, prev, t)[Where(w, h, i, t) := plane[t]]
  {
    WhereInverse(w, h, i, t);
    var at := Where(w, h, i, t);
    var a, b := Placed(w, h, i, plane, prev, t + 1), Placed(w, h, i, plane, prev, t)[at := plane[t]];
    forall o | 0 <= o < |prev|
      ensures a[o] == b[o]
    {
      if o != at && ChannelAt(w, o) == i {
        SampleAtInverse(w, h, o);
      }
    }
  }

  /** Placing all the samples of plane `i` gives the body with `i + 1` planes. */
  lemma BodyStep(w: nat, h: nat, planes: seq<seq<byte>>, done: nat, prev: seq<byte>)
    requires done < |planes| && done < 3 && |prev| == Stride(w) * h
    requires forall i :: 0 <= i <= done ==> |planes[i]| >= w * h
    ensures Body(w, h, planes, done + 1, prev)
            == Placed(w, h, done, planes[done], Body(w, h, planes, done, prev), w * h)
  {
    if w > 0 {
      var a := Body(w, h, planes, done + 1, prev);
      var b := Placed(w, h, done, planes[done], Body(w, h, planes, done, prev), w * h);
      forall o | 0 <= o < |prev|
        ensures a[o] == b[o]
      {
        if ChannelAt(w, o) < 3 {
          SampleInRange(w, h, o);
        }
      }
    }
  }

  /** Sample `k` of row `j` is sample `j * w + k`, and where it goes. */
  lemma WhereRow(w: nat, h: nat, i: nat, j: nat, k: nat)
    requires i < 3 && j < h && k < w
    ensures j * w + k < w * h
    ensures Where(w, h, i, j * w + k) == (h - 1 - j) * Stride(w) + 3 * (if j % 2 == 0 then k else w - 1 - k) + i
  {
    GridIndex(j, k, w, h);
    DivUnique(j * w + k, w, j, k);
  }
}
