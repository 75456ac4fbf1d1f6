/**
 * A DirectReader's decoding state and its two bit-stream decoders.
 *
 * The reader owns its substitution table, the `getbit` state and a
 * decompression buffer of at least `2 * N` bytes that `decodeSPB` grows on
 * demand and `decodeLZSS` uses as its ring window.  Files are byte sequences;
 * the caller's output buffer is an array.
 */
module DirectReader {
  import opened Bytes
  import opened ByteCodec
  import opened BitStream
  import opened BitReader
  import Spb
  import Lzss
  import opened Names

  /** The SPB header's width and height: the first two keyed shorts at `offset`. */
  function SpbWidth(key: seq<byte>, file: seq<byte>, offset: nat): (w: nat)
    requires IsKeyTable(key) && offset + 4 <= |file|
    ensures w < 65536
  {
    ReadShort(key, file, offset).value.value
  }

  function SpbHeight(key: seq<byte>, file: seq<byte>, offset: nat): (h: nat)
    requires IsKeyTable(key) && offset + 4 <= |file|
    ensures h < 65536
  {
    ReadShort(key, file, offset + 2).value.value
  }

  /** The keyed bit stream of `file` from `offset` on (empty past the end). */
  function StreamAt(key: seq<byte>, file: seq<byte>, offset: nat): seq<bit>
    requires IsKeyTable(key)
  {
    Unpack(Keyed(key, file[if offset <= |file| then offset else |file|..]))
  }

  /** `getDecompressedFileLength`: the decoded size from the header at
    * `offset`, without consuming the stream (the file is a value here, so
    * there is no position to restore): the keyed long for NBZ, the bitmap size
    * for SPB, 0 otherwise. */
  function GetDecompressedFileLength(key: seq<byte>, file: seq<byte>, offset: nat, kind: Compression): (n: nat)
    requires IsKeyTable(key) && offset + 4 <= |file|
    ensures kind == SpbCompression ==> n == Spb.Total(SpbWidth(key, file, offset), SpbHeight(key, file, offset))
    ensures kind == NbzCompression ==> n == BigEndian(Keyed(key, file[offset..offset + 4]))
    ensures kind != SpbCompression && kind != NbzCompression ==> n == 0
  {
    match kind
    case NbzCompression => ReadLong(key, file, offset).value.value
    case SpbCompression =>
      var w := ReadShort(key, file, offset).value.value;
      var h := ReadShort(key, file, offset + 2).value.value;
      Spb.Total(w, h)
    case _ => 0
  }

  /** `a` with `w` written over it from index `k` on. */
  function Spliced(a: seq<byte>, k: nat, w: seq<byte>): (r: seq<byte>)
    requires k + |w| <= |a|
    ensures |r| == |a|
  {
    a[..k] + w + a[k + |w|..]
  }

  /** What `decodeSPB` leaves in a buffer that held `b`: the bitmap header at
    * the start, then the body with the three decoded planes placed in it; the
    * bytes past the bitmap are untouched. */
  ghost function SpbImage(key: seq<byte>, file: seq<byte>, offset: nat, b: seq<byte>): (r: seq<byte>)
    requires IsKeyTable(key) && offset + 4 <= |file|
    requires |b| >= Spb.Total(SpbWidth(key, file, offset), SpbHeight(key, file, offset))
    ensures |r| == |b|
  {
    Image(SpbWidth(key, file, offset), SpbHeight(key, file, offset), StreamAt(key, file, offset + 4), b)
  }

  /** A `w` by `h` bitmap decoded from the bit stream `s` into a buffer that held `b`. */
  ghost function Image(w: nat, h: nat, s: seq<bit>, b: seq<byte>): (r: seq<byte>)
    requires w < 65536 && h < 65536 && |b| >= Spb.Total(w, h)
    ensures |r| == |b|
  {
    var total := Spb.Total(w, h);
    var hd := Spb.Header(w, h);
    var planes := Spb.Planes(s, w * h);
    var body := Spb.Body(w, h, planes, 3, b[Spb.HeaderSize..total]);
    Spliced(Spliced(b, 0, hd), Spb.HeaderSize, body)
  }

  /** Splicing in nothing changes nothing. */
  lemma SpliceEmpty(a: seq<byte>, k: nat)
    requires k <= |a|
    ensures Spliced(a, k, []) == a
  {
    assert a[..k] + [] + a[k..] == a;
  }

  /** A decoding result with its samples spliced into `a` at `k`. */
  function Spliced3At(a: seq<byte>, k: nat, r: (seq<byte>, byte, nat)): (t: (seq<byte>, byte, nat))
    requires k + |r.0| <= |a|
    ensures t.0 == Spliced(a, k, r.0) && t.1 == r.1 && t.2 == r.2
  {
    (Spliced(a, k, r.0), r.1, r.2)
  }

  /** Writing one more byte just past a splice extends the splice. */
  lemma SpliceStep(a: seq<byte>, k: nat, w: seq<byte>, v: byte)
    requires k + |w| < |a|
    ensures Spliced(a, k, w)[k + |w| := v] == Spliced(a, k, w + [v])
  {
    assert Spliced(a, k, w)[k + |w| := v] == a[..k] + (w + [v]) + a[k + |w| + 1..];
  }

  /** Four writes of the same byte in a row are a splice of four copies. */
  lemma SpliceRun(a: seq<byte>, k: nat, v: byte)
    requires k + 4 <= |a|
    ensures a[k := v][k + 1 := v][k + 2 := v][k + 3 := v] == Spliced(a, k, [v, v, v, v])
  {
  }

  /** Writing inside a splice writes into the spliced bytes. */
  lemma SpliceUpdate(a: seq<byte>, k: nat, w: seq<byte>, o: nat, v: byte)
    requires k + |w| <= |a| && o < |w|
    ensures Spliced(a, k, w)[k + o := v] == Spliced(a, k, w[o := v])
  {
    assert Spliced(a, k, w)[k + o := v] == a[..k] + w[o := v] + a[k + |w|..];
  }

  /** Two adjacent splices are one. */
  lemma SpliceJoin(a: seq<byte>, k: nat, w: seq<byte>, u: seq<byte>)
    requires k + |w| + |u| <= |a|
    ensures Spliced(Spliced(a, k, w), k + |w|, u) == Spliced(a, k, w + u)
  {
    assert Spliced(Spliced(a, k, w), k + |w|, u) == a[..k] + (w + u) + a[k + |w| + |u|..];
  }

  /** What a splice reads back: the spliced bytes at `k`, `a` elsewhere. */
  lemma SpliceParts(a: seq<byte>, k: nat, w: seq<byte>)
    requires k + |w| <= |a|
    ensures Spliced(a, k, w)[k..k + |w|] == w
    ensures Spliced(a, k, w)[..k] == a[..k] && Spliced(a, k, w)[k + |w|..] == a[k + |w|..]
    ensures forall t :: 0 <= t < |w| ==> Spliced(a, k, w)[k + t] == w[t]
  {
  }

  /** The first `n` bytes of a splice at the start are the spliced-in bytes. */
  lemma SpliceHead(a: seq<byte>, w: seq<byte>, n: nat)
    requires |w| <= |a| && n <= |w|
    ensures forall t :: 0 <= t < n ==> Spliced(a, 0, w)[t] == w[t]
  {
  }

  /** A second splice at the same place, of the same length, replaces the first. */
  lemma SpliceOver(a: seq<byte>, k: nat, u: seq<byte>, v: seq<byte>)
    requires k + |u| <= |a| && |u| == |v|
    ensures Spliced(Spliced(a, k, u), k, v) == Spliced(a, k, v)
  {
    SpliceParts(a, k, u);
  }

  /** Splicing in what is already there changes nothing. */
  lemma SpliceSame(a: seq<byte>, k: nat, e: nat)
    requires k <= e <= |a|
    ensures Spliced(a, k, a[k..e]) == a
  {
    assert a[..k] + a[k..e] + a[e..] == a;
  }

  /** Before any plane is placed, the header-completed buffer holds its old body. */
  lemma BodyStart(b0: seq<byte>, w: nat, h: nat, planes: seq<seq<byte>>, b1: seq<byte>, prev: seq<byte>)
    requires w < 65536 && h < 65536 && Spb.Total(w, h) <= |b0|
    requires b1 == Spliced(b0, 0, Spb.Header(w, h)) && prev == b0[Spb.HeaderSize..Spb.Total(w, h)]
    ensures b1 == Spliced(b1, Spb.HeaderSize, Spb.Body(w, h, planes, 0, prev))
  {
    assert b1[Spb.HeaderSize..Spb.Total(w, h)] == prev;
    Spb.BodyNone(w, h, planes, prev);
    SpliceSame(b1, Spb.HeaderSize, Spb.Total(w, h));
  }

  /** Placing plane `i` over a body holding planes `0 .. i - 1` gives the body
    * holding planes `0 .. i`. */
  lemma NextBody(w: nat, h: nat, planes: seq<seq<byte>>, i: nat, prev: seq<byte>, b1: seq<byte>, buf1: seq<byte>)
    requires i < 3 && |planes| == 3 && forall q :: 0 <= q < 3 ==> |planes[q]| >= w * h
    requires |prev| == Spb.Stride(w) * h && Spb.Total(w, h) <= |b1|
    requires buf1 == Spliced(b1, Spb.HeaderSize, Spb.Body(w, h, planes, i, prev))
    ensures Spliced(buf1, Spb.HeaderSize, Spb.Placed(w, h, i, planes[i], buf1[Spb.HeaderSize..Spb.Total(w, h)], w * h))
         == Spliced(b1, Spb.HeaderSize, Spb.Body(w, h, planes, i + 1, prev))
  {
    var body := Spb.Body(w, h, planes, i, prev);
    SpliceParts(b1, Spb.HeaderSize, body);
    Spb.BodyStep(w, h, planes, i, prev);
    SpliceOver(b1, Spb.HeaderSize, body, Spb.Body(w, h, planes, i + 1, prev));
  }

  /** The sample index and body offset of row `j + 1`, from those of row `j`. */
  lemma RowAdvance(w: nat, h: nat, j: nat)
    requires j < h
    ensures j * w + w == (j + 1) * w <= w * h
    ensures (h - 1 - (j + 1)) * Spb.Stride(w) == (h - 1 - j) * Spb.Stride(w) - Spb.Stride(w)
    ensures ((j + 1) % 2 == 1) == (j % 2 == 0)
  {
    MulMono(j + 1, h, w);
    MulPred(j + 1, w);
    MulPred(h - 1 - j, Spb.Stride(w));
  }

  /** The length `getFileHandle` reports for an opened file of kind `kind`:
    * the decoded size from the header for NBZ and SPB, the file size for the
    * rest.  A compressed file too short for its 4-byte header reports 0. */
  function EntryLength(key: seq<byte>, file: seq<byte>, kind: Compression): (n: nat)
    requires IsKeyTable(key)
    ensures kind != SpbCompression && kind != NbzCompression ==> n == |file|
    ensures (kind == SpbCompression || kind == NbzCompression) && |file| >= 4 ==>
      n == GetDecompressedFileLength(key, file, 0, kind)
  {
    if kind == SpbCompression || kind == NbzCompression then
      if |file| >= 4 then GetDecompressedFileLength(key, file, 0, kind) else 0
    else |file|
  }

  /** The first 256 bytes of the table given, or the identity table when none is. */
  function TableOrIdentity(keyTable: Option<seq<byte>>): (key: seq<byte>)
    requires keyTable.Some? ==> |keyTable.value| >= 256
    ensures IsKeyTable(key)
    ensures keyTable.Some? ==> forall b :: 0 <= b < 256 ==> key[b] == keyTable.value[b]
    ensures keyTable.None? ==> forall b :: 0 <= b < 256 ==> key[b] == b
  {
    if keyTable.Some? then keyTable.value[..256] else IdentityKey()
  }

  class DirectReader {
    const key: seq<byte>
    const bits: BitReader
    /** The registered compression types. */
    const registry: Registry
    /** `decomp_buffer` */
    var decomp: array<byte>

    ghost predicate Valid()
      reads this, bits, bits.readBuf
    {
      && bits.Valid() && bits.key == key
      && decomp.Length >= 2 * Lzss.WindowSize
      && decomp != bits.readBuf
    }

    /** The table given, or the identity table when none is. */
    constructor (keyTable: Option<seq<byte>>)
      requires keyTable.Some? ==> |keyTable.value| >= 256
      ensures Valid() && fresh(bits) && fresh(bits.readBuf) && fresh(decomp) && fresh(registry)
      ensures key == TableOrIdentity(keyTable)
      ensures registry.entries == Builtins()
    {
      var k := TableOrIdentity(keyTable);
      key := k;
      bits := new BitReader(k);
      decomp := new byte[2 * Lzss.WindowSize];
      registry := new Registry();
    }

    // ---------------------------------------------------------------- names

    /** `getFileHandle`, for the kind and the length it reports: the name cut
      * to `maxLen` bytes with its separators rewritten to `delim`, looked up
      * in the registry when a file is found under it (`contents`) and the
      * name has at least three bytes. */
    method FileHandle(name: seq<byte>, contents: Option<seq<byte>>, maxLen: nat, delim: byte)
      returns (kind: Compression, length: nat)
      requires Valid() && forall k :: 0 <= k < |name| ==> name[k] != 0
      ensures var len := if |name| <= maxLen then |name| else maxLen;
        if contents.Some? && len >= 3 then
          var cap := Separators(name[..len], 0, delim);
          kind == Kind(registry.entries, cap) && length == EntryLength(key, contents.value, kind)
        else kind == NoCompression && length == 0
    {
      kind, length := NoCompression, 0;
      var cap, len := CapitalName(name, maxLen, delim);
      if contents.Some? && len >= 3 {
        kind := registry.Lookup(cap[..len]);
        var file := contents.value;
        if kind == NbzCompression || kind == SpbCompression {
          if |file| >= 4 {
            length := GetDecompressedFileLength(key, file, 0, kind);
          }
        } else {
          length := |file|;
        }
      }
    }

    /** `getFileLength`: the length `getFileHandle` reports. */
    method FileLength(name: seq<byte>, contents: Option<seq<byte>>, maxLen: nat, delim: byte) returns (length: nat)
      requires Valid() && forall k :: 0 <= k < |name| ==> name[k] != 0
      ensures var len := if |name| <= maxLen then |name| else maxLen;
        length == if contents.Some? && len >= 3
          then EntryLength(key, contents.value, Kind(registry.entries, Separators(name[..len], 0, delim)))
          else 0
    {
      var kind;
      kind, length := FileHandle(name, contents, maxLen, delim);
    }

    // ---------------------------------------------------------------- SPB

    /** Decode the next plane of `total` samples into `decomp_buffer`. */
    method DecodePlane(total: nat) returns (count: nat)
      requires Valid() && decomp.Length >= total + 4
      modifies bits, bits.readBuf, decomp
      ensures Valid() && bits.file == old(bits.file) && bits.start == old(bits.start)
      ensures var (samples, p) := Spb.Plane(bits.Stream(), old(bits.Position()), total);
        && count == |samples| && bits.Position() == p
        && decomp[..] == Spliced(old(decomp[..]), 0, samples)
    {
      ghost var s, p0, d0 := bits.Stream(), bits.Position(), decomp[..];
      var first := bits.GetBit(8);
      var c := ToByte(first);
      Put(0, c);
      SpliceEmpty(d0, 0);
      SpliceStep(d0, 0, [], c);
      assert Spb.PlaneGroups(s, p0, 0) == ([c], c, bits.Position());
      assert GroupsOut(s, p0, d0, 0, [c], c);
      count := DecodeGroups(total, c, s, p0, d0);
    }

    /** The first `k` groups of the plane whose bits start at `p0` of `s` are out:
      * they gave `done`, ending on value `c`, and sit at the start of `decomp_buffer`,
      * which held `d0`. */
    ghost predicate GroupsOut(s: seq<bit>, p0: nat, d0: seq<byte>, k: nat, done: seq<byte>, c: byte)
      reads this, bits, bits.readBuf, decomp
    {
      && Valid() && bits.Stream() == s && p0 <= |s| && |d0| == decomp.Length
      && Spb.PlaneGroups(s, p0, k) == (done, c, bits.Position())
      && |done| <= |d0| && decomp[..] == Spliced(d0, 0, done)
    }

    /** The groups of a plane after its first sample: while fewer than `total`
      * samples are out, decode one more group. */
    method DecodeGroups(total: nat, c: byte, ghost s: seq<bit>, ghost p0: nat, ghost d0: seq<byte>) returns (count: nat)
      requires decomp.Length >= total + 4 && GroupsOut(s, p0, d0, 0, [c], c)
      modifies bits, bits.readBuf, decomp
      ensures Valid() && bits.file == old(bits.file) && bits.start == old(bits.start)
      ensures var r := Spb.PlaneGroups(s, p0, Spb.GroupCount(total));
        && count == |r.0| && bits.Position() == r.2 && decomp[..] == Spliced(d0, 0, r.0)
    {
      count := 1;
      var c := c;
      ghost var k := 0;
      ghost var done := [c];
      while count < total
        invariant GroupsOut(s, p0, d0, k, done, c) && bits.file == old(bits.file) && bits.start == old(bits.start)
        invariant count == 1 + 4 * k == |done| && (k == 0 || 1 + 4 * (k - 1) < total)
        decreases total - count
      {
        c, done := NextGroup(count, c, s, p0, d0, k, done);
        k := k + 1;
        count := count + 4;
      }
      Spb.GroupCountExact(total, k);
    }

    /** Group `k + 1` of a plane, after the first `k` groups gave `done`. */
    method NextGroup(count: nat, c: byte, ghost s: seq<bit>, ghost p0: nat, ghost d0: seq<byte>,
                     ghost k: nat, ghost done: seq<byte>)
        returns (c': byte, ghost done': seq<byte>)
      requires count + 4 <= decomp.Length && count == |done| && GroupsOut(s, p0, d0, k, done, c)
      modifies bits, bits.readBuf, decomp
      ensures GroupsOut(s, p0, d0, k + 1, done', c') && |done'| == count + 4
      ensures bits.file == old(bits.file) && bits.start == old(bits.start)
    {
      ghost var p1 := bits.Position();
      ghost var g := Spb.Group(s, p1, c);
      Spb.PlaneGroupsStep(s, p0, k, done, c, p1);
      c' := DecodeGroup(count, c, s, p1, decomp[..]);
      SpliceJoin(d0, 0, done, g.0);
      done' := done + g.0;
    }

    /** One group of four samples at `count`, continuing from value `c`. */
    method DecodeGroup(count: nat, c: byte, ghost s: seq<bit>, ghost p0: nat, ghost d0: seq<byte>) returns (c': byte)
      requires Valid() && count + 4 <= decomp.Length
      requires bits.Stream() == s && bits.Position() == p0 && decomp[..] == d0
      modifies bits, bits.readBuf, decomp
      ensures Valid() && bits.file == old(bits.file) && bits.start == old(bits.start)
      ensures var g := Spb.Group(s, p0, c);
        && decomp[..] == Spliced(d0, count, g.0) && c' == g.1 && bits.Position() == g.2
    {
      var n := bits.GetBit(3);
      ghost var p1 := bits.Position();
      if n == 0 {
        assert Spb.Group(s, p0, c) == ([c, c, c, c], c, p1);
        Repeat(count, c);
        return c;
      }
      var m := DeltaWidth(n);
      assert Spb.Group(s, p0, c) == Spb.Deltas(s, bits.Position(), c, m, 4);
      c' := DecodeDeltas(count, c, m);
    }

    /** A group of four samples equal to `c`. */
    method Repeat(count: nat, c: byte)
      requires Valid() && count + 4 <= decomp.Length
      modifies decomp
      ensures Valid() && decomp[..] == Spliced(old(decomp[..]), count, [c, c, c, c])
      ensures bits.Position() == old(bits.Position()) && bits.Stream() == old(bits.Stream())
      ensures bits.file == old(bits.file) && bits.start == old(bits.start)
    {
      ghost var d0 := decomp[..];
      decomp[count] := c;
      decomp[count + 1] := c;
      decomp[count + 2] := c;
      decomp[count + 3] := c;
      SpliceRun(d0, count, c);
    }

    /** The delta width after a non-zero selector `n`. */
    method DeltaWidth(n: int) returns (m: nat)
      requires Valid() && -1 <= n <= 7 && n != 0
      modifies bits, bits.readBuf
      ensures Valid() && bits.file == old(bits.file) && bits.start == old(bits.start)
      ensures (m, bits.Position()) == Spb.Width(bits.Stream(), old(bits.Position()), n)
    {
      if n == 7 {
        var b := bits.GetBit(1);
        m := b + 1;
      } else {
        m := n + 2;
      }
    }

    /** Four delta samples of width `m` at `count`, continuing from value `c`. */
    method DecodeDeltas(count: nat, c: byte, m: nat) returns (c': byte)
      requires Valid() && count + 4 <= decomp.Length
      modifies bits, bits.readBuf, decomp
      ensures Valid() && bits.file == old(bits.file) && bits.start == old(bits.start)
      ensures var g := Spb.Deltas(bits.Stream(), old(bits.Position()), c, m, 4);
        && decomp[..] == Spliced(old(decomp[..]), count, g.0)
        && c' == g.1 && bits.Position() == g.2
    {
      ghost var s, p0, d0 := bits.Stream(), bits.Position(), decomp[..];
      c' := c;
      var j := 0;
      SpliceEmpty(d0, count);
      while j < 4
        invariant Valid() && bits.file == old(bits.file) && bits.start == old(bits.start)
        invariant j <= 4
        invariant (decomp[..], c', bits.Position()) == Spliced3At(d0, count, Spb.Deltas(s, p0, c, m, j))
      {
        ghost var done := Spb.Deltas(s, p0, c, m, j).0;
        c' := NextDelta(c', m);
        Put(count + j, c');
        SpliceStep(d0, count, done, c');
        j := j + 1;
      }
    }

    /** Store one decoded sample in `decomp_buffer`. */
    method Put(i: nat, v: byte)
      requires Valid() && i < decomp.Length
      modifies decomp
      ensures Valid() && decomp[..] == old(decomp[..])[i := v]
      ensures bits.Position() == old(bits.Position()) && bits.Stream() == old(bits.Stream())
      ensures bits.file == old(bits.file) && bits.start == old(bits.start)
    {
      decomp[i] := v;
    }

    /** One delta sample: a literal byte for width 8, otherwise a code. */
    method NextDelta(c: byte, m: nat) returns (c': byte)
      requires Valid()
      modifies bits, bits.readBuf
      ensures Valid() && bits.file == old(bits.file) && bits.start == old(bits.start)
      ensures (c', bits.Position()) == Spb.Delta(bits.Stream(), old(bits.Position()), c, m)
    {
      ghost var s, p0 := bits.Stream(), bits.Position();
      if m == 8 {
        var v := bits.GetBit(8);
        c' := ToByte(v);
      } else {
        var k := bits.GetBit(m);
        assert (k, bits.Position()) == GetBits(s, p0, m);
        // A failed read is (size_t)-1: odd, adding 2^63 to the int `c`, which keeps its low bits.
        if k == -1 {
          c' := c;
        } else if k % 2 == 1 {
          c' := ToByte(c + k / 2 + 1);
          assert c' == Spb.ApplyCode(c, k);
        } else {
          c' := ToByte(c - k / 2);
          assert c' == Spb.ApplyCode(c, k);
        }
      }
    }

    /** Place the samples of row `j` of plane `i`: even rows left to right,
      * odd rows right to left, three bytes apart; then step `pbuf` to the
      * start of the row above.  `rowOff` is the body offset of the row. */
    method PlaceRow(buf: array<byte>, w: nat, h: nat, i: nat, j: nat, pbuf: int, psbuf: nat,
                    ghost rowOff: int, ghost plane: seq<byte>, ghost b0: seq<byte>)
        returns (pbuf': int, psbuf': nat)
      requires buf != decomp && i < 3 && j < h
      requires buf.Length >= Spb.Total(w, h) && |b0| == buf.Length
      requires |plane| >= w * h && decomp.Length >= w * h
      requires forall t :: 0 <= t < w * h ==> decomp[t] == plane[t]
      requires rowOff == (h - 1 - j) * Spb.Stride(w)
      requires pbuf == Spb.HeaderSize + rowOff + i + (if j % 2 == 1 then 3 * (w - 1) else 0)
      requires psbuf == j * w && psbuf + w <= w * h
      requires buf[..] == Spliced(b0, Spb.HeaderSize, Spb.Placed(w, h, i, plane, b0[Spb.HeaderSize..Spb.Total(w, h)], psbuf))
      modifies buf
      ensures pbuf' == pbuf - Spb.Stride(w) + (if j % 2 == 1 then -3 * (w - 1) else 3 * (w - 1))
      ensures psbuf' == psbuf + w
      ensures buf[..] == Spliced(b0, Spb.HeaderSize, Spb.Placed(w, h, i, plane, b0[Spb.HeaderSize..Spb.Total(w, h)], psbuf'))
    {
      ghost var prev := b0[Spb.HeaderSize..Spb.Total(w, h)];
      var step := if j % 2 == 1 then -3 else 3;
      pbuf', psbuf' := pbuf, psbuf;
      var k := 0;
      while k < w
        invariant k <= w && psbuf' == psbuf + k
        invariant pbuf' == pbuf + (if j % 2 == 1 then -3 * k else 3 * k)
        invariant buf[..] == Spliced(b0, Spb.HeaderSize, Spb.Placed(w, h, i, plane, prev, psbuf'))
      {
        Spb.WhereRow(w, h, i, j, k);
        Spb.PlacedStep(w, h, i, plane, prev, psbuf');
        SpliceUpdate(b0, Spb.HeaderSize, Spb.Placed(w, h, i, plane, prev, psbuf'), pbuf' - Spb.HeaderSize, plane[psbuf']);
        buf[pbuf'] := decomp[psbuf'];
        psbuf' := psbuf' + 1;
        pbuf' := pbuf' + step;
        k := k + 1;
      }
      if j % 2 == 1 {
        pbuf' := pbuf' - (w * 3 + Spb.Pad(w) - 3);
      } else {
        pbuf' := pbuf' - (w * 3 + Spb.Pad(w) + 3);
      }
    }

    /** The first `j` rows of channel `i`, bottom row first, hold their samples of
      * `plane` over the bitmap that `buf` held as `b0`; `psbuf` samples are placed
      * and `pbuf` is where row `j` starts, at its right end when `j` is odd. */
    ghost predicate RowsPlaced(buf: array<byte>, w: nat, h: nat, i: nat, plane: seq<byte>, b0: seq<byte>,
                               j: nat, pbuf: int, psbuf: nat)
      reads buf
    {
      && i < 3 && j <= h && psbuf == j * w && psbuf <= Spb.Pixels(w, h) && |plane| >= Spb.Pixels(w, h)
      && buf.Length >= Spb.Total(w, h) && |b0| == buf.Length
      && pbuf == Spb.HeaderSize + (h - 1 - j) * Spb.Stride(w) + i + (if j % 2 == 1 then 3 * (w - 1) else 0)
      && buf[..] == Spliced(b0, Spb.HeaderSize, Spb.Placed(w, h, i, plane, b0[Spb.HeaderSize..Spb.Total(w, h)], psbuf))
    }

    /** One pass of the row loop: place row `j` and step to the row above. */
    method NextRow(buf: array<byte>, w: nat, h: nat, i: nat, j: nat, pbuf: int, psbuf: nat,
                   ghost plane: seq<byte>, ghost b0: seq<byte>)
        returns (pbuf': int, psbuf': nat)
      requires buf != decomp && j < h && RowsPlaced(buf, w, h, i, plane, b0, j, pbuf, psbuf)
      requires decomp.Length >= Spb.Pixels(w, h)
      requires forall t :: 0 <= t < Spb.Pixels(w, h) ==> decomp[t] == plane[t]
      modifies buf
      ensures RowsPlaced(buf, w, h, i, plane, b0, j + 1, pbuf', psbuf')
    {
      RowAdvance(w, h, j);
      pbuf', psbuf' := PlaceRow(buf, w, h, i, j, pbuf, psbuf, (h - 1 - j) * Spb.Stride(w), plane, b0);
    }

    /** Place the first `w * h` samples of `decomp_buffer` as channel `i` of the
      * bitmap body, bottom row first, snaking left and right. */
    method PlacePlane(buf: array<byte>, w: nat, h: nat, i: nat, ghost plane: seq<byte>)
      requires buf != decomp && i < 3
      requires buf.Length >= Spb.Total(w, h)
      requires |plane| >= Spb.Pixels(w, h) && decomp.Length >= Spb.Pixels(w, h)
      requires forall t :: 0 <= t < Spb.Pixels(w, h) ==> decomp[t] == plane[t]
      modifies buf
      ensures buf[..] == Spliced(old(buf[..]), Spb.HeaderSize,
                                 Spb.Placed(w, h, i, plane, old(buf[Spb.HeaderSize..Spb.Total(w, h)]), Spb.Pixels(w, h)))
    {
      ghost var b0 := buf[..];
      ghost var prev := b0[Spb.HeaderSize..Spb.Total(w, h)];
      Spb.PlacedNone(w, h, i, plane, prev);
      var pbuf := Spb.HeaderSize + (w * 3 + Spb.Pad(w)) * (h - 1) + i;
      var psbuf: nat := 0;
      var j := 0;
      assert RowsPlaced(buf, w, h, i, plane, b0, 0, pbuf, psbuf);
      while j < h
        invariant RowsPlaced(buf, w, h, i, plane, b0, j, pbuf, psbuf)
      {
        pbuf, psbuf := NextRow(buf, w, h, i, j, pbuf, psbuf, plane, b0);
        j := j + 1;
      }
      assert j == h && psbuf == h * w;
      assert psbuf == Spb.Pixels(w, h);
    }

    /** `decodeSPB`: decode the SPB image at `offset` of `file` into a 24-bit
      * bitmap in `buf` and return its size.  Padding bytes of the body keep
      * what `buf` held. */
    method DecodeSpb(file: seq<byte>, offset: nat, buf: array<byte>) returns (size: nat)
      requires Valid() && buf != decomp && buf != bits.readBuf
      requires offset + 4 <= |file|
      requires buf.Length >= Spb.Total(SpbWidth(key, file, offset), SpbHeight(key, file, offset))
      modifies this, bits, bits.readBuf, decomp, buf
      ensures Valid()
      ensures var w, h := SpbWidth(key, file, offset), SpbHeight(key, file, offset);
        && size == Spb.Total(w, h)
        && size == GetDecompressedFileLength(key, file, offset, SpbCompression)
        && buf[..] == SpbImage(key, file, offset, old(buf[..]))
    {
      var w := ReadShort(key, file, offset).value.value;
      var h := ReadShort(key, file, offset + 2).value.value;
      assert w == SpbWidth(key, file, offset) && h == SpbHeight(key, file, offset);
      bits.Restart(file, offset + 4);
      ghost var b0 := buf[..];
      WriteHeader(buf, w, h);
      MulMono(0, w, h);
      Reserve(w * h + 4);
      ghost var s := StreamAt(key, file, offset + 4);
      ghost var planes := Spb.Planes(s, w * h);
      ghost var prev := b0[Spb.HeaderSize..Spb.Total(w, h)];
      BodyStart(b0, w, h, planes, buf[..], prev);
      DecodeBody(buf, w, h, s, planes, buf[..], prev);
      size := Spb.Total(w, h);
    }

    /** Grow `decomp_buffer` to at least `n` bytes when it is smaller. */
    method Reserve(n: nat)
      requires Valid()
      modifies this
      ensures Valid() && decomp.Length >= n
      ensures decomp == old(decomp) || fresh(decomp)
    {
      if decomp.Length < n {
        decomp := new byte[n];
      }
    }

    /** The body of `decodeSPB`: the three planes decoded one after the other,
      * each placed into the rows as soon as it is decoded. */
    method DecodeBody(buf: array<byte>, w: nat, h: nat, ghost s: seq<bit>,
                      ghost planes: seq<seq<byte>>, ghost b1: seq<byte>, ghost prev: seq<byte>)
      requires Valid() && buf != decomp && buf != bits.readBuf
      requires decomp.Length >= Spb.Pixels(w, h) + 4 && buf.Length >= Spb.Total(w, h)
      requires bits.Stream() == s && bits.Position() == 0
      requires planes == Spb.Planes(s, Spb.Pixels(w, h)) && |prev| == Spb.Stride(w) * h
      requires b1 == buf[..] && b1 == Spliced(b1, Spb.HeaderSize, Spb.Body(w, h, planes, 0, prev))
      modifies bits, bits.readBuf, decomp, buf
      ensures Valid()
      ensures buf[..] == Spliced(b1, Spb.HeaderSize, Spb.Body(w, h, planes, 3, prev))
    {
      var i := 0;
      while i < 3
        invariant Valid() && bits.Stream() == s
        invariant i <= 3 && bits.Position() == Spb.PlaneStart(s, Spb.Pixels(w, h), i)
        invariant buf[..] == Spliced(b1, Spb.HeaderSize, Spb.Body(w, h, planes, i, prev))
      {
        PlaceNextPlane(buf, w, h, i, s, planes, b1, prev);
        i := i + 1;
      }
    }

    /** Decode plane `i` and place it over the body holding planes `0 .. i - 1`. */
    method PlaceNextPlane(buf: array<byte>, w: nat, h: nat, i: nat, ghost s: seq<bit>,
                          ghost planes: seq<seq<byte>>, ghost b1: seq<byte>, ghost prev: seq<byte>)
      requires Valid() && buf != decomp && buf != bits.readBuf && i < 3
      requires decomp.Length >= Spb.Pixels(w, h) + 4 && buf.Length >= Spb.Total(w, h) && |b1| == buf.Length
      requires bits.Stream() == s && bits.Position() == Spb.PlaneStart(s, Spb.Pixels(w, h), i)
      requires planes == Spb.Planes(s, Spb.Pixels(w, h)) && |prev| == Spb.Stride(w) * h
      requires buf[..] == Spliced(b1, Spb.HeaderSize, Spb.Body(w, h, planes, i, prev))
      modifies bits, bits.readBuf, decomp, buf
      ensures Valid() && bits.file == old(bits.file) && bits.start == old(bits.start)
      ensures bits.Position() == Spb.PlaneStart(s, Spb.Pixels(w, h), i + 1)
      ensures buf[..] == Spliced(b1, Spb.HeaderSize, Spb.Body(w, h, planes, i + 1, prev))
    {
      var n := Spb.Pixels(w, h);
      var count := DecodePlane(n);
      assert planes[i] == Spb.Plane(s, Spb.PlaneStart(s, n, i), n).0;
      SpliceHead(old(decomp[..]), planes[i], n);
      ghost var buf1 := buf[..];
      PlacePlane(buf, w, h, i, planes[i]);
      NextBody(w, h, planes, i, prev, b1, buf1);
    }

    /** The 54 bytes of bitmap header `decodeSPB` writes: zeros, then the fields. */
    method WriteHeader(buf: array<byte>, w: nat, h: nat)
      requires w < 65536 && h < 65536 && buf.Length >= Spb.HeaderSize
      modifies buf
      ensures buf[..] == Spliced(old(buf[..]), 0, Spb.Header(w, h))
    {
      var total := (w * 3 + Spb.Pad(w)) * h + 54;
      assert total == Spb.Total(w, h);
      ghost var b0 := buf[..];
      WriteFileHeader(buf, w, h, total);
      WriteInfoHeader(buf, w, h, total);
      ghost var hd := Spb.HeaderOf(total, w, h);
      assert Spb.Header(w, h) == hd;
      assert buf[..54] == hd;
      assert buf[54..] == b0[54..];
      assert buf[..] == buf[..54] + buf[54..];
    }

    /** The 14-byte file header: the signature, the file size and the body offset. */
    static method WriteFileHeader(buf: array<byte>, w: nat, h: nat, total: nat)
      requires buf.Length >= Spb.HeaderSize
      modifies buf
      ensures forall k :: 0 <= k < 14 ==> buf[k] == Spb.HeaderByteOf(total, w, h, k)
      ensures buf[14..] == old(buf[14..])
    {
      forall k | 0 <= k < 14 {
        buf[k] := 0;
      }
      buf[0], buf[1] := 'B' as int, 'M' as int;
      buf[2] := ToByte(total);
      buf[3] := ToByte(total / 0x100);
      buf[4] := ToByte(total / 0x1_0000);
      buf[5] := ToByte(total / 0x100_0000);
      buf[10] := 54;
    }

    /** The 40-byte info header: its size, the dimensions, one plane of 24 bits
      * per pixel and the low byte of the body size. */
    static method WriteInfoHeader(buf: array<byte>, w: nat, h: nat, total: nat)
      requires buf.Length >= Spb.HeaderSize && total >= Spb.HeaderSize
      modifies buf
      ensures forall k :: 14 <= k < 54 ==> buf[k] == Spb.HeaderByteOf(total, w, h, k)
      ensures buf[..14] == old(buf[..14]) && buf[54..] == old(buf[54..])
    {
      forall k | 14 <= k < 54 {
        buf[k] := 0;
      }
      buf[14] := 40;
      buf[18] := ToByte(w);
      buf[19] := ToByte(w / 0x100);
      buf[22] := ToByte(h);
      buf[23] := ToByte(h / 0x100);
      buf[26] := 1;
      buf[28] := 24;
      buf[34] := ToByte(total - 54);
    }

    // ------------------------------------------------------------------ LZSS

    /** `decodeLZSS`: decode the entry of `length` bytes at `offset` of `file`
      * into `buf`.  A match started just below `length` runs to its end, so
      * up to `MaxMatch - 1` bytes past `length` are written. */
    method DecodeLzss(file: seq<byte>, offset: nat, length: nat, buf: array<byte>) returns (count: nat)
      requires Valid() && buf != decomp && buf != bits.readBuf
      requires buf.Length >= length + Lzss.MaxMatch - 1
      modifies bits, bits.readBuf, decomp, buf
      ensures Valid()
      ensures var r := Lzss.Decode(StreamAt(key, file, offset), old(decomp[..Lzss.WindowSize]), length);
        count == |r.out| && buf[..count] == r.out && decomp[..Lzss.WindowSize] == r.win
    {
      bits.Restart(file, offset);
      ClearWindow();
      count := DecodeItems(buf, length, StreamAt(key, file, offset));
    }

    /** The decoding loop of `decodeLZSS`, from the ring cursor at `N - F` and
      * nothing produced, proved against `Lzss.Run`. */
    method DecodeItems(buf: array<byte>, length: nat, ghost s: seq<bit>) returns (count: nat)
      requires Valid() && buf != decomp && buf != bits.readBuf
      requires buf.Length >= length + Lzss.MaxMatch - 1
      requires bits.Stream() == s && bits.Position() == 0
      modifies bits, bits.readBuf, decomp, buf
      ensures Valid()
      ensures var r := Lzss.Run(s, Lzss.Lz(0, old(decomp[..Lzss.WindowSize]), Lzss.StartCursor, []), length);
        count == |r.out| && buf[..count] == r.out && decomp[..Lzss.WindowSize] == r.win
    {
      var r := Lzss.StartCursor;
      count := 0;
      ghost var st := Lzss.Lz(0, decomp[..Lzss.WindowSize], r, []);
      ghost var result := Lzss.Run(s, st, length);
      while count < length
        invariant Valid() && bits.Stream() == s && Lzss.Ok(s, st)
        invariant bits.Position() == st.pos && st.win == decomp[..Lzss.WindowSize] && st.r == r
        invariant count < length + Lzss.MaxMatch
        invariant count == |st.out| && buf[..count] == st.out
        invariant Lzss.Run(s, st, length) == result
      {
        var stop;
        ghost var st';
        r, count, stop, st' := LzssStep(buf, r, count, s, st);
        st := st';
        if stop {
          break;
        }
      }
    }

    /** `memset(decomp_buffer, 0, N - F)`. */
    method ClearWindow()
      requires Valid()
      modifies decomp
      ensures decomp[..Lzss.WindowSize] == Lzss.InitialWindow(old(decomp[..Lzss.WindowSize]))
    {
      forall k | 0 <= k < Lzss.StartCursor {
        decomp[k] := 0;
      }
    }

    /** One pass of the decoding loop of `decodeLZSS`, proved against `Lzss.Step`. */
    method LzssStep(buf: array<byte>, r: nat, count: nat, ghost s: seq<bit>, ghost st: Lzss.Lz)
      returns (r': nat, count': nat, stop: bool, ghost st': Lzss.Lz)
      requires Valid() && buf != decomp && buf != bits.readBuf
      requires bits.Stream() == s && Lzss.Ok(s, st) && bits.Position() == st.pos
      requires st.win == decomp[..Lzss.WindowSize] && st.r == r
      requires count + Lzss.MaxMatch <= buf.Length && count == |st.out| && buf[..count] == st.out
      modifies bits, bits.readBuf, decomp, buf
      ensures Valid() && bits.file == old(bits.file) && bits.start == old(bits.start)
      ensures Lzss.Step(s, st) == if stop then Lzss.Break(st') else Lzss.Continue(st')
      ensures bits.Position() == st'.pos && st'.win == decomp[..Lzss.WindowSize] && st'.r == r'
      ensures count' == |st'.out| && buf[..count'] == st'.out
    {
      var flag := bits.GetBit(1);
      if flag != 0 {
        r', count', stop, st' := ReadLiteral(buf, r, count, s, st.(pos := bits.Position()));
      } else {
        r', count', stop, st' := ReadReference(buf, r, count, s, st.(pos := bits.Position()));
      }
    }

    /** A literal item: `c = getbit(8)`, stored unless it is EOF. */
    method ReadLiteral(buf: array<byte>, r: nat, count: nat, ghost s: seq<bit>, ghost st: Lzss.Lz)
      returns (r': nat, count': nat, stop: bool, ghost st': Lzss.Lz)
      requires Valid() && buf != decomp && buf != bits.readBuf
      requires bits.Stream() == s && Lzss.Ok(s, st) && bits.Position() == st.pos
      requires st.win == decomp[..Lzss.WindowSize] && st.r == r
      requires count < buf.Length && count == |st.out| && buf[..count] == st.out
      modifies bits, bits.readBuf, decomp, buf
      ensures Valid() && bits.file == old(bits.file) && bits.start == old(bits.start)
      ensures Lzss.Literal(s, st) == if stop then Lzss.Break(st') else Lzss.Continue(st')
      ensures bits.Position() == st'.pos && st'.win == decomp[..Lzss.WindowSize] && st'.r == r'
      ensures count' == |st'.out| && buf[..count'] == st'.out
    {
      var c := bits.GetBit(8);
      st' := st.(pos := bits.Position());
      if c == -1 {
        return r, count, true, st';
      }
      r', count' := Store(buf, r, count, c, st');
      st' := Lzss.Emit(st', c);
      stop := false;
    }

    /** A back-reference item: `i = getbit(EI)`, `j = getbit(EJ)`, then the copy loop. */
    method ReadReference(buf: array<byte>, r: nat, count: nat, ghost s: seq<bit>, ghost st: Lzss.Lz)
      returns (r': nat, count': nat, stop: bool, ghost st': Lzss.Lz)
      requires Valid() && buf != decomp && buf != bits.readBuf
      requires bits.Stream() == s && Lzss.Ok(s, st) && bits.Position() == st.pos
      requires st.win == decomp[..Lzss.WindowSize] && st.r == r
      requires count + Lzss.MaxMatch <= buf.Length && count == |st.out| && buf[..count] == st.out
      modifies bits, bits.readBuf, decomp, buf
      ensures Valid() && bits.file == old(bits.file) && bits.start == old(bits.start)
      ensures Lzss.Reference(s, st) == if stop then Lzss.Break(st') else Lzss.Continue(st')
      ensures bits.Position() == st'.pos && st'.win == decomp[..Lzss.WindowSize] && st'.r == r'
      ensures count' == |st'.out| && buf[..count'] == st'.out
    {
      var i := bits.GetBit(8);
      if i == -1 {
        return r, count, true, st.(pos := bits.Position());
      }
      var j := bits.GetBit(4);
      st' := st.(pos := bits.Position());
      if j == -1 {
        return r, count, true, st';
      }
      r', count', st' := CopyMatch(buf, i, j + 2, r, count, st');
      stop := false;
    }

    /** `buf[count++] = c; decomp_buffer[r++] = c; r &= (N - 1);` */
    method Store(buf: array<byte>, r: nat, count: nat, c: byte, ghost st: Lzss.Lz) returns (r': nat, count': nat)
      requires buf != decomp && decomp.Length >= Lzss.WindowSize && count < buf.Length
      requires |st.win| == Lzss.WindowSize && st.win == decomp[..Lzss.WindowSize] && st.r == r < Lzss.WindowSize
      requires count == |st.out| && buf[..count] == st.out
      modifies buf, decomp
      ensures var e := Lzss.Emit(st, c);
        r' == e.r && count' == |e.out| && buf[..count'] == e.out && decomp[..Lzss.WindowSize] == e.win
    {
      buf[count] := c;
      count' := count + 1;
      decomp[r] := c;
      r' := (r + 1) % Lzss.WindowSize;
    }

    /** The copy loop of a match: `n` bytes from window position `i` on. */
    method CopyMatch(buf: array<byte>, i: nat, n: nat, r: nat, count: nat, ghost st: Lzss.Lz)
      returns (r': nat, count': nat, ghost st': Lzss.Lz)
      requires buf != decomp && decomp.Length >= Lzss.WindowSize && count + n <= buf.Length
      requires |st.win| == Lzss.WindowSize && st.win == decomp[..Lzss.WindowSize] && st.r == r < Lzss.WindowSize
      requires count == |st.out| && buf[..count] == st.out
      modifies buf, decomp
      ensures st' == Lzss.CopyFrom(st, i, 0, n)
      ensures st'.win == decomp[..Lzss.WindowSize] && st'.r == r' && count' == |st'.out| && buf[..count'] == st'.out
    {
      r', count', st' := r, count, st;
      var k := 0;
      while k < n
        invariant k <= n && |st'.win| == Lzss.WindowSize && st'.r < Lzss.WindowSize
        invariant Lzss.CopyFrom(st', i, k, n) == Lzss.CopyFrom(st, i, 0, n)
        invariant st'.win == decomp[..Lzss.WindowSize] && st'.r == r'
        invariant count' == |st'.out| && buf[..count'] == st'.out && count' == count + k
      {
        var c := decomp[(i + k) % Lzss.WindowSize];
        r', count' := Store(buf, r', count', c, st');
        st' := Lzss.Emit(st', c);
        k := k + 1;
      }
    }
  }
}
