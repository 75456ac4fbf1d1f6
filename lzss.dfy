/**
 * The LZSS scheme DirectReader decodes: a 256-byte ring window, a flag bit per
 * item, a literal byte for flag 1, and for flag 0 an 8-bit window position and
 * a 4-bit length (copying `length + 2` bytes).  Every byte produced is also
 * stored in the window at the ring cursor `r`.
 *
 * This module holds the reference definition of the decoder over a bit stream
 * and what it means: the window always holds the last bytes produced, so a
 * match is a back-reference into the output, and a stream of literals decodes
 * to its bytes.  The decoding method of module DirectReader is proved against
 * `Run`.
 */
module Lzss {
  import opened Bytes
  import opened BitStream

  /** `N`, the window size, and `N - F`, where the cursor starts. */
  const WindowSize: nat := 256
  const StartCursor: nat := 239
  /** The longest match, `(1 << EJ) + 1` bytes. */
  const MaxMatch: nat := 17

  /** Decoder state: stream position, window, ring cursor and the bytes produced. */
  datatype Lz = Lz(pos: nat, win: seq<byte>, r: nat, out: seq<byte>)

  predicate Ok(s: seq<bit>, st: Lz) {
    st.pos <= |s| && |st.win| == WindowSize && st.r < WindowSize
  }

  /** The window as the decoder starts: the first 239 bytes zeroed, the rest
    * left as the previous use of the buffer left them. */
  function InitialWindow(stale: seq<byte>): (w: seq<byte>)
    requires |stale| >= WindowSize
    ensures |w| == WindowSize
    ensures forall k :: 0 <= k < StartCursor ==> w[k] == 0
    ensures forall k :: StartCursor <= k < WindowSize ==> w[k] == stale[k]
  {
    seq(WindowSize, k requires 0 <= k < WindowSize => if k < StartCursor then 0 else stale[k])
  }

  /** Produce byte `c`: append it and store it at the cursor, which moves on modulo 256. */
  function Emit(st: Lz, c: byte): (r: Lz)
    requires |st.win| == WindowSize && st.r < WindowSize
    ensures |r.win| == WindowSize && r.r < WindowSize && r.pos == st.pos
    ensures r.out == st.out + [c] && r.win[st.r] == c
  {
    Lz(st.pos, st.win[st.r := c], (st.r + 1) % WindowSize, st.out + [c])
  }

  /** The copy loop of a match from window position `i`, at step `k` of `n`. */
  function CopyFrom(st: Lz, i: nat, k: nat, n: nat): (r: Lz)
    requires |st.win| == WindowSize && st.r < WindowSize && k <= n
    ensures |r.win| == WindowSize && r.r < WindowSize && r.pos == st.pos
    ensures |r.out| == |st.out| + (n - k) && r.out[..|st.out|] == st.out
    decreases n - k
  {
    if k == n then st
    else CopyFrom(Emit(st, st.win[(i + k) % WindowSize]), i, k + 1, n)
  }

  /** What one pass of the decoding loop leaves: the loop goes on, or breaks. */
  datatype Next = Continue(st: Lz) | Break(st: Lz)

  /** One pass of the decoding loop: a flag bit, then a literal (flag 1, or a
    * flag that cannot be read) or a back-reference (flag 0). */
  function Step(s: seq<bit>, st: Lz): (r: Next)
    requires Ok(s, st)
    ensures Ok(s, r.st)
    ensures |st.out| <= |r.st.out| <= |st.out| + MaxMatch && r.st.out[..|st.out|] == st.out
    ensures r.Continue? ==> |st.out| < |r.st.out|
    ensures r.Break? ==> r.st.pos == |s| && r.st.out == st.out
  {
    var (flag, p1) := GetBits(s, st.pos, 1);
    if flag != 0 then Literal(s, st.(pos := p1)) else Reference(s, st.(pos := p1))
  }

  /** A literal: an 8-bit byte, produced; the loop breaks when it cannot be read. */
  function Literal(s: seq<bit>, st: Lz): (r: Next)
    requires Ok(s, st)
    ensures Ok(s, r.st)
    ensures r.Continue? ==> |r.st.out| == |st.out| + 1 && r.st.out[..|st.out|] == st.out
    ensures r.Break? ==> r.st.pos == |s| && r.st.out == st.out
  {
    var (c, p2) := GetBits(s, st.pos, 8);
    if c == -1 then Break(st.(pos := p2))
    else Continue(Emit(st.(pos := p2), c))
  }

  /** A back-reference: an 8-bit window position and a 4-bit length, then
    * `length + 2` bytes copied; the loop breaks when either cannot be read. */
  function Reference(s: seq<bit>, st: Lz): (r: Next)
    requires Ok(s, st)
    ensures Ok(s, r.st)
    ensures r.Continue? ==> |st.out| + 2 <= |r.st.out| <= |st.out| + MaxMatch && r.st.out[..|st.out|] == st.out
    ensures r.Break? ==> r.st.pos == |s| && r.st.out == st.out
  {
    var (i, p2) := GetBits(s, st.pos, 8);
    if i == -1 then Break(st.(pos := p2))
    else
      var (j, p3) := GetBits(s, p2, 4);
      if j == -1 then Break(st.(pos := p3))
      else Continue(CopyFrom(st.(pos := p3), i, 0, j + 2))
  }

  /** The decoding loop while fewer than `length` bytes are produced. */
  function Run(s: seq<bit>, st: Lz, length: nat): (r: Lz)
    requires Ok(s, st)
    ensures Ok(s, r)
    ensures |st.out| <= |r.out| && r.out[..|st.out|] == st.out
    ensures |st.out| < length ==> |r.out| < length + MaxMatch
    ensures |r.out| < length ==> r.pos == |s|
    decreases if |st.out| < length then length - |st.out| else 0
  {
    if |st.out| >= length then st
    else
      match Step(s, st)
      case Break(t) => t
      case Continue(t) => Run(s, t, length)
  }

  /** `decodeLZSS` on stream `s` for an entry of `length` bytes. */
  function Decode(s: seq<bit>, stale: seq<byte>, length: nat): (r: Lz)
    requires |stale| >= WindowSize
    ensures Ok(s, r) && |r.out| < length + MaxMatch
    ensures |r.out| < length ==> r.pos == |s|
  {
    Run(s, Lz(0, InitialWindow(stale), StartCursor, []), length)
  }

  // ------------------------------------------------------------------ window

  /** The window holds the last (up to 256) bytes produced, the most recent just
    * before the cursor. */
  predicate Holds(st: Lz)
    requires |st.win| == WindowSize
  {
    forall q :: 0 <= q < |st.out| && |st.out| - WindowSize <= q ==>
      st.win[(st.r - (|st.out| - q)) % WindowSize] == st.out[q]
  }

  lemma EmitHolds(st: Lz, c: byte)
    requires |st.win| == WindowSize && st.r < WindowSize && Holds(st)
    ensures Holds(Emit(st, c))
  {
    var st' := Emit(st, c);
    forall q | 0 <= q < |st'.out| && |st'.out| - WindowSize <= q
      ensures st'.win[(st'.r - (|st'.out| - q)) % WindowSize] == st'.out[q]
    {
      var d := |st'.out| - q;
      RingBack(st.r, d);
      if q < |st.out| {
        assert st'.win[(st.r + 1 - d) % WindowSize] == st.win[(st.r - (|st.out| - q)) % WindowSize];
      }
    }
  }

  /** Stepping `d` back from the cursor after it moved on: the slot the old
    * cursor was at for `d == 1`, a different one for `1 < d <= 256`. */
  lemma RingBack(r: nat, d: nat)
    requires r < WindowSize && 1 <= d <= WindowSize
    ensures ((r + 1) % WindowSize - d) % WindowSize == (r + 1 - d) % WindowSize
    ensures (r + 1 - d) % WindowSize == r <==> d == 1
    ensures (r + 1 - d) % WindowSize == (r - (d - 1)) % WindowSize
  {
    if r + 1 == WindowSize {
      assert (r + 1) % WindowSize == 0;
      assert (0 - d) % WindowSize == WindowSize - d;
    }
    if r + 1 - d >= 0 {
      assert (r + 1 - d) % WindowSize == r + 1 - d;
    } else {
      assert (r + 1 - d) % WindowSize == r + 1 - d + WindowSize;
    }
  }

  /** A match copying from position `i`, where `i + k` trails the cursor by
    * `d <= |out|`, repeats the output `d` bytes back, overlapping as it goes. */
  lemma {:induction false} CopyBack(st: Lz, i: nat, k: nat, n: nat, d: nat)
    requires |st.win| == WindowSize && st.r < WindowSize && Holds(st)
    requires 1 <= d <= WindowSize && d <= |st.out| && k <= n
    requires (i + k + d - st.r) % WindowSize == 0
    ensures var r := CopyFrom(st, i, k, n);
      && Holds(r)
      && forall q :: |st.out| <= q < |r.out| ==> r.out[q] == r.out[q - d]
    decreases n - k
  {
    if k < n {
      var c := st.win[(i + k) % WindowSize];
      TrailingSlot(i + k, st.r, d);
      assert (i + k) % WindowSize == (st.r - (|st.out| - (|st.out| - d))) % WindowSize;
      assert c == st.out[|st.out| - d];
      var st1 := Emit(st, c);
      EmitHolds(st, c);
      CopyBack(st1, i, k + 1, n, d);
      var r := CopyFrom(st1, i, k + 1, n);
      assert r.out[..|st1.out|] == st1.out;
      forall q | |st.out| <= q < |r.out|
        ensures r.out[q] == r.out[q - d]
      {
        if q == |st.out| {
          assert r.out[q] == st1.out[q] == c;
          assert r.out[q - d] == st1.out[q - d] == st.out[q - d];
        }
      }
    }
  }

  /** The slot `d` places behind the cursor `r` is slot `a`, and stays `d` places
    * behind once both move on by one. */
  lemma TrailingSlot(a: int, r: nat, d: int)
    requires r < WindowSize && (a + d - r) % WindowSize == 0
    ensures a % WindowSize == (r - d) % WindowSize
    ensures (a + 1 + d - (r + 1) % WindowSize) % WindowSize == 0
  {
    var m := (a + d - r) / WindowSize;
    assert a + d - r == WindowSize * m;
    DivUnique(a, WindowSize, (r - d) / WindowSize + m, (r - d) % WindowSize);
    if r + 1 < WindowSize {
      DivUnique(r + 1, WindowSize, 0, r + 1);
      DivUnique(a + 1 + d - (r + 1), WindowSize, m, 0);
    } else {
      DivUnique(r + 1, WindowSize, 1, 0);
      DivUnique(a + 1 + d, WindowSize, m + 1, 0);
    }
  }

  /** A match from window position `i` with length code `j` appends `j + 2`
    * bytes, each equal to the byte `d` places before it, where `d` is how far
    * `i` trails the cursor (256 when it is at the cursor). */
  lemma Match(st: Lz, i: nat, j: nat)
    requires |st.win| == WindowSize && st.r < WindowSize && Holds(st) && i < WindowSize
    requires (st.r - i - 1) % WindowSize + 1 <= |st.out|
    ensures var d, r := (st.r - i - 1) % WindowSize + 1, CopyFrom(st, i, 0, j + 2);
      && |r.out| == |st.out| + j + 2 && r.out[..|st.out|] == st.out
      && forall q :: |st.out| <= q < |r.out| ==> r.out[q] == r.out[q - d]
  {
    CopyBack(st, i, 0, j + 2, (st.r - i - 1) % WindowSize + 1);
  }

  /** One pass of the decoding loop keeps the window holding the latest output. */
  lemma StepHolds(s: seq<bit>, st: Lz)
    requires Ok(s, st) && Holds(st)
    ensures Holds(Step(s, st).st)
  {
    var (flag, p1) := GetBits(s, st.pos, 1);
    if flag != 0 {
      var (c, p2) := GetBits(s, p1, 8);
      if c != -1 {
        EmitHolds(st.(pos := p2), c);
      }
    } else {
      var (i, p2) := GetBits(s, p1, 8);
      if i != -1 {
        var (j, p3) := GetBits(s, p2, 4);
        if j != -1 {
          CopyHolds(st.(pos := p3), i, 0, j + 2);
        }
      }
    }
  }

  /** The decoding loop keeps the window holding the latest output. */
  lemma {:induction false} RunHolds(s: seq<bit>, st: Lz, length: nat)
    requires Ok(s, st) && Holds(st)
    ensures Holds(Run(s, st, length))
    decreases if |st.out| < length then length - |st.out| else 0
  {
    if |st.out| < length {
      StepHolds(s, st);
      if Step(s, st).Continue? {
        RunHolds(s, Step(s, st).st, length);
      }
    }
  }

  lemma {:induction false} CopyHolds(st: Lz, i: nat, k: nat, n: nat)
    requires |st.win| == WindowSize && st.r < WindowSize && Holds(st) && k <= n
    ensures Holds(CopyFrom(st, i, k, n))
    decreases n - k
  {
    if k < n {
      EmitHolds(st, st.win[(i + k) % WindowSize]);
      CopyHolds(Emit(st, st.win[(i + k) % WindowSize]), i, k + 1, n);
    }
  }

  // ------------------------------------------------------------------ literals

  /** An encoder that sends every byte as a literal: flag 1, then the byte. */
  function EncodeLiterals(data: seq<byte>): (bits: seq<bit>)
    ensures |bits| == 9 * |data|
  {
    if |data| == 0 then [] else [1] + ByteBits(data[0]) + EncodeLiterals(data[1..])
  }

  lemma {:induction false} EncodedItem(data: seq<byte>, k: nat)
    requires k < |data|
    ensures EncodeLiterals(data)[9 * k..9 * k + 9] == [1] + ByteBits(data[k])
  {
    if k > 0 {
      EncodedItem(data[1..], k - 1);
      assert EncodeLiterals(data)[9..] == EncodeLiterals(data[1..]);
    }
  }

  /** A literal item in the stream reads back as flag 1 and then its byte. */
  lemma LiteralBits(s: seq<bit>, p: nat, b: byte)
    requires p + 9 <= |s| && s[p..p + 9] == [1] + ByteBits(b)
    ensures GetBits(s, p, 1) == (1, p + 1)
    ensures GetBits(s, p + 1, 8) == (b as int, p + 9)
  {
    var item := s[p..p + 9];
    assert s[p] == item[0] == 1;
    OneBit(s, p);
    assert s[p + 1..p + 9] == item[1..] == ByteBits(b);
    ValueByteBits(b);
  }

  /** A literal item read at the decoder's position emits its byte. */
  lemma LiteralStep(s: seq<bit>, b: byte, st: Lz)
    requires Ok(s, st)
    requires st.pos + 9 <= |s| && s[st.pos..st.pos + 9] == [1] + ByteBits(b)
    ensures Step(s, st) == Continue(Emit(st.(pos := st.pos + 9), b))
  {
    LiteralBits(s, st.pos, b);
  }

  lemma {:induction false} LiteralRun(s: seq<bit>, data: seq<byte>, st: Lz)
    requires Ok(s, st) && |st.out| <= |data| && st.out == data[..|st.out|]
    requires st.pos == 9 * |st.out| && 9 * |data| <= |s|
    requires forall k :: 0 <= k < |data| ==> s[9 * k..9 * k + 9] == [1] + ByteBits(data[k])
    ensures Run(s, st, |data|).out == data
    decreases |data| - |st.out|
  {
    var k := |st.out|;
    if k < |data| {
      assert s[9 * k..9 * k + 9] == [1] + ByteBits(data[k]);
      LiteralStep(s, data[k], st);
      var st' := Emit(st.(pos := st.pos + 9), data[k]);
      assert st'.out == data[..k + 1];
      LiteralRun(s, data, st');
    } else {
      assert st.out == data;
    }
  }

  lemma SliceOfPrefix<T>(s: seq<T>, n: nat, a: nat, b: nat)
    requires a <= b <= n <= |s|
    ensures s[..n][a..b] == s[a..b]
  {
  }

  /** Padding the encoding keeps every literal item where it was. */
  lemma PaddedItems(data: seq<byte>)
    ensures forall k :: 0 <= k < |data| ==>
      Padded(EncodeLiterals(data))[9 * k..9 * k + 9] == [1] + ByteBits(data[k])
  {
    var bits := EncodeLiterals(data);
    var padded := Padded(bits);
    forall k | 0 <= k < |data|
      ensures padded[9 * k..9 * k + 9] == [1] + ByteBits(data[k])
    {
      EncodedItem(data, k);
      SliceOfPrefix(padded, |bits|, 9 * k, 9 * k + 9);
    }
  }

  /** A stream of literals, packed into bytes and read with the identity table,
    * decodes to the bytes it encodes, whatever the window held before. */
  lemma LiteralsRoundTrip(data: seq<byte>, stale: seq<byte>)
    requires |stale| >= WindowSize
    ensures Decode(Unpack(Pack(Padded(EncodeLiterals(data)))), stale, |data|).out == data
  {
    var padded := Padded(EncodeLiterals(data));
    UnpackPack(padded);
    PaddedItems(data);
    LiteralRun(padded, data, Lz(0, InitialWindow(stale), StartCursor, []));
  }
}
