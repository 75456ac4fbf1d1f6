/**
 * The bit stream a DirectReader decodes: the keyed bytes of a file from a
 * given offset on, each byte contributing its eight bits most significant
 * first.  `GetBits` is the reference reading of `n` bits at a bit position;
 * the stateful reader in module BitReader is proved against it.
 */
module BitStream {
  import opened Bytes

  type bit = b: int | 0 <= b < 2

  /** A bit string read as an unsigned binary number, first bit most significant. */
  function Value(s: seq<bit>): (v: nat)
    ensures v < Pow2(|s|)
  {
    if |s| == 0 then 0 else 2 * Value(s[..|s| - 1]) + s[|s| - 1]
  }

  /** The eight bits of a byte, most significant first. */
  function ByteBits(b: byte): (s: seq<bit>)
    ensures |s| == 8
  {
    seq(8, t requires 0 <= t < 8 => (b / Pow2(7 - t)) % 2)
  }

  /** The bit stream of a byte string. */
  function Unpack(k: seq<byte>): (s: seq<bit>)
    ensures |s| == 8 * |k|
  {
    if |k| == 0 then [] else ByteBits(k[0]) + Unpack(k[1..])
  }

  /** A bit string whose length is a multiple of eight, packed into bytes. */
  function Pack(s: seq<bit>): (k: seq<byte>)
    requires |s| % 8 == 0
    ensures |k| == |s| / 8
  {
    if |s| == 0 then []
    else
      assert Pow2(8) == 256;
      [Value(s[..8])] + Pack(s[8..])
  }

  /** A bit string completed with zero bits up to a whole number of bytes. */
  function Padded(s: seq<bit>): (r: seq<bit>)
    ensures |r| % 8 == 0 && |s| <= |r| < |s| + 8
    ensures r[..|s|] == s
  {
    s + seq((8 - |s| % 8) % 8, _ => 0)
  }

  /** What reading `n` bits at bit position `p` yields, and the position after it:
    * the bits' value, or EOF (-1) with the position at the end of the stream
    * when fewer than `n` bits are left. */
  function GetBits(s: seq<bit>, p: nat, n: nat): (r: (int, nat))
    requires p <= |s|
    ensures r.1 <= |s|
    ensures r.0 == -1 <==> p + n > |s|
    ensures r.0 == -1 ==> r.1 == |s|
    ensures r.0 != -1 ==> r.1 == p + n && 0 <= r.0 < Pow2(n)
  {
    if p + n <= |s| then (Value(s[p..p + n]), p + n) else (-1, |s|)
  }

  // ---------------------------------------------------------------- arithmetic

  lemma DivTwice(a: nat, p: nat)
    requires p > 0
    ensures a / (2 * p) == (a / p) / 2
  {
    var y := a / p;
    assert a == (y / 2) * (2 * p) + ((y % 2) * p + a % p);
    DivUnique(a, 2 * p, y / 2, (y % 2) * p + a % p);
  }

  // ---------------------------------------------------------------- bit strings

  lemma {:induction false} ValueAppend(s: seq<bit>, t: seq<bit>)
    ensures Value(s + t) == Value(s) * Pow2(|t|) + Value(t)
    decreases |t|
  {
    if |t| == 0 {
      assert s + t == s;
    } else {
      var t' := t[..|t| - 1];
      assert (s + t)[..|s + t| - 1] == s + t';
      ValueAppend(s, t');
      Regroup(Value(s), Pow2(|t'|), Value(t'), t[|t| - 1]);
    }
  }

  lemma Regroup(v: int, p: int, w: int, l: int)
    ensures 2 * (v * p + w) + l == v * (2 * p) + (2 * w + l)
  {
  }

  /** The first `m` bits of a byte, read as a number, are the byte shifted right by `8 - m`. */
  lemma {:induction false} ValueBytePrefix(b: byte, m: nat)
    requires m <= 8
    ensures Value(ByteBits(b)[..m]) == b / Pow2(8 - m)
  {
    if m == 0 {
      assert Pow2(8) == 256;
    } else {
      ValueBytePrefix(b, m - 1);
      DivTwice(b, Pow2(8 - m));
      assert Pow2(9 - m) == 2 * Pow2(8 - m);
      PrefixStep(b, m, b / Pow2(8 - m));
    }
  }

  /** One more bit of a byte: the prefix of `m` bits is twice the prefix of
    * `m - 1` bits plus bit `m - 1`. */
  lemma PrefixStep(b: byte, m: nat, y: nat)
    requires 0 < m <= 8 && y == b / Pow2(8 - m)
    requires Value(ByteBits(b)[..m - 1]) == y / 2
    ensures Value(ByteBits(b)[..m]) == y
  {
    var bb := ByteBits(b);
    assert bb[..m][..m - 1] == bb[..m - 1];
    assert bb[..m][m - 1] == y % 2;
  }

  /** Reading back the eight bits of a byte gives the byte. */
  lemma ValueByteBits(b: byte)
    ensures Value(ByteBits(b)) == b
  {
    ValueBytePrefix(b, 8);
    assert ByteBits(b)[..8] == ByteBits(b);
  }

  /** Bit `t` of a bit string is its value shifted right past the bits after it, modulo two. */
  lemma ValueBit(s: seq<bit>, t: nat)
    requires t < |s|
    ensures (Value(s) / Pow2(|s| - 1 - t)) % 2 == s[t]
  {
    var hi, lo := s[..t + 1], s[t + 1..];
    assert s == hi + lo;
    ValueAppend(hi, lo);
    DivUnique(Value(s), Pow2(|lo|), Value(hi), Value(lo));
    assert hi[..t] == s[..t];
  }

  /** Eight bits read as a byte and split again are the same eight bits. */
  lemma ByteBitsValue(s: seq<bit>)
    requires |s| == 8
    ensures Value(s) < 256 && ByteBits(Value(s)) == s
  {
    assert Pow2(8) == 256;
    forall t | 0 <= t < 8
      ensures ByteBits(Value(s))[t] == s[t]
    {
      ValueBit(s, t);
    }
  }

  /** The bits of a packed bit string are the bit string. */
  lemma {:induction false} UnpackPack(s: seq<bit>)
    requires |s| % 8 == 0
    ensures Unpack(Pack(s)) == s
    decreases |s|
  {
    if |s| > 0 {
      var k := Pack(s);
      ByteBitsValue(s[..8]);
      UnpackPack(s[8..]);
      assert k[0] == Value(s[..8]) && k[1..] == Pack(s[8..]);
      assert Unpack(k) == ByteBits(k[0]) + Unpack(k[1..]);
      assert s == s[..8] + s[8..];
    }
  }

  /** Byte `j` of a byte string occupies bits `8j .. 8j+8` of its stream. */
  lemma {:induction false} UnpackByte(k: seq<byte>, j: nat)
    requires j < |k|
    ensures Unpack(k)[8 * j..8 * j + 8] == ByteBits(k[j])
  {
    if j > 0 {
      UnpackByte(k[1..], j - 1);
      assert Unpack(k)[8..] == Unpack(k[1..]);
    }
  }

  /** Bit `t` of byte `j`, as the stream sees it. */
  lemma StreamBit(k: seq<byte>, j: nat, t: nat)
    requires j < |k| && t < 8
    ensures Unpack(k)[8 * j + t] == (k[j] / Pow2(7 - t)) % 2
  {
    UnpackByte(k, j);
    assert Unpack(k)[8 * j + t] == Unpack(k)[8 * j..8 * j + 8][t];
  }

  /** A byte-aligned eight-bit read yields the byte itself. */
  lemma AlignedByte(k: seq<byte>, j: nat)
    requires j < |k|
    ensures GetBits(Unpack(k), 8 * j, 8) == (k[j] as int, 8 * j + 8)
  {
    UnpackByte(k, j);
    ValueByteBits(k[j]);
  }

  /** A one-bit read yields the bit at the position. */
  lemma OneBit(s: seq<bit>, p: nat)
    requires p <= |s|
    ensures GetBits(s, p, 1) == if p < |s| then (s[p] as int, p + 1) else (-1, |s|)
  {
    if p < |s| {
      assert s[p..p + 1] == [s[p]];
      assert [s[p]][..0] == [];
    }
  }

  /** Reading one bit more: the value so far shifted left, plus the new bit. */
  lemma ReadOneMore(s: seq<bit>, p: nat, i: nat)
    requires p + i + 1 <= |s|
    ensures GetBits(s, p, i + 1).0 == 2 * GetBits(s, p, i).0 + s[p + i]
  {
    var x := s[p..p + i + 1];
    assert x[..i] == s[p..p + i];
    assert Value(x) == 2 * Value(x[..i]) + x[i];
  }
}
