/** Bytes, optional values and powers of two shared by every module of the model. */
module Bytes {

  /** An `unsigned char` of the engine. */
  type byte = b: int | 0 <= b < 256

  datatype Option<T> = None | Some(value: T)

  function Pow2(k: nat): (r: nat)
    ensures r >= 1
  {
    if k == 0 then 1 else 2 * Pow2(k - 1)
  }

  /** The bytes of an ASCII literal, as the C sources spell them with character constants. */
  function Ascii(s: string): (r: seq<byte>)
    requires forall i :: 0 <= i < |s| ==> s[i] < 128 as char
    ensures |r| == |s|
    ensures forall i :: 0 <= i < |s| ==> r[i] == s[i] as int
  {
    seq(|s|, i requires 0 <= i < |s| => s[i] as int)
  }

  /** Conversion of an `int` to `unsigned char`: reduction modulo 256. */
  function ToByte(x: int): (b: byte)
    ensures (b - x) % 256 == 0
  {
    x % 256
  }

  /** `x | 0x80` on a byte. */
  function SetHigh(x: byte): (r: byte)
    ensures r >= 128
    ensures r % 128 == x % 128
  {
    if x < 128 then x + 128 else x
  }

  /** `IS_TWO_BYTE(x)`: the top three bits of `x` (`x & 0xe0`) are `111` or
    * `100`, i.e. `x` is in `0x80 .. 0x9f` or `0xe0 .. 0xff`, the lead bytes of
    * a two-byte Shift_JIS character. */
  predicate IsTwoByte(x: byte) {
    x / 32 == 7 || x / 32 == 4
  }

  // ------------------------------------------------------------ arithmetic facts

  lemma {:induction false} Pow2Add(a: nat, b: nat)
    ensures Pow2(a + b) == Pow2(a) * Pow2(b)
  {
    if b > 0 {
      Pow2Add(a, b - 1);
      assert Pow2(a + b) == 2 * Pow2(a + b - 1);
    }
  }

  lemma MulMono(a: int, b: int, c: nat)
    requires a <= b
    ensures a * c <= b * c
  {
  }

  lemma MulAtLeast(x: int, d: int)
    requires x >= 1 && d > 0
    ensures x * d >= d
  {
  }

  /** Quotient and remainder are determined by `a == q * d + r` with `0 <= r < d`. */
  lemma DivUnique(a: int, d: int, q: int, r: int)
    requires d > 0 && 0 <= r < d && a == q * d + r
    ensures a / d == q && a % d == r
  {
    var q', r' := a / d, a % d;
    assert q' * d + r' == q * d + r;
    if q' > q {
      assert (q' - q) * d == r - r';
      MulAtLeast(q' - q, d);
    } else if q' < q {
      assert (q - q') * d == r' - r;
      MulAtLeast(q - q', d);
    }
  }

  /** Dividing by `256 * m` is dividing by 256 and then by `m`, and the remainder
    * is the low byte plus 256 times the remainder of the quotient by `m`. */
  lemma ByteSplit(t: nat, m: nat)
    requires m > 0
    ensures t / (256 * m) == (t / 256) / m
    ensures t % (256 * m) == t % 256 + 256 * ((t / 256) % m)
  {
    var q, r0 := t / 256, t % 256;
    DivNat(t, 256);
    DivNat(q, m);
    var q2, r1 := q / m, q % m;
    assert q2 * (256 * m) == 256 * (q2 * m);
    DivUnique(t, 256 * m, q2, 256 * r1 + r0);
  }

  /** Division of a natural number by a positive one. */
  lemma DivNat(a: nat, d: int)
    requires d > 0
    ensures a == (a / d) * d + a % d && 0 <= a % d < d && a / d >= 0
  {
  }

  /** One fewer copy of `b`. */
  lemma MulPred(a: int, b: int)
    ensures (a - 1) * b == a * b - b
  {
  }

  /** Row `j < h` and column `k < w` of a `w`-wide grid give an index below `h * w`. */
  lemma GridIndex(j: nat, k: nat, w: nat, h: nat)
    requires j < h && k < w
    ensures j * w + k < h * w
  {
    MulMono(j, h - 1, w);
    assert (h - 1) * w + w == h * w;
  }
}
