/**
 * Keyed big-endian reads and plain big-endian writes of a DirectReader.
 *
 * A file is an immutable byte sequence and a read position; a read that would
 * run past the end of the file is a short read (`None`).  Every byte read goes
 * through the reader's 256-entry substitution table; writes do not.
 */
module ByteCodec {
  import opened Bytes

  /** A substitution table has one entry per byte value. */
  predicate IsKeyTable(key: seq<byte>) {
    |key| == 256
  }

  /** The table used when no key is given: every byte maps to itself. */
  function IdentityKey(): (key: seq<byte>)
    ensures IsKeyTable(key)
    ensures forall b :: 0 <= b < 256 ==> key[b] == b
  {
    seq(256, i requires 0 <= i < 256 => i)
  }

  /** The bytes `s` as the reader sees them, each passed through `key`. */
  function Keyed(key: seq<byte>, s: seq<byte>): (r: seq<byte>)
    requires IsKeyTable(key)
    ensures |r| == |s|
    ensures forall i :: 0 <= i < |s| ==> r[i] == key[s[i]]
  {
    seq(|s|, i requires 0 <= i < |s| => key[s[i]])
  }

  /** Reference reading of a byte string as a big-endian unsigned number. */
  function BigEndian(s: seq<byte>): (v: nat)
    ensures v < Pow2(8 * |s|)
  {
    if |s| == 0 then 0
    else
      var hi := BigEndian(s[..|s| - 1]);
      assert Pow2(8 * |s|) == Pow2(8 * (|s| - 1)) * 256 by { Pow2Add(8 * (|s| - 1), 8); }
      hi * 256 + s[|s| - 1]
  }

  /** The value read and the file position after the read. */
  datatype Read = Read(value: nat, next: nat)

  /** `readChar`: one keyed byte. */
  function ReadChar(key: seq<byte>, file: seq<byte>, pos: nat): (r: Option<Read>)
    requires IsKeyTable(key)
    ensures r.Some? <==> pos + 1 <= |file|
    ensures r.Some? ==> r.value.next == pos + 1 && r.value.value == key[file[pos]]
  {
    if pos + 1 <= |file| then Some(Read(key[file[pos]], pos + 1)) else None
  }

  /** `readShort`: `key[b0] << 8 | key[b1]`. */
  function ReadShort(key: seq<byte>, file: seq<byte>, pos: nat): (r: Option<Read>)
    requires IsKeyTable(key)
    ensures r.Some? <==> pos + 2 <= |file|
    ensures r.Some? ==> r.value.next == pos + 2 && r.value.value < 65536
    ensures r.Some? ==> r.value.value == BigEndian(Keyed(key, file[pos..pos + 2]))
  {
    if pos + 2 <= |file| then
      var v := key[file[pos]] as int * 256 + key[file[pos + 1]];
      assert Keyed(key, file[pos..pos + 2])[..1] == [key[file[pos]]];
      Some(Read(v, pos + 2))
    else None
  }

  /** `readLong`: four keyed bytes, most significant first. */
  function ReadLong(key: seq<byte>, file: seq<byte>, pos: nat): (r: Option<Read>)
    requires IsKeyTable(key)
    ensures r.Some? <==> pos + 4 <= |file|
    ensures r.Some? ==> r.value.next == pos + 4 && r.value.value < 0x1_0000_0000
    ensures r.Some? ==> r.value.value == BigEndian(Keyed(key, file[pos..pos + 4]))
  {
    if pos + 4 <= |file| then
      var k := Keyed(key, file[pos..pos + 4]);
      var v := ((key[file[pos]] as int * 256 + key[file[pos + 1]]) * 256 + key[file[pos + 2]]) * 256
               + key[file[pos + 3]];
      assert k[..3][..2][..1] == [k[0]];
      assert BigEndian(k[..2]) == k[0] as int * 256 + k[1];
      assert BigEndian(k[..3]) == BigEndian(k[..2]) * 256 + k[2] by { assert k[..3][..2] == k[..2]; }
      assert BigEndian(k) == BigEndian(k[..3]) * 256 + k[3];
      Some(Read(v, pos + 4))
    else None
  }

  /** `writeShort`: the two bytes of `x`, high byte first, unkeyed. */
  function WriteShort(x: nat): (s: seq<byte>)
    requires x < 65536
    ensures |s| == 2
  {
    [(x / 256) % 256, x % 256]
  }

  /** `writeLong`: the four bytes of `x`, high byte first, unkeyed. */
  function WriteLong(x: nat): (s: seq<byte>)
    requires x < 0x1_0000_0000
    ensures |s| == 4
  {
    [(x / 0x100_0000) % 256, (x / 0x1_0000) % 256, (x / 256) % 256, x % 256]
  }

  /** With the identity table, reading back what `writeShort` wrote gives the value back. */
  lemma ShortRoundTrip(x: nat)
    requires x < 65536
    ensures ReadShort(IdentityKey(), WriteShort(x), 0) == Some(Read(x, 2))
  {
    var s := WriteShort(x);
    assert Keyed(IdentityKey(), s[0..2]) == s;
  }

  /** With the identity table, reading back what `writeLong` wrote gives the value back. */
  lemma LongRoundTrip(x: nat)
    requires x < 0x1_0000_0000
    ensures ReadLong(IdentityKey(), WriteLong(x), 0) == Some(Read(x, 4))
  {
    var s := WriteLong(x);
    var a, b, c, d := x / 0x100_0000, (x / 0x1_0000) % 256, (x / 256) % 256, x % 256;
    assert x / 0x1_0000 == a * 256 + b;
    assert x / 256 == (a * 256 + b) * 256 + c;
    assert x == ((a * 256 + b) * 256 + c) * 256 + d;
  }

  /** With any table, a value written and read back is the keyed image of its bytes. */
  lemma KeyedShortRead(key: seq<byte>, x: nat)
    requires IsKeyTable(key) && x < 65536
    ensures ReadShort(key, WriteShort(x), 0)
            == Some(Read(key[(x / 256) % 256] as int * 256 + key[x % 256], 2))
  {
  }
}
