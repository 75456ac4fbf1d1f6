/**
 * The `getbit` state of a DirectReader: a 4096-byte read buffer refilled from
 * the file, the number of bytes in it and consumed from it, the current keyed
 * byte and the mask of its next bit.
 *
 * `BitReader.GetBit` is the corrected reader (see README, Findings): on EOF it
 * also empties the consumed count, so that EOF stays EOF.  `GetbitAsWritten`
 * models the source's reader, which leaves the count alone.
 */
module BitReader {
  import opened Bytes
  import opened ByteCodec
  import opened BitStream

  /** `READ_LENGTH`, the size of the read buffer. */
  const ReadLength: nat := 4096

  /** The masks `getbit_mask` takes: 0 (no bit left) or one bit of a byte. */
  predicate IsMask(m: nat) {
    m == 0 || m == 1 || m == 2 || m == 4 || m == 8 || m == 16 || m == 32 || m == 64 || m == 128
  }

  /** How many bits of the current byte are still to be read under mask `m`. */
  function Remaining(m: nat): (r: nat)
    requires IsMask(m)
    ensures r <= 8
    ensures (m == 0) == (r == 0)
    ensures m != 0 ==> m == Pow2(r - 1)
  {
    if m == 0 then 0
    else if m == 1 then 1
    else if m == 2 then 2
    else if m == 4 then 3
    else if m == 8 then 4
    else if m == 16 then 5
    else if m == 32 then 6
    else if m == 64 then 7
    else 8
  }

  /** Halving a non-zero mask leaves one bit fewer to read. */
  lemma HalfMask(m: nat)
    requires IsMask(m) && m != 0
    ensures IsMask(m / 2) && Remaining(m / 2) == Remaining(m) - 1
  {
  }

  class BitReader {
    /** `key_table` */
    const key: seq<byte>
    /** `read_buf` */
    const readBuf: array<byte>
    /** The file being read and the file position of its handle. */
    var file: seq<byte>
    var filePos: nat
    /** `getbit_len`, `getbit_count`, `getbit_mask` and the static `getbit_buf`. */
    var len: nat
    var count: nat
    var mask: nat
    var cur: byte
    /** The file offset the bit stream starts at (the last seek). */
    ghost var start: nat

    ghost predicate Valid()
      reads this, readBuf
    {
      && IsKeyTable(key)
      && readBuf.Length == ReadLength
      && count <= len <= ReadLength
      && start + len <= filePos <= |file|
      && readBuf[..len] == file[filePos - len..filePos]
      && IsMask(mask)
      && (mask != 0 ==> 1 <= count && cur == key[readBuf[count - 1]])
    }

    /** The keyed bits of the file from the stream's start on. */
    ghost function Stream(): seq<bit>
      reads this`file, this`start
      requires IsKeyTable(key) && start <= |file|
    {
      Unpack(Keyed(key, file[start..]))
    }

    /** The stream position of the next bit `getbit` returns. */
    ghost function Position(): (p: nat)
      reads this, readBuf
      requires Valid()
      ensures p <= |Stream()|
    {
      8 * (filePos - len + count - start) - Remaining(mask)
    }

    constructor (keyTable: seq<byte>)
      requires IsKeyTable(keyTable)
      ensures Valid() && key == keyTable && fresh(readBuf)
      ensures file == [] && Position() == 0
    {
      key := keyTable;
      readBuf := new byte[ReadLength];
      file := [];
      filePos, start := 0, 0;
      len, count, mask, cur := 0, 0, 0, 0;
    }

    /** Seek to `offset` and forget the buffered bits, as the decoders do before
      * their first `getbit`.  A seek past the end leaves an empty stream. */
    method Restart(f: seq<byte>, offset: nat)
      requires IsKeyTable(key) && readBuf.Length == ReadLength
      modifies this
      ensures Valid() && file == f && Position() == 0
      ensures Stream() == Unpack(Keyed(key, f[if offset <= |f| then offset else |f|..]))
    {
      file := f;
      filePos := if offset <= |f| then offset else |f|;
      start := filePos;
      len, count, mask := 0, 0, 0;
    }

    /** `fread(read_buf, 1, READ_LENGTH, fp)` once the buffer is used up. */
    method Refill()
      requires Valid() && count == len && mask == 0
      modifies this, readBuf
      ensures Valid() && file == old(file) && start == old(start) && mask == old(mask)
      ensures count == 0 && len == (if |file| - old(filePos) < ReadLength then |file| - old(filePos) else ReadLength)
      ensures filePos == old(filePos) + len
    {
      var got := if |file| - filePos < ReadLength then |file| - filePos else ReadLength;
      forall j | 0 <= j < got {
        readBuf[j] := file[filePos + j];
      }
      len, count := got, 0;
      filePos := filePos + got;
    }

    /** With a bit pending, that bit is the stream's bit at the current position. */
    lemma PendingBit()
      requires Valid() && mask != 0
      ensures Position() < |Stream()|
      ensures Stream()[Position()] == (cur / mask) % 2
    {
      var k := Keyed(key, file[start..]);
      var j := filePos - len + count - 1 - start;
      var t := 8 - Remaining(mask);
      assert readBuf[..len][count - 1] == file[start..][j];
      StreamBit(k, j, t);
      assert Position() == 8 * j + t;
    }

    /** The top of the `getbit` loop: with no bit pending, take the next byte of
      * the buffer, refilling it first when it is used up; `eof` when the file is. */
    method TakeByte() returns (eof: bool)
      requires Valid() && mask == 0
      modifies this, readBuf
      ensures Valid() && file == old(file) && start == old(start)
      ensures Position() == old(Position())
      ensures eof <==> Position() == |Stream()|
      ensures eof ==> mask == 0 && len == count
      ensures !eof ==> mask == 128
    {
      if len == count {
        Refill();
        if len == 0 {
          count := 0;
          return true;
        }
      }
      cur := key[readBuf[count]];
      count := count + 1;
      mask := 128;
      return false;
    }

    /** One pass of the `getbit` loop: the next bit, or EOF when the file is used up. */
    method NextBit() returns (b: int)
      requires Valid()
      modifies this, readBuf
      ensures Valid() && file == old(file) && start == old(start) && Stream() == old(Stream())
      ensures (b, Position()) == GetBits(Stream(), old(Position()), 1)
    {
      ghost var p0, s := Position(), Stream();
      if mask == 0 {
        var eof := TakeByte();
        if eof {
          OneBit(s, p0);
          return -1;
        }
      }
      b := ReadPending();
    }

    /** The bottom of the `getbit` loop: the pending bit under the mask, and
      * `getbit_mask >>= 1`. */
    method ReadPending() returns (b: int)
      requires Valid() && mask != 0
      modifies this
      ensures Valid() && file == old(file) && start == old(start)
      ensures (b, Position()) == GetBits(Stream(), old(Position()), 1)
    {
      ghost var p, s := Position(), Stream();
      PendingBit();
      OneBit(s, p);
      var t := (cur / mask) % 2;
      b := if t == 1 then 1 else 0;
      assert (b, p + 1) == GetBits(s, p, 1);
      ShiftMask();
    }

    /** `getbit_mask >>= 1`: the pending bit is consumed. */
    method ShiftMask()
      requires Valid() && mask != 0
      modifies this
      ensures Valid() && file == old(file) && start == old(start)
      ensures Position() == old(Position()) + 1
    {
      HalfMask(mask);
      mask := mask / 2;
    }

    /** One bit more of a `getbit` call: the bits so far, `x`, shifted left
      * with the next bit, or EOF. */
    method ShiftIn(x: int, ghost s: seq<bit>, ghost p0: nat, ghost i: nat) returns (y: int)
      requires Valid() && Stream() == s && Position() == p0 + i && x == GetBits(s, p0, i).0
      modifies this, readBuf
      ensures Valid() && file == old(file) && start == old(start)
      ensures y != -1 ==> Position() == p0 + i + 1 && y == GetBits(s, p0, i + 1).0
      ensures y == -1 ==> Position() == |s| && p0 + i == |s|
    {
      var b := NextBit();
      if b == -1 {
        return -1;
      }
      OneBit(s, p0 + i);
      ReadOneMore(s, p0, i);
      y := 2 * x + b;
    }

    /** `getbit(fp, n)`: the next `n` bits of the stream as a number, or EOF. */
    method GetBit(n: nat) returns (x: int)
      requires Valid()
      modifies this, readBuf
      ensures Valid() && file == old(file) && start == old(start) && Stream() == old(Stream())
      ensures (x, Position()) == GetBits(Stream(), old(Position()), n)
    {
      ghost var p0, s := Position(), Stream();
      x := 0;
      var i := 0;
      while i < n
        invariant Valid() && file == old(file) && start == old(start) && Stream() == s
        invariant i <= n && Position() == p0 + i
        invariant x == GetBits(s, p0, i).0
      {
        x := ShiftIn(x, s, p0, i);
        if x == -1 {
          return;
        }
        i := i + 1;
      }
    }
  }

  // ------------------------------------------------------------ as written

  /** The getbit state of the source's reader, with the read buffer as a value. */
  datatype GetbitState = GetbitState(buf: seq<byte>, len: nat, count: nat, mask: nat, cur: byte, filePos: nat)

  /** A call either returns bits or EOF, or indexes the read buffer out of its bounds. */
  datatype GetbitOutcome = Returned(x: int, next: GetbitState) | OutOfBounds

  /** The source's `getbit` loop from bit `i` on, with `x` the bits read so far.
    * On EOF it zeroes the length but leaves the consumed count. */
  function GetbitAsWritten(key: seq<byte>, file: seq<byte>, s: GetbitState, n: nat, i: nat, x: int): (r: GetbitOutcome)
    requires IsKeyTable(key) && |s.buf| == ReadLength && s.filePos <= |file| && i <= n
    requires IsMask(s.mask)
    ensures r.Returned? ==> |r.next.buf| == ReadLength && r.next.filePos <= |file| && IsMask(r.next.mask)
    decreases n - i
  {
    if i == n then Returned(x, s)
    else if s.mask == 0 && s.len == s.count then
      var got := if |file| - s.filePos < ReadLength then |file| - s.filePos else ReadLength;
      var buf := file[s.filePos..s.filePos + got] + s.buf[got..];
      if got == 0 then Returned(-1, s.(len := 0))
      else
        var s' := GetbitState(buf, got, 1, 128, key[buf[0]], s.filePos + got);
        GetbitAsWritten(key, file, s'.(mask := 64), n, i + 1, 2 * x + (if (s'.cur / 128) % 2 == 1 then 1 else 0))
    else if s.mask == 0 then
      if s.count >= ReadLength then OutOfBounds
      else
        var s' := s.(count := s.count + 1, mask := 128, cur := key[s.buf[s.count]]);
        GetbitAsWritten(key, file, s'.(mask := 64), n, i + 1, 2 * x + (if (s'.cur / 128) % 2 == 1 then 1 else 0))
    else
      GetbitAsWritten(key, file, s.(mask := s.mask / 2), n, i + 1, 2 * x + (if (s.cur / s.mask) % 2 == 1 then 1 else 0))
  }

  /** One byte `0xFF`: after reading its eight bits, a one-bit read reports EOF,
    * but the next one-bit read is served from `read_buf[1]`, past the one byte
    * the file supplied, instead of reporting EOF again. */
  lemma GetbitEofNotSticky(stale: seq<byte>)
    requires |stale| == ReadLength
    ensures
      var key, file := IdentityKey(), [255];
      var s0 := GetbitState(stale, 0, 0, 0, 0, 0);
      var r1 := GetbitAsWritten(key, file, s0, 8, 0, 0);
      && r1.Returned? && r1.x == 255
      && var r2 := GetbitAsWritten(key, file, r1.next, 1, 0, 0);
      && r2.Returned? && r2.x == -1
      && r2.next.len == 0 && r2.next.count == 1
      && var r3 := GetbitAsWritten(key, file, r2.next, 1, 0, 0);
      && r3.Returned? && r3.x != -1 && r3.next.count == 2
  {
    var key, file := IdentityKey(), [255];
    var s1 := GetbitState(file + stale[1..], 1, 1, 128, 255, 1);
    EofFirstByte(stale);
    var s2 := s1.(mask := 0, len := 0);
    assert GetbitAsWritten(key, file, s1.(mask := 0), 1, 0, 0) == Returned(-1, s2);
    var s3 := s2.(count := 2, mask := 128, cur := key[s2.buf[1]]);
    assert GetbitAsWritten(key, file, s2, 1, 0, 0)
        == GetbitAsWritten(key, file, s3.(mask := 64), 1, 1, if (s3.cur / 128) % 2 == 1 then 1 else 0);
  }

  /** Reading the eight bits of the one byte `0xFF`. */
  lemma EofFirstByte(stale: seq<byte>)
    requires |stale| == ReadLength
    ensures
      var s1 := GetbitState([255] + stale[1..], 1, 1, 128, 255, 1);
      GetbitAsWritten(IdentityKey(), [255], GetbitState(stale, 0, 0, 0, 0, 0), 8, 0, 0)
        == Returned(255, s1.(mask := 0))
  {
    var key, file := IdentityKey(), [255];
    var s1 := GetbitState(file + stale[1..], 1, 1, 128, 255, 1);
    assert GetbitAsWritten(key, file, GetbitState(stale, 0, 0, 0, 0, 0), 8, 0, 0)
        == GetbitAsWritten(key, file, s1.(mask := 64), 8, 1, 1);
    EofLowBits(s1);
  }

  /** The seven low bits of `0xFF`, read one by one. */
  lemma EofLowBits(s1: GetbitState)
    requires |s1.buf| == ReadLength && s1.filePos <= 1 && s1.cur == 255
    ensures GetbitAsWritten(IdentityKey(), [255], s1.(mask := 64), 8, 1, 1) == Returned(255, s1.(mask := 0))
  {
    var key, file := IdentityKey(), [255];
    EofLastBits(s1);
    assert GetbitAsWritten(key, file, s1.(mask := 64), 8, 1, 1)
        == GetbitAsWritten(key, file, s1.(mask := 32), 8, 2, 3)
        == GetbitAsWritten(key, file, s1.(mask := 16), 8, 3, 7)
        == GetbitAsWritten(key, file, s1.(mask := 8), 8, 4, 15);
  }

  lemma EofLastBits(s1: GetbitState)
    requires |s1.buf| == ReadLength && s1.filePos <= 1 && s1.cur == 255
    ensures GetbitAsWritten(IdentityKey(), [255], s1.(mask := 8), 8, 4, 15) == Returned(255, s1.(mask := 0))
  {
    var key, file := IdentityKey(), [255];
    assert GetbitAsWritten(key, file, s1.(mask := 8), 8, 4, 15)
        == GetbitAsWritten(key, file, s1.(mask := 4), 8, 5, 31)
        == GetbitAsWritten(key, file, s1.(mask := 2), 8, 6, 63)
        == GetbitAsWritten(key, file, s1.(mask := 1), 8, 7, 127)
        == Returned(255, s1.(mask := 0));
  }

  // ------------------------------------------------------------ as written, before EOF

  /** An as-written state as the reader's state on values: the buffered bytes are the
    * file's bytes before the file position, and a pending bit belongs to the byte last
    * taken from the buffer. */
  ghost predicate StateOn(key: seq<byte>, file: seq<byte>, start: nat, s: GetbitState)
  {
    && IsKeyTable(key) && |s.buf| == ReadLength
    && s.count <= s.len <= ReadLength
    && start + s.len <= s.filePos <= |file|
    && s.buf[..s.len] == file[s.filePos - s.len..s.filePos]
    && IsMask(s.mask)
    && (s.mask != 0 ==> 1 <= s.count && s.cur == key[s.buf[s.count - 1]])
  }

  /** The stream position of the next bit an as-written state reads. */
  ghost function StatePosition(start: nat, s: GetbitState): int
    requires IsMask(s.mask)
  {
    8 * (s.filePos - s.len + s.count - start) - Remaining(s.mask)
  }

  /** With a bit pending, that bit is the stream's bit at the state's position. */
  lemma PendingBitOf(key: seq<byte>, file: seq<byte>, start: nat, s: GetbitState)
    requires StateOn(key, file, start, s) && s.mask != 0
    ensures 0 <= StatePosition(start, s) < |Unpack(Keyed(key, file[start..]))|
    ensures Unpack(Keyed(key, file[start..]))[StatePosition(start, s)] == (s.cur / s.mask) % 2
  {
    var k := Keyed(key, file[start..]);
    var j := s.filePos - s.len + s.count - 1 - start;
    var t := 8 - Remaining(s.mask);
    assert s.buf[..s.len][s.count - 1] == file[start..][j];
    StreamBit(k, j, t);
    assert StatePosition(start, s) == 8 * j + t;
  }

  /** The bottom of the program's loop: the pending bit shifted into `x` is one more
    * bit of the reference reading, and halving the mask moves on by one bit. */
  lemma PendingStep(key: seq<byte>, file: seq<byte>, start: nat, s: GetbitState, p0: nat, i: nat, x: int)
    requires StateOn(key, file, start, s) && s.mask != 0
    requires StatePosition(start, s) == p0 + i && p0 + i <= |Unpack(Keyed(key, file[start..]))|
    requires x == GetBits(Unpack(Keyed(key, file[start..])), p0, i).0
    ensures StateOn(key, file, start, s.(mask := s.mask / 2))
    ensures StatePosition(start, s.(mask := s.mask / 2)) == p0 + i + 1
    ensures 2 * x + (if (s.cur / s.mask) % 2 == 1 then 1 else 0)
         == GetBits(Unpack(Keyed(key, file[start..])), p0, i + 1).0
  {
    PendingBitOf(key, file, start, s);
    HalfMask(s.mask);
    ReadOneMore(Unpack(Keyed(key, file[start..])), p0, i);
  }

  /** A call that returned `v` and left the reader at stream position `p`. */
  ghost predicate ReadsAt(key: seq<byte>, file: seq<byte>, start: nat, r: GetbitOutcome, v: int, p: int)
  {
    r.Returned? && r.x == v && StateOn(key, file, start, r.next) && StatePosition(start, r.next) == p
  }

  /** Before the end of the stream the program's `getbit` reads what the reference
    * reading `GetBits` reads, from any state the reader can be in, and leaves a state
    * at the position after those bits: the two differ only once EOF is reached. */
  lemma {:induction false} AsWrittenBeforeEof(key: seq<byte>, file: seq<byte>, start: nat, s: GetbitState,
                                             p0: nat, n: nat, i: nat, x: int)
    requires StateOn(key, file, start, s) && i <= n
    requires StatePosition(start, s) == p0 + i
    requires p0 + n <= |Unpack(Keyed(key, file[start..]))|
    requires x == GetBits(Unpack(Keyed(key, file[start..])), p0, i).0
    ensures ReadsAt(key, file, start, GetbitAsWritten(key, file, s, n, i, x),
                    GetBits(Unpack(Keyed(key, file[start..])), p0, n).0, p0 + n)
    decreases n - i
  {
    if i == n {
      assert GetbitAsWritten(key, file, s, n, i, x) == Returned(x, s);
    } else {
      var t := TakeAsWritten(key, file, start, s, n, i, x);
      var bit := if (t.cur / t.mask) % 2 == 1 then 1 else 0;
      PendingStep(key, file, start, t, p0, i, x);
      AsWrittenBeforeEof(key, file, start, t.(mask := t.mask / 2), p0, n, i + 1, 2 * x + bit);
    }
  }

  /** The top of the program's loop: the state whose pending bit the next pass reads,
    * after taking a byte from the buffer, refilled first when it is used up, when no
    * bit is pending.  Before the end of the stream the file always has that byte. */
  lemma TakeAsWritten(key: seq<byte>, file: seq<byte>, start: nat, s: GetbitState, n: nat, i: nat, x: int)
      returns (t: GetbitState)
    requires StateOn(key, file, start, s) && i < n
    requires StatePosition(start, s) < |Unpack(Keyed(key, file[start..]))|
    ensures StateOn(key, file, start, t) && t.mask != 0 && StatePosition(start, t) == StatePosition(start, s)
    ensures GetbitAsWritten(key, file, s, n, i, x)
         == GetbitAsWritten(key, file, t.(mask := t.mask / 2), n, i + 1,
                            2 * x + (if (t.cur / t.mask) % 2 == 1 then 1 else 0))
  {
    if s.mask == 0 && s.len == s.count {
      t := RefillAsWritten(key, file, start, s, n, i, x);
    } else if s.mask == 0 {
      t := NextByteAsWritten(key, file, start, s, n, i, x);
    } else {
      t := s;
    }
  }

  /** The refill of a used-up buffer before the end of the stream, and the byte it
    * takes first. */
  lemma RefillAsWritten(key: seq<byte>, file: seq<byte>, start: nat, s: GetbitState, n: nat, i: nat, x: int)
      returns (t: GetbitState)
    requires StateOn(key, file, start, s) && s.mask == 0 && s.len == s.count && i < n
    requires StatePosition(start, s) < |Unpack(Keyed(key, file[start..]))|
    ensures StateOn(key, file, start, t) && t.mask == 128 && StatePosition(start, t) == StatePosition(start, s)
    ensures GetbitAsWritten(key, file, s, n, i, x)
         == GetbitAsWritten(key, file, t.(mask := 64), n, i + 1, 2 * x + (if (t.cur / 128) % 2 == 1 then 1 else 0))
  {
    t := RefilledState(key, file, start, s);
    RefillUnfold(key, file, s, n, i, x);
  }

  /** The state after the refill: the buffer starts with the next `got` bytes of the
    * file, one of them taken. */
  lemma RefilledState(key: seq<byte>, file: seq<byte>, start: nat, s: GetbitState) returns (t: GetbitState)
    requires StateOn(key, file, start, s) && s.mask == 0 && s.len == s.count
    requires StatePosition(start, s) < |Unpack(Keyed(key, file[start..]))|
    ensures s.filePos < |file|
    ensures var got := if |file| - s.filePos < ReadLength then |file| - s.filePos else ReadLength;
      t == GetbitState(file[s.filePos..s.filePos + got] + s.buf[got..], got, 1, 128,
                       key[file[s.filePos]], s.filePos + got)
    ensures StateOn(key, file, start, t) && StatePosition(start, t) == StatePosition(start, s)
  {
    var got := if |file| - s.filePos < ReadLength then |file| - s.filePos else ReadLength;
    var buf := file[s.filePos..s.filePos + got] + s.buf[got..];
    assert StatePosition(start, s) == 8 * (s.filePos - start);
    assert |Unpack(Keyed(key, file[start..]))| == 8 * (|file| - start);
    t := GetbitState(buf, got, 1, 128, key[buf[0]], s.filePos + got);
    assert t.buf[..t.len] == file[t.filePos - t.len..t.filePos];
  }

  /** A call that finds the buffer used up and the file not: it refills and reads on. */
  lemma RefillUnfold(key: seq<byte>, file: seq<byte>, s: GetbitState, n: nat, i: nat, x: int)
    requires IsKeyTable(key) && |s.buf| == ReadLength && s.filePos < |file| && IsMask(s.mask)
    requires s.mask == 0 && s.len == s.count && i < n
    ensures var got := if |file| - s.filePos < ReadLength then |file| - s.filePos else ReadLength;
      var t := GetbitState(file[s.filePos..s.filePos + got] + s.buf[got..], got, 1, 128,
                           key[file[s.filePos]], s.filePos + got);
      GetbitAsWritten(key, file, s, n, i, x)
        == GetbitAsWritten(key, file, t.(mask := 64), n, i + 1, 2 * x + (if (t.cur / 128) % 2 == 1 then 1 else 0))
  {
  }


  /** Taking the next byte of a buffer that still has one. */
  lemma NextByteAsWritten(key: seq<byte>, file: seq<byte>, start: nat, s: GetbitState, n: nat, i: nat, x: int)
      returns (t: GetbitState)
    requires StateOn(key, file, start, s) && s.mask == 0 && s.len != s.count && i < n
    ensures t == s.(count := s.count + 1, mask := 128, cur := key[s.buf[s.count]])
    ensures StateOn(key, file, start, t) && StatePosition(start, t) == StatePosition(start, s)
    ensures GetbitAsWritten(key, file, s, n, i, x)
         == GetbitAsWritten(key, file, t.(mask := 64), n, i + 1, 2 * x + (if (t.cur / 128) % 2 == 1 then 1 else 0))
  {
    t := s.(count := s.count + 1, mask := 128, cur := key[s.buf[s.count]]);
  }
}
