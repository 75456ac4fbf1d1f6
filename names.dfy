/**
 * File names as DirectReader handles them: the registry mapping a file
 * extension to a compression kind and its lookup, the rewriting of path
 * separators to the platform delimiter, which leaves the second byte of a
 * two-byte Shift_JIS character alone, and the Shift_JIS to EUC-JP
 * transcoding of a name.  Names are byte strings without their NUL
 * terminator unless a buffer is meant.
 */
module Names {
  import opened Bytes

  /** The compression kinds a file can be registered with. */
  datatype Compression = NoCompression | SpbCompression | LzssCompression | NbzCompression

  /** A node of the registered-compression list: an extension and its kind. */
  datatype Entry = Entry(ext: seq<byte>, kind: Compression)

  const Dot: byte := 0x2E
  const Slash: byte := 0x2F
  const Backslash: byte := 0x5C

  // ------------------------------------------------------------------ extension

  /** The backward scan of `getRegisteredCompressionType`: from position `i`
    * down to a dot or to the first byte, whichever comes first. */
  function ScanBack(name: seq<byte>, i: nat): (j: nat)
    requires i <= |name|
    ensures j <= i
    ensures j == 0 || (j < |name| && name[j] == Dot)
    ensures forall k :: j < k < i ==> name[k] != Dot
  {
    if i == 0 then 0
    else if i < |name| && name[i] == Dot then i
    else ScanBack(name, i - 1)
  }

  /** The extension as `getRegisteredCompressionType` takes it: whatever follows
    * the position where the scan stops, even when the name holds no dot. */
  function ExtensionAsWritten(name: seq<byte>): (e: seq<byte>)
    requires |name| >= 1
    ensures |e| < |name| && name[|name| - |e|..] == e
    ensures Dot !in e
  {
    var j := ScanBack(name, |name|);
    name[j + 1..]
  }

  /** The extension of a name: what follows its last dot, none without a dot. */
  function Extension(name: seq<byte>): (e: Option<seq<byte>>)
    ensures e.None? <==> Dot !in name
    ensures e.Some? ==> var x := e.value;
      && |x| < |name| && name[|name| - |x| - 1] == Dot && name[|name| - |x|..] == x && Dot !in x
  {
    if |name| == 0 then None
    else
      var j := ScanBack(name, |name|);
      if name[j] == Dot then Some(name[j + 1..])
      else None
  }

  /** ASCII `a .. z` raised to `A .. Z`; every other byte kept. */
  function UpperChar(c: byte): (u: byte)
    ensures 0x61 <= c <= 0x7A ==> u == c - 0x20
    ensures !(0x61 <= c <= 0x7A) ==> u == c
  {
    if 0x61 <= c <= 0x7A then c - 0x20 else c
  }

  function Upper(s: seq<byte>): (r: seq<byte>)
    ensures |r| == |s| && forall k :: 0 <= k < |s| ==> r[k] == UpperChar(s[k])
  {
    seq(|s|, k requires 0 <= k < |s| => UpperChar(s[k]))
  }

  /** The walk of the registered list: the kind of the first entry for `ext`,
    * `NO_COMPRESSION` when there is none. */
  function Find(entries: seq<Entry>, ext: seq<byte>): (r: Compression)
  {
    if |entries| == 0 then NoCompression
    else if entries[0].ext == ext then entries[0].kind
    else Find(entries[1..], ext)
  }

  /** The compression kind of a file name: the registered kind of its
    * upper-cased extension. */
  function Kind(entries: seq<Entry>, name: seq<byte>): Compression
  {
    match Extension(name)
    case None => NoCompression
    case Some(e) => Find(entries, Upper(e))
  }

  /** The kinds the reader registers when it is constructed. */
  function Builtins(): (r: seq<Entry>)
    ensures |r| == 3
  {
    [Entry(Ascii("SPB"), SpbCompression), Entry(Ascii("JPG"), NoCompression), Entry(Ascii("GIF"), NoCompression)]
  }

  /** The list of registered compression types (`root_registered_compression_type`). */
  class Registry {
    var entries: seq<Entry>

    constructor ()
      ensures entries == Builtins()
    {
      entries := Builtins();
    }

    /** `registerCompressionType`: append an entry at the end of the list. */
    method Register(ext: seq<byte>, kind: Compression)
      modifies this
      ensures entries == old(entries) + [Entry(ext, kind)]
    {
      entries := entries + [Entry(ext, kind)];
    }

    /** `getRegisteredCompressionType`, with a name without a dot taken to
      * have no extension. */
    method Lookup(name: seq<byte>) returns (kind: Compression)
      ensures kind == Kind(entries, name)
    {
      var j: nat := |name|;
      while j > 0 && !(j < |name| && name[j] == Dot)
        invariant j <= |name| && ScanBack(name, j) == ScanBack(name, |name|)
      {
        j := j - 1;
      }
      if j == |name| || name[j] != Dot {
        return NoCompression;
      }
      var ext := UpperCopy(name[j + 1..]);
      var k := 0;
      while k < |entries|
        invariant k <= |entries| && Find(entries[k..], ext) == Find(entries, ext)
      {
        if entries[k].ext == ext {
          assert entries[k..][0] == entries[k];
          return entries[k].kind;
        }
        assert entries[k..][1..] == entries[k + 1..];
        k := k + 1;
      }
      return NoCompression;
    }
  }

  /** The copy of the extension and the loop raising its letters. */
  method UpperCopy(s: seq<byte>) returns (r: seq<byte>)
    ensures r == Upper(s)
  {
    var a := new byte[|s|];
    var k := 0;
    while k < |s|
      invariant k <= |s| && a[..k] == Upper(s)[..k]
    {
      a[k] := UpperChar(s[k]);
      k := k + 1;
    }
    r := a[..];
  }

  // ------------------------------------------------------------------ separators

  /** The separator rewriting of `getFileHandle` from position `i` on: a
    * two-byte character is passed over whole, a `/` or `\` becomes `delim`. */
  function Separators(s: seq<byte>, i: nat, delim: byte): (r: seq<byte>)
    ensures |r| == if i <= |s| then |s| - i else 0
    decreases |s| - i
  {
    if i >= |s| then []
    else if IsTwoByte(s[i]) then
      if i + 1 < |s| then [s[i], s[i + 1]] + Separators(s, i + 2, delim) else [s[i]]
    else [if s[i] == Slash || s[i] == Backslash then delim else s[i]] + Separators(s, i + 1, delim)
  }

  /** A byte string made of whole characters: the walk ends at its end and not
    * inside a two-byte character. */
  predicate Whole(s: seq<byte>)
    decreases |s|
  {
    |s| == 0 || (IsTwoByte(s[0]) && |s| >= 2 && Whole(s[2..])) || (!IsTwoByte(s[0]) && Whole(s[1..]))
  }

  /** The name buffer `getFileHandle` builds: at most `maxLen` bytes of the
    * name, terminated, with the separators rewritten. */
  method CapitalName(name: seq<byte>, maxLen: nat, delim: byte) returns (cap: array<byte>, len: nat)
    requires forall k :: 0 <= k < |name| ==> name[k] != 0
    ensures len == if |name| <= maxLen then |name| else maxLen
    ensures cap.Length == 2 * maxLen + 1
    ensures cap[..len] == Separators(name[..len], 0, delim) && cap[len] == 0
  {
    len := if |name| <= maxLen then |name| else maxLen;
    cap := new byte[2 * maxLen + 1];
    forall k | 0 <= k < len {
      cap[k] := name[k];
    }
    cap[len] := 0;
    ghost var s := cap[..len];
    assert s == name[..len];
    var i := 0;
    while i < len
      invariant i <= len + 1 && cap[len] == 0
      invariant var m := if i <= len then i else len;
        cap[m..len] == s[m..] && Separators(s, 0, delim) == cap[..m] + Separators(s, i, delim)
    {
      i := SeparatorStep(cap, len, i, delim, s);
    }
  }

  /** One pass of the loop over the name: pass over a two-byte character, or
    * rewrite a separator. */
  method SeparatorStep(cap: array<byte>, len: nat, i: nat, delim: byte, ghost s: seq<byte>) returns (i': nat)
    requires i < len < cap.Length && |s| == len && cap[len] == 0
    requires cap[i..len] == s[i..] && Separators(s, 0, delim) == cap[..i] + Separators(s, i, delim)
    modifies cap
    ensures i < i' <= len + 1 && cap[len] == 0
    ensures var m := if i' <= len then i' else len;
      cap[m..len] == s[m..] && Separators(s, 0, delim) == cap[..m] + Separators(s, i', delim)
  {
    assert cap[i] == s[i];
    if IsTwoByte(cap[i]) {
      TwoByteKept(cap[..], len, i, delim, s);
      return i + 2;
    }
    ghost var c := if s[i] == Slash || s[i] == Backslash then delim else s[i];
    if cap[i] == Slash || cap[i] == Backslash {
      cap[i] := delim;
    }
    assert cap[..i + 1] == old(cap[..i]) + [c];
    return i + 1;
  }

  /** Passing over a two-byte character keeps both of its bytes, or its lead byte
    * alone when it ends the name. */
  lemma TwoByteKept(c: seq<byte>, len: nat, i: nat, delim: byte, s: seq<byte>)
    requires i < len < |c| && |s| == len
    requires c[i..len] == s[i..] && Separators(s, 0, delim) == c[..i] + Separators(s, i, delim)
    requires IsTwoByte(s[i])
    ensures var m := if i + 2 <= len then i + 2 else len;
      c[m..len] == s[m..] && Separators(s, 0, delim) == c[..m] + Separators(s, i + 2, delim)
  {
    assert c[i] == s[i];
    if i + 1 < len {
      assert c[i + 1] == s[i + 1];
      assert c[..i + 2] == c[..i] + [s[i], s[i + 1]];
    } else {
      assert c[..len] == c[..i] + [s[i]];
    }
  }

  // ------------------------------------------------------------------ Shift_JIS to EUC-JP

  /** `convertFromSJISToEUC` on one byte pair, in `unsigned char` arithmetic. */
  function EucPair(c1: byte, c2: byte): (r: (byte, byte))
  {
    var a := ToByte(c1 - (if c1 <= 0x9f then 0x71 else 0xb1));
    var b := ToByte(a * 2 + 1);
    if c2 > 0x9e then (SetHigh(ToByte(b + 1)), SetHigh(ToByte(c2 - 0x7e)))
    else if c2 >= 0x80 then (SetHigh(b), SetHigh(ToByte(c2 - 0x20)))
    else (SetHigh(b), SetHigh(ToByte(c2 - 0x1f)))
  }

  /** The transcoding of a name: each byte above `0x80` starts a pair; a lead
    * byte with nothing after it is kept. */
  function ToEuc(s: seq<byte>): (r: seq<byte>)
    ensures |r| == |s|
  {
    if |s| == 0 then []
    else if s[0] > 0x80 && |s| >= 2 then
      var (a, b) := EucPair(s[0], s[1]);
      [a, b] + ToEuc(s[2..])
    else [s[0]] + ToEuc(s[1..])
  }

  /** The loop of `convertFromSJISToEUC` as written, over the whole buffer from
    * position `i`: `None` when it reads past the end of the buffer. */
  function EucAsWritten(buf: seq<byte>, i: nat): (r: Option<seq<byte>>)
    ensures r.Some? ==> |r.value| == |buf|
    decreases |buf| - i
  {
    if i >= |buf| then None
    else if buf[i] == 0 then Some(buf)
    else if buf[i] > 0x80 then
      if i + 1 >= |buf| then None
      else
        var (a, b) := EucPair(buf[i], buf[i + 1]);
        EucAsWritten(buf[i := a][i + 1 := b], i + 2)
    else EucAsWritten(buf, i + 1)
  }

  /** `convertFromSJISToEUC` on the terminated name in `buf`, stopping at a
    * lead byte whose second byte is the terminator. */
  method SjisToEuc(buf: array<byte>, ghost n: nat)
    requires n < buf.Length && buf[n] == 0 && forall k :: 0 <= k < n ==> buf[k] != 0
    modifies buf
    ensures buf[..n] == ToEuc(old(buf[..n])) && buf[n..] == old(buf[n..])
  {
    ghost var s := buf[..n];
    var i := 0;
    while buf[i] != 0
      invariant forall k :: 0 <= k < n ==> s[k] != 0
      invariant i <= n && buf[n..] == old(buf[n..]) && buf[i..n] == s[i..]
      invariant ToEuc(s) == buf[..i] + ToEuc(s[i..])
      decreases n - i
    {
      i := EucStep(buf, n, i, s);
    }
  }

  /** One pass of the loop: transcode the pair at `i`, or pass over one byte. */
  method EucStep(buf: array<byte>, ghost n: nat, i: nat, ghost s: seq<byte>) returns (i': nat)
    requires i < n < buf.Length && |s| == n && buf[n] == 0 && forall k :: 0 <= k < n ==> s[k] != 0
    requires buf[i..n] == s[i..] && ToEuc(s) == buf[..i] + ToEuc(s[i..])
    modifies buf
    ensures i < i' <= n && buf[n..] == old(buf[n..]) && buf[i'..n] == s[i'..]
    ensures ToEuc(s) == buf[..i'] + ToEuc(s[i'..])
  {
    if buf[i] > 0x80 && buf[i + 1] != 0 {
      i' := EucPairStep(buf, n, i, s);
      return;
    }
    ToEucAt(s, i);
    assert buf[i] == s[i];
    assert s[i] <= 0x80 || i + 1 == n by {
      if i + 1 < n {
        assert buf[i + 1] == s[i + 1];
      }
    }
    assert ToEuc(s) == (buf[..i] + [s[i]]) + ToEuc(s[i + 1..]);
    assert buf[..i + 1] == buf[..i] + [s[i]];
    return i + 1;
  }

  /** A lead byte followed by a byte other than the terminator: the pair is transcoded
    * in place. */
  method EucPairStep(buf: array<byte>, ghost n: nat, i: nat, ghost s: seq<byte>) returns (i': nat)
    requires i < n < buf.Length && |s| == n && buf[n] == 0
    requires buf[i..n] == s[i..] && ToEuc(s) == buf[..i] + ToEuc(s[i..])
    requires buf[i] > 0x80 && buf[i + 1] != 0
    modifies buf
    ensures i' == i + 2 <= n && buf[n..] == old(buf[n..]) && buf[i'..n] == s[i'..]
    ensures ToEuc(s) == buf[..i'] + ToEuc(s[i'..])
  {
    ToEucAt(s, i);
    assert buf[i] == s[i] && i + 1 < n;
    assert buf[i + 1] == s[i + 1];
    var (a, b) := EucPair(buf[i], buf[i + 1]);
    ghost var done := buf[..i];
    assert ToEuc(s) == (done + [a, b]) + ToEuc(s[i + 2..]);
    buf[i], buf[i + 1] := a, b;
    assert buf[..i + 2] == done + [a, b];
    return i + 2;
  }

  /** The transcoding of a suffix, one step unfolded. */
  lemma ToEucAt(s: seq<byte>, i: nat)
    requires i < |s|
    ensures ToEuc(s[i..]) == if s[i] > 0x80 && i + 1 < |s|
      then [EucPair(s[i], s[i + 1]).0, EucPair(s[i], s[i + 1]).1] + ToEuc(s[i + 2..])
      else [s[i]] + ToEuc(s[i + 1..])
  {
    assert s[i..][0] == s[i];
    assert s[i..][1..] == s[i + 1..];
    if i + 1 < |s| {
      assert s[i..][1] == s[i + 1] && s[i..][2..] == s[i + 2..];
    }
  }

  // ------------------------------------------------------------------ lookup properties

  /** The lookup answers the kind of the first entry registered for the extension. */
  lemma {:induction false} FindFirst(entries: seq<Entry>, ext: seq<byte>, k: nat)
    requires k < |entries| && entries[k].ext == ext
    requires forall q :: 0 <= q < k ==> entries[q].ext != ext
    ensures Find(entries, ext) == entries[k].kind
  {
    if k > 0 {
      FindFirst(entries[1..], ext, k - 1);
    }
  }

  /** An extension registered nowhere is not compressed. */
  lemma {:induction false} FindNone(entries: seq<Entry>, ext: seq<byte>)
    requires forall q :: 0 <= q < |entries| ==> entries[q].ext != ext
    ensures Find(entries, ext) == NoCompression
  {
    if |entries| > 0 {
      FindNone(entries[1..], ext);
    }
  }

  /** Registering a kind later never overrides an earlier registration of the
    * same extension, and is found when there was none. */
  lemma {:induction false} FindAppend(entries: seq<Entry>, e: Entry, ext: seq<byte>)
    ensures Find(entries + [e], ext) ==
      if exists q :: 0 <= q < |entries| && entries[q].ext == ext then Find(entries, ext)
      else if e.ext == ext then e.kind else NoCompression
  {
    if |entries| == 0 {
      assert entries + [e] == [e];
    } else {
      assert (entries + [e])[1..] == entries[1..] + [e];
      FindAppend(entries[1..], e, ext);
      if entries[0].ext != ext {
        assert (exists q :: 0 <= q < |entries| && entries[q].ext == ext)
          == (exists q :: 0 <= q < |entries[1..]| && entries[1..][q].ext == ext) by {
          if exists q :: 0 <= q < |entries| && entries[q].ext == ext {
            var q :| 0 <= q < |entries| && entries[q].ext == ext;
            assert entries[1..][q - 1].ext == ext;
          }
        }
      }
    }
  }

  /** Raising letters twice is raising them once. */
  lemma UpperIdempotent(s: seq<byte>)
    ensures Upper(Upper(s)) == Upper(s)
  {
  }

  /** Upper-casing a name keeps its dots where they are, so it has the
    * upper-cased extension. */
  lemma ExtensionUpper(name: seq<byte>)
    ensures Extension(Upper(name)) == match Extension(name) case None => None case Some(e) => Some(Upper(e))
  {
    var u := Upper(name);
    assert forall k :: 0 <= k < |name| ==> (u[k] == Dot <==> name[k] == Dot);
    assert Dot in u <==> Dot in name;
    if |name| > 0 {
      ScanUpper(name, |name|);
      var j := ScanBack(name, |name|);
      assert u[j + 1..] == Upper(name[j + 1..]);
    }
  }

  /** The backward scan stops at the same place in the upper-cased name. */
  lemma {:induction false} ScanUpper(name: seq<byte>, i: nat)
    requires i <= |name|
    ensures ScanBack(Upper(name), i) == ScanBack(name, i)
  {
    if i > 0 && !(i < |name| && name[i] == Dot) {
      ScanUpper(name, i - 1);
    }
  }

  /** The lookup ignores the case of the name. */
  lemma KindIgnoresCase(entries: seq<Entry>, name: seq<byte>)
    ensures Kind(entries, Upper(name)) == Kind(entries, name)
  {
    ExtensionUpper(name);
    if Extension(name).Some? {
      UpperIdempotent(Extension(name).value);
    }
  }

  /** With the built-in registrations, a name ending in `.spb`, in any case,
    * is SPB-compressed, and `.jpg`, `.gif` or no extension is not compressed. */
  lemma BuiltinKinds(name: seq<byte>)
    ensures Extension(name).Some? && Upper(Extension(name).value) == Ascii("SPB") ==> Kind(Builtins(), name) == SpbCompression
    ensures Extension(name).Some? && Upper(Extension(name).value) in {Ascii("JPG"), Ascii("GIF")} ==> Kind(Builtins(), name) == NoCompression
    ensures Dot !in name ==> Kind(Builtins(), name) == NoCompression
  {
    var b := Builtins();
    assert b[0].ext != Ascii("JPG") && b[0].ext != Ascii("GIF") && b[1].ext != Ascii("GIF") by {
      assert b[0].ext[0] != Ascii("JPG")[0] && b[0].ext[0] != Ascii("GIF")[0] && b[1].ext[0] != Ascii("GIF")[0];
    }
    FindFirst(b, Ascii("SPB"), 0);
    FindFirst(b, Ascii("JPG"), 1);
    FindFirst(b, Ascii("GIF"), 2);
  }

  /** A name without a dot, as written: the byte after the first is taken as the
    * start of the extension, so `xspb` is read as SPB-compressed; without a dot
    * there is no extension and the name is not compressed. */
  lemma ExtensionlessName()
    ensures Find(Builtins(), Upper(ExtensionAsWritten(Ascii("xspb")))) == SpbCompression
    ensures Kind(Builtins(), Ascii("xspb")) == NoCompression
  {
    var name := Ascii("xspb");
    assert ScanBack(name, 4) == 0;
    assert ExtensionAsWritten(name) == Ascii("spb");
    assert Upper(Ascii("spb")) == Ascii("SPB");
    FindFirst(Builtins(), Ascii("SPB"), 0);
    assert Dot !in name;
  }

  // ------------------------------------------------------------------ separator properties

  /** Only separators change, and they become the delimiter. */
  lemma {:induction false} SeparatorsOnly(s: seq<byte>, i: nat, delim: byte)
    requires i <= |s|
    ensures forall k :: 0 <= k < |s| - i ==>
      Separators(s, i, delim)[k] == s[i + k] || ((s[i + k] == Slash || s[i + k] == Backslash) && Separators(s, i, delim)[k] == delim)
    decreases |s| - i
  {
    if i < |s| {
      if IsTwoByte(s[i]) {
        if i + 1 < |s| {
          SeparatorsOnly(s, i + 2, delim);
        }
      } else {
        SeparatorsOnly(s, i + 1, delim);
      }
    }
  }

  /** The rewriting goes character by character: a name made of whole
    * characters followed by more is rewritten as the two parts. */
  lemma {:induction false} SeparatorsConcat(a: seq<byte>, b: seq<byte>, delim: byte)
    requires Whole(a)
    ensures Separators(a + b, 0, delim) == Separators(a, 0, delim) + Separators(b, 0, delim)
    decreases |a|
  {
    if |a| > 0 {
      var n := if IsTwoByte(a[0]) then 2 else 1;
      assert Whole(a[n..]) && n <= |a|;
      var head := Separators(a, 0, delim)[..n];
      assert Separators(a, 0, delim) == head + Separators(a, n, delim);
      assert Separators(a + b, 0, delim) == head + Separators(a + b, n, delim);
      SeparatorsFrom(a + b, n, delim);
      SeparatorsFrom(a, n, delim);
      assert (a + b)[n..] == a[n..] + b;
      SeparatorsConcat(a[n..], b, delim);
    } else {
      assert a + b == b;
    }
  }

  /** The rewriting from position `n` is the rewriting of the suffix from `n`. */
  lemma {:induction false} SeparatorsFrom(s: seq<byte>, n: nat, delim: byte)
    requires n <= |s|
    ensures Separators(s, n, delim) == Separators(s[n..], 0, delim)
    decreases |s| - n
  {
    if n < |s| {
      var t := s[n..];
      assert t[0] == s[n];
      if IsTwoByte(s[n]) {
        if n + 1 < |s| {
          assert t[1] == s[n + 1] && t[2..] == s[n + 2..];
          SeparatorsFrom(s, n + 2, delim);
          SeparatorsFrom(t, 2, delim);
        }
      } else {
        assert t[1..] == s[n + 1..];
        SeparatorsFrom(s, n + 1, delim);
        SeparatorsFrom(t, 1, delim);
      }
    }
  }

  /** A two-byte character keeps its second byte even when it is the byte of a
    * backslash, as in the Shift_JIS character `0x95 0x5C`; a lone backslash is
    * rewritten. */
  lemma TrailKept(lead: byte, trail: byte, delim: byte)
    requires IsTwoByte(lead)
    ensures Separators([lead, trail], 0, delim) == [lead, trail]
    ensures Separators([Backslash], 0, delim) == [delim]
  {
  }

  /** In a name of one-byte characters every separator becomes the delimiter. */
  lemma {:induction false} SeparatorsSingle(s: seq<byte>, i: nat, delim: byte)
    requires i <= |s| && forall k :: 0 <= k < |s| ==> !IsTwoByte(s[k])
    ensures forall k :: 0 <= k < |s| - i ==>
      Separators(s, i, delim)[k] == if s[i + k] == Slash || s[i + k] == Backslash then delim else s[i + k]
    decreases |s| - i
  {
    if i < |s| {
      SeparatorsSingle(s, i + 1, delim);
    }
  }

  // ------------------------------------------------------------------ EUC-JP properties

  /** A Shift_JIS lead byte: `0x81 .. 0x9f` or `0xe0 .. 0xef`. */
  predicate SjisLead(c: byte) {
    0x81 <= c <= 0x9f || 0xe0 <= c <= 0xef
  }

  /** A Shift_JIS second byte: `0x40 .. 0x7e` or `0x80 .. 0xfc`. */
  predicate SjisTrail(c: byte) {
    0x40 <= c <= 0x7e || 0x80 <= c <= 0xfc
  }

  /** A byte string of ASCII bytes and two-byte Shift_JIS characters. */
  predicate ValidSjis(s: seq<byte>)
    decreases |s|
  {
    |s| == 0
    || (s[0] < 0x80 && ValidSjis(s[1..]))
    || (|s| >= 2 && SjisLead(s[0]) && SjisTrail(s[1]) && ValidSjis(s[2..]))
  }

  /** The JIS X 0208 row and cell of an EUC-JP pair, mapped back to Shift_JIS:
    * the inverse of `EucPair`, defined from the two encodings' layout. */
  function SjisPair(e1: byte, e2: byte): (r: (byte, byte))
    requires 0xA1 <= e1 <= 0xFE && 0xA1 <= e2 <= 0xFE
  {
    var j1, j2 := e1 - 0x80, e2 - 0x80;
    var lead := (j1 + 1) / 2 + (if j1 <= 0x5e then 0x70 else 0xb0);
    var trail := if j1 % 2 == 1 then j2 + (if j2 <= 0x5f then 0x1f else 0x20) else j2 + 0x7e;
    (lead, trail)
  }

  /** A Shift_JIS character becomes an EUC-JP pair, both bytes in `0xA1 .. 0xFE`,
    * from which it is recovered. */
  lemma PairRoundTrip(c1: byte, c2: byte)
    requires SjisLead(c1) && SjisTrail(c2)
    ensures var (e1, e2) := EucPair(c1, c2);
      && 0xA1 <= e1 <= 0xFE && 0xA1 <= e2 <= 0xFE
      && SjisPair(e1, e2) == (c1, c2)
  {
    var row := c1 - (if c1 <= 0x9f then 0x71 else 0xb1);
    assert ToByte(row) == row;
    assert ToByte(row * 2 + 1) == row * 2 + 1;
    if c2 > 0x9e {
      EvenRow(c1, c2, row);
    } else {
      OddRow(c1, c2, row);
    }
  }

  /** A second byte above `0x9e`: an even JIS row. */
  lemma EvenRow(c1: byte, c2: byte, row: int)
    requires SjisLead(c1) && 0x9f <= c2 <= 0xfc && row == c1 - (if c1 <= 0x9f then 0x71 else 0xb1)
    ensures EucPair(c1, c2) == (row * 2 + 2 + 0x80, c2 - 0x7e + 0x80)
    ensures SjisPair(row * 2 + 2 + 0x80, c2 - 0x7e + 0x80) == (c1, c2)
  {
    DivUnique(row, 256, 0, row);
    DivUnique(row * 2 + 1, 256, 0, row * 2 + 1);
    DivUnique(row * 2 + 2, 256, 0, row * 2 + 2);
    DivUnique(c2 - 0x7e, 256, 0, c2 - 0x7e);
    DivUnique(row * 2 + 3, 2, row + 1, 1);
    DivUnique(row * 2 + 2, 2, row + 1, 0);
  }

  /** A second byte up to `0x9e`: an odd JIS row. */
  lemma OddRow(c1: byte, c2: byte, row: int)
    requires SjisLead(c1) && SjisTrail(c2) && c2 <= 0x9e && row == c1 - (if c1 <= 0x9f then 0x71 else 0xb1)
    ensures var cell := if c2 >= 0x80 then c2 - 0x20 else c2 - 0x1f;
      && EucPair(c1, c2) == (row * 2 + 1 + 0x80, cell + 0x80)
      && SjisPair(row * 2 + 1 + 0x80, cell + 0x80) == (c1, c2)
  {
    DivUnique(row, 256, 0, row);
    DivUnique(row * 2 + 1, 256, 0, row * 2 + 1);
    DivUnique(row * 2 + 2, 2, row + 1, 0);
    DivUnique(row * 2 + 1, 2, row, 1);
    if c2 >= 0x80 {
      DivUnique(c2 - 0x20, 256, 0, c2 - 0x20);
    } else {
      DivUnique(c2 - 0x1f, 256, 0, c2 - 0x1f);
    }
  }

  /** EUC-JP back to Shift_JIS: a byte from `0xA1` on starts a pair. */
  function FromEuc(e: seq<byte>): (s: seq<byte>)
    ensures |s| == |e|
  {
    if |e| == 0 then []
    else if |e| >= 2 && 0xA1 <= e[0] <= 0xFE && 0xA1 <= e[1] <= 0xFE then
      var (a, b) := SjisPair(e[0], e[1]);
      [a, b] + FromEuc(e[2..])
    else [e[0]] + FromEuc(e[1..])
  }

  /** A Shift_JIS name is recovered from its EUC-JP transcoding. */
  lemma {:induction false} EucRoundTrip(s: seq<byte>)
    requires ValidSjis(s)
    ensures FromEuc(ToEuc(s)) == s
    decreases |s|
  {
    if |s| > 0 {
      if s[0] < 0x80 {
        EucRoundTrip(s[1..]);
        assert ToEuc(s) == [s[0]] + ToEuc(s[1..]);
        assert ToEuc(s)[1..] == ToEuc(s[1..]);
      } else {
        PairRoundTrip(s[0], s[1]);
        EucRoundTrip(s[2..]);
        var t := ToEuc(s);
        assert t[2..] == ToEuc(s[2..]);
      }
    }
  }

  /** A name ending in a lead byte, as written: the pair conversion takes the
    * terminator as the second byte and overwrites it, and the scan goes on past
    * it: in a two-byte buffer it reads beyond the end, and in a longer one the
    * stale bytes after the terminator become part of the name.  Stopping at
    * the terminator leaves the lone lead byte and the terminator in place. */
  lemma LastLeadByte()
    ensures EucAsWritten([0x82, 0], 0) == None
    ensures EucAsWritten([0x82, 0, 0x41, 0], 0) == Some([0xA3, 0xE1, 0x41, 0])
    ensures ToEuc([0x82]) == [0x82]
  {
    assert EucPair(0x82, 0) == (0xA3, 0xE1);
    assert [0x82, 0][0 := 0xA3][1 := 0xE1] == [0xA3, 0xE1];
    assert [0x82, 0, 0x41, 0][0 := 0xA3][1 := 0xE1] == [0xA3, 0xE1, 0x41, 0];
  }
}
