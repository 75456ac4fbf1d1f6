/**
 * The text scanner of `ONScripterLabel_text.cpp`: the inline commands of a line of
 * script text (`@`, `\`, `` ` ``, `!s`, `!w`, `!d` with a number, `#rrggbb`), the
 * table of positions a line may break before, the distance to the next break, the
 * ruby `(body/ruby)` counts, and the line break with its indent.
 *
 * The line is a C string, modelled as its bytes without the terminator; a read at
 * or past its end gives the terminator 0. The script's clickstr test and the two
 * kinsoku tests belong to the script handler and the font; they are given as the
 * sets of positions at which they hold. The build modelled is the `INSANI` one, the
 * only one in which the `#` branch's jump to `notacommand` has its label.
 */
module TextCommands {
  import opened Bytes

  /** A line of script text, the positions where `checkClickstr` reports the two-byte
    * click-or-page command, and the positions the kinsoku tests hold at. */
  datatype Script = Script(text: seq<byte>, clickPage: set<nat>, startKinsoku: set<nat>, endKinsoku: set<nat>)

  /** A C string: no terminator inside; the click-or-page command is two bytes of it. */
  predicate WellFormed(sc: Script)
  {
    (forall k :: 0 <= k < |sc.text| ==> sc.text[k] != 0)
    && (forall p :: p in sc.clickPage ==> p + 2 <= |sc.text|)
  }

  /** The byte at `k`, the terminator 0 at or past the end. */
  function At(s: seq<byte>, k: int): byte
  {
    if 0 <= k < |s| then s[k] else 0
  }

  const Backquote: byte := 96
  const AtSign: byte := 64
  const Backslash: byte := 92
  const Bang: byte := 33
  const Hash: byte := 35
  const LowerS: byte := 115
  const LowerW: byte := 119
  const LowerD: byte := 100
  const Slash: byte := 47
  const CloseParen: byte := 41
  const Space: byte := 32
  const Tab: byte := 9
  const Newline: byte := 10
  const Zero: byte := 48

  predicate IsDigit(b: byte)
  {
    48 <= b <= 57
  }

  predicate IsHex(b: byte)
  {
    48 <= b <= 57 || 97 <= b <= 102 || 65 <= b <= 70
  }

  predicate IsBlank(b: byte)
  {
    b == Space || b == Tab
  }

  /** The number of digits from `j` on: the digit run ends at a byte that is not one. */
  function DigitRun(s: seq<byte>, j: nat): (r: nat)
    ensures j + r <= |s| || r == 0
    ensures forall k :: j <= k < j + r ==> IsDigit(s[k])
    ensures !IsDigit(At(s, j + r))
    decreases |s| - j
  {
    if j < |s| && IsDigit(s[j]) then 1 + DigitRun(s, j + 1) else 0
  }

  /** The number of spaces and tabs from `j` on. */
  function BlankRun(s: seq<byte>, j: nat): (r: nat)
    ensures j + r <= |s| || r == 0
    ensures forall k :: j <= k < j + r ==> IsBlank(s[k])
    ensures !IsBlank(At(s, j + r))
    decreases |s| - j
  {
    if j < |s| && IsBlank(s[j]) then 1 + BlankRun(s, j + 1) else 0
  }

  /** The number of spaces from `j` on. */
  function SpaceRun(s: seq<byte>, j: nat): (r: nat)
    ensures j + r <= |s| || r == 0
    ensures forall k :: j <= k < j + r ==> s[k] == Space
    ensures At(s, j + r) != Space
    decreases |s| - j
  {
    if j < |s| && s[j] == Space then 1 + SpaceRun(s, j + 1) else 0
  }

  /** The value of a run of decimal digits. */
  function Decimal(ds: seq<byte>): int
  {
    if ds == [] then 0 else Decimal(ds[..|ds| - 1]) * 10 + (ds[|ds| - 1] - Zero)
  }

  /** `#` followed by six hexadecimal digits. */
  predicate HexColour(s: seq<byte>, i: int)
  {
    forall m :: i + 1 <= m <= i + 6 ==> IsHex(At(s, m))
  }

  /** `isTextCommand`: the length of the inline command at `i`, 0 for a character to
    * display. A command never runs past the end of the line. */
  function IsTextCommand(sc: Script, i: nat): (n: nat)
    requires WellFormed(sc)
    ensures n > 0 ==> i + n <= |sc.text|
    ensures n > 0 ==> i in sc.clickPage || At(sc.text, i) in {Backquote, AtSign, Backslash, Bang, Hash}
  {
    if i in sc.clickPage then 2
    else
      var c := At(sc.text, i);
      if c == Backquote || c == AtSign || c == Backslash then 1
      else if c == Bang then
        var c1 := At(sc.text, i + 1);
        if c1 == LowerS then
          if At(sc.text, i + 2) == LowerD then 3 else 2 + DigitRun(sc.text, i + 2)
        else if c1 == LowerW || c1 == LowerD then 2 + DigitRun(sc.text, i + 2)
        else 0
      else if c == Hash then
        if HexColour(sc.text, i) then assert IsHex(At(sc.text, i + 6)); 7 else 0
      else 0
  }

  /** The do-while loops that step over the commands at `i`: the first position from
    * `i` on that does not start a command. */
  function SkipCommands(sc: Script, i: nat): (r: nat)
    requires WellFormed(sc)
    ensures r >= i && IsTextCommand(sc, r) == 0
    ensures i <= |sc.text| ==> r <= |sc.text|
    ensures i > |sc.text| ==> r == i
    decreases |sc.text| - i
  {
    var n := IsTextCommand(sc, i);
    if n == 0 then i else SkipCommands(sc, i + n)
  }

  /** The bytes of the character starting with `b`. */
  function CharLen(b: byte): nat
  {
    if IsTwoByte(b) then 2 else 1
  }

  /** The next position of the break table after the character at `i`. */
  function Next(sc: Script, i: nat): nat
    requires WellFormed(sc)
  {
    SkipCommands(sc, i + CharLen(At(sc.text, i)))
  }

  /** The positions the break table is filled at, from `i`: each is the previous one's
    * character and the commands after it skipped, until the end of the line. Every one
    * but the last starts a displayed character. */
  function Stops(sc: Script, i: nat): (r: seq<nat>)
    requires WellFormed(sc) && i <= |sc.text| + 1
    ensures |r| >= 1 && r[0] == i && r[|r| - 1] >= |sc.text|
    ensures forall k :: 0 <= k < |r| ==> i <= r[k] <= |sc.text| + 1
    ensures forall k :: 0 <= k < |r| - 1 ==> r[k] < |sc.text| && r[k + 1] == Next(sc, r[k])
    decreases |sc.text| + 2 - i
  {
    if i >= |sc.text| then [i] else [i] + Stops(sc, Next(sc, i))
  }

  /** The line-breaking style: Japanese kinsoku rules or breaking at spaces. */
  datatype Style = Kinsoku | SpaceBreak

  /** Whether the line may break before position `q`, the next position after the
    * character at `p`: under kinsoku rules unless the character at `p` may not end a
    * line or the one at `q` may not start one; when breaking at spaces, before a
    * one-byte newline, `/`, or a space that does not follow a space. */
  predicate MayBreak(style: Style, sc: Script, p: nat, q: nat)
  {
    match style
    case Kinsoku => !(p in sc.endKinsoku || q in sc.startKinsoku)
    case SpaceBreak =>
      var c := At(sc.text, q);
      !IsTwoByte(c) && (c == Newline || c == Slash || (c == Space && At(sc.text, p) != Space))
  }

  /** The break table of `processBreaks`: the first position after the leading commands
    * gets `contLine`, and each later position the rule for the character before it. */
  ghost predicate BreakTable(sc: Script, contLine: bool, style: Style, b: seq<bool>)
    requires WellFormed(sc) && |b| == |sc.text| + 2
  {
    var stops := Stops(sc, SkipCommands(sc, 0));
    b[stops[0]] == contLine
    && forall m :: 0 <= m < |stops| - 1 ==> b[stops[m + 1]] == MayBreak(style, sc, stops[m], stops[m + 1])
  }

  /** The first loop of `findNextBreak`: from `i`, whole commands and characters up to
    * the first position at or past `offset`. */
  function Align(sc: Script, i: nat, offset: int): (r: nat)
    requires WellFormed(sc)
    ensures r >= i && r >= offset
    decreases offset - i
  {
    if i >= offset then i
    else
      var n := IsTextCommand(sc, i);
      Align(sc, if n > 0 then i + n else i + CharLen(At(sc.text, i)), offset)
  }

  /** The second loop of `findNextBreak`: the bytes of the displayed characters from `i`
    * up to the first position, past commands, the table lets the line break before. */
  function Distance(sc: Script, b: seq<bool>, i: nat): nat
    requires WellFormed(sc) && |b| == |sc.text| + 2
    decreases |sc.text| + 2 - i
  {
    if i >= |sc.text| + 2 then 0
    else
      var p := SkipCommands(sc, i);
      if b[p] then 0 else CharLen(At(sc.text, p)) + Distance(sc, b, p + CharLen(At(sc.text, p)))
  }

  /** `n` full-width spaces, `0x81 0x40` each. */
  function FullWidthSpaces(n: nat): (r: seq<byte>)
    ensures |r| == 2 * n
    ensures forall k :: 0 <= k < n ==> r[2 * k] == 0x81 && r[2 * k + 1] == 0x40
  {
    if n == 0 then [] else FullWidthSpaces(n - 1) + [0x81, 0x40]
  }

  /** The calls into the font a line break makes: `newLine`, and a half-width advance. */
  datatype FontOp = NewLine | Advance(halfWidths: int)

  function Advances(n: nat): (r: seq<FontOp>)
    ensures |r| == n && forall k :: 0 <= k < n ==> r[k] == Advance(2)
  {
    if n == 0 then [] else Advances(n - 1) + [Advance(2)]
  }

  /** The index of the first `c` in `seg`, `|seg|` when there is none. */
  function Find(seg: seq<byte>, c: byte): (k: nat)
    ensures k <= |seg| && (k < |seg| ==> seg[k] == c)
  {
    if seg == [] then 0 else if seg[0] == c then 0 else 1 + Find(seg[1..], c)
  }

  /** The index of the last `c` in `seg`, `|seg|` when there is none. */
  function FindLast(seg: seq<byte>, c: byte): (k: nat)
    ensures k <= |seg| && (k < |seg| ==> seg[k] == c)
  {
    if seg == [] then 0
    else if seg[|seg| - 1] == c then |seg| - 1
    else
      var k := FindLast(seg[..|seg| - 1], c);
      if k == |seg| - 1 then |seg| else k
  }

  /** The number of bytes of `seg` other than `c`. */
  function CountOther(seg: seq<byte>, c: byte): (n: nat)
    ensures n <= |seg|
  {
    if seg == [] then 0 else CountOther(seg[..|seg| - 1], c) + (if seg[|seg| - 1] == c then 0 else 1)
  }

  /** The end of a ruby group from `i`: the first `)` or the end of the line. */
  function RubyEnd(s: seq<byte>, i: nat): (r: nat)
    ensures (i <= |s| ==> i <= r <= |s|) && (i > |s| ==> r == i)
    ensures forall k :: i <= k < r ==> s[k] != CloseParen
    ensures r < |s| ==> s[r] == CloseParen
    decreases |s| - i
  {
    if i >= |s| || s[i] == CloseParen then i else RubyEnd(s, i + 1)
  }

  /** The stage of a ruby group: none, its body, or its ruby text. */
  datatype Stage = NoRuby | Body | Ruby

  /** What a `!` or `#` command does: restore the default text speed, set the text
    * speed, start a timer (and wait for a click when `input`), set the font colour, or
    * nothing, the byte being a character to display. */
  datatype Effect = DefaultSpeed | SetSpeed(time: int) | Timer(time: int, input: bool)
                  | SetColour(code: seq<byte>) | Plain

  /** The meaning of the `!` or `#` command at `i`. */
  function CommandEffect(sc: Script, i: nat): Effect
    requires WellFormed(sc)
  {
    var s := sc.text;
    if At(s, i) == Bang then
      if At(s, i + 1) == LowerS then
        if At(s, i + 2) == LowerD then DefaultSpeed
        else SetSpeed(Decimal(s[i + 2 .. i + 2 + DigitRun(s, i + 2)]))
      else if At(s, i + 1) == LowerW || At(s, i + 1) == LowerD then
        Timer(Decimal(s[i + 2 .. i + 2 + DigitRun(s, i + 2)]), At(s, i + 1) == LowerD)
      else Plain
    else if At(s, i) == Hash && HexColour(s, i) then assert IsHex(At(s, i + 6)); SetColour(s[i .. i + 7])
    else Plain
  }

  /** What `processText` returns after a command: continue with the next one, or wait
    * for the timer (and a click when `input`); or the byte is displayed. */
  datatype Outcome = Continue | Wait(time: int, input: bool) | NotACommand

  /** The text-display fields of `ONScripterLabel` the scanner reads and changes. */
  class TextState {
    /** `string_buffer_offset`. */
    var offset: nat
    /** `sentence_font.wait_time`: the text speed, `-1` for the default one. */
    var waitTime: int
    /** The colour of the sentence and ruby fonts, kept as its `#rrggbb` text. */
    var colour: seq<byte>
    var rubyColour: seq<byte>
    /** `string_buffer_breaks`. */
    var breaks: array<bool>
    /** `indent_offset`, the text of `current_page`, and the calls into the font. */
    var indent: int
    var page: seq<byte>
    var fontOps: seq<FontOp>
    /** `ruby_struct`: the stage, the byte counts of the body and the ruby text, where
      * the ruby text starts and where the group ends, and the ruby font size (each
      * `-1` for half the sentence font's); `ruby_font`'s size. */
    var stage: Stage
    var bodyCount: int
    var rubyCount: int
    var rubyStart: int
    var rubyEnd: int
    var rubySize: (int, int)
    var rubyFontSize: (int, int)

    constructor()
      ensures offset == 0 && waitTime == -1 && stage == NoRuby && page == [] && fontOps == []
      ensures indent == 0 && rubySize == (-1, -1) && breaks.Length == 0
    {
      offset, waitTime, indent := 0, -1, 0;
      colour, rubyColour, page, fontOps := [], [], [], [];
      breaks := new bool[0];
      stage, bodyCount, rubyCount, rubyStart, rubyEnd := NoRuby, 0, 0, 0, 0;
      rubySize, rubyFontSize := (-1, -1), (0, 0);
    }

    /** The `!` and `#` branches of `processText` at the current offset: the command's
      * effect on the text speed or the fonts' colour, the offset past it, and a wait
      * for a timer command unless text is being skipped. A byte that starts no command
      * changes nothing and is displayed. */
    method Command(sc: Script, skipping: bool) returns (r: Outcome)
      requires WellFormed(sc) && offset < |sc.text| && offset !in sc.clickPage
      requires sc.text[offset] == Bang || sc.text[offset] == Hash
      modifies this
      ensures var e := CommandEffect(sc, old(offset));
        (e == Plain ==> r == NotACommand && offset == old(offset))
        && (e != Plain ==> offset == old(offset) + CommandLength(sc, old(offset)))
        && (e == DefaultSpeed ==> waitTime == -1)
        && (e.SetSpeed? ==> waitTime == e.time)
        && (!e.DefaultSpeed? && !e.SetSpeed? ==> waitTime == old(waitTime))
        && (e.SetColour? ==> colour == e.code && rubyColour == e.code)
        && (!e.SetColour? ==> colour == old(colour) && rubyColour == old(rubyColour))
        && (e.Timer? ==> r == if skipping then Continue else Wait(e.time, e.input))
        && (e.DefaultSpeed? || e.SetSpeed? || e.SetColour? ==> r == Continue)
      ensures unchanged(`page, `fontOps, `breaks, `indent)
      ensures unchanged(`stage, `bodyCount, `rubyCount, `rubyStart, `rubyEnd, `rubySize, `rubyFontSize)
    {
      var e, next := ScanCommand(sc, offset);
      offset := next;
      match e {
        case DefaultSpeed =>
          waitTime := -1;
          r := Continue;
        case SetSpeed(t) =>
          waitTime := t;
          r := Continue;
        case Timer(t, input) =>
          r := if skipping then Continue else Wait(t, input);
        case SetColour(code) =>
          colour, rubyColour := code, code;
          r := Continue;
        case Plain =>
          r := NotACommand;
      }
    }

    /** `processBreaks`: a fresh table with one entry per byte of the line and two more,
      * filled at the positions the line may break before or not. */
    method ProcessBreaks(sc: Script, contLine: bool, style: Style)
      requires WellFormed(sc)
      modifies this
      ensures fresh(breaks) && breaks.Length == |sc.text| + 2
      ensures BreakTable(sc, contLine, style, breaks[..])
      ensures unchanged(`offset, `waitTime, `page, `colour, `rubyColour, `indent, `fontOps)
      ensures unchanged(`stage, `bodyCount, `rubyCount, `rubyStart, `rubyEnd, `rubySize, `rubyFontSize)
    {
      breaks := FillBreaks(sc, contLine, style);
    }

    /** `startRuby` for the group whose body starts at `start`: the body counts the bytes
      * before the first `/`, the ruby text those after it other than `/`, the ruby text
      * starts after the last `/`, and the group ends at the first `)` or the end of the
      * line. The ruby font is half the sentence font unless a ruby size is set. */
    method StartRuby(sc: Script, start: nat, fontSize: (int, int))
      requires WellFormed(sc) && start <= |sc.text|
      modifies this
      ensures rubyEnd == RubyEnd(sc.text, start)
      ensures var seg := sc.text[start .. rubyEnd];
        Scanned(seg, start, bodyCount, rubyCount, if Find(seg, Slash) < |seg| then Some(rubyStart) else None)
        && (Find(seg, Slash) == |seg| ==> rubyStart == old(rubyStart))
      ensures stage == Body
      ensures rubyFontSize.0 == (if rubySize.0 != -1 then rubySize.0 else fontSize.0 / 2)
      ensures rubyFontSize.1 == (if rubySize.1 != -1 then rubySize.1 else fontSize.1 / 2)
      ensures unchanged(`offset, `rubySize, `page, `fontOps)
      ensures unchanged(`waitTime, `colour, `rubyColour, `breaks, `indent)
    {
      var body, ruby, last, end := RubyScan(sc.text, start);
      var from := if last.Some? then last.value else rubyStart;
      var size := (if rubySize.0 != -1 then rubySize.0 else fontSize.0 / 2,
                   if rubySize.1 != -1 then rubySize.1 else fontSize.1 / 2);
      bodyCount, rubyCount, rubyStart, rubyEnd, stage, rubyFontSize := body, ruby, from, end, Body, size;
    }

    /** `doLineBreak`: a new line, the indent as full-width spaces on the page and
      * half-width advances of the font, and the spaces at the offset skipped; the
      * result is the byte after them. */
    method DoLineBreak(sc: Script) returns (ch: byte)
      requires WellFormed(sc) && offset <= |sc.text|
      modifies this
      ensures var n := if old(indent) > 0 then old(indent) else 0;
        page == old(page) + FullWidthSpaces(n) && fontOps == old(fontOps) + [NewLine] + Advances(n)
      ensures offset == old(offset) + SpaceRun(sc.text, old(offset))
      ensures ch == At(sc.text, offset) && ch != Space
      ensures unchanged(`waitTime, `colour, `rubyColour, `breaks, `indent)
      ensures unchanged(`stage, `bodyCount, `rubyCount, `rubyStart, `rubyEnd, `rubySize, `rubyFontSize)
    {
      var p, ops := page, fontOps + [NewLine];
      var i := 0;
      while i < indent
        invariant 0 <= i && (indent > 0 ==> i <= indent) && (indent <= 0 ==> i == 0)
        invariant p == page + FullWidthSpaces(i)
        invariant ops == fontOps + [NewLine] + Advances(i)
      {
        p := p + [0x81, 0x40];
        ops := ops + [Advance(2)];
        i := i + 1;
      }
      page, fontOps := p, ops;
      var o := offset;
      ch := At(sc.text, o);
      while ch == Space
        invariant offset <= o <= offset + SpaceRun(sc.text, offset)
        invariant ch == At(sc.text, o)
        decreases |sc.text| - o
      {
        o := o + 1;
        ch := At(sc.text, o);
      }
      offset := o;
    }
  }

  /** The bytes a command at `i` occupies in `processText`: its `isTextCommand` length,
    * and after `!s` with a number the spaces and tabs that follow. */
  function CommandLength(sc: Script, i: nat): nat
    requires WellFormed(sc)
  {
    var n := IsTextCommand(sc, i);
    if CommandEffect(sc, i).SetSpeed? then n + BlankRun(sc.text, i + n) else n
  }

  /** The parsing half of the `!` and `#` branches of `processText`: the command at `i`
    * and the position after it. */
  method ScanCommand(sc: Script, i: nat) returns (e: Effect, next: nat)
    requires WellFormed(sc) && i < |sc.text| && i !in sc.clickPage
    requires sc.text[i] == Bang || sc.text[i] == Hash
    ensures e == CommandEffect(sc, i)
    ensures next == if e == Plain then i else i + CommandLength(sc, i)
  {
    if sc.text[i] == Bang {
      e, next := ScanBang(sc, i);
    } else {
      e, next := ScanColour(sc, i);
    }
  }

  /** The `!` branch: `!sd`, `!s` with a number and the blanks after it, `!w` or `!d`
    * with a number; any other `!` is displayed. */
  method ScanBang(sc: Script, i: nat) returns (e: Effect, next: nat)
    requires WellFormed(sc) && i < |sc.text| && i !in sc.clickPage && sc.text[i] == Bang
    ensures e == CommandEffect(sc, i)
    ensures next == if e == Plain then i else i + CommandLength(sc, i)
  {
    var c1 := At(sc.text, i + 1);
    if c1 == LowerS && At(sc.text, i + 2) == LowerD {
      e, next := DefaultSpeed, i + 3;
    } else if c1 == LowerS {
      e, next := ScanSpeed(sc, i);
    } else if c1 == LowerW || c1 == LowerD {
      e, next := ScanTimer(sc, i);
    } else {
      e, next := Plain, i;
    }
  }

  /** `!s` with a number: the speed, then the blanks after the number are skipped. */
  method ScanSpeed(sc: Script, i: nat) returns (e: Effect, next: nat)
    requires WellFormed(sc) && i < |sc.text| && i !in sc.clickPage && sc.text[i] == Bang
    requires At(sc.text, i + 1) == LowerS && At(sc.text, i + 2) != LowerD
    ensures e == CommandEffect(sc, i) && e.SetSpeed?
    ensures next == i + CommandLength(sc, i)
  {
    var t, end := ReadNumber(sc.text, i + 2);
    next := SkipBlanks(sc.text, end);
    e := SetSpeed(t);
  }

  /** `!w` or `!d` with a number: the timer, with a click for `!d`. */
  method ScanTimer(sc: Script, i: nat) returns (e: Effect, next: nat)
    requires WellFormed(sc) && i < |sc.text| && i !in sc.clickPage && sc.text[i] == Bang
    requires At(sc.text, i + 1) == LowerW || At(sc.text, i + 1) == LowerD
    ensures e == CommandEffect(sc, i) && e.Timer?
    ensures next == i + CommandLength(sc, i)
  {
    var t, end := ReadNumber(sc.text, i + 2);
    e, next := Timer(t, At(sc.text, i + 1) == LowerD), end;
  }

  /** The `#` branch: six hexadecimal digits after the `#` make a colour; otherwise the
    * `#` is displayed. */
  method ScanColour(sc: Script, i: nat) returns (e: Effect, next: nat)
    requires WellFormed(sc) && i < |sc.text| && i !in sc.clickPage && sc.text[i] == Hash
    ensures e == CommandEffect(sc, i)
    ensures next == if e == Plain then i else i + CommandLength(sc, i)
  {
    var s := sc.text;
    var k := 1;
    while k <= 6 && IsHex(At(s, i + k))
      invariant 1 <= k <= 7
      invariant forall m :: i + 1 <= m < i + k ==> IsHex(At(s, m))
    {
      k := k + 1;
    }
    if k <= 6 {
      e, next := Plain, i;
    } else {
      assert IsHex(At(s, i + 6));
      e, next := SetColour(s[i .. i + 7]), i + 7;
    }
  }

  /** The loops of `processBreaks`: the table entry of the first position past the
    * leading commands is `contLine`, and each later position's entry the rule for the
    * character before it. Entries at no such position are left false; the program
    * leaves them unset. */
  method FillBreaks(sc: Script, contLine: bool, style: Style) returns (b: array<bool>)
    requires WellFormed(sc)
    ensures fresh(b) && b.Length == |sc.text| + 2
    ensures BreakTable(sc, contLine, style, b[..])
  {
    b := new bool[|sc.text| + 2];
    var i := SkipFrom(sc, 0);
    b[i] := contLine;
    ghost var stops := Stops(sc, i);
    ghost var k := 0;
    while i < |sc.text|
      invariant 0 <= k < |stops| && i == stops[k] && stops == Stops(sc, stops[0])
      invariant b.Length == |sc.text| + 2 && Filled(sc, contLine, style, stops, b[..], k)
      decreases |sc.text| - i
    {
      i := FillNext(sc, contLine, style, b, stops, k, i);
      k := k + 1;
    }
  }

  /** One pass of the loop of `processBreaks`: write the entry of the position after
    * the character at `i` and return that position. */
  method FillNext(sc: Script, contLine: bool, style: Style, b: array<bool>, ghost stops: seq<nat>, ghost k: nat, i: nat)
      returns (q: nat)
    requires WellFormed(sc) && b.Length == |sc.text| + 2 && i < |sc.text|
    requires 0 <= k < |stops| && i == stops[k] && stops[0] <= |sc.text| + 1 && stops == Stops(sc, stops[0])
    requires Filled(sc, contLine, style, stops, b[..], k)
    modifies b
    ensures k + 1 < |stops| && q == stops[k + 1] && q > i
    ensures Filled(sc, contLine, style, stops, b[..], k + 1)
  {
    var j := CharLen(sc.text[i]);
    q := SkipFrom(sc, i + j);
    assert q == stops[k + 1];
    ghost var before := b[..];
    var allowed := Allowed(sc, style, i, q);
    b[q] := allowed;
    assert b[..] == before[q := allowed];
    FillStep(sc, contLine, style, stops, before, k, allowed);
  }

  /** The break table `b` after `k` steps of the loop of `processBreaks`: the entries
    * at the first `k + 1` positions are written and none past position `k`. */
  ghost predicate Filled(sc: Script, contLine: bool, style: Style, stops: seq<nat>, b: seq<bool>, k: nat)
  {
    k < |stops| && |b| == |sc.text| + 2
    && (forall m :: 0 <= m <= k ==> stops[m] <= stops[k])
    && (forall m :: 0 <= m <= k ==> stops[m] < |b|)
    && b[stops[0]] == contLine
    && forall m :: 0 <= m < k ==> b[stops[m + 1]] == MayBreak(style, sc, stops[m], stops[m + 1])
  }

  /** Writing the entry of the next position keeps the entries already written. */
  lemma FillStep(sc: Script, contLine: bool, style: Style, stops: seq<nat>, b: seq<bool>, k: nat, v: bool)
    requires Filled(sc, contLine, style, stops, b, k) && k + 1 < |stops|
    requires stops[k] < stops[k + 1] < |b| && v == MayBreak(style, sc, stops[k], stops[k + 1])
    ensures Filled(sc, contLine, style, stops, b[stops[k + 1] := v], k + 1)
  {
    var b' := b[stops[k + 1] := v];
    forall m | 0 <= m < k + 1
      ensures b'[stops[m + 1]] == MayBreak(style, sc, stops[m], stops[m + 1])
    {
      if m < k {
        assert stops[m + 1] <= stops[k];
      }
    }
  }

  /** The test of `processBreaks` for the position `q` after the character at `p`. */
  method Allowed(sc: Script, style: Style, p: nat, q: nat) returns (r: bool)
    ensures r == MayBreak(style, sc, p, q)
  {
    match style {
      case Kinsoku =>
        r := !(p in sc.endKinsoku || q in sc.startKinsoku);
      case SpaceBreak =>
        var c := At(sc.text, q);
        r := !IsTwoByte(c) && (c == Newline || c == Slash || (c == Space && At(sc.text, p) != Space));
    }
  }

  /** `findNextBreak` over the table `breaks`: from the first whole character at or past
    * `start`, the bytes of displayed characters before the first position the table
    * lets the line break before. */
  method FindNextBreak(sc: Script, breaks: array<bool>, start: int) returns (len: nat)
    requires WellFormed(sc) && breaks.Length == |sc.text| + 2
    ensures len == Distance(sc, breaks[..], Align(sc, 0, start))
  {
    var i := AlignFrom(sc, start);
    len := DistanceFrom(sc, breaks, i);
  }

  /** The first loop of `findNextBreak`. */
  method AlignFrom(sc: Script, start: int) returns (i: nat)
    requires WellFormed(sc)
    ensures i == Align(sc, 0, start)
  {
    i := 0;
    while i < start
      invariant Align(sc, i, start) == Align(sc, 0, start)
      decreases start - i
    {
      var cmd := IsTextCommand(sc, i);
      if cmd > 0 {
        i := i + cmd;
      } else if IsTwoByte(At(sc.text, i)) {
        i := i + 2;
      } else {
        i := i + 1;
      }
    }
  }

  /** The second loop of `findNextBreak`. */
  method DistanceFrom(sc: Script, breaks: array<bool>, from: nat) returns (len: nat)
    requires WellFormed(sc) && breaks.Length == |sc.text| + 2
    ensures len == Distance(sc, breaks[..], from)
  {
    ghost var b := breaks[..];
    var i := from;
    len := 0;
    while i < |sc.text| + 2
      invariant len + Distance(sc, b, i) == Distance(sc, b, from)
      decreases |sc.text| + 2 - i
    {
      ghost var i0 := i;
      i := SkipFrom(sc, i);
      assert breaks[i] == b[i];
      if breaks[i] {
        return;
      }
      var n := CharLen(At(sc.text, i));
      assert Distance(sc, b, i0) == n + Distance(sc, b, i + n);
      i, len := i + n, len + n;
    }
  }

  /** The counts of a ruby group `seg` starting at `start`: `body` bytes before the first
    * `/`, `ruby` bytes after it other than `/`, and the position after the last `/`. */
  predicate Scanned(seg: seq<byte>, start: int, body: int, ruby: int, last: Option<int>)
  {
    var k := Find(seg, Slash);
    body == k && ruby == (if k < |seg| then CountOther(seg[k + 1..], Slash) else 0)
    && last == (if k < |seg| then Some(start + FindLast(seg, Slash) + 1) else None)
  }

  /** The loop of `startRuby` from `start`: the counts of the group and its end, the
    * first `)` or the end of the line. */
  method RubyScan(s: seq<byte>, start: nat) returns (body: nat, ruby: nat, last: Option<int>, end: nat)
    requires start <= |s| && forall k :: 0 <= k < |s| ==> s[k] != 0
    ensures end == RubyEnd(s, start)
    ensures Scanned(s[start .. end], start, body, ruby, last)
  {
    body, ruby, last := 0, 0, None;
    end := start;
    while At(s, end) != CloseParen && At(s, end) != 0
      invariant start <= end <= |s| && RubyEnd(s, end) == RubyEnd(s, start)
      invariant Scanned(s[start .. end], start, body, ruby, last)
      decreases |s| - end
    {
      assert RubyEnd(s, end) == RubyEnd(s, end + 1);
      body, ruby, last := RubyStep(s, start, end, body, ruby, last);
      end := end + 1;
    }
  }

  /** One pass of the loop of `startRuby`: the byte at `end` joins the scanned bytes. */
  method RubyStep(s: seq<byte>, start: nat, end: nat, body: nat, ruby: nat, last: Option<int>)
    returns (body': nat, ruby': nat, last': Option<int>)
    requires start <= end < |s| && Scanned(s[start .. end], start, body, ruby, last)
    ensures Scanned(s[start .. end + 1], start, body', ruby', last')
  {
    ghost var seg := s[start .. end + 1];
    assert seg[..|seg| - 1] == s[start .. end];
    body', ruby', last' := RubyByte(seg, s[end], end + 1, start, body, ruby, last);
  }

  /** The byte `c` ending `seg`: a `/` starts the ruby text after it, any other byte
    * counts towards the ruby text once a `/` was seen and towards the body before. */
  method RubyByte(ghost seg: seq<byte>, c: byte, after: int, start: int, body: nat, ruby: nat, last: Option<int>)
    returns (body': nat, ruby': nat, last': Option<int>)
    requires |seg| > 0 && c == seg[|seg| - 1] && after == start + |seg|
    requires Scanned(seg[..|seg| - 1], start, body, ruby, last)
    ensures Scanned(seg, start, body', ruby', last')
  {
    if c == Slash {
      ScanSlash(seg, start, body, ruby, last);
      body', ruby', last' := body, ruby, Some(after);
    } else if last.Some? {
      ScanRuby(seg, start, body, ruby, last);
      body', ruby', last' := body, ruby + 1, last;
    } else {
      ScanBody(seg, start, body, ruby, last);
      body', ruby', last' := body + 1, ruby, last;
    }
  }

  /** The do-while loops of `processBreaks` and `findNextBreak` that step over commands. */
  method SkipFrom(sc: Script, i: nat) returns (r: nat)
    requires WellFormed(sc)
    ensures r == SkipCommands(sc, i)
  {
    r := i;
    var cmd := IsTextCommand(sc, r);
    r := r + cmd;
    while cmd > 0
      invariant SkipCommands(sc, r) == SkipCommands(sc, i)
      invariant cmd == 0 ==> IsTextCommand(sc, r) == 0
      invariant cmd > 0 ==> r <= |sc.text|
      decreases |sc.text| - r, cmd
    {
      cmd := IsTextCommand(sc, r);
      r := r + cmd;
    }
  }

  /** The digit loops of `processText`: the number from `j` and the position after it. */
  method ReadNumber(s: seq<byte>, j: nat) returns (t: int, e: nat)
    requires j <= |s|
    ensures e == j + DigitRun(s, j)
    ensures t == Decimal(s[j .. e])
  {
    t, e := 0, j;
    while IsDigit(At(s, e))
      invariant j <= e <= j + DigitRun(s, j) && e <= |s|
      invariant t == Decimal(s[j .. e])
      decreases |s| - e
    {
      assert s[j .. e + 1][..e - j] == s[j .. e];
      t := t * 10 + (s[e] - Zero);
      e := e + 1;
    }
  }

  /** The loop of `processText` that skips spaces and tabs after `!s` and its number. */
  method SkipBlanks(s: seq<byte>, j: nat) returns (e: nat)
    ensures e == j + BlankRun(s, j)
  {
    e := j;
    while IsBlank(At(s, e))
      invariant j <= e <= j + BlankRun(s, j)
      decreases |s| - e
    {
      e := e + 1;
    }
  }

  // ================================================================ properties

  /** The command `isTextCommand` measures is the one `processText` acts on: a `!` or
    * `#` is displayed exactly when `isTextCommand` finds no command at it. */
  lemma CommandAgrees(sc: Script, i: nat)
    requires WellFormed(sc) && i < |sc.text| && i !in sc.clickPage
    requires sc.text[i] == Bang || sc.text[i] == Hash
    ensures CommandEffect(sc, i) == Plain <==> IsTextCommand(sc, i) == 0
  {
  }

  /** The positions the break table is filled at increase strictly, so each entry is
    * written once. */
  lemma {:induction false} StopsIncrease(sc: Script, i: nat)
    requires WellFormed(sc) && i <= |sc.text| + 1
    ensures forall a, b :: 0 <= a < b < |Stops(sc, i)| ==> Stops(sc, i)[a] < Stops(sc, i)[b]
    decreases |sc.text| + 2 - i
  {
    if i < |sc.text| {
      StopsIncrease(sc, Next(sc, i));
    }
  }

  /** No `c` comes before the first one. */
  lemma {:induction false} FindFirst(seg: seq<byte>, c: byte)
    ensures forall j :: 0 <= j < Find(seg, c) ==> seg[j] != c
  {
    if seg != [] && seg[0] != c {
      FindFirst(seg[1..], c);
      forall j | 1 <= j < Find(seg, c)
        ensures seg[j] != c
      {
        assert seg[j] == seg[1..][j - 1];
      }
    }
  }

  /** No `c` comes after the last one, and none at all when there is no last one. */
  lemma {:induction false} FindLastFinal(seg: seq<byte>, c: byte)
    ensures var k := FindLast(seg, c);
      forall j :: 0 <= j < |seg| && (k < |seg| ==> k < j) ==> seg[j] != c
    decreases |seg|
  {
    if seg != [] && seg[|seg| - 1] != c {
      var pre := seg[..|seg| - 1];
      FindLastFinal(pre, c);
      forall j | 0 <= j < |pre|
        ensures seg[j] == pre[j]
      {
      }
    }
  }

  /** One more byte of a ruby group: the first `/` stays or is this byte, and the last
    * `/` moves to this byte if it is one. */
  lemma FindStep(seg: seq<byte>, c: byte)
    requires |seg| > 0
    ensures var pre := seg[..|seg| - 1]; var k := Find(pre, c);
      Find(seg, c) == (if k < |pre| then k else if seg[|seg| - 1] == c then |pre| else |seg|)
      && FindLast(seg, c) == (if seg[|seg| - 1] == c then |pre| else if FindLast(pre, c) < |pre| then FindLast(pre, c) else |seg|)
  {
    var pre := seg[..|seg| - 1];
    var k := Find(pre, c);
    var f := Find(seg, c);
    FindFirst(seg, c);
    FindFirst(pre, c);
    if f < |pre| {
      assert pre[f] == c;
    }
    if k < |pre| {
      assert seg[k] == c;
    }
  }

  /** A `/` in a ruby group: the ruby text now starts after it, and the counts stay. */
  lemma ScanSlash(seg: seq<byte>, start: int, body: int, ruby: int, last: Option<int>)
    requires |seg| > 0 && seg[|seg| - 1] == Slash && Scanned(seg[..|seg| - 1], start, body, ruby, last)
    ensures Scanned(seg, start, body, ruby, Some(start + |seg|))
  {
    var pre := seg[..|seg| - 1];
    FindStep(seg, Slash);
    var k := Find(pre, Slash);
    assert FindLast(seg, Slash) == |pre|;
    if k < |pre| {
      assert Find(seg, Slash) == k;
      var t := seg[k + 1..];
      assert t[..|t| - 1] == pre[k + 1..];
      assert CountOther(t, Slash) == CountOther(pre[k + 1..], Slash);
    } else {
      assert Find(seg, Slash) == |pre|;
      assert seg[k + 1..] == [];
    }
  }

  /** Any other byte after the first `/` of a ruby group counts towards the ruby text. */
  lemma ScanRuby(seg: seq<byte>, start: int, body: int, ruby: int, last: Option<int>)
    requires |seg| > 0 && seg[|seg| - 1] != Slash && last.Some?
    requires Scanned(seg[..|seg| - 1], start, body, ruby, last)
    ensures Scanned(seg, start, body, ruby + 1, last)
  {
    var pre := seg[..|seg| - 1];
    FindStep(seg, Slash);
    var k := Find(pre, Slash);
    FindLastFinal(pre, Slash);
    assert k < |pre| && FindLast(pre, Slash) < |pre|;
    var t := seg[k + 1..];
    assert t[..|t| - 1] == pre[k + 1..];
  }

  /** Any other byte before the first `/` of a ruby group counts towards the body. */
  lemma ScanBody(seg: seq<byte>, start: int, body: int, ruby: int, last: Option<int>)
    requires |seg| > 0 && seg[|seg| - 1] != Slash && last.None?
    requires Scanned(seg[..|seg| - 1], start, body, ruby, last)
    ensures Scanned(seg, start, body + 1, ruby, last)
  {
    FindStep(seg, Slash);
  }

  /** `findNextBreak` gives 0 exactly when the table lets the line break at the first
    * position past the commands. */
  lemma DistanceZero(sc: Script, b: seq<bool>, i: nat)
    requires WellFormed(sc) && |b| == |sc.text| + 2 && i < |sc.text| + 2
    ensures Distance(sc, b, i) == 0 <==> b[SkipCommands(sc, i)]
  {
  }

  /** The distance to the next break is at most the bytes left in the table. */
  lemma {:induction false} DistanceBound(sc: Script, b: seq<bool>, i: nat)
    requires WellFormed(sc) && |b| == |sc.text| + 2
    ensures Distance(sc, b, i) <= |sc.text| + 3 - i || Distance(sc, b, i) == 0
    decreases |sc.text| + 2 - i
  {
    if i < |sc.text| + 2 {
      var p := SkipCommands(sc, i);
      if !b[p] {
        DistanceBound(sc, b, p + CharLen(At(sc.text, p)));
      }
    }
  }

  /** The body and the ruby text count every byte of the group other than `/`. */
  lemma {:induction false} RubyCounts(seg: seq<byte>)
    ensures var k := Find(seg, Slash);
      CountOther(seg, Slash) == k + (if k < |seg| then CountOther(seg[k + 1..], Slash) else 0)
  {
    var k := Find(seg, Slash);
    assert seg == seg[..k] + seg[k..];
    CountOtherSplit(seg[..k], seg[k..], Slash);
    assert forall j :: 0 <= j < k ==> seg[..k][j] != Slash by {
      FindFirst(seg, Slash);
    }
    CountOtherNone(seg[..k], Slash);
    if k < |seg| {
      assert seg[k..] == [Slash] + seg[k + 1..];
      CountOtherSplit([Slash], seg[k + 1..], Slash);
    }
  }

  lemma {:induction false} CountOtherSplit(a: seq<byte>, b: seq<byte>, c: byte)
    ensures CountOther(a + b, c) == CountOther(a, c) + CountOther(b, c)
    decreases |b|
  {
    if b == [] {
      assert a + b == a;
    } else {
      assert (a + b)[..|a + b| - 1] == a + b[..|b| - 1];
      CountOtherSplit(a, b[..|b| - 1], c);
    }
  }

  lemma {:induction false} CountOtherNone(a: seq<byte>, c: byte)
    requires forall j :: 0 <= j < |a| ==> a[j] != c
    ensures CountOther(a, c) == |a|
    decreases |a|
  {
    if a != [] {
      CountOtherNone(a[..|a| - 1], c);
    }
  }
}
