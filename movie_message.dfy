/**
 * The `s|` message of the experimental old-movie layer: six comma-separated
 * decimal fields (blur, noise, glow, scratch and dust levels, and the dust
 * sprite), each optionally preceded by `-`. The scan keeps six values, a field
 * counter and a pending sign; a comma closes a field, applying its sign, and
 * opens the next one; any other character is taken as a decimal digit.
 * Strings model C strings without their terminator.
 */
module MovieMessage {

  /** The state of the scan: the six values, the index of the open field, and
    * whether the open field is negative. */
  datatype Fields = Fields(vals: seq<int>, cnt: nat, neg: bool)

  predicate WellFormed(f: Fields)
  {
    |f.vals| == 6 && f.cnt <= 6
  }

  /** `*message - '0'`: a digit's value; other characters give other values. */
  function Digit(c: char): int
  {
    c as int - '0' as int
  }

  predicate IsDigits(s: string)
  {
    forall i :: 0 <= i < |s| ==> '0' <= s[i] <= '9'
  }

  /** The scan from position `i`. A comma past the sixth field stops it; the field
    * counter reaches 6 at the sixth comma, and from then on nothing is stored: the
    * program as written stores into a seventh slot its six-slot array does not have. */
  function Scan(body: string, i: nat, f: Fields): (r: Fields)
    requires WellFormed(f)
    ensures WellFormed(r) && r.cnt >= f.cnt
    decreases |body| - i
  {
    if i >= |body| then f
    else if body[i] == ',' then
      if f.cnt > 5 then f
      else
        var closed := if f.neg then f.vals[f.cnt := -f.vals[f.cnt]] else f.vals;
        var reopened := if f.cnt + 1 < 6 then closed[f.cnt + 1 := 0] else closed;
        var minus := i + 1 < |body| && body[i + 1] == '-';
        Scan(body, if minus then i + 2 else i + 1, Fields(reopened, f.cnt + 1, minus))
    else if f.cnt < 6 then
      Scan(body, i + 1, Fields(f.vals[f.cnt := f.vals[f.cnt] * 10 + Digit(body[i])], f.cnt, f.neg))
    else
      Scan(body, i + 1, f)
  }

  const Zeros: seq<int> := [0, 0, 0, 0, 0, 0]

  /** Where the scan of the first field starts, and whether it is negative: a leading
    * `-` is skipped and makes the field negative. */
  function Start(body: string): (nat, bool)
  {
    if |body| > 0 && body[0] == '-' then (1, true) else (0, false)
  }

  /** The start as the program writes it: it tests the character after the first one,
    * and skips the first character whatever it is. */
  function StartAsWritten(body: string): (nat, bool)
  {
    if |body| > 1 && body[1] == '-' then (1, true) else (0, false)
  }

  /** The fields of the text after `s|`. */
  function Parse(body: string): (r: Fields)
    ensures WellFormed(r)
  {
    Scan(body, Start(body).0, Fields(Zeros, 0, Start(body).1))
  }

  function ParseAsWritten(body: string): (r: Fields)
    ensures WellFormed(r)
  {
    Scan(body, StartAsWritten(body).0, Fields(Zeros, 0, StartAsWritten(body).1))
  }

  predicate IsSettings(msg: string)
  {
    |msg| >= 2 && msg[..2] == "s|"
  }

  /** A settings message with exactly six fields. */
  predicate Accepted(msg: string)
  {
    IsSettings(msg) && Parse(msg[2..]).cnt == 5
  }

  /** The six values of an accepted message, the sign of the last field applied. */
  function Values(msg: string): (v: seq<int>)
    requires Accepted(msg)
    ensures |v| == 6
  {
    var f := Parse(msg[2..]);
    if f.neg then f.vals[5 := -f.vals[5]] else f.vals
  }

  /** The index the loop body of the program stores into for character `c`: a comma
    * stores 0 into the next slot, anything else into the open one. */
  function SlotAsWritten(f: Fields, c: char): int
  {
    if c == ',' then f.cnt + 1 else f.cnt
  }

  function Commas(s: string): nat
  {
    if s == [] then 0 else (if s[0] == ',' then 1 else 0) + Commas(s[1..])
  }

  function Min(a: int, b: int): int
  {
    if a <= b then a else b
  }

  /** `v` followed by the decimal digits of `s`. */
  function Accum(v: int, s: string): int
    decreases |s|
  {
    if s == [] then v else Accum(v * 10 + Digit(s[0]), s[1..])
  }

  /** The value of a decimal digit string. */
  function Number(s: string): int
  {
    Accum(0, s)
  }

  /** Fields joined by commas. */
  function Join(fs: seq<string>): string
    requires |fs| > 0
  {
    if |fs| == 1 then fs[0] else fs[0] + "," + Join(fs[1..])
  }

  function Numbers(fs: seq<string>): (r: seq<int>)
    ensures |r| == |fs|
  {
    seq(|fs|, i requires 0 <= i < |fs| => Number(fs[i]))
  }

  // ================================================================ properties

  /** The scan stops at the sixth comma: the field counter is the number of commas
    * seen, but at most 6. */
  lemma {:induction false} ScanCount(body: string, i: nat, f: Fields)
    requires WellFormed(f) && i <= |body|
    ensures Scan(body, i, f).cnt == Min(f.cnt + Commas(body[i..]), 6)
    decreases |body| - i
  {
    if i < |body| {
      assert body[i..][1..] == body[i + 1..];
      if body[i] == ',' {
        if f.cnt <= 5 {
          var closed := if f.neg then f.vals[f.cnt := -f.vals[f.cnt]] else f.vals;
          var reopened := if f.cnt + 1 < 6 then closed[f.cnt + 1 := 0] else closed;
          var minus := i + 1 < |body| && body[i + 1] == '-';
          var g := Fields(reopened, f.cnt + 1, minus);
          if minus {
            assert body[i + 1..][1..] == body[i + 2..];
            ScanCount(body, i + 2, g);
          } else {
            ScanCount(body, i + 1, g);
          }
        }
      } else if f.cnt < 6 {
        ScanCount(body, i + 1, Fields(f.vals[f.cnt := f.vals[f.cnt] * 10 + Digit(body[i])], f.cnt, f.neg));
      } else {
        ScanCount(body, i + 1, f);
      }
    }
  }

  /** A message is accepted exactly when the text after `s|` has five commas: six
    * fields. One with seven or more fields ends with the counter at 6 and is refused. */
  lemma FieldCount(body: string)
    ensures Parse(body).cnt == Min(Commas(body), 6)
    ensures IsSettings("s|" + body) && (Accepted("s|" + body) <==> Commas(body) == 5)
  {
    ScanCount(body, Start(body).0, Fields(Zeros, 0, Start(body).1));
    if Start(body).0 == 1 {
      assert body[1..] == body[0..][1..];
    }
    assert ("s|" + body)[2..] == body;
  }

  /** The scan depends only on the text from its position on. */
  lemma {:induction false} ScanSuffix(body: string, i: nat, j: nat, f: Fields)
    requires WellFormed(f) && j <= i <= |body|
    ensures Scan(body, i, f) == Scan(body[j..], i - j, f)
    decreases |body| - i
  {
    var t := body[j..];
    if i < |body| {
      assert t[i - j] == body[i];
      if i + 1 < |body| {
        assert t[i + 1 - j] == body[i + 1];
      }
      if body[i] == ',' {
        if f.cnt <= 5 {
          var closed := if f.neg then f.vals[f.cnt := -f.vals[f.cnt]] else f.vals;
          var reopened := if f.cnt + 1 < 6 then closed[f.cnt + 1 := 0] else closed;
          var minus := i + 1 < |body| && body[i + 1] == '-';
          ScanSuffix(body, if minus then i + 2 else i + 1, j, Fields(reopened, f.cnt + 1, minus));
        }
      } else if f.cnt < 6 {
        ScanSuffix(body, i + 1, j, Fields(f.vals[f.cnt := f.vals[f.cnt] * 10 + Digit(body[i])], f.cnt, f.neg));
      } else {
        ScanSuffix(body, i + 1, j, f);
      }
    }
  }

  /** Scanning the digits of an open field accumulates them into its value. */
  lemma {:induction false} ScanDigits(body: string, i: nat, j: nat, f: Fields)
    requires WellFormed(f) && f.cnt < 6 && i <= j <= |body|
    requires forall k :: i <= k < j ==> '0' <= body[k] <= '9'
    ensures Scan(body, i, f)
         == Scan(body, j, Fields(f.vals[f.cnt := Accum(f.vals[f.cnt], body[i..j])], f.cnt, f.neg))
    decreases j - i
  {
    if i == j {
      assert f.vals[f.cnt := Accum(f.vals[f.cnt], body[i..j])] == f.vals;
    } else {
      var g := Fields(f.vals[f.cnt := f.vals[f.cnt] * 10 + Digit(body[i])], f.cnt, f.neg);
      ScanDigits(body, i + 1, j, g);
      assert body[i..j][0] == body[i] && body[i..j][1..] == body[i + 1..j];
      assert Accum(f.vals[f.cnt], body[i..j]) == Accum(g.vals[f.cnt], body[i + 1..j]);
      assert g.vals[f.cnt := Accum(g.vals[f.cnt], body[i + 1..j])]
          == f.vals[f.cnt := Accum(f.vals[f.cnt], body[i..j])];
    }
  }

  /** A comma closes a positive field and opens the next one at 0, skipping nothing
    * when no `-` follows. */
  lemma CommaStep(body: string, p: nat, f: Fields)
    requires WellFormed(f) && f.cnt < 5 && !f.neg
    requires p < |body| && body[p] == ',' && (p + 1 < |body| ==> body[p + 1] != '-')
    ensures Scan(body, p, f) == Scan(body, p + 1, Fields(f.vals[f.cnt + 1 := 0], f.cnt + 1, false))
  {
  }

  /** The text of joined fields: the first field, and then a comma and the rest. A
    * field list of digit strings never starts with `-`. */
  lemma JoinShape(fs: seq<string>)
    requires |fs| > 0 && forall n :: 0 <= n < |fs| ==> IsDigits(fs[n])
    ensures |fs[0]| <= |Join(fs)| && Join(fs)[..|fs[0]|] == fs[0]
    ensures |Join(fs)| > 0 ==> Join(fs)[0] != '-'
    ensures |fs| > 1 ==> (|fs[0]| < |Join(fs)| && Join(fs)[|fs[0]|] == ','
      && Join(fs)[|fs[0]| + 1..] == Join(fs[1..]))
  {
    var a := fs[0];
    if |fs| > 1 {
      var rest := Join(fs[1..]);
      assert Join(fs) == a + ("," + rest);
      assert Join(fs)[|a| + 1..] == rest;
    }
    if |Join(fs)| > 0 {
      if |a| > 0 {
        assert Join(fs)[0] == a[0];
      } else {
        assert Join(fs)[0] == ',';
      }
    }
  }

  /** The slot a field fills, inside the six values. */
  lemma Splice(vals: seq<int>, k: nat, fs: seq<string>)
    requires |vals| == 6 && |fs| > 1 && k + |fs| <= 6
    ensures var next := vals[k := Number(fs[0])][k + 1 := 0];
      next[..k + 1] + Numbers(fs[1..]) + next[k + |fs|..] == vals[..k] + Numbers(fs) + vals[k + |fs|..]
  {
    assert Numbers(fs) == [Number(fs[0])] + Numbers(fs[1..]);
  }

  /** Digit fields joined by commas, scanned from an open, positive field `k` that
    * holds 0, fill slots `k ..` with their numbers and leave the last one open. */
  lemma {:induction false} ScanJoin(fs: seq<string>, vals: seq<int>, k: nat)
    requires |fs| > 0 && |vals| == 6 && k + |fs| <= 6 && vals[k] == 0
    requires forall n :: 0 <= n < |fs| ==> IsDigits(fs[n])
    ensures Scan(Join(fs), 0, Fields(vals, k, false))
         == Fields(vals[..k] + Numbers(fs) + vals[k + |fs|..], k + |fs| - 1, false)
    decreases |fs|, 1
  {
    var body := Join(fs);
    var a := fs[0];
    JoinShape(fs);
    assert forall q :: 0 <= q < |a| ==> body[q] == a[q];
    var filled := vals[k := Number(a)];
    assert Scan(body, 0, Fields(vals, k, false)) == Scan(body, |a|, Fields(filled, k, false)) by {
      ScanDigits(body, 0, |a|, Fields(vals, k, false));
      assert body[0..|a|] == a;
    }
    if |fs| == 1 {
      assert body == a;
      assert filled == vals[..k] + Numbers(fs) + vals[k + 1..];
    } else {
      ScanJoinTail(fs, filled, k);
      Splice(vals, k, fs);
    }
  }

  /** The comma after the first field, and the fields after it. */
  lemma {:induction false} ScanJoinTail(fs: seq<string>, filled: seq<int>, k: nat)
    requires |fs| > 1 && |filled| == 6 && k + |fs| <= 6
    requires forall n :: 0 <= n < |fs| ==> IsDigits(fs[n])
    ensures var next := filled[k + 1 := 0];
      Scan(Join(fs), |fs[0]|, Fields(filled, k, false))
      == Fields(next[..k + 1] + Numbers(fs[1..]) + next[k + |fs|..], k + |fs| - 1, false)
    decreases |fs|, 0
  {
    var body := Join(fs);
    var a := fs[0];
    var rest := Join(fs[1..]);
    var next := filled[k + 1 := 0];
    JoinShape(fs);
    JoinShape(fs[1..]);
    if |a| + 1 < |body| {
      assert body[|a| + 1] == rest[0];
    }
    calc {
      Scan(body, |a|, Fields(filled, k, false));
      { CommaStep(body, |a|, Fields(filled, k, false)); }
      Scan(body, |a| + 1, Fields(next, k + 1, false));
      { ScanSuffix(body, |a| + 1, |a| + 1, Fields(next, k + 1, false)); }
      Scan(rest, 0, Fields(next, k + 1, false));
      { ScanJoin(fs[1..], next, k + 1); }
      Fields(next[..k + 1] + Numbers(fs[1..]) + next[k + 1 + |fs[1..]|..], k + |fs| - 1, false);
    }
  }

  /** Once the scan has moved past a field, that field keeps its value. */
  lemma {:induction false} ScanFrozen(body: string, i: nat, f: Fields, s: nat)
    requires WellFormed(f) && s < f.cnt
    ensures Scan(body, i, f).vals[s] == f.vals[s]
    decreases |body| - i
  {
    if i < |body| {
      if body[i] == ',' {
        if f.cnt <= 5 {
          var closed := if f.neg then f.vals[f.cnt := -f.vals[f.cnt]] else f.vals;
          var reopened := if f.cnt + 1 < 6 then closed[f.cnt + 1 := 0] else closed;
          var minus := i + 1 < |body| && body[i + 1] == '-';
          ScanFrozen(body, if minus then i + 2 else i + 1, Fields(reopened, f.cnt + 1, minus), s);
        }
      } else if f.cnt < 6 {
        ScanFrozen(body, i + 1, Fields(f.vals[f.cnt := f.vals[f.cnt] * 10 + Digit(body[i])], f.cnt, f.neg), s);
      } else {
        ScanFrozen(body, i + 1, f, s);
      }
    }
  }

  /** A message of six decimal numbers separated by commas is accepted, with those
    * numbers as its values. */
  lemma SixNumbers(fs: seq<string>)
    requires |fs| == 6 && forall n :: 0 <= n < 6 ==> IsDigits(fs[n])
    ensures Accepted("s|" + Join(fs)) && Values("s|" + Join(fs)) == Numbers(fs)
  {
    var body := Join(fs);
    assert ("s|" + body)[2..] == body;
    assert Start(body) == (0, false) by {
      if |body| > 0 {
        if |fs[0]| > 0 {
          assert body[..|fs[0]|] == fs[0] by {
            assert body == fs[0] + ("," + Join(fs[1..]));
          }
          assert body[0] == fs[0][0];
        } else {
          assert body == fs[0] + "," + Join(fs[1..]);
          assert body[0] == ',';
        }
      }
    }
    ScanJoin(fs, Zeros, 0);
    assert Zeros[..0] + Numbers(fs) + Zeros[6..] == Numbers(fs);
  }

  /** The comma that opens a seventh field makes the program store into slot 6 of its
    * six-slot array. */
  lemma SeventhFieldOverflows()
    ensures var f := Parse("0,0,0,0,0,0");
      f.cnt == 5 && SlotAsWritten(f, ',') == 6
  {
    FieldCount("0,0,0,0,0,0");
  }

  /** With the sign tested one character late, a leading `-` is taken as a digit: a
    * first field `-5` reads as `-25`, where `-5` is meant. */
  lemma FirstSignAsWritten(t: string)
    requires |t| > 0 && t[0] == ','
    ensures ParseAsWritten("-5" + t).vals[0] == -25
    ensures Parse("-5" + t).vals[0] == -5
  {
    var body := "-5" + t;
    assert body[0] == '-' && body[1] == '5' && body[2] == ',';
    var minus := 3 < |body| && body[3] == '-';
    var j := if minus then 4 else 3;
    var w2 := Fields(Zeros[0 := -25], 0, false);
    var w3 := Fields(Zeros[0 := -25][1 := 0], 1, minus);
    assert Digit('5') == 5 && Zeros[0 := -3][0 := -3 * 10 + 5] == Zeros[0 := -25];
    assert Scan(body, 1, Fields(Zeros[0 := -3], 0, false)) == Scan(body, 2, w2);
    assert ParseAsWritten(body) == Scan(body, 1, Fields(Zeros[0 := -3], 0, false));
    assert Scan(body, 2, w2) == Scan(body, j, w3);
    ScanFrozen(body, j, w3, 0);
    var c1 := Fields(Zeros[0 := 5], 0, true);
    var c2 := Fields(Zeros[0 := -5][1 := 0], 1, minus);
    assert Parse(body) == Scan(body, 1, Fields(Zeros, 0, true)) == Scan(body, 2, c1);
    assert Zeros[0 := 5][0 := -5][1 := 0] == Zeros[0 := -5][1 := 0];
    assert Scan(body, 2, c1) == Scan(body, j, c2);
    ScanFrozen(body, j, c2, 0);
  }
}
