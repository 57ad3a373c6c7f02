/** The Python string operations the scripts use on tool output: splitting, joining, stripping, int(). */
module PythonText {
  import opened Wrappers

  // ----- Character classes -----

  /** The line boundaries of str.splitlines. */
  predicate IsLineBreak(c: char) {
    var n := c as int;
    10 <= n <= 13 || 28 <= n <= 30 || n == 0x85 || n == 0x2028 || n == 0x2029
  }

  /** The characters str.strip removes. */
  predicate IsWhitespace(c: char) {
    var n := c as int;
    || IsLineBreak(c) || n == 9 || n == 31 || n == 32 || n == 0xA0 || n == 0x1680
    || 0x2000 <= n <= 0x200A || n == 0x202F || n == 0x205F || n == 0x3000
  }

  predicate IsDigit(c: char) {
    '0' <= c <= '9'
  }

  // ----- Stripping -----

  function StripLeft(s: string): (r: string)
    ensures |r| <= |s|
    ensures r != "" ==> !IsWhitespace(r[0])
  {
    if s != "" && IsWhitespace(s[0]) then StripLeft(s[1..]) else s
  }

  function StripRight(s: string): (r: string)
    ensures |r| <= |s|
    ensures r == s[..|r|]
  {
    if s != "" && IsWhitespace(s[|s| - 1]) then StripRight(s[..|s| - 1]) else s
  }

  /** str.strip */
  function Strip(s: string): string {
    StripRight(StripLeft(s))
  }

  predicate IsBlank(s: string) {
    forall i :: 0 <= i < |s| ==> IsWhitespace(s[i])
  }

  lemma {:induction false} StripLeftEmptiesBlank(s: string)
    ensures StripLeft(s) == "" <==> IsBlank(s)
  {
    if s != "" && IsWhitespace(s[0]) {
      StripLeftEmptiesBlank(s[1..]);
      assert s == [s[0]] + s[1..];
    }
  }

  lemma {:induction false} StripRightKeepsFront(s: string)
    requires s != "" && !IsWhitespace(s[0])
    ensures StripRight(s) != ""
  {
    if IsWhitespace(s[|s| - 1]) {
      StripRightKeepsFront(s[..|s| - 1]);
    }
  }

  /** Stripping leaves nothing exactly of blank text. */
  lemma StripEmptiesBlank(s: string)
    ensures Strip(s) == "" <==> IsBlank(s)
  {
    StripLeftEmptiesBlank(s);
    if StripLeft(s) != "" {
      StripRightKeepsFront(StripLeft(s));
    }
  }

  lemma StripKeepsTight(s: string)
    requires s != "" && !IsWhitespace(s[0]) && !IsWhitespace(s[|s| - 1])
    ensures Strip(s) == s
  {
  }

  /** Stripping removes exactly the white space around. */
  lemma {:induction false} StripOfPadded(front: string, s: string, back: string)
    requires IsBlank(front) && IsBlank(back)
    requires s != "" && !IsWhitespace(s[0]) && !IsWhitespace(s[|s| - 1])
    ensures Strip(front + s + back) == s
    decreases |front| + |back|
  {
    var t := front + s + back;
    if front != "" {
      assert t[1..] == front[1..] + s + back;
      StripOfPadded(front[1..], s, back);
    } else {
      RightPadding(s, back);
      assert t == s + back;
    }
  }

  lemma {:induction false} RightPadding(s: string, back: string)
    requires IsBlank(back) && s != "" && !IsWhitespace(s[|s| - 1])
    ensures StripRight(s + back) == s
  {
    var t := s + back;
    if back != "" {
      assert t[..|t| - 1] == s + back[..|back| - 1];
      RightPadding(s, back[..|back| - 1]);
    } else {
      assert t == s;
    }
  }

  // ----- Splitting and joining -----

  /** str.split with a one-character separator. */
  function Split(s: string, sep: char): (parts: seq<string>)
    ensures parts != []
  {
    if s == "" then [""]
    else if s[0] == sep then [""] + Split(s[1..], sep)
    else
      var more := Split(s[1..], sep);
      [[s[0]] + more[0]] + more[1..]
  }

  /** sep.join */
  function Join(parts: seq<string>, sep: char): string {
    if parts == [] then ""
    else if |parts| == 1 then parts[0]
    else parts[0] + [sep] + Join(parts[1..], sep)
  }

  lemma {:induction false} SplitOnePart(s: string, sep: char)
    requires sep !in s
    ensures Split(s, sep) == [s]
  {
    if s != "" {
      assert s[0] in s;
      SplitOnePart(s[1..], sep);
      assert [s[0]] + s[1..] == s;
    }
  }

  lemma {:induction false} SplitFirstPart(s: string, sep: char, rest: string)
    requires sep !in s
    ensures Split(s + [sep] + rest, sep) == [s] + Split(rest, sep)
  {
    var t := s + [sep] + rest;
    if s == "" {
      assert t[1..] == rest;
    } else {
      assert s[0] in s;
      assert t[1..] == s[1..] + [sep] + rest;
      SplitFirstPart(s[1..], sep, rest);
      assert [s[0]] + s[1..] == s;
    }
  }

  /** Splitting a join gives back the parts, when none contains the separator. */
  lemma {:induction false} SplitOfJoin(parts: seq<string>, sep: char)
    requires parts != []
    requires forall i :: 0 <= i < |parts| ==> sep !in parts[i]
    ensures Split(Join(parts, sep), sep) == parts
  {
    if |parts| == 1 {
      SplitOnePart(parts[0], sep);
    } else {
      SplitFirstPart(parts[0], sep, Join(parts[1..], sep));
      SplitOfJoin(parts[1..], sep);
      assert parts == [parts[0]] + parts[1..];
    }
  }

  lemma {:induction false} CharactersOfJoin(parts: seq<string>, sep: char, i: nat)
    requires i < |Join(parts, sep)|
    ensures Join(parts, sep)[i] == sep
            || exists k :: 0 <= k < |parts| && Join(parts, sep)[i] in parts[k]
  {
    if |parts| > 1 {
      var front := parts[0] + [sep];
      if i >= |front| {
        CharactersOfJoin(parts[1..], sep, i - |front|);
        if Join(parts, sep)[i] != sep {
          var k :| 0 <= k < |parts[1..]| && Join(parts[1..], sep)[i - |front|] in parts[1..][k];
          assert parts[1..][k] == parts[k + 1];
        }
      } else if i < |parts[0]| {
        assert Join(parts, sep)[i] == parts[0][i];
      }
    } else {
      assert Join(parts, sep)[i] in parts[0];
    }
  }

  lemma {:induction false} PartIsInJoin(parts: seq<string>, sep: char, k: nat, c: char)
    requires k < |parts| && c in parts[k]
    ensures c in Join(parts, sep)
  {
    if |parts| > 1 && k > 0 {
      PartIsInJoin(parts[1..], sep, k - 1, c);
    }
  }

  // ----- Lines -----

  /** Length of the text before the first line boundary. */
  function LineLength(s: string): (n: nat)
    ensures n <= |s|
    ensures forall i :: 0 <= i < n ==> !IsLineBreak(s[i])
    ensures n < |s| ==> IsLineBreak(s[n])
  {
    if s == "" || IsLineBreak(s[0]) then 0 else 1 + LineLength(s[1..])
  }

  /** How many characters the line boundary at n takes: a carriage return and line feed are one. */
  function BreakWidth(s: string, n: nat): (w: nat)
    requires n < |s|
    ensures 1 <= w && n + w <= |s|
  {
    if s[n] == '\r' && n + 1 < |s| && s[n + 1] == '\n' then 2 else 1
  }

  /** str.splitlines */
  function SplitLines(s: string): seq<string>
    decreases |s|
  {
    if s == "" then []
    else if LineLength(s) == |s| then [s]
    else [s[..LineLength(s)]] + SplitLines(AfterLine(s))
  }

  /** The text behind the first line and its boundary. */
  function AfterLine(s: string): (rest: string)
    requires LineLength(s) < |s|
    ensures |rest| < |s|
  {
    s[LineLength(s) + BreakWidth(s, LineLength(s))..]
  }

  function PrintLines(lines: seq<string>): string {
    if lines == [] then "" else lines[0] + "\n" + PrintLines(lines[1..])
  }

  predicate IsOneLine(s: string) {
    forall i :: 0 <= i < |s| ==> !IsLineBreak(s[i])
  }

  lemma {:induction false} FirstLineLength(line: string, rest: string)
    requires IsOneLine(line)
    ensures LineLength(line + "\n" + rest) == |line|
  {
    var s := line + "\n" + rest;
    if line == "" {
      assert s[0] == '\n';
    } else {
      assert s[0] == line[0] && s[1..] == line[1..] + "\n" + rest;
      FirstLineLength(line[1..], rest);
    }
  }

  lemma {:induction false} SplitPrintedLines(lines: seq<string>)
    requires forall i :: 0 <= i < |lines| ==> IsOneLine(lines[i])
    ensures SplitLines(PrintLines(lines)) == lines
  {
    if lines != [] {
      var rest := PrintLines(lines[1..]);
      var s := lines[0] + "\n" + rest;
      FirstLineLength(lines[0], rest);
      SplitPrintedLines(lines[1..]);
      var n := |lines[0]|;
      assert s[n] == '\n' && s[..n] == lines[0] && s[n + 1..] == rest;
      assert lines == [lines[0]] + lines[1..];
    }
  }

  // ----- Integers -----

  /** Decimal digits with single underscores between them, after some digits worth acc. */
  function DigitsValue(t: string, acc: nat, afterDigit: bool): Option<nat> {
    if t == "" then if afterDigit then Some(acc) else None
    else if IsDigit(t[0]) then DigitsValue(t[1..], 10 * acc + (t[0] as int - '0' as int), true)
    else if t[0] == '_' && afterDigit then DigitsValue(t[1..], acc, false)
    else None
  }

  /** int(s) in base ten; None is ValueError. */
  function ParseInt(s: string): Option<int> {
    var t := Strip(s);
    if t == "" then None
    else if t[0] == '-' then
      match DigitsValue(t[1..], 0, false)
      case None => None
      case Some(n) => var k: int := n; Some(-k)
    else
      match DigitsValue(if t[0] == '+' then t[1..] else t, 0, false)
      case None => None
      case Some(n) => Some(n)
  }

  function Digit(d: nat): char
    requires d < 10
  {
    ('0' as int + d) as char
  }

  /** str(n) for a natural number. */
  function Decimal(n: nat): (s: string)
    ensures s != ""
    ensures forall i :: 0 <= i < |s| ==> IsDigit(s[i])
  {
    if n < 10 then [Digit(n)] else Decimal(n / 10) + [Digit(n % 10)]
  }

  lemma {:induction false} DigitsAppend(t: string, d: nat, acc: nat, afterDigit: bool)
    requires d < 10 && DigitsValue(t, acc, afterDigit).Some?
    ensures DigitsValue(t + [Digit(d)], acc, afterDigit)
         == Some(10 * DigitsValue(t, acc, afterDigit).value + d)
  {
    var s := t + [Digit(d)];
    if t == "" {
      assert s == [Digit(d)] && s[1..] == "";
    } else {
      assert s[1..] == t[1..] + [Digit(d)];
      if IsDigit(t[0]) {
        DigitsAppend(t[1..], d, 10 * acc + (t[0] as int - '0' as int), true);
      } else {
        DigitsAppend(t[1..], d, acc, false);
      }
    }
  }

  lemma {:induction false} DigitsOfDecimal(n: nat)
    ensures DigitsValue(Decimal(n), 0, false) == Some(n)
  {
    if n < 10 {
      assert Decimal(n)[1..] == "";
    } else {
      DigitsOfDecimal(n / 10);
      DigitsAppend(Decimal(n / 10), n % 10, 0, false);
    }
  }

  /** White space around a number does not matter. */
  lemma IntOfPadded(front: string, n: nat, back: string)
    requires IsBlank(front) && IsBlank(back)
    ensures ParseInt(front + Decimal(n) + back) == Some(n)
  {
    var s := Decimal(n);
    assert IsDigit(s[0]) && IsDigit(s[|s| - 1]);
    StripOfPadded(front, s, back);
    StripKeepsTight(s);
    IntOfDecimal(n);
  }

  lemma {:induction false} DigitsOnly(t: string, acc: nat, afterDigit: bool)
    requires DigitsValue(t, acc, afterDigit).Some?
    ensures forall i :: 0 <= i < |t| ==> IsDigit(t[i]) || t[i] == '_'
  {
    if t != "" {
      DigitsOnly(t[1..], if IsDigit(t[0]) then 10 * acc + (t[0] as int - '0' as int) else acc, IsDigit(t[0]));
      assert t == [t[0]] + t[1..];
    }
  }

  /** Underscores stand between digits only. */
  lemma UnderscoresInNumbers()
    ensures ParseInt("1_0") == Some(10)
    ensures ParseInt("1_") == None && ParseInt("_1") == None && ParseInt("1__0") == None
    ensures ParseInt("") == None && ParseInt("-") == None && ParseInt("1-0") == None
  {
    StripKeepsTight("1_0");
    StripKeepsTight("1_");
    StripKeepsTight("_1");
    StripKeepsTight("1__0");
    StripKeepsTight("-");
    StripKeepsTight("1-0");
    assert "1_0"[1..] == "_0" && "_0"[1..] == "0" && "0"[1..] == "";
    assert "1_"[1..] == "_" && "_"[1..] == "";
    assert "1__0"[1..] == "__0" && "__0"[1..] == "_0";
    assert "-"[1..] == "" && "1-0"[1..] == "-0";
  }

  /** The characters of str.strip, which are those of str.isspace. */
  lemma WhiteSpace(c: char)
    ensures Strip([c]) == ""
       <==> || 9 <= c as int <= 13 || 28 <= c as int <= 32 || 0x2000 <= c as int <= 0x200A
            || c as int in {0x85, 0xA0, 0x1680, 0x2028, 0x2029, 0x202F, 0x205F, 0x3000}
  {
    StripEmptiesBlank([c]);
    assert [c][0] == c;
  }

  /** A minus sign negates, a plus sign does nothing. */
  lemma IntOfSigned(n: nat)
    ensures ParseInt("-" + Decimal(n)).Some? && ParseInt("-" + Decimal(n)).value + n == 0
    ensures ParseInt("+" + Decimal(n)) == Some(n)
  {
    DigitsOfDecimal(n);
    assert ("-" + Decimal(n))[1..] == Decimal(n) && ("+" + Decimal(n))[1..] == Decimal(n);
    assert IsDigit(Decimal(n)[|Decimal(n)| - 1]);
    StripKeepsTight("-" + Decimal(n));
    StripKeepsTight("+" + Decimal(n));
  }

  /** The line boundaries of str.splitlines are these twelve, a carriage return and line feed being one. */
  lemma LineBoundaries(c: char)
    ensures SplitLines(['x', c, 'y']) == ["x", "y"]
       <==> c as int in {10, 11, 12, 13, 28, 29, 30, 0x85, 0x2028, 0x2029}
    ensures SplitLines("x\r\ny") == ["x", "y"]
  {
    var s := ['x', c, 'y'];
    OneCharacterLine("y");
    if IsLineBreak(c) {
      assert LineLength(s) == 1 by { assert s[1..] == [c, 'y']; }
      assert s[..1] == "x" && s[2..] == "y";
    } else {
      var n := LineLength(s);
      assert s[0] == 'x' && s[1] == c && s[2] == 'y';
      assert n == 3;
    }
    var t := "x\r\ny";
    assert t[0] == 'x' && t[1] == '\r' && t[2] == '\n' && t[3] == 'y';
    assert LineLength(t) == 1;
    assert t[..1] == "x" && t[3..] == "y";
  }

  lemma OneCharacterLine(s: string)
    requires |s| == 1 && !IsLineBreak(s[0])
    ensures SplitLines(s) == [s]
  {
    assert LineLength(s) == 1;
  }

  /** int(str(n)) is n. */
  lemma IntOfDecimal(n: nat)
    ensures ParseInt(Decimal(n)) == Some(n)
  {
    var s := Decimal(n);
    assert IsDigit(s[0]) && IsDigit(s[|s| - 1]);
    StripKeepsTight(s);
    DigitsOfDecimal(n);
  }
}
