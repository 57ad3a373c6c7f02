/**
  * From the text of a runner's output file to the outcome runners/harness.py reads: what the cell of
  * runners/lib/emit.py means in terms of the lines of the file.
  */
module OutputText {
  import opened Wrappers
  import opened PythonText
  import opened Redaction
  import opened Json
  import opened RunnerPipeline
  import opened Emit

  // ----- Stripping the whole text changes no line -----

  lemma StripIgnoresFirst(c: char, s: string)
    requires IsWhitespace(c)
    ensures Strip([c] + s) == Strip(s)
  {
    assert ([c] + s)[1..] == s;
  }

  lemma {:induction false} StripIgnoresLast(s: string, c: char)
    requires IsWhitespace(c)
    ensures Strip(s + [c]) == Strip(s)
  {
    var t := s + [c];
    if s == "" {
      assert t[1..] == "";
    } else if IsWhitespace(s[0]) {
      assert t[1..] == s[1..] + [c];
      StripIgnoresLast(s[1..], c);
    } else {
      assert t[..|t| - 1] == s;
    }
  }

  lemma NonBlankCons(line: string, more: seq<string>)
    ensures NonBlankLines([line] + more)
         == (if Strip(line) != "" then [Strip(line)] else []) + NonBlankLines(more)
  {
    hide Strip;
    assert ([line] + more)[1..] == more;
  }

  lemma LineLengthOf(s: string, n: nat)
    requires n <= |s| && IsOneLine(s[..n]) && (n < |s| ==> IsLineBreak(s[n]))
    ensures LineLength(s) == n
  {
    assert forall i :: 0 <= i < n ==> s[..n][i] == s[i];
  }

  lemma LineIsOneLine(s: string)
    ensures IsOneLine(s[..LineLength(s)])
  {
  }

  lemma FirstBreakAddsNoLine(t: string)
    requires t != "" && IsLineBreak(t[0])
    ensures NonBlankLines(SplitLines(t)) == NonBlankLines(SplitLines(t[1..]))
  {
    hide Strip, LineLength, NonBlankLines;
    var s := t[1..];
    LineLengthOf(t, 0);
    assert t[..0] == "";
    BlankLine();
    if t[0] == '\r' && |t| > 1 && t[1] == '\n' {
      LineLengthOf(s, 0);
      assert s[..0] == "" && s[1..] == t[2..];
      NonBlankCons("", SplitLines(t[2..]));
    } else {
      NonBlankCons("", SplitLines(s));
    }
  }

  lemma SplitFirstLine(t: string)
    requires LineLength(t) < |t|
    ensures var n := LineLength(t);
            SplitLines(t) == [t[..n]] + SplitLines(AfterLine(t))
  {
    hide LineLength, AfterLine;
  }

  lemma FirstSpaceAddsNoLine(t: string)
    requires t != "" && IsWhitespace(t[0]) && !IsLineBreak(t[0])
    ensures NonBlankLines(SplitLines(t)) == NonBlankLines(SplitLines(t[1..]))
  {
    hide Strip, LineLength, NonBlankLines, SplitLines;
    var s := t[1..];
    var n := LineLength(s);
    LineIsOneLine(s);
    assert t[..n + 1] == [t[0]] + s[..n];
    LineLengthOf(t, n + 1);
    StripIgnoresFirst(t[0], s[..n]);
    if n == |s| {
      assert s[..n] == s && t[..n + 1] == t;
      OnlyLine(t);
      OnlyLine(s);
    } else {
      SplitFirstLine(t);
      SplitFirstLine(s);
      var next := n + BreakWidth(s, n);
      assert t[next + 1..] == s[next..];
      NonBlankCons(t[..n + 1], SplitLines(s[next..]));
      NonBlankCons(s[..n], SplitLines(s[next..]));
    }
  }

  lemma BlankLine()
    ensures Strip("") == ""
  {
  }

  lemma LastOfOneLine(t: string)
    requires t != "" && IsWhitespace(t[|t| - 1]) && IsOneLine(t)
    ensures NonBlankLines(SplitLines(t)) == NonBlankLines(SplitLines(t[..|t| - 1]))
  {
    hide Strip, SplitLines, NonBlankLines;
    var s, c := t[..|t| - 1], t[|t| - 1];
    assert t == s + [c];
    StripIgnoresLast(s, c);
    OnlyLine(t);
    OnlyLine(s);
  }

  lemma LastBreak(t: string)
    requires LineLength(t) < |t| && LineLength(t) + BreakWidth(t, LineLength(t)) == |t|
    ensures NonBlankLines(SplitLines(t)) == NonBlankLines(SplitLines(t[..|t| - 1]))
  {
    hide Strip, SplitLines, NonBlankLines, LineLength;
    var n, s := LineLength(t), t[..|t| - 1];
    LineIsOneLine(t);
    SplitFirstLine(t);
    assert t[|t|..] == "";
    NothingToSplit();
    OnlyLine(t[..n]);
    assert [t[..n]] + [] == [t[..n]];
    if BreakWidth(t, n) == 1 {
      assert s == t[..n];
    } else {
      assert s[..n] == t[..n] && s[n] == '\r' && |s| == n + 1;
      LineLengthOf(s, n);
      SplitFirstLine(s);
      assert s[n + 1..] == "";
    }
  }

  lemma NothingToSplit()
    ensures SplitLines("") == []
  {
  }

  lemma {:induction false} LastSpaceAddsNoLine(t: string)
    requires t != "" && IsWhitespace(t[|t| - 1])
    ensures NonBlankLines(SplitLines(t)) == NonBlankLines(SplitLines(t[..|t| - 1]))
    decreases |t|
  {
    hide Strip, LineLength, NonBlankLines, SplitLines;
    var s, n := t[..|t| - 1], LineLength(t);
    LineIsOneLine(t);
    if n == |t| {
      assert t[..n] == t;
      LastOfOneLine(t);
    } else {
      SplitFirstLine(t);
      var next := n + BreakWidth(t, n);
      if next == |t| {
        LastBreak(t);
      } else {
        var rest := t[next..];
        assert s[..n] == t[..n];
        LineLengthOf(s, n);
        SplitFirstLine(s);
        assert rest[..|rest| - 1] == s[next..];
        LastSpaceAddsNoLine(rest);
        NonBlankCons(t[..n], SplitLines(rest));
        NonBlankCons(t[..n], SplitLines(s[next..]));
      }
    }
  }

  /** A text that is one line, perhaps an empty one. */
  lemma OnlyLine(s: string)
    requires IsOneLine(s)
    ensures s != "" ==> SplitLines(s) == [s]
    ensures NonBlankLines(SplitLines(s)) == NonBlankLines([s]) == (if Strip(s) != "" then [Strip(s)] else [])
  {
    hide Strip;
    assert s[..|s|] == s;
    LineLengthOf(s, |s|);
    NonBlankCons(s, []);
    assert [s] + [] == [s];
    BlankLine();
  }

  lemma {:induction false} LeftStripKeepsLines(t: string)
    ensures NonBlankLines(SplitLines(StripLeft(t))) == NonBlankLines(SplitLines(t))
  {
    hide NonBlankLines, SplitLines;
    if t != "" && IsWhitespace(t[0]) {
      if IsLineBreak(t[0]) { FirstBreakAddsNoLine(t); } else { FirstSpaceAddsNoLine(t); }
      LeftStripKeepsLines(t[1..]);
    }
  }

  lemma {:induction false} RightStripKeepsLines(t: string)
    ensures NonBlankLines(SplitLines(StripRight(t))) == NonBlankLines(SplitLines(t))
  {
    hide NonBlankLines, SplitLines;
    if t != "" && IsWhitespace(t[|t| - 1]) {
      LastSpaceAddsNoLine(t);
      RightStripKeepsLines(t[..|t| - 1]);
    }
  }

  /** The outer strip of the output is idle: the lines kept are those of the text as it is. */
  lemma OuterStripIsIdle(t: string)
    ensures NonBlankLines(SplitLines(Strip(t))) == NonBlankLines(SplitLines(t))
  {
    LeftStripKeepsLines(t);
    RightStripKeepsLines(StripLeft(t));
  }

  // ----- The last lines that are not blank -----

  /** Line i is the last one that is not blank. */
  ghost predicate IsLastLine(lines: seq<string>, i: nat) {
    && i < |lines| && !IsBlank(lines[i])
    && forall k :: i < k < |lines| ==> IsBlank(lines[k])
  }

  /** Lines i and j are the last two that are not blank. */
  ghost predicate AreLastLines(lines: seq<string>, i: nat, j: nat) {
    && i < j && IsLastLine(lines, j) && !IsBlank(lines[i])
    && forall k :: i < k < j ==> IsBlank(lines[k])
  }

  /** Line i is the only one that is not blank. */
  ghost predicate IsOnlyLine(lines: seq<string>, i: nat) {
    IsLastLine(lines, i) && forall k :: 0 <= k < i ==> IsBlank(lines[k])
  }

  lemma {:induction false} NonBlankAppend(a: seq<string>, b: seq<string>)
    ensures NonBlankLines(a + b) == NonBlankLines(a) + NonBlankLines(b)
  {
    hide Strip;
    if a == [] {
      assert a + b == b;
    } else {
      assert (a + b)[1..] == a[1..] + b;
      NonBlankAppend(a[1..], b);
    }
  }

  lemma {:induction false} BlankLines(lines: seq<string>)
    requires forall k :: 0 <= k < |lines| ==> IsBlank(lines[k])
    ensures NonBlankLines(lines) == []
  {
    hide Strip, IsBlank;
    if lines != [] {
      StripEmptiesBlank(lines[0]);
      BlankLines(lines[1..]);
    }
  }

  lemma SplitAtLine(lines: seq<string>, i: nat)
    requires i < |lines| && !IsBlank(lines[i])
    ensures NonBlankLines(lines) == NonBlankLines(lines[..i]) + [Strip(lines[i])] + NonBlankLines(lines[i + 1..])
  {
    hide Strip, IsBlank, NonBlankLines;
    assert lines == lines[..i] + ([lines[i]] + lines[i + 1..]);
    NonBlankAppend(lines[..i], [lines[i]] + lines[i + 1..]);
    NonBlankCons(lines[i], lines[i + 1..]);
    StripEmptiesBlank(lines[i]);
  }

  lemma LastLineIsKept(lines: seq<string>, i: nat)
    requires IsLastLine(lines, i)
    ensures NonBlankLines(lines) == NonBlankLines(lines[..i]) + [Strip(lines[i])]
  {
    hide Strip, IsBlank, NonBlankLines;
    SplitAtLine(lines, i);
    BlankLines(lines[i + 1..]);
  }

  lemma LastLinesAreKept(lines: seq<string>, i: nat, j: nat)
    requires AreLastLines(lines, i, j)
    ensures NonBlankLines(lines) == NonBlankLines(lines[..i]) + [Strip(lines[i]), Strip(lines[j])]
  {
    hide Strip, IsBlank, NonBlankLines;
    LastLineIsKept(lines, j);
    assert IsLastLine(lines[..j], i);
    LastLineIsKept(lines[..j], i);
    assert lines[..j][..i] == lines[..i];
  }

  lemma OnlyLineIsKept(lines: seq<string>, i: nat)
    requires IsOnlyLine(lines, i)
    ensures NonBlankLines(lines) == [Strip(lines[i])]
  {
    hide Strip, IsBlank, NonBlankLines;
    LastLineIsKept(lines, i);
    BlankLines(lines[..i]);
  }

  // ----- The outcome -----

  /** The file's lines; none when it cannot be opened. */
  function LinesOf(arg: string, files: Files): seq<string> {
    match files(arg)
    case None => []
    case Some(text) => SplitLines(text)
  }

  /**
    * The detail before the cut: the last line that is not blank, stripped; for a failure with two such
    * lines both, in the order of the file; nothing when there is none.
    */
  ghost predicate IsDetailOf(detail: string, lines: seq<string>, code: int) {
    && ((forall k :: 0 <= k < |lines| ==> IsBlank(lines[k])) ==> detail == "")
    && (forall i: nat :: IsOnlyLine(lines, i) ==> detail == Strip(lines[i]))
    && (code == 0 ==> forall i: nat :: IsLastLine(lines, i) ==> detail == Strip(lines[i]))
    && (code != 0 ==> forall i: nat, j: nat ::
          AreLastLines(lines, i, j) ==> detail == Strip(lines[i]) + " | " + Strip(lines[j]))
  }

  lemma FullDetailIsDetail(rc: string, arg: string, files: Files)
    requires rc != "skip" && ParseInt(rc).Some?
    ensures IsDetailOf(FullDetail(rc, arg, files), LinesOf(arg, files), ParseInt(rc).value)
  {
    hide Strip, IsBlank, NonBlankLines, SplitLines, ParseInt;
    var lines, kept := LinesOf(arg, files), OutputLines(arg, files);
    KeptLines(arg, files);
    if forall k :: 0 <= k < |lines| ==> IsBlank(lines[k]) {
      BlankLines(lines);
    }
    forall i: nat | IsOnlyLine(lines, i) ensures kept == [Strip(lines[i])] {
      OnlyLineIsKept(lines, i);
    }
    forall i: nat | IsLastLine(lines, i) ensures kept != [] && kept[|kept| - 1] == Strip(lines[i]) {
      LastLineIsKept(lines, i);
    }
    forall i: nat, j: nat | AreLastLines(lines, i, j)
      ensures |kept| >= 2 && kept[|kept| - 2] == Strip(lines[i]) && kept[|kept| - 1] == Strip(lines[j])
    {
      LastLinesAreKept(lines, i, j);
    }
  }

  lemma KeptLines(arg: string, files: Files)
    ensures OutputLines(arg, files) == NonBlankLines(LinesOf(arg, files))
  {
    hide SplitLines, Strip;
    if files(arg).Some? {
      OuterStripIsIdle(files(arg).value);
    }
  }

  function Get(v: Option<Json>, key: string): Option<Json> {
    if v.Some? && v.value.Obj? then Lookup(v.value.members, key) else None
  }

  /**
    * What the harness reads for a test, from the arguments and the text of the output file: status and
    * detail of a skip are "skip" and the redacted reason; otherwise the status is "ok" exactly for code
    * zero and the detail is the redaction of the first 400 characters of the last lines.
    */
  lemma HarnessReadsOutput(client: string, version: string, rest: seq<string>, files: Files, root: string, i: nat)
    returns (detail: string)
    requires IsAbsolute(root) && IsPlainText(root)
    requires Emitted(client, version, rest, files).Ok? && 3 * i + 2 < |rest|
    requires rest[3 * i] in {"parse", "verify", "handshake"}
    requires forall j :: i < j && 3 * j < |rest| ==> rest[3 * j] != rest[3 * i]
    ensures var rc, arg := rest[3 * i + 1], rest[3 * i + 2];
            var v := Collected(Emitted(client, version, rest, files).value, root);
            var cell := Get(Get(v, "tests"), rest[3 * i]);
            && Get(v, "client") == Some(Str(Redact(client, root)))
            && Get(v, "client_version") == Some(Str(Redact(version, root)))
            && (rc == "skip" ==>
                  && Get(cell, "status") == Some(Str("skip"))
                  && Get(cell, "detail") == Some(Str(Redact(arg, root))))
            && (rc != "skip" ==>
                  && ParseInt(rc).Some?
                  && Get(cell, "status") == Some(Str(if ParseInt(rc).value == 0 then "ok" else "fail"))
                  && IsDetailOf(detail, LinesOf(arg, files), ParseInt(rc).value)
                  && Get(cell, "detail")
                     == Some(Str(Redact(if |detail| <= 400 then detail else detail[..400], root))))
  {
    hide Emitted, Collected, IsPlainText, Redact, FullDetail, ParseInt, IsDetailOf, LinesOf;
    var rc, arg := rest[3 * i + 1], rest[3 * i + 2];
    HarnessReadsOutcome(client, version, rest, files, root, i);
    HarnessReadsClient(client, version, rest, files, root);
    detail := FullDetail(rc, arg, files);
    CellEntries(StatusOf(rc), Redact(CutDetail(rc, arg, files), root));
    if rc != "skip" {
      CodeIsNumber(client, version, rest, files, i);
      FullDetailIsDetail(rc, arg, files);
    }
  }

  lemma CellEntries(status: string, detail: string)
    ensures Get(Some(Cell(status, detail)), "status") == Some(Str(status))
    ensures Get(Some(Cell(status, detail)), "detail") == Some(Str(detail))
  {
    assert "status" != "detail";
    assert Lookup(Member("detail", Str(detail), NoMember), "detail") == Some(Str(detail));
  }

  lemma CodeIsNumber(client: string, version: string, rest: seq<string>, files: Files, i: nat)
    requires Emitted(client, version, rest, files).Ok? && 3 * i + 2 < |rest|
    requires forall j :: i < j && 3 * j < |rest| ==> rest[3 * j] != rest[3 * i]
    ensures rest[3 * i + 1] != "skip" ==> ParseInt(rest[3 * i + 1]).Some?
  {
    hide Tests, ParseInt, OutputLines;
    LastGroupWins(rest, NoMember, files, i);
  }

  lemma HarnessReadsClient(client: string, version: string, rest: seq<string>, files: Files, root: string)
    requires IsAbsolute(root) && IsPlainText(root)
    requires Emitted(client, version, rest, files).Ok?
    ensures var v := Collected(Emitted(client, version, rest, files).value, root);
            && Get(v, "client") == Some(Str(Redact(client, root)))
            && Get(v, "client_version") == Some(Str(Redact(version, root)))
  {
    hide Tests, IsPlainText, Redact, Collected, PutAll, RedactMembers, IsDictionaryBody;
    var v := Emitted(client, version, rest, files).value;
    EmittedIsDictionary(client, version, rest, files, root);
    CollectsRedacted(v, root);
    NoSlashNoRoot("client", root);
    NoSlashNoRoot("client_version", root);
    PlainKeyIsOwn(v.members, "client", root);
    PlainKeyIsOwn(v.members, "client_version", root);
    LookupCollected(v.members, "client", root);
    LookupCollected(v.members, "client_version", root);
    TextEntry(v, client, version, Tests(rest, NoMember, files).value);
    RedactedObject(v.members, root);
    RedactedText(client, root);
    RedactedText(version, root);
    assert IsDictionary(v) ==> IsDictionaryBody(v.members) by { DictionaryBody(v.members); }
  }

  lemma DictionaryBody(ms: Members)
    ensures IsDictionary(Obj(ms)) ==> IsDictionaryBody(ms)
  {
  }

  lemma RedactedObject(ms: Members, root: string)
    requires IsAbsolute(root)
    ensures Collapse(RedactAll(Obj(ms), root)) == Obj(PutAll(NoMember, RedactMembers(ms, root)))
  {
    hide PutAll, RedactMembers;
  }

  lemma RedactedText(text: string, root: string)
    requires IsAbsolute(root)
    ensures Collapse(RedactAll(Str(text), root)) == Str(Redact(text, root))
  {
    hide Redact;
  }

  lemma TextEntry(v: Json, client: string, version: string, tests: Members)
    requires v == Report(client, version, tests)
    ensures Lookup(v.members, "client") == Some(Str(client))
    ensures Lookup(v.members, "client_version") == Some(Str(version))
  {
    assert |"client"| == 6 && |"client_version"| == 14;
    assert Lookup(v.members.tail, "client_version") == Some(Str(version));
  }
}
