/**
  * The detail of a test is cut at 400 characters by runners/lib/emit.py before runners/harness.py
  * redacts it. A root that the cut runs through is no longer found: the front of it stays.
  */
module DetailCut {
  import opened Wrappers
  import opened Sequences
  import opened PythonText
  import opened Redaction
  import opened RunnerPipeline
  import opened Emit

  /** Whether an occurrence that redaction replaces starts in front of position n and ends behind it. */
  predicate CutsRoot(text: string, root: string, n: nat)
    requires root != "" && n <= |text|
  {
    if n == 0 then false
    else if root <= text then n < |root| || CutsRoot(text[|root|..], root, n - |root|)
    else CutsRoot(text[1..], root, n - 1)
  }

  lemma SamePrefix(front: string, a: string, b: string)
    ensures front + a <= front + b <==> a <= b
  {
    if front + a <= front + b {
      assert (front + b)[..|front + a|] == front + b[..|a|];
      assert (front + a)[|front|..] == a;
      assert (front + b[..|a|])[|front|..] == b[..|a|];
    }
  }

  lemma CutThenDrop(text: string, n: nat, k: nat)
    requires k <= n <= |text|
    ensures text[..n][k..] == text[k..][..n - k]
  {
  }

  lemma PrefixOfCut(root: string, text: string, n: nat)
    requires n <= |text|
    ensures root <= text[..n] <==> root <= text && |root| <= n
  {
    if |root| <= n {
      assert text[..n][..|root|] == text[..|root|];
    }
  }

  /** How much of the text one step of the replacement reads, and what it writes. */
  function StepRead(text: string, root: string): (k: nat)
    requires root != "" && text != ""
    ensures 1 <= k <= |text|
  {
    if root <= text then |root| else 1
  }

  function StepWritten(text: string, root: string): string
    requires text != ""
  {
    if root <= text then REPO else [text[0]]
  }

  /** A cut behind the first step leaves that step as it is. */
  lemma StepBeforeCut(text: string, root: string, n: nat)
    requires IsAbsolute(root) && text != "" && StepRead(text, root) <= n <= |text|
    ensures var k := StepRead(text, root);
            Redact(text[..n], root) == StepWritten(text, root) + Redact(text[k..][..n - k], root)
  {
    PrefixOfCut(root, text, n);
    CutThenDrop(text, n, StepRead(text, root));
  }

  lemma CutsBehindStep(text: string, root: string, n: nat)
    requires root != "" && n <= |text| && n > 0 && !(root <= text && n < |root|)
    ensures StepRead(text, root) <= n
    ensures CutsRoot(text, root, n) <==> CutsRoot(text[StepRead(text, root)..], root, n - StepRead(text, root))
  {
  }

  /** Redacting the front of a text gives the front of the redacted text exactly when no root is cut. */
  lemma {:induction false} CutKeepsFront(text: string, root: string, n: nat)
    requires IsAbsolute(root) && n <= |text|
    ensures Redact(text[..n], root) <= Redact(text, root) <==> !CutsRoot(text, root, n)
    decreases |text|
  {
    PrefixOfCut(root, text, n);
    if n == 0 {
      assert Redact(text[..0], root) == "";
    } else if root <= text && n < |root| {
      ShortTextsAreKept(text[..n], root);
      assert text[..n][0] == text[0] == root[0];
      assert Redact(text, root)[0] == REPO[0];
    } else {
      var k := StepRead(text, root);
      CutKeepsFront(text[k..], root, n - k);
      StepBeforeCut(text, root, n);
      assert Redact(text, root) == StepWritten(text, root) + Redact(text[k..], root);
      SamePrefix(StepWritten(text, root), Redact(text[k..][..n - k], root), Redact(text[k..], root));
    }
  }

  /** Where a root is cut, what is left of it ends the redacted front. */
  lemma {:induction false} CutShowsRoot(text: string, root: string, n: nat) returns (m: nat)
    requires IsAbsolute(root) && n <= |text| && CutsRoot(text, root, n)
    ensures m < n < m + |root| && OccursAt(root, text, m)
    ensures Redact(text[..n], root) == Redact(text[..m], root) + root[..n - m]
    decreases |text|
  {
    hide Redact, OccursAt, StepRead, StepWritten;
    if root <= text && n < |root| {
      m := 0;
      ShortTextsAreKept(text[..n], root);
      OccursAtStart(root, text);
      assert text[..n] == root[..n] && text[..m] == "";
      EmptyIsKept(root);
    } else {
      CutsBehindStep(text, root, n);
      hide CutsRoot;
      var k := StepRead(text, root);
      var j := CutShowsRoot(text[k..], root, n - k);
      m := j + k;
      assert text == text[..k] + text[k..];
      OccursAfter(root, text[..k], text[k..], m);
      StepBeforeCut(text, root, n);
      StepBeforeCut(text, root, m);
      Associate(StepWritten(text, root), Redact(text[k..][..j], root), root[..n - m]);
    }
  }

  /** No proper end of the root is a start of it. */
  predicate HasNoBorder(root: string) {
    forall k :: 1 <= k < |root| ==> !(root[k..] <= root)
  }

  lemma OverlapIsBorder(text: string, root: string, m: nat)
    requires root <= text && m < |root| && OccursAt(root, text, m)
    ensures root[m..] <= root
  {
    var overlap := |root| - m;
    assert text[..|root|] == root;
    assert text[m..][..overlap] == root[m..];
    assert text[m..][..overlap] == root[..overlap];
  }

  /** For such a root the replaced occurrences are all there are. */
  lemma {:induction false} EveryStraddlingRootIsCut(text: string, root: string, n: nat, m: nat)
    requires root != "" && HasNoBorder(root) && n <= |text|
    requires m < n < m + |root| && OccursAt(root, text, m)
    ensures CutsRoot(text, root, n)
    decreases |text|
  {
    if m > 0 {
      if root <= text {
        if m < |root| {
          OverlapIsBorder(text, root, m);
        }
        if n >= |root| {
          assert text[|root|..][m - |root|..] == text[m..];
          EveryStraddlingRootIsCut(text[|root|..], root, n - |root|, m - |root|);
        }
      } else {
        assert text[1..][m - 1..] == text[m..];
        EveryStraddlingRootIsCut(text[1..], root, n - 1, m - 1);
      }
    } else {
      assert text[0..] == text;
    }
  }

  /** For a root without a border, exactly the occurrences around position n are cut there. */
  lemma CutsExactlyStraddlingRoots(text: string, root: string, n: nat)
    requires IsAbsolute(root) && HasNoBorder(root) && n <= |text|
    ensures CutsRoot(text, root, n) <==> exists m: nat :: m < n < m + |root| && OccursAt(root, text, m)
  {
    if CutsRoot(text, root, n) {
      var m := CutShowsRoot(text, root, n);
    }
    if exists m: nat :: m < n < m + |root| && OccursAt(root, text, m) {
      var m: nat :| m < n < m + |root| && OccursAt(root, text, m);
      EveryStraddlingRootIsCut(text, root, n, m);
    }
  }

  // ----- The collected detail -----

  /**
    * The detail the harness collects for a test that was run, one it prints the outcome of: the
    * redaction of the output's last lines cut at 400 characters. It is the front of what redacting
    * the lines would have given exactly when the cut does not run through a root; where it does, the
    * detail ends with what the cut left of that root.
    */
  lemma CollectedDetailIsFront(client: string, version: string, rest: seq<string>, files: Files, root: string, i: nat)
    requires IsAbsolute(root) && IsPlainText(root)
    requires Emitted(client, version, rest, files).Ok? && 3 * i + 2 < |rest|
    requires rest[3 * i] in {"parse", "verify", "handshake"} && rest[3 * i + 1] != "skip"
    requires forall j :: i < j && 3 * j < |rest| ==> rest[3 * j] != rest[3 * i]
    ensures Collected(Emitted(client, version, rest, files).value, root).Some?
    ensures var v := Collected(Emitted(client, version, rest, files).value, root).value;
            var full := FullDetail(rest[3 * i + 1], rest[3 * i + 2], files);
            var detail := Redact(Truncate(full, 400), root);
            && CollectedCell(v, rest[3 * i]) == Some(Cell(StatusOf(rest[3 * i + 1]), detail))
            && (detail <= Redact(full, root) <==> |full| <= 400 || !CutsRoot(full, root, 400))
            && (|full| > 400 && CutsRoot(full, root, 400) ==>
                  exists m: nat ::
                    && OccursAt(root, full, m) && m < 400 < m + |root|
                    && detail == Redact(full[..m], root) + root[..400 - m])
  {
    hide Emitted, Collected, IsPlainText, Redact, StatusOf, FullDetail, Cell, CollectedCell;
    HarnessReadsOutcome(client, version, rest, files, root, i);
    var full := FullDetail(rest[3 * i + 1], rest[3 * i + 2], files);
    if |full| > 400 {
      CutKeepsFront(full, root, 400);
      if CutsRoot(full, root, 400) {
        var m := CutShowsRoot(full, root, 400);
      }
    }
  }

  // ----- A report that shows the front of the root -----

  function Letters(n: nat): (s: string)
    ensures |s| == n
  {
    seq(n, _ => 'x')
  }

  /** One line of output with the root so that k of its characters come before the cut. */
  function LeakingLine(root: string, k: nat): string
    requires 1 <= k <= 400
  {
    Letters(400 - k) + (root + "x")
  }

  lemma OneLineOfOutput(arg: string, line: string, files: Files)
    requires files(arg) == Some(line) && IsOneLine(line)
    requires line != "" && !IsWhitespace(line[0]) && !IsWhitespace(line[|line| - 1])
    ensures OutputLines(arg, files) == [line]
  {
    hide Strip;
    StripKeepsTight(line);
    assert LineLength(line) == |line|;
    assert NonBlankLines([line][1..]) == [];
  }

  lemma LeakingLineIsOneLine(root: string, k: nat)
    requires IsAbsolute(root) && IsPlainText(root) && 1 <= k <= 400
    ensures var line := LeakingLine(root, k);
            && line != "" && IsOneLine(line) && !IsWhitespace(line[0]) && !IsWhitespace(line[|line| - 1])
  {
    var line := LeakingLine(root, k);
    assert line[0] == 'x' || line[0] == root[0];
    assert line[|line| - 1] == 'x';
    forall i | 0 <= i < |line| ensures !IsLineBreak(line[i]) {
      assert line[i] == 'x' || (|root| > i - (400 - k) >= 0 && line[i] == root[i - (400 - k)]);
    }
  }

  lemma LeakingLineIsCut(root: string, k: nat)
    requires IsAbsolute(root) && 1 <= k < |root| && k <= 400
    ensures var line := LeakingLine(root, k);
            && |line| > 400
            && line[..400] == Letters(400 - k) + root[..k]
            && Redact(line[..400], root) == line[..400]
            && !(Redact(line[..400], root) <= Redact(line, root))
  {
    hide Redact, Occurs, OccursAt;
    var line, n := LeakingLine(root, k), 400 - k;
    var cut := line[..400];
    assert cut == Letters(n) + root[..k];
    assert forall q :: 0 <= q < n ==> cut[q] == line[q] == 'x' && 'x' != root[0];
    forall q: nat ensures !OccursAt(root, cut, q) {
      if OccursAt(root, cut, q) {
        OccursWhereItsFirstCharacterIs(root, cut, q);
        OccurrenceFits(root, cut, q);
      }
    }
    NowhereIsKept(root, cut);
    forall q: nat | q < n ensures !OccursAt(root, line, q) {
      if OccursAt(root, line, q) {
        OccursWhereItsFirstCharacterIs(root, line, q);
      }
    }
    assert line[n..] == root + "x";
    OccursAfter(root, Letters(n), root + "x", n);
    OccursAtStart(root, root + "x");
    ReplacesLeftmost(line, root, n);
    assert Redact(line, root)[n] == REPO[0];
    assert cut[n] == root[0];
  }

  lemma OccurrenceFits(root: string, text: string, q: nat)
    requires OccursAt(root, text, q)
    ensures q + |root| <= |text|
  {
  }

  lemma NowhereIsKept(root: string, text: string)
    requires IsAbsolute(root) && forall q: nat :: !OccursAt(root, text, q)
    ensures Redact(text, root) == text
  {
    KeepsTextsWithoutRoot(text, root);
  }

  /**
    * For every front of the root that is shorter than the root and fits the limit, some successful
    * run's output makes the harness collect a detail that ends with it.
    */
  lemma FrontOfRootIsCollected(root: string, k: nat) returns (files: Files)
    requires IsAbsolute(root) && IsPlainText(root) && 1 <= k < |root| && k <= 400
    ensures var emitted := Emitted("openssl-3.5", "3.5.5", ["parse", "0", "parse.out"], files);
            && emitted.Ok?
            && Collected(emitted.value, root).Some?
            && CollectedCell(Collected(emitted.value, root).value, "parse")
               == Some(Cell("ok", Letters(400 - k) + root[..k]))
            && FullDetail("0", "parse.out", files) == LeakingLine(root, k)
            && !(Letters(400 - k) + root[..k] <= Redact(LeakingLine(root, k), root))
  {
    hide Collected, Redact, OutputLines, CollectedCell, LeakingLine, IsPlainText;
    var line := LeakingLine(root, k);
    files := _ => Some(line);
    var rest := ["parse", "0", "parse.out"];
    LeakingLineIsOneLine(root, k);
    OneLineOfOutput("parse.out", line, files);
    LeakingLineIsCut(root, k);
    assert ParseInt("0") == Some(0) by { ZeroIsZero(); }
    assert rest[3..] == [];
    assert Emitted("openssl-3.5", "3.5.5", rest, files).Ok?;
    HarnessReadsOutcome("openssl-3.5", "3.5.5", rest, files, root, 0);
  }

  lemma ZeroIsZero()
    ensures ParseInt("0") == Some(0)
  {
    IntOfDecimal(0);
    assert Decimal(0) == "0";
  }
}
