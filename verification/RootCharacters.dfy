/**
  * Which root paths the redact-then-parse step of runners/harness.py works for: exactly those whose
  * characters JSON printing leaves as they are.
  */
module RootCharacters {
  import opened Wrappers
  import opened Sequences
  import opened Redaction
  import opened Json
  import opened RunnerPipeline
  import opened Emit

  /** The step redacts the strings of every object the emitter prints, whatever files it reads. */
  ghost predicate WorksForEveryReport(root: string, files: Files)
    requires IsAbsolute(root)
  {
    forall client: string, version: string, rest: seq<string> ::
      Emitted(client, version, rest, files).Ok? ==>
        var v := Emitted(client, version, rest, files).value;
        Collected(v, root) == Some(Collapse(RedactAll(v, root)))
  }

  // ----- Printed text is printable ASCII -----

  predicate IsPrintable(c: char) {
    ' ' <= c <= '~'
  }

  predicate IsPrintableText(s: string) {
    forall i :: 0 <= i < |s| ==> IsPrintable(s[i])
  }

  lemma PrintableConcat(a: string, b: string)
    requires IsPrintableText(a) && IsPrintableText(b)
    ensures IsPrintableText(a + b)
  {
  }

  lemma EscapedCharIsPrintable(c: char)
    ensures IsPrintableText(EscapeChar(c))
  {
    var n := c as int;
    if n < 0x10000 {
      UnicodeEscapeIsPrintable(n);
    } else {
      var v := n - 0x10000;
      UnicodeEscapeIsPrintable(0xD800 + v / 1024);
      UnicodeEscapeIsPrintable(0xDC00 + v % 1024);
    }
  }

  lemma UnicodeEscapeIsPrintable(n: nat)
    requires n < 0x10000
    ensures IsPrintableText(UnicodeEscape(n))
  {
  }

  lemma {:induction false} EscapedIsPrintable(s: string)
    ensures IsPrintableText(Escape(s))
  {
    hide EscapeChar;
    if s != "" {
      EscapedCharIsPrintable(s[0]);
      EscapedIsPrintable(s[1..]);
      PrintableConcat(EscapeChar(s[0]), Escape(s[1..]));
    }
  }

  lemma PrintedStringIsPrintable(s: string)
    ensures IsPrintableText(PrintString(s))
  {
    hide Escape;
    EscapedIsPrintable(s);
    PrintableConcat("\"", Escape(s));
    PrintableConcat("\"" + Escape(s), "\"");
  }

  lemma {:induction false} PrintedIsPrintable(v: Json)
    requires WellFormed(v)
    ensures IsPrintableText(Print(v))
    decreases v
  {
    hide PrintString;
    match v
    case Str(s) => PrintedStringIsPrintable(s);
    case Arr(items) =>
      PrintedItemsArePrintable(items);
      PrintableConcat("[", PrintItems(items));
      PrintableConcat("[" + PrintItems(items), "]");
    case Obj(members) =>
      PrintedMembersArePrintable(members);
      PrintableConcat("{", PrintMembers(members));
      PrintableConcat("{" + PrintMembers(members), "}");
    case _ =>
  }

  lemma {:induction false} PrintedItemsArePrintable(xs: Items)
    requires WellFormedItems(xs)
    ensures IsPrintableText(PrintItems(xs))
    decreases xs
  {
    hide Print, WellFormed;
    if xs.Item? {
      PrintedIsPrintable(xs.head);
      PrintedItemsArePrintable(xs.tail);
      PrintableConcat(Print(xs.head), ", ");
      PrintableConcat(Print(xs.head) + ", ", PrintItems(xs.tail));
    }
  }

  lemma {:induction false} PrintedMembersArePrintable(ms: Members)
    requires WellFormedMembers(ms)
    ensures IsPrintableText(PrintMembers(ms))
    decreases ms
  {
    hide Print, PrintString, WellFormed;
    if ms.Member? {
      PrintedStringIsPrintable(ms.key);
      PrintedIsPrintable(ms.value);
      PrintedMembersArePrintable(ms.tail);
      var front := PrintString(ms.key) + ": ";
      PrintableConcat(PrintString(ms.key), ": ");
      PrintableConcat(front, Print(ms.value));
      PrintableConcat(front + Print(ms.value), ", ");
      PrintableConcat(front + Print(ms.value) + ", ", PrintMembers(ms.tail));
    }
  }

  /**
    * A root with a character outside printable ASCII other than a line feed (an accented account
    * name, say) is never found: the harness collects every object unredacted.
    */
  lemma UnprintableRootIsNeverRedacted(v: Json, root: string, i: nat)
    requires IsAbsolute(root) && WellFormed(v)
    requires i < |root| && !IsPrintable(root[i]) && root[i] != '\n'
    ensures Collected(v, root) == Some(Collapse(v))
  {
    hide Print, Loads, WellFormed;
    var text := Print(v) + "\n";
    PrintedIsPrintable(v);
    forall q: nat ensures !OccursAt(root, text, q) {
      if q + i < |text| {
        assert text[q..][i] == text[q + i];
      }
    }
    KeepsTextsWithoutRoot(text, root);
    LoadsPrinted(v);
  }

  // ----- A root in its own escaped form -----

  function Backslashes(k: nat): (s: string)
    ensures |s| == k
  {
    seq(k, _ => '\\')
  }

  lemma {:induction false} EscapeAppend(a: string, b: string)
    ensures Escape(a + b) == Escape(a) + Escape(b)
  {
    hide EscapeChar;
    if a == "" {
      assert a + b == b;
    } else {
      assert (a + b)[1..] == a[1..] + b;
      EscapeAppend(a[1..], b);
    }
  }

  lemma {:induction false} EscapeBackslashes(k: nat)
    ensures Escape(Backslashes(k)) == Backslashes(2 * k)
  {
    if k > 0 {
      assert Backslashes(k)[1..] == Backslashes(k - 1);
      EscapeBackslashes(k - 1);
      assert Backslashes(2 * k) == "\\\\" + Backslashes(2 * (k - 1));
    }
  }

  /** Escaping a text never shortens it, and lengthens it unless every character is plain. */
  lemma {:induction false} EscapingLengthens(s: string)
    ensures |Escape(s)| >= |s|
    ensures !IsPlainText(s) ==> |Escape(s)| > |s|
  {
    if s != "" {
      EscapingLengthens(s[1..]);
      if IsPlainText(s[1..]) && IsPlain(s[0]) {
        assert s == [s[0]] + s[1..];
      }
    }
  }

  lemma {:induction false} EscapeKeepsSlashFree(s: string)
    requires '/' !in s
    ensures '/' !in Escape(s)
  {
    if s != "" {
      assert s[0] in s;
      EscapesHaveNoSlash(s[0]);
      EscapeKeepsSlashFree(s[1..]);
    }
  }

  lemma EscapeStart(s: string)
    requires s != ""
    ensures Escape(s) != "" && (Escape(s)[0] == '/' <==> s[0] == '/')
  {
    EscapesHaveNoSlash(s[0]);
  }

  lemma SlashInEscapeChar(c: char)
    ensures forall n: nat :: n < |EscapeChar(c)| && EscapeChar(c)[n] == '/' ==> n == 0
  {
    var e := EscapeChar(c);
    EscapesHaveNoSlash(c);
    assert forall n: nat :: n < |e| ==> e[n] in e;
  }

  /** A slash of escaped text stands for itself: from there on the text is an escaped rest. */
  lemma {:induction false} SlashStartsEscapedRest(s: string, n: nat) returns (b: nat)
    requires n < |Escape(s)| && Escape(s)[n] == '/'
    ensures b <= |s| && Escape(s)[n..] == Escape(s[b..])
    ensures n > 0 ==> b > 0
  {
    hide EscapeChar;
    var e, rest := EscapeChar(s[0]), Escape(s[1..]);
    assert Escape(s) == e + rest;
    if n == 0 {
      b := 0;
      assert s[0..] == s && Escape(s)[0..] == Escape(s);
    } else {
      assert n >= |e| by { SlashInEscapeChar(s[0]); }
      assert rest[n - |e|] == '/';
      var c := SlashStartsEscapedRest(s[1..], n - |e|);
      b := c + 1;
      assert s[1..][c..] == s[b..];
      assert Escape(s)[n..] == rest[n - |e|..];
    }
  }

  lemma DropFromPrefix(s: string, text: string, a: nat)
    requires a <= |s| && a <= |text|
    ensures s <= text ==> s[a..] <= text[a..]
  {
    if s <= text {
      assert s[a..] == text[a..][..|s| - a];
    }
  }

  lemma NotAtSlashFree(s: string, text: string)
    requires IsAbsolute(s) && '/' !in text
    ensures !(s <= text)
  {
    if text != "" {
      assert text[0] in text;
    }
  }

  /**
    * A text that starts with a slash is never a prefix of the escaped form of its own proper rest:
    * the rest would have the same property, and so on down to nothing.
    */
  lemma {:induction false} NotPrefixOfEscapedRest(s: string, a: nat, tail: string)
    requires IsAbsolute(s) && 1 <= a <= |s| && '/' !in tail
    ensures !(s <= Escape(s[a..]) + tail)
    decreases |s|
  {
    hide Escape;
    var t := s[a..];
    var e := Escape(t);
    var text := e + tail;
    if t == "" {
      assert e == "" by { EmptyEscape(); }
      assert text == tail;
      NotAtSlashFree(s, tail);
    } else {
      EscapeStart(t);
      if t[0] == '/' {
        assert s[a] == '/';
        if a < |e| && e[a] == '/' {
          var b := SlashStartsEscapedRest(t, a);
          NotPrefixOfEscapedRest(t, b, tail);
          DropFromPrefix(s, text, a);
          assert text[a..] == Escape(t[b..]) + tail;
        } else if a < |e| {
          assert text[a] == e[a] != s[a];
        } else if a < |text| {
          assert text[a] == tail[a - |e|] && tail[a - |e|] in tail;
        }
      } else {
        assert text[0] == e[0] != '/';
      }
    }
  }

  lemma EmptyEscape()
    ensures Escape("") == ""
  {
  }

  /** A root does not occur in its own escaped form past the start. */
  lemma RootIsNotInsideItsEscape(root: string, tail: string, j: nat)
    requires IsAbsolute(root) && '/' !in tail && j >= 1
    ensures !OccursAt(root, Escape(root) + tail, j)
  {
    hide Escape;
    var e := Escape(root);
    var text := e + tail;
    if j < |e| && e[j] == '/' {
      var b := SlashStartsEscapedRest(root, j);
      NotPrefixOfEscapedRest(root, b, tail);
      assert text[j..] == Escape(root[b..]) + tail;
    } else if j < |text| {
      assert j >= |e| ==> text[j] == tail[j - |e|] && tail[j - |e|] in tail;
      assert text[j..][0] == text[j] != '/';
    } else if j == |text| {
      assert text[j..] == "";
    }
  }

  lemma {:induction false} AllBackslashes(r: string, n: nat)
    requires r <= Backslashes(n) + Escape(r)
    requires n >= 1 || (r != "" && !IsPlain(r[0]))
    ensures r == Backslashes(|r|)
  {
    if r != "" {
      var text := Backslashes(n) + Escape(r);
      EscapesHaveNoSlash(r[0]);
      assert r[0] == text[0] == '\\';
      var rest := Escape(r[1..]);
      assert Escape(r) == "\\\\" + rest;
      assert text[1..] == Backslashes(n + 1) + rest;
      DropFromPrefix(r, text, 1);
      AllBackslashes(r[1..], n + 1);
      assert r == [r[0]] + r[1..];
    }
  }

  /** A text that its escaped form starts with is plain up to a run of backslashes at its end. */
  lemma {:induction false} StartsLikeItsEscape(r: string) returns (p: string, k: nat)
    requires r <= Escape(r)
    ensures IsPlainText(p) && r == p + Backslashes(k)
  {
    if r == "" {
      p, k := "", 0;
    } else {
      EscapesHaveNoSlash(r[0]);
      if IsPlain(r[0]) {
        assert Escape(r) == [r[0]] + Escape(r[1..]);
        DropFromPrefix(r, Escape(r), 1);
        var q;
        q, k := StartsLikeItsEscape(r[1..]);
        p := [r[0]] + q;
        assert r == [r[0]] + r[1..];
      } else {
        assert Backslashes(0) + Escape(r) == Escape(r);
        AllBackslashes(r, 0);
        p, k := "", |r|;
      }
    }
  }

  // ----- Every root that is not plain fails -----

  /** What the emitter prints for one skipped test with this reason. */
  function SkipReport(reason: string): Json {
    Report("openssl-3.5", "3.5.5", Member("parse", Cell("skip", reason), NoMember))
  }

  lemma SkipReportIsEmitted(reason: string, files: Files)
    ensures Emitted("openssl-3.5", "3.5.5", ["parse", "skip", reason], files) == Ok(SkipReport(reason))
  {
    var rest := ["parse", "skip", reason];
    assert rest[3..] == [];
    assert Tests(rest, NoMember, files) == Tests([], Member("parse", Cell("skip", reason), NoMember), files);
  }

  function Key(key: string): string {
    PrintString(key) + ": "
  }

  function Field(key: string, text: string): string {
    Key(key) + (PrintString(text) + ", ")
  }

  /** The printed text in front of the reason, and behind it. */
  function Front(): string {
    "{" + (Field("client", "openssl-3.5") + (Field("client_version", "3.5.5") + ((Key("tests") + "{")
      + ((Key("parse") + "{") + (Field("status", "skip") + (Key("detail") + "\""))))))
  }

  function Back(): string {
    "\"}}}\n"
  }

  lemma PrintField(key: string, text: string, more: Members)
    requires more.Member?
    ensures PrintMembers(Member(key, Str(text), more)) == Field(key, text) + PrintMembers(more)
  {
    hide PrintString;
    assert Print(Str(text)) == PrintString(text);
    assert PrintMembers(Member(key, Str(text), more))
        == PrintString(key) + ": " + PrintString(text) + ", " + PrintMembers(more);
  }

  lemma PrintLastText(key: string, text: string)
    ensures PrintMembers(Member(key, Str(text), NoMember)) == (Key(key) + "\"") + Escape(text) + "\""
  {
    hide Escape;
    assert Print(Str(text)) == "\"" + Escape(text) + "\"";
  }

  lemma PrintLastObject(key: string, ms: Members)
    ensures PrintMembers(Member(key, Obj(ms), NoMember)) == (Key(key) + "{") + PrintMembers(ms) + "}"
  {
    hide PrintString;
    assert Print(Obj(ms)) == "{" + PrintMembers(ms) + "}";
  }

  lemma Around(pre: string, front: string, middle: string, back: string, post: string)
    ensures pre + (front + middle + back) + post == (pre + front) + middle + (back + post)
  {
  }

  lemma PrintedSkipReport(reason: string)
    ensures Print(SkipReport(reason)) + "\n" == Front() + (Escape(reason) + Back())
  {
    hide Escape, PrintString, PrintMembers, Key, Field;
    var esc := Escape(reason);
    var detail := Member("detail", Str(reason), NoMember);
    var status := Member("status", Str("skip"), detail);
    var tests := Member("parse", Obj(status), NoMember);
    var last := Member("tests", Obj(tests), NoMember);
    var middle := Member("client_version", Str("3.5.5"), last);
    var first := Member("client", Str("openssl-3.5"), middle);
    var f0 := Key("detail") + "\"";
    var f1 := Field("status", "skip") + f0;
    var f2 := (Key("parse") + "{") + f1;
    var f3 := (Key("tests") + "{") + f2;
    var f4 := Field("client_version", "3.5.5") + f3;
    var f5 := Field("client", "openssl-3.5") + f4;
    PrintLastText("detail", reason);
    PrintField("status", "skip", detail);
    Around(Field("status", "skip"), f0, esc, "\"", "");
    PrintLastObject("parse", status);
    Around(Key("parse") + "{", f1, esc, "\"", "}");
    PrintLastObject("tests", tests);
    Around(Key("tests") + "{", f2, esc, "\"}", "}");
    PrintField("client_version", "3.5.5", last);
    Around(Field("client_version", "3.5.5"), f3, esc, "\"}}", "");
    PrintField("client", "openssl-3.5", middle);
    Around(Field("client", "openssl-3.5"), f4, esc, "\"}}", "");
    assert PrintMembers(first) == f5 + esc + "\"}}";
    assert Print(SkipReport(reason)) == "{" + PrintMembers(first) + "}";
    Around("{", f5, esc, "\"}}", "}\n");
    assert Print(SkipReport(reason)) + "\n" == "{" + PrintMembers(first) + "}\n";
  }

  lemma PlainText(s: string)
    requires IsPlainText(s)
    ensures PrintString(s) == "\"" + s + "\""
  {
    EscapeOfPlainFront(s, "");
    EmptyEscape();
    assert s + "" == s;
  }

  lemma PlainKey(s: string)
    requires IsPlainText(s)
    ensures Key(s) == "\"" + s + "\": "
  {
    hide PrintString;
    PlainText(s);
    assert "\"" + ": " == "\": ";
  }

  /** The line a runner prints for one skipped test, letter by letter. */
  lemma TextOfSkipReport(reason: string)
    requires IsPlainText(reason)
    ensures Print(SkipReport(reason)) + "\n"
         == "{" + (("\"client\": " + "\"openssl-3.5\", ") + (("\"client_version\": " + "\"3.5.5\", ") + ("\"tests\": {"
            + ("\"parse\": {" + (("\"status\": " + "\"skip\", ") + "\"detail\": \""))))) + (reason + "\"}}}\n")
  {
    hide PrintString, Key, Print, SkipReport, Front;
    PrintedSkipReport(reason);
    EscapeOfPlainFront(reason, "");
    EmptyEscape();
    assert reason + "" == reason;
    TextOfFront();
  }

  lemma TextOfFront()
    ensures Front()
         == "{" + (("\"client\": " + "\"openssl-3.5\", ") + (("\"client_version\": " + "\"3.5.5\", ") + ("\"tests\": {"
            + ("\"parse\": {" + (("\"status\": " + "\"skip\", ") + "\"detail\": \"")))))
  {
    hide Key, Field;
    TextOfClient();
    TextOfVersion();
    TextOfOpenings();
    TextOfStatus();
  }

  lemma TextOfClient()
    ensures Field("client", "openssl-3.5") == "\"client\": " + "\"openssl-3.5\", "
  {
    hide Field;
    PlainField("client", "openssl-3.5");
  }

  lemma TextOfVersion()
    ensures Field("client_version", "3.5.5") == "\"client_version\": " + "\"3.5.5\", "
  {
    hide Field;
    PlainField("client_version", "3.5.5");
  }

  lemma TextOfOpenings()
    ensures Key("tests") + "{" == "\"tests\": {" && Key("parse") + "{" == "\"parse\": {"
    ensures Key("detail") + "\"" == "\"detail\": \""
  {
    hide Key;
    PlainKey("tests");
    PlainKey("parse");
    PlainKey("detail");
  }

  lemma TextOfStatus()
    ensures Field("status", "skip") == "\"status\": " + "\"skip\", "
  {
    hide Field;
    PlainField("status", "skip");
  }

  lemma PlainField(key: string, text: string)
    requires IsPlainText(key) && IsPlainText(text)
    ensures Field(key, text) == ("\"" + key + "\": ") + ("\"" + text + "\", ")
  {
    hide PrintString, Key;
    PlainKey(key);
    PlainText(text);
  }

  lemma KeyIsSlashFree(key: string)
    requires '/' !in key
    ensures '/' !in PrintString(key) && '/' !in Key(key)
  {
    EscapeKeepsSlashFree(key);
  }

  lemma FieldIsSlashFree(key: string, text: string)
    requires '/' !in key && '/' !in text
    ensures '/' !in Field(key, text)
  {
    hide PrintString;
    KeyIsSlashFree(key);
    KeyIsSlashFree(text);
  }

  lemma FrontIsSlashFree()
    ensures '/' !in Front() && '/' !in Back()
  {
    hide PrintString, Key, Field;
    FieldIsSlashFree("client", "openssl-3.5");
    FieldIsSlashFree("client_version", "3.5.5");
    KeyIsSlashFree("tests");
    KeyIsSlashFree("parse");
    FieldIsSlashFree("status", "skip");
    KeyIsSlashFree("detail");
  }

  lemma RedactField(key: string, text: string, more: Members, root: string)
    requires IsAbsolute(root) && '/' !in key && '/' !in text
    ensures RedactMembers(Member(key, Str(text), more), root)
         == Member(key, Str(text), RedactMembers(more, root))
  {
    hide Redact;
    SlashFreeIsKept(key, root);
    SlashFreeIsKept(text, root);
  }

  lemma RedactObjectField(key: string, ms: Members, root: string)
    requires IsAbsolute(root) && '/' !in key
    ensures RedactMembers(Member(key, Obj(ms), NoMember), root)
         == Member(key, Obj(RedactMembers(ms, root)), NoMember)
  {
    hide Redact;
    SlashFreeIsKept(key, root);
    assert RedactAll(Obj(ms), root) == Obj(RedactMembers(ms, root));
  }

  lemma RedactLastText(key: string, text: string, root: string)
    requires IsAbsolute(root) && '/' !in key
    ensures RedactMembers(Member(key, Str(text), NoMember), root) == Member(key, Str(Redact(text, root)), NoMember)
  {
    hide Redact;
    SlashFreeIsKept(key, root);
  }

  lemma RedactSkipReport(reason: string, root: string)
    requires IsAbsolute(root)
    ensures RedactAll(SkipReport(reason), root) == SkipReport(Redact(reason, root))
  {
    hide Redact, RedactMembers;
    var detail := Member("detail", Str(reason), NoMember);
    var status := Member("status", Str("skip"), detail);
    var tests := Member("parse", Obj(status), NoMember);
    var last := Member("tests", Obj(tests), NoMember);
    var middle := Member("client_version", Str("3.5.5"), last);
    RedactLastText("detail", reason, root);
    RedactField("status", "skip", detail, root);
    RedactObjectField("parse", status, root);
    RedactObjectField("tests", tests, root);
    RedactField("client_version", "3.5.5", last, root);
    RedactField("client", "openssl-3.5", middle, root);
  }

  lemma SkipReportKeeps(reason: string, files: Files, root: string)
    requires IsAbsolute(root)
    ensures Collapse(SkipReport(reason)) == SkipReport(reason)
    ensures WellFormed(SkipReport(reason))
    ensures RedactAll(SkipReport(reason), root) == SkipReport(Redact(reason, root))
  {
    hide Redact, SkipReport;
    SkipReportIsEmitted(reason, files);
    EmittedIsDictionary("openssl-3.5", "3.5.5", ["parse", "skip", reason], files, root);
    DictionariesDoNotCollapse(SkipReport(reason));
    RedactSkipReport(reason, root);
  }

  lemma SlashFreeIsKept(text: string, root: string)
    requires IsAbsolute(root) && '/' !in text
    ensures Redact(text, root) == text
  {
    NoSlashNoRoot(text, root);
    KeepsTextsWithoutRoot(text, root);
  }

  /** A root that is not plain and that its escaped form starts with ends in backslashes, which double. */
  lemma EscapeEndsInBackslashes(root: string) returns (k: nat)
    requires !IsPlainText(root) && root <= Escape(root)
    ensures k > 0 && Escape(root) == root + Backslashes(k)
  {
    hide Escape;
    var p;
    p, k := StartsLikeItsEscape(root);
    assert k == 0 ==> root == p by { assert Backslashes(0) == ""; assert p + "" == p; }
    EscapeAppend(p, Backslashes(k));
    EscapeBackslashes(k);
    assert Escape(p) == p by { EscapeOfPlainFront(p, ""); EmptyEscape(); assert p + "" == p; }
    assert Backslashes(2 * k) == Backslashes(k) + Backslashes(k);
    Associate(p, Backslashes(k), Backslashes(k));
  }

  /** The text behind the escaped root, redacted: some reason that is not the placeholder and an "n". */
  lemma RedactedReason(root: string) returns (reason: string)
    requires IsAbsolute(root) && !IsPlainText(root)
    ensures Redact(Escape(root) + ("n" + Back()), root) == Escape(reason) + Back()
    ensures reason != REPO + "n"
  {
    hide Escape, Redact;
    var e, tail := Escape(root), "n" + Back();
    assert Escape("n") == "n" by { EscapesHaveNoSlash('n'); OneCharacter('n'); }
    FrontIsSlashFree();
    EscapingLengthens(root);
    if root <= e + tail {
      assert root <= e;
      var k := EscapeEndsInBackslashes(root);
      var rest := Backslashes(k) + tail;
      assert e + tail == root + rest;
      RedactAtRoot(e + tail, root);
      SlashFreeIsKept(rest, root);
      reason := MangledReason(k);
      assert Escape(reason) + Back() == REPO + rest;
    } else {
      forall j: nat ensures !OccursAt(root, e + tail, j) {
        if j > 0 {
          RootIsNotInsideItsEscape(root, tail, j);
        } else {
          assert (e + tail)[0..] == e + tail;
        }
      }
      KeepsTextsWithoutRoot(e + tail, root);
      reason := root + "n";
      EscapeAppend(root, "n");
      assert reason[0] == '/' != REPO[0];
    }
  }

  lemma OneCharacter(c: char)
    ensures Escape([c]) == EscapeChar(c)
  {
    assert Escape([c][1..]) == "";
  }

  /** What a run of k backslashes and an "n" behind the placeholder is read as. */
  lemma MangledReason(k: nat) returns (reason: string)
    requires k > 0
    ensures Escape(reason) == REPO + Backslashes(k) + "n"
    ensures reason != REPO + "n"
  {
    hide Escape;
    var half := k / 2;
    var last := if k % 2 == 0 then "n" else "\n";
    reason := REPO + (Backslashes(half) + last);
    EscapeOfPlainFront(REPO, Backslashes(half) + last);
    EscapeAppend(Backslashes(half), last);
    EscapeBackslashes(half);
    EscapesHaveNoSlash('n');
    OneCharacter('n');
    OneCharacter('\n');
    if k % 2 == 0 {
      assert |reason| > |REPO + "n"|;
    } else {
      assert reason[|reason| - 1] != 'n';
      assert Backslashes(k) + "n" == Backslashes(2 * half) + "\\n";
    }
  }

  /**
    * A root that is not plain fails at an object the emitter prints: a skipped test whose reason is
    * the root and one more letter is collected with a reason that is not the redacted one.
    */
  lemma SpecialRootFails(root: string, files: Files)
    requires IsAbsolute(root) && !IsPlainText(root)
    ensures var v := SkipReport(root + "n");
            && Emitted("openssl-3.5", "3.5.5", ["parse", "skip", root + "n"], files) == Ok(v)
            && Collected(v, root) != Some(Collapse(RedactAll(v, root)))
  {
    hide Loads, Redact, Escape, Front, Back, SkipReport, RedactAll, Collapse;
    var reason := root + "n";
    var v := SkipReport(reason);
    SkipReportIsEmitted(reason, files);
    PrintedSkipReport(reason);
    EscapeAppend(root, "n");
    assert Escape("n") == "n" by { EscapesHaveNoSlash('n'); OneCharacter('n'); }
    var inner := Escape(root) + ("n" + Back());
    assert Escape(reason) + Back() == inner;
    FrontIsSlashFree();
    KeepsSlashFreeFront(Front(), inner, root);
    var read := RedactedReason(root);
    PrintedSkipReport(read);
    SkipReportKeeps(read, files, root);
    LoadsPrinted(SkipReport(read));
    SkipReportKeeps(reason, files, root);
    assert Redact(reason, root) == REPO + "n" by {
      RedactAtRoot(reason, root);
      assert reason[|root|..] == "n";
      SlashFreeIsKept("n", root);
    }
    SkipReportKeeps(REPO + "n", files, root);
    SkipReportsDiffer(read, REPO + "n");
  }

  lemma SkipReportsDiffer(a: string, b: string)
    requires a != b
    ensures SkipReport(a) != SkipReport(b)
  {
  }

  /** The step works for every report exactly when every character of the root is printed as it is. */
  lemma WorksExactlyForPlainRoots(root: string, files: Files)
    requires IsAbsolute(root)
    ensures WorksForEveryReport(root, files) <==> IsPlainText(root)
  {
    hide Collected, Emitted, RedactAll, Collapse;
    if IsPlainText(root) {
      forall client: string, version: string, rest: seq<string> | Emitted(client, version, rest, files).Ok?
        ensures var v := Emitted(client, version, rest, files).value;
                Collected(v, root) == Some(Collapse(RedactAll(v, root)))
      {
        EmittedIsDictionary(client, version, rest, files, root);
        CollectsRedacted(Emitted(client, version, rest, files).value, root);
      }
    } else {
      SpecialRootFails(root, files);
    }
  }
}
