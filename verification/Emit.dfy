/**
  * The shared emitter runners/lib/emit.py: return codes and output files of one runner, turned into
  * the one JSON object that runners/harness.py redacts and reads.
  */
module Emit {
  import opened Wrappers
  import opened PythonText
  import opened Redaction
  import opened Json
  import opened RunnerPipeline

  datatype EmitError = IndexError | ValueError

  /** A file's decoded text, or None when opening it raises OSError. */
  type Files = string -> Option<string>

  /** The stripped lines that are not blank. */
  function NonBlankLines(lines: seq<string>): seq<string> {
    if lines == [] then []
    else (if Strip(lines[0]) != "" then [Strip(lines[0])] else []) + NonBlankLines(lines[1..])
  }

  function OutputLines(arg: string, files: Files): seq<string> {
    match files(arg)
    case None => []
    case Some(text) => NonBlankLines(SplitLines(Strip(text)))
  }

  function Truncate(s: string, n: nat): (t: string)
    ensures |t| <= n && t <= s
  {
    if |s| <= n then s else s[..n]
  }

  function Cell(status: string, detail: string): Json {
    Obj(Member("status", Str(status), Member("detail", Str(detail), NoMember)))
  }

  /** The last line of a success; the last two of a failure. */
  function Detail(ok: bool, lines: seq<string>): string {
    if lines == [] then ""
    else if ok || |lines| == 1 then lines[|lines| - 1]
    else lines[|lines| - 2] + " | " + lines[|lines| - 1]
  }

  function TestCell(rc: string, arg: string, files: Files): Result<Json, EmitError> {
    if rc == "skip" then Ok(Cell("skip", arg))
    else
      var lines := OutputLines(arg, files);
      match ParseInt(rc)
      case None => Err(ValueError)
      case Some(code) =>
        var ok := code == 0;
        Ok(Cell(if ok then "ok" else "fail", Truncate(Detail(ok, lines), 400)))
  }

  /** The tests dictionary after the groups of three from `rest`, on top of `done`. */
  function Tests(rest: seq<string>, done: Members, files: Files): Result<Members, EmitError>
    decreases |rest|
  {
    if rest == [] then Ok(done)
    else if |rest| < 3 then Err(IndexError)
    else
      match TestCell(rest[1], rest[2], files)
      case Err(e) => Err(e)
      case Ok(cell) => Tests(rest[3..], Put(done, rest[0], cell), files)
  }

  function Report(client: string, version: string, tests: Members): Json {
    Obj(Member("client", Str(client), Member("client_version", Str(version), Member("tests", Obj(tests), NoMember))))
  }

  /** The object printed for a client, a version and the groups of three after them. */
  function Emitted(client: string, version: string, rest: seq<string>, files: Files): Result<Json, EmitError> {
    match Tests(rest, NoMember, files)
    case Err(e) => Err(e)
    case Ok(tests) => Ok(Report(client, version, tests))
  }

  /** main, from the arguments after the script name to the printed object. */
  method EmitMain(args: seq<string>, files: Files) returns (r: Result<Json, EmitError>)
    ensures |args| < 2 ==> r == Err(IndexError)
    ensures |args| >= 2 ==> r == Emitted(args[0], args[1], args[2..], files)
  {
    hide TestCell;
    if |args| < 2 {
      return Err(IndexError);
    }
    var rest := args[2..];
    var tests := NoMember;
    var i := 0;
    assert rest[0..] == rest;
    while i < |rest|
      invariant 0 <= i <= |rest|
      invariant Tests(rest, NoMember, files) == Tests(rest[i..], tests, files)
    {
      if i + 2 >= |rest| {
        return Err(IndexError);
      }
      var name, rc, arg := rest[i], rest[i + 1], rest[i + 2];
      assert rest[i..][3..] == rest[i + 3..];
      var cell := TestCell(rc, arg, files);
      if cell.Err? {
        return Err(cell.error);
      }
      tests := Put(tests, name, cell.value);
      i := i + 3;
    }
    assert rest[i..] == [];
    r := Ok(Report(args[0], args[1], tests));
  }

  // ----- Exceptions -----

  /** The code of the k-th group is neither a skip nor a number. */
  predicate IsBadCode(rest: seq<string>, k: nat)
    requires 3 * k + 2 < |rest|
  {
    rest[3 * k + 1] != "skip" && ParseInt(rest[3 * k + 1]).None?
  }

  ghost predicate HasBadCode(rest: seq<string>) {
    exists k: nat :: 3 * k + 2 < |rest| && IsBadCode(rest, k)
  }

  lemma BadCodeOfRest(rest: seq<string>)
    requires |rest| >= 3
    ensures HasBadCode(rest) <==> IsBadCode(rest, 0) || HasBadCode(rest[3..])
  {
    hide ParseInt;
    if HasBadCode(rest) {
      var k: nat :| 3 * k + 2 < |rest| && IsBadCode(rest, k);
      if k > 0 {
        assert rest[3..][3 * (k - 1) + 1] == rest[3 * k + 1];
        assert IsBadCode(rest[3..], k - 1);
      }
    }
    if HasBadCode(rest[3..]) {
      var k: nat :| 3 * k + 2 < |rest[3..]| && IsBadCode(rest[3..], k);
      assert rest[3..][3 * k + 1] == rest[3 * (k + 1) + 1];
      assert IsBadCode(rest, k + 1);
    }
  }

  /**
    * A code that is no number raises ValueError; an incomplete last group raises IndexError, unless an
    * earlier code was bad.
    */
  lemma {:induction false} EmitExceptions(rest: seq<string>, done: Members, files: Files)
    ensures Tests(rest, done, files) == Err(ValueError) <==> HasBadCode(rest)
    ensures Tests(rest, done, files) == Err(IndexError) <==> |rest| % 3 != 0 && !HasBadCode(rest)
    decreases |rest|
  {
    hide TestCell, HasBadCode;
    if |rest| >= 3 {
      BadCodeOfRest(rest);
      CodeDecides(rest[1], rest[2], files);
      if TestCell(rest[1], rest[2], files).Ok? {
        EmitExceptions(rest[3..], Put(done, rest[0], TestCell(rest[1], rest[2], files).value), files);
      }
    } else {
      NoGroupNoCode(rest);
    }
  }

  lemma NoGroupNoCode(rest: seq<string>)
    requires |rest| < 3
    ensures !HasBadCode(rest)
  {
  }

  lemma CodeDecides(rc: string, arg: string, files: Files)
    ensures TestCell(rc, arg, files).Ok? <==> rc == "skip" || ParseInt(rc).Some?
    ensures TestCell(rc, arg, files).Err? ==> TestCell(rc, arg, files).error == ValueError
  {
    hide ParseInt, OutputLines, Detail;
  }

  // ----- The harness reads what was emitted -----

  /** A cell as `cell` makes it: one of the three statuses, and a short detail unless skipped. */
  ghost predicate IsCell(v: Json) {
    exists status, detail ::
      && v == Cell(status, detail)
      && (status == "skip" || ((status == "ok" || status == "fail") && |detail| <= 400))
  }

  ghost predicate AreCells(ms: Members) {
    ms.Member? ==> IsCell(ms.value) && AreCells(ms.tail)
  }

  lemma {:induction false} PutCell(ms: Members, key: string, v: Json)
    requires AreCells(ms) && IsDictionaryBody(ms) && IsCell(v)
    ensures AreCells(Put(ms, key, v)) && IsDictionaryBody(Put(ms, key, v))
    ensures forall k :: HasKey(Put(ms, key, v), k) <==> HasKey(ms, k) || k == key
  {
    hide IsCell;
    CellIsDictionary(v);
    if ms.Member? {
      PutCell(ms.tail, key, v);
    }
  }

  lemma CellIsDictionary(v: Json)
    requires IsCell(v)
    ensures IsDictionary(v) && WellFormed(v)
  {
    var ms := v.members;
    assert "status" != "detail";
    assert IsDictionaryBody(ms.tail) && WellFormedMembers(ms.tail) by {
      assert IsDictionaryBody(ms.tail.tail) && WellFormedMembers(ms.tail.tail);
    }
    assert !HasKey(ms.tail, ms.key);
  }

  lemma CellHasCleanKeys(v: Json, root: string)
    requires IsCell(v) && IsAbsolute(root)
    ensures CleanKeys(v, root)
  {
    var ms := v.members;
    NoSlashNoRoot("status", root);
    NoSlashNoRoot("detail", root);
    assert CleanKeysInMembers(ms.tail, root) by {
      assert CleanKeysInMembers(ms.tail.tail, root);
    }
  }

  /** The names among the arguments: the first of every three. */
  ghost predicate IsName(rest: seq<string>, name: string) {
    exists i :: 0 <= i && 3 * i < |rest| && rest[3 * i] == name
  }

  lemma {:induction false} TestsAreCells(rest: seq<string>, done: Members, files: Files)
    requires AreCells(done) && IsDictionaryBody(done)
    requires Tests(rest, done, files).Ok?
    ensures var tests := Tests(rest, done, files).value;
            && AreCells(tests) && IsDictionaryBody(tests)
            && (forall k :: HasKey(tests, k) <==> HasKey(done, k) || IsName(rest, k))
    decreases |rest|
  {
    hide TestCell, IsCell;
    if rest != [] {
      var cell := TestCell(rest[1], rest[2], files).value;
      TestCellIsCell(rest[1], rest[2], files);
      PutCell(done, rest[0], cell);
      TestsAreCells(rest[3..], Put(done, rest[0], cell), files);
      forall k ensures IsName(rest, k) <==> k == rest[0] || IsName(rest[3..], k) {
        NamesOfRest(rest, k);
      }
    }
  }

  lemma NamesOfRest(rest: seq<string>, k: string)
    requires |rest| >= 3
    ensures IsName(rest, k) <==> k == rest[0] || IsName(rest[3..], k)
  {
    if IsName(rest, k) {
      var i :| 0 <= i && 3 * i < |rest| && rest[3 * i] == k;
      if i > 0 {
        assert rest[3..][3 * (i - 1)] == k;
      }
    }
    if IsName(rest[3..], k) {
      var i :| 0 <= i && 3 * i < |rest[3..]| && rest[3..][3 * i] == k;
      assert rest[3 * (i + 1)] == k;
    }
    if k == rest[0] {
      assert rest[3 * 0] == k;
    }
  }

  function Lookup(ms: Members, key: string): Option<Json> {
    match ms
    case NoMember => None
    case Member(k, v, more) => if k == key then Some(v) else Lookup(more, key)
  }

  lemma {:induction false} LookupPut(ms: Members, key: string, v: Json, k: string)
    ensures Lookup(Put(ms, key, v), k) == if k == key then Some(v) else Lookup(ms, k)
  {
    if ms.Member? {
      LookupPut(ms.tail, key, v, k);
    }
  }

  /** The cell filed under a name is the one of the last group of three with that name. */
  lemma {:induction false} LastGroupWins(rest: seq<string>, done: Members, files: Files, i: nat)
    requires Tests(rest, done, files).Ok? && 3 * i < |rest|
    requires forall j :: i < j && 3 * j < |rest| ==> rest[3 * j] != rest[3 * i]
    ensures 3 * i + 2 < |rest|
    ensures TestCell(rest[3 * i + 1], rest[3 * i + 2], files).Ok?
    ensures Lookup(Tests(rest, done, files).value, rest[3 * i])
         == Some(TestCell(rest[3 * i + 1], rest[3 * i + 2], files).value)
    decreases |rest|
  {
    hide TestCell;
    var cell := TestCell(rest[1], rest[2], files).value;
    var tail, done' := rest[3..], Put(done, rest[0], cell);
    if i > 0 {
      assert tail[3 * (i - 1)] == rest[3 * i];
      forall j | i - 1 < j && 3 * j < |tail| ensures tail[3 * j] != tail[3 * (i - 1)] {
        assert tail[3 * j] == rest[3 * (j + 1)];
      }
      LastGroupWins(tail, done', files, i - 1);
    } else {
      LookupPut(done, rest[0], cell, rest[0]);
      forall j: nat | 3 * j < |tail| ensures tail[3 * j] != rest[0] {
        assert tail[3 * j] == rest[3 * (j + 1)];
      }
      OtherNamesKeep(tail, done', files, rest[0]);
    }
  }

  lemma {:induction false} OtherNamesKeep(rest: seq<string>, done: Members, files: Files, name: string)
    requires Tests(rest, done, files).Ok?
    requires forall j: nat :: 3 * j < |rest| ==> rest[3 * j] != name
    ensures Lookup(Tests(rest, done, files).value, name) == Lookup(done, name)
    decreases |rest|
  {
    hide TestCell;
    if rest != [] {
      var cell := TestCell(rest[1], rest[2], files).value;
      assert rest[3 * 0] != name;
      LookupPut(done, rest[0], cell, name);
      forall j: nat | 3 * j < |rest[3..]| ensures rest[3..][3 * j] != name {
        assert rest[3..][3 * j] == rest[3 * (j + 1)];
      }
      OtherNamesKeep(rest[3..], Put(done, rest[0], cell), files, name);
    }
  }

  lemma TestCellIsCell(rc: string, arg: string, files: Files)
    requires TestCell(rc, arg, files).Ok?
    ensures IsCell(TestCell(rc, arg, files).value)
  {
    hide OutputLines, ParseInt, Detail;
  }

  /** The keys of a cell are clean, so only the names matter. */
  lemma {:induction false} CellsHaveCleanKeys(ms: Members, root: string)
    requires IsAbsolute(root) && AreCells(ms)
    ensures CleanKeysInMembers(ms, root) <==> forall k :: HasKey(ms, k) ==> !Occurs(root, k)
    ensures WellFormedMembers(ms)
  {
    hide IsCell;
    if ms.Member? {
      CellsHaveCleanKeys(ms.tail, root);
      CellIsDictionary(ms.value);
      CellHasCleanKeys(ms.value, root);
      assert HasKey(ms, ms.key);
      assert forall k :: HasKey(ms, k) <==> k == ms.key || HasKey(ms.tail, k);
    }
  }

  lemma NoSlashNoRoot(s: string, root: string)
    requires IsAbsolute(root) && '/' !in s
    ensures !Occurs(root, s)
  {
    forall q: nat ensures !OccursAt(root, s, q) {
      if OccursAt(root, s, q) {
        OccursWhereItsFirstCharacterIs(root, s, q);
      }
    }
  }

  lemma OneMoreKey(key: string, v: Json, more: Members, root: string)
    requires IsAbsolute(root) && '/' !in key
    requires !HasKey(more, key) && IsDictionary(v) && IsDictionaryBody(more)
    requires WellFormed(v) && WellFormedMembers(more)
    ensures var ms := Member(key, v, more);
            && IsDictionaryBody(ms) && WellFormedMembers(ms)
            && (CleanKeysInMembers(ms, root) <==> CleanKeys(v, root) && CleanKeysInMembers(more, root))
            && forall k :: HasKey(ms, k) <==> k == key || HasKey(more, k)
  {
    hide Occurs, IsAbsolute;
    NoSlashNoRoot(key, root);
  }

  lemma ReportIsDictionary(client: string, version: string, tests: Members, root: string)
    requires IsAbsolute(root)
    requires IsDictionaryBody(tests) && WellFormedMembers(tests)
    ensures var v := Report(client, version, tests);
            && IsDictionary(v) && WellFormed(v)
            && (CleanKeys(v, root) <==> CleanKeysInMembers(tests, root))
  {
    hide HasKey, CleanKeysInMembers, IsDictionaryBody, WellFormedMembers;
    assert |"client"| == 6 && |"client_version"| == 14 && |"tests"| == 5;
    NoMembers(root);
    var last := Member("tests", Obj(tests), NoMember);
    OneMoreKey("tests", Obj(tests), NoMember, root);
    var middle := Member("client_version", Str(version), last);
    OneMoreKey("client_version", Str(version), last, root);
    OneMoreKey("client", Str(client), middle, root);
  }

  lemma NoMembers(root: string)
    requires IsAbsolute(root)
    ensures IsDictionaryBody(NoMember) && WellFormedMembers(NoMember) && CleanKeysInMembers(NoMember, root)
    ensures forall k :: !HasKey(NoMember, k)
  {
  }

  /** What is emitted is a dictionary with well-formed numbers, and its keys are clean when the names are. */
  lemma EmittedIsDictionary(client: string, version: string, rest: seq<string>, files: Files, root: string)
    requires IsAbsolute(root)
    requires Emitted(client, version, rest, files).Ok?
    ensures var v := Emitted(client, version, rest, files).value;
            && IsDictionary(v) && WellFormed(v)
            && (CleanKeys(v, root) <==> forall name :: IsName(rest, name) ==> !Occurs(root, name))
  {
    hide Tests, IsCell;
    var tests := Tests(rest, NoMember, files).value;
    TestsAreCells(rest, NoMember, files);
    CellsHaveCleanKeys(tests, root);
    ReportIsDictionary(client, version, tests, root);
  }

  /**
    * Whatever a runner emits, the harness collects it with exactly the string values redacted, for a
    * plain root, if and only if no test name contains the root; and nothing it collects contains a
    * root that the placeholder cannot rebuild.
    */
  lemma EmittedIsCollectedRedacted(client: string, version: string, rest: seq<string>, files: Files, root: string)
    requires IsAbsolute(root) && IsPlainText(root)
    requires Emitted(client, version, rest, files).Ok?
    ensures var v := Emitted(client, version, rest, files).value;
            && (Collected(v, root) == Some(RedactValues(v, root))
                <==> forall name :: IsName(rest, name) ==> !Occurs(root, name))
            && Collected(v, root).Some?
            && (!Rebuildable(root) ==> IsClean(Collected(v, root).value, root))
  {
    hide Tests, Rebuildable, Collected, IsPlainText, Redact, IsName, Report;
    EmittedIsDictionary(client, version, rest, files, root);
    CollectsRedactedValues(Emitted(client, version, rest, files).value, root);
  }

  // ----- The cell the harness reads -----

  function StatusOf(rc: string): string {
    if rc == "skip" then "skip" else if ParseInt(rc) == Some(0) then "ok" else "fail"
  }

  /** The detail of one test before it is cut: the reason of a skip, else the last lines of the output. */
  function FullDetail(rc: string, arg: string, files: Files): string {
    if rc == "skip" then arg else Detail(ParseInt(rc) == Some(0), OutputLines(arg, files))
  }

  function CutDetail(rc: string, arg: string, files: Files): string {
    if rc == "skip" then arg else Truncate(FullDetail(rc, arg, files), 400)
  }

  lemma TestCellIs(rc: string, arg: string, files: Files)
    requires TestCell(rc, arg, files).Ok?
    ensures TestCell(rc, arg, files).value == Cell(StatusOf(rc), CutDetail(rc, arg, files))
  {
    hide ParseInt, Detail, OutputLines, Truncate;
  }

  /** cell["tests"][name] in what the harness collected. */
  function CollectedCell(v: Json, name: string): Option<Json> {
    if !v.Obj? then None
    else
      match Lookup(v.members, "tests")
      case Some(Obj(tests)) => Lookup(tests, name)
      case _ => None
  }

  /** The value stored last under a key, which is the one a parser keeps. */
  function LookupLast(ms: Members, key: string): Option<Json> {
    match ms
    case NoMember => None
    case Member(k, v, more) =>
      if LookupLast(more, key).Some? then LookupLast(more, key) else if k == key then Some(v) else None
  }

  lemma {:induction false} LookupCollapsed(done: Members, ms: Members, key: string)
    ensures Lookup(PutAll(done, ms), key)
         == match LookupLast(ms, key)
            case Some(v) => Some(Collapse(v))
            case None => Lookup(done, key)
    decreases ms
  {
    hide Collapse;
    if ms.Member? {
      LookupPut(done, ms.key, Collapse(ms.value), key);
      LookupCollapsed(Put(done, ms.key, Collapse(ms.value)), ms.tail, key);
    }
  }

  lemma {:induction false} DictionaryLookup(ms: Members, key: string)
    requires IsDictionaryBody(ms)
    ensures LookupLast(ms, key) == Lookup(ms, key)
    ensures HasKey(ms, key) <==> Lookup(ms, key).Some?
  {
    if ms.Member? {
      DictionaryLookup(ms.tail, key);
    }
  }

  /** A key that redaction keeps and turns no other key into. */
  ghost predicate IsOwnKey(ms: Members, key: string, root: string)
    requires IsAbsolute(root)
  {
    Redact(key, root) == key && forall k :: HasKey(ms, k) && Redact(k, root) == key ==> k == key
  }

  lemma {:induction false} LookupRedacted(ms: Members, key: string, root: string)
    requires IsAbsolute(root) && IsOwnKey(ms, key, root)
    ensures LookupLast(RedactMembers(ms, root), key)
         == match LookupLast(ms, key)
            case None => None
            case Some(v) => Some(RedactAll(v, root))
  {
    hide Redact, RedactAll;
    if ms.Member? {
      assert HasKey(ms, ms.key);
      assert forall k :: HasKey(ms.tail, k) ==> HasKey(ms, k);
      LookupRedacted(ms.tail, key, root);
    }
  }

  /** What is collected under a key of a dictionary is the redacted value. */
  lemma LookupCollected(ms: Members, key: string, root: string)
    requires IsAbsolute(root) && IsOwnKey(ms, key, root) && IsDictionaryBody(ms)
    ensures Lookup(PutAll(NoMember, RedactMembers(ms, root)), key)
         == match Lookup(ms, key)
            case None => None
            case Some(v) => Some(Collapse(RedactAll(v, root)))
  {
    hide IsOwnKey, IsDictionaryBody, Collapse, RedactAll, RedactMembers, PutAll;
    LookupCollapsed(NoMember, RedactMembers(ms, root), key);
    LookupRedacted(ms, key, root);
    DictionaryLookup(ms, key);
  }

  /** A key without an opening angle bracket and without the root is its own, whatever the other keys are. */
  lemma PlainKeyIsOwn(ms: Members, key: string, root: string)
    requires IsAbsolute(root) && '<' !in key && !Occurs(root, key)
    ensures IsOwnKey(ms, key, root)
  {
    hide Redact, Occurs;
    KeepsTextsWithoutRoot(key, root);
    forall k | HasKey(ms, k) && Redact(k, root) == key ensures k == key {
      if Occurs(root, k) { RedactionShows(k, root); }
      KeepsExactlyTextsWithoutRoot(k, root);
    }
  }

  lemma CollectedCellOf(status: string, detail: string, root: string)
    requires IsAbsolute(root) && (status == "skip" || status == "ok" || status == "fail")
    ensures Collapse(RedactAll(Cell(status, detail), root)) == Cell(status, Redact(detail, root))
  {
    hide Redact, Collapse;
    forall s | s in {"status", "detail", status} ensures Redact(s, root) == s {
      NoSlashNoRoot(s, root);
      KeepsTextsWithoutRoot(s, root);
    }
    var redacted := Cell(status, Redact(detail, root));
    var rest := Member("detail", Str(detail), NoMember);
    assert RedactMembers(rest, root) == Member("detail", Str(Redact(detail, root)), NoMember);
    var all := Member("status", Str(status), rest);
    assert RedactMembers(all, root) == Member("status", Str(status), RedactMembers(rest, root));
    assert RedactAll(Obj(all), root) == redacted;
    TwoKeys(status, Redact(detail, root), root);
    DictionariesDoNotCollapse(redacted);
  }

  lemma TwoKeys(status: string, detail: string, root: string)
    requires IsAbsolute(root)
    ensures IsDictionary(Cell(status, detail))
  {
    hide HasKey, CleanKeysInMembers, IsDictionaryBody, WellFormedMembers;
    assert "status"[0] != "detail"[0];
    NoMembers(root);
    OneMoreKey("detail", Str(detail), NoMember, root);
    OneMoreKey("status", Str(status), Member("detail", Str(detail), NoMember), root);
  }

  lemma ReportMembers(client: string, version: string, tests: Members, root: string)
    requires IsAbsolute(root) && IsDictionaryBody(tests) && WellFormedMembers(tests)
    ensures Report(client, version, tests).Obj? && IsDictionaryBody(Report(client, version, tests).members)
    ensures Lookup(Report(client, version, tests).members, "tests") == Some(Obj(tests))
  {
    ReportIsDictionary(client, version, tests, root);
    assert |"client"| == 6 && |"client_version"| == 14 && |"tests"| == 5;
    assert Lookup(Member("tests", Obj(tests), NoMember), "tests") == Some(Obj(tests));
  }

  /**
    * From return code and output to what the harness reads: after printing, redacting and parsing,
    * the cell under a name is the status of the return code of the last group with that name and its
    * redacted detail, provided redaction keeps the name and makes no other test name into it.
    */
  lemma HarnessReadsCell(client: string, version: string, rest: seq<string>, files: Files, root: string, i: nat)
    requires IsAbsolute(root) && IsPlainText(root)
    requires Emitted(client, version, rest, files).Ok? && 3 * i + 2 < |rest|
    requires Redact(rest[3 * i], root) == rest[3 * i]
    requires forall name :: IsName(rest, name) && Redact(name, root) == rest[3 * i] ==> name == rest[3 * i]
    requires forall j :: i < j && 3 * j < |rest| ==> rest[3 * j] != rest[3 * i]
    ensures var v := Emitted(client, version, rest, files).value;
            && Collected(v, root).Some?
            && CollectedCell(Collected(v, root).value, rest[3 * i])
               == Some(Cell(StatusOf(rest[3 * i + 1]),
                            Redact(CutDetail(rest[3 * i + 1], rest[3 * i + 2], files), root)))
  {
    hide Tests, TestCell, Collected, IsPlainText, Redact, IsName, StatusOf, CutDetail, IsCell, Cell, PutAll,
         RedactMembers, IsDictionaryBody, Report;
    var name, rc, arg := rest[3 * i], rest[3 * i + 1], rest[3 * i + 2];
    var tests := Tests(rest, NoMember, files).value;
    var v := Report(client, version, tests);
    EmittedIsDictionary(client, version, rest, files, root);
    CollectsRedacted(v, root);
    LastGroupWins(rest, NoMember, files, i);
    TestCellIs(rc, arg, files);
    NoMembers(root);
    TestsAreCells(rest, NoMember, files);
    CellsHaveCleanKeys(tests, root);
    ReportMembers(client, version, tests, root);
    CollectedCellUnder(v, tests, name, root);
    CollectedCellOf(StatusOf(rc), CutDetail(rc, arg, files), root) by { StatusIsOneOfThree(rc); }
  }

  lemma StatusIsOneOfThree(rc: string)
    ensures StatusOf(rc) == "skip" || StatusOf(rc) == "ok" || StatusOf(rc) == "fail"
  {
    hide ParseInt;
  }

  lemma CollectedCellUnder(v: Json, tests: Members, name: string, root: string)
    requires IsAbsolute(root) && v.Obj? && IsDictionaryBody(v.members) && IsDictionaryBody(tests)
    requires Lookup(v.members, "tests") == Some(Obj(tests))
    requires IsOwnKey(tests, name, root)
    ensures CollectedCell(Collapse(RedactAll(v, root)), name)
         == match Lookup(tests, name)
            case None => None
            case Some(cell) => Some(Collapse(RedactAll(cell, root)))
  {
    hide IsOwnKey, IsDictionaryBody, PutAll, RedactMembers;
    NoSlashNoRoot("tests", root);
    PlainKeyIsOwn(v.members, "tests", root);
    LookupCollected(v.members, "tests", root);
    LookupCollected(tests, name, root);
    var redacted := Obj(RedactMembers(tests, root));
    assert RedactAll(Obj(tests), root) == redacted;
    assert Collapse(redacted) == Obj(PutAll(NoMember, RedactMembers(tests, root)));
    assert Collapse(RedactAll(v, root)) == Obj(PutAll(NoMember, RedactMembers(v.members, root)));
  }

  /** The names the harness prints the outcome of are never confused with others. */
  lemma HarnessReadsOutcome(client: string, version: string, rest: seq<string>, files: Files, root: string, i: nat)
    requires IsAbsolute(root) && IsPlainText(root)
    requires Emitted(client, version, rest, files).Ok? && 3 * i + 2 < |rest|
    requires rest[3 * i] in {"parse", "verify", "handshake"}
    requires forall j :: i < j && 3 * j < |rest| ==> rest[3 * j] != rest[3 * i]
    ensures var v := Emitted(client, version, rest, files).value;
            && Collected(v, root).Some?
            && CollectedCell(Collected(v, root).value, rest[3 * i])
               == Some(Cell(StatusOf(rest[3 * i + 1]),
                            Redact(CutDetail(rest[3 * i + 1], rest[3 * i + 2], files), root)))
  {
    hide Tests, Collected, IsPlainText, Redact, IsName, StatusOf, CutDetail, Cell, Emitted, CollectedCell;
    var name := rest[3 * i];
    assert '<' !in name && '/' !in name;
    NoSlashNoRoot(name, root);
    KeepsTextsWithoutRoot(name, root);
    forall other | IsName(rest, other) && Redact(other, root) == name ensures other == name {
      if Occurs(root, other) { RedactionShows(other, root); }
      KeepsExactlyTextsWithoutRoot(other, root);
    }
    HarnessReadsCell(client, version, rest, files, root, i);
  }
}
