/**
  * The step of runners/harness.py that redacts a runner's printed JSON before parsing it. The
  * replacement works on the text, so whether it amounts to redacting the strings of the object
  * depends on the characters of the root path.
  */
module RunnerPipeline {
  import opened Wrappers
  import opened Redaction
  import opened Json

  // ----- Redacting a value -----

  /** Every string of the value redacted, keys included. */
  function RedactAll(v: Json, root: string): Json
    requires IsAbsolute(root)
  {
    match v
    case Str(s) => Str(Redact(s, root))
    case Arr(items) => Arr(RedactItems(items, root))
    case Obj(members) => Obj(RedactMembers(members, root))
    case _ => v
  }

  function RedactItems(xs: Items, root: string): Items
    requires IsAbsolute(root)
  {
    match xs
    case NoItem => NoItem
    case Item(v, more) => Item(RedactAll(v, root), RedactItems(more, root))
  }

  function RedactMembers(ms: Members, root: string): Members
    requires IsAbsolute(root)
  {
    match ms
    case NoMember => NoMember
    case Member(k, v, more) => Member(Redact(k, root), RedactAll(v, root), RedactMembers(more, root))
  }

  predicate IsPlainText(s: string) {
    forall i :: 0 <= i < |s| ==> IsPlain(s[i])
  }

  // ----- Redaction of concatenated text -----

  /** Text without a slash in front of some text is kept. */
  lemma {:induction false} KeepsSlashFreeFront(front: string, rest: string, root: string)
    requires IsAbsolute(root) && '/' !in front
    ensures Redact(front + rest, root) == front + Redact(rest, root)
  {
    if front == "" {
      assert front + rest == rest;
    } else {
      var text := front + rest;
      assert text[0] == front[0] && front[0] in front;
      assert text[1..] == front[1..] + rest;
      KeepsSlashFreeFront(front[1..], rest, root);
      assert front == [front[0]] + front[1..];
    }
  }

  /** No occurrence of a root without quotes crosses a quote. */
  lemma {:induction false} SplitsAtQuote(front: string, rest: string, root: string)
    requires IsAbsolute(root) && '\"' !in root
    ensures Redact(front + "\"" + rest, root) == Redact(front, root) + "\"" + Redact(rest, root)
    decreases |front|
  {
    var text := front + "\"" + rest;
    if front == "" {
      assert text == "\"" + rest;
      KeepsSlashFreeFront("\"", rest, root);
    } else {
      PrefixStopsAtQuote(front, rest, root);
      if root <= front {
        assert text[|root|..] == front[|root|..] + "\"" + rest;
        SplitsAtQuote(front[|root|..], rest, root);
      } else {
        assert text[1..] == front[1..] + "\"" + rest;
        SplitsAtQuote(front[1..], rest, root);
      }
    }
  }

  lemma PrefixStopsAtQuote(front: string, rest: string, root: string)
    requires '\"' !in root
    ensures root <= front + "\"" + rest <==> root <= front
  {
    var text := front + "\"" + rest;
    if |root| > |front| {
      assert root[|front|] in root;
      assert text[|front|] == '\"';
    } else {
      assert text[..|root|] == front[..|root|];
    }
  }

  // ----- Redaction and escaping -----

  lemma EscapesHaveNoSlash(c: char)
    ensures IsPlain(c) ==> EscapeChar(c) == [c]
    ensures !IsPlain(c) ==> '/' !in EscapeChar(c) && EscapeChar(c)[0] == '\\'
  {
  }

  lemma {:induction false} PlainPrefixOfEscaped(p: string, s: string)
    requires IsPlainText(p)
    ensures p <= Escape(s) <==> p <= s
  {
    if p != "" && s != "" {
      EscapesHaveNoSlash(s[0]);
      var e := Escape(s);
      if IsPlain(s[0]) {
        PlainPrefixOfEscaped(p[1..], s[1..]);
        assert e == [s[0]] + Escape(s[1..]);
        ConsPrefix(p, e);
        ConsPrefix(p, s);
      } else {
        assert p[0] != e[0];
      }
    }
  }

  lemma ConsPrefix(p: string, s: string)
    requires p != "" && s != ""
    ensures p <= s <==> p[0] == s[0] && p[1..] <= s[1..]
  {
    if p[0] == s[0] && p[1..] <= s[1..] {
      assert p == [p[0]] + p[1..] && s == [s[0]] + s[1..];
    } else if p <= s {
      PrefixOfTail(p, s);
    }
  }

  lemma {:induction false} EscapeOfPlainFront(p: string, s: string)
    requires IsPlainText(p)
    ensures Escape(p + s) == p + Escape(s)
  {
    hide EscapeChar;
    if p == "" {
      assert p + s == s;
    } else {
      assert (p + s)[1..] == p[1..] + s;
      EscapesHaveNoSlash(p[0]);
      EscapeOfPlainFront(p[1..], s);
      assert p == [p[0]] + p[1..];
    }
  }

  /** Escaping commutes with redaction when every character of the root is printed as it is. */
  lemma {:induction false} RedactEscaped(s: string, root: string)
    requires IsAbsolute(root) && IsPlainText(root)
    ensures Redact(Escape(s), root) == Escape(Redact(s, root))
    decreases |s|
  {
    if s != "" {
      PlainPrefixOfEscaped(root, s);
      if root <= s {
        var rest := s[|root|..];
        assert s == root + rest;
        EscapeOfPlainFront(root, rest);
        assert (root + Escape(rest))[|root|..] == Escape(rest);
        RedactEscaped(rest, root);
        EscapeOfPlainFront(REPO, Redact(rest, root));
      } else {
        EscapesHaveNoSlash(s[0]);
        RedactEscaped(s[1..], root);
        var e, tail := EscapeChar(s[0]), Escape(s[1..]);
        if IsPlain(s[0]) {
          assert Escape(s) == [s[0]] + tail;
          assert Escape(s)[1..] == tail;
        } else {
          KeepsSlashFreeFront(e, tail, root);
        }
      }
    }
  }

  // ----- Redaction of printed values -----

  lemma RedactPrintedString(s: string, rest: string, root: string)
    requires IsAbsolute(root) && IsPlainText(root)
    ensures Redact(PrintString(s) + rest, root) == PrintString(Redact(s, root)) + Redact(rest, root)
  {
    hide Replace, Escape;
    var body := Escape(s) + "\"" + rest;
    assert PrintString(s) + rest == "\"" + body;
    KeepsSlashFreeFront("\"", body, root);
    SplitsAtQuote(Escape(s), rest, root);
    RedactEscaped(s, root);
  }

  /** Redacting the print of a value is printing the redacted value, whatever text follows. */
  lemma {:induction false} RedactPrinted(v: Json, rest: string, root: string)
    requires IsAbsolute(root) && IsPlainText(root) && WellFormed(v)
    ensures Redact(Print(v) + rest, root) == Print(RedactAll(v, root)) + Redact(rest, root)
    decreases v, 1
  {
    hide Redact, PrintString, PrintItems, PrintMembers, RedactItems, RedactMembers, IsPlainText;
    match v
    case Null => KeepsSlashFreeFront("null", rest, root);
    case Bool(b) => KeepsSlashFreeFront(Print(v), rest, root);
    case Num(t) => KeepsSlashFreeFront(t, rest, root);
    case Str(s) => RedactPrintedString(s, rest, root);
    case Arr(items) =>
      RedactPrintedItems(items, "]" + rest, root);
      RedactBrackets("[", PrintItems(items), PrintItems(RedactItems(items, root)), "]", rest, root);
    case Obj(members) =>
      RedactPrintedMembers(members, "}" + rest, root);
      RedactBrackets("{", PrintMembers(members), PrintMembers(RedactMembers(members, root)), "}", rest, root);
  }

  lemma RedactBrackets(open: string, inner: string, inner': string, close: string, rest: string, root: string)
    requires IsAbsolute(root) && '/' !in open && '/' !in close
    requires Redact(inner + (close + rest), root) == inner' + Redact(close + rest, root)
    ensures Redact(open + inner + close + rest, root) == open + inner' + close + Redact(rest, root)
  {
    hide Redact;
    KeepsSlashFreeFront(open, inner + (close + rest), root);
    KeepsSlashFreeFront(close, rest, root);
    assert open + inner + close + rest == open + (inner + (close + rest));
  }

  lemma {:induction false} RedactPrintedItems(xs: Items, rest: string, root: string)
    requires IsAbsolute(root) && IsPlainText(root) && WellFormedItems(xs)
    ensures Redact(PrintItems(xs) + rest, root) == PrintItems(RedactItems(xs, root)) + Redact(rest, root)
    decreases xs, 0
  {
    hide Redact, Print, RedactAll, WellFormed;
    match xs
    case NoItem =>
      assert "" + rest == rest;
    case Item(v, NoItem) => RedactPrinted(v, rest, root);
    case Item(v, more) =>
      var tail := PrintItems(more) + rest;
      assert PrintItems(xs) + rest == Print(v) + (", " + tail);
      RedactPrinted(v, ", " + tail, root);
      KeepsSlashFreeFront(", ", tail, root);
      RedactPrintedItems(more, rest, root);
  }

  lemma {:induction false} RedactPrintedMembers(ms: Members, rest: string, root: string)
    requires IsAbsolute(root) && IsPlainText(root) && WellFormedMembers(ms)
    ensures Redact(PrintMembers(ms) + rest, root) == PrintMembers(RedactMembers(ms, root)) + Redact(rest, root)
    decreases ms, 0
  {
    hide Redact, Print, RedactAll, WellFormed, PrintString;
    match ms
    case NoMember =>
      assert "" + rest == rest;
    case Member(k, v, more) =>
      var tail := if more.NoMember? then rest else ", " + (PrintMembers(more) + rest);
      assert PrintMembers(ms) + rest == PrintString(k) + (": " + (Print(v) + tail));
      RedactPrintedString(k, ": " + (Print(v) + tail), root);
      KeepsSlashFreeFront(": ", Print(v) + tail, root);
      RedactPrinted(v, tail, root);
      if more.Member? {
        KeepsSlashFreeFront(", ", PrintMembers(more) + rest, root);
        RedactPrintedMembers(more, rest, root);
      }
  }

  lemma {:induction false} RedactionKeepsNumbers(v: Json, root: string)
    requires IsAbsolute(root) && WellFormed(v)
    ensures WellFormed(RedactAll(v, root))
  {
    match v
    case Arr(items) => RedactionKeepsNumbersInItems(items, root);
    case Obj(members) => RedactionKeepsNumbersInMembers(members, root);
    case _ =>
  }

  lemma {:induction false} RedactionKeepsNumbersInItems(xs: Items, root: string)
    requires IsAbsolute(root) && WellFormedItems(xs)
    ensures WellFormedItems(RedactItems(xs, root))
  {
    if xs.Item? {
      RedactionKeepsNumbers(xs.head, root);
      RedactionKeepsNumbersInItems(xs.tail, root);
    }
  }

  lemma {:induction false} RedactionKeepsNumbersInMembers(ms: Members, root: string)
    requires IsAbsolute(root) && WellFormedMembers(ms)
    ensures WellFormedMembers(RedactMembers(ms, root))
  {
    if ms.Member? {
      RedactionKeepsNumbers(ms.value, root);
      RedactionKeepsNumbersInMembers(ms.tail, root);
    }
  }

  /** What the harness reads from a runner that prints v and a newline. */
  function Collected(v: Json, root: string): Option<Json>
    requires IsAbsolute(root)
  {
    Loads(Redact(Print(v) + "\n", root))
  }

  /** For a plain root: redacting the text and parsing it is redacting every string, keys included. */
  lemma CollectsRedacted(v: Json, root: string)
    requires IsAbsolute(root) && IsPlainText(root) && WellFormed(v)
    ensures Collected(v, root) == Some(Collapse(RedactAll(v, root)))
  {
    hide Redact, Print, Loads;
    RedactPrinted(v, "\n", root);
    KeepsSlashFreeFront("\n", "", root);
    assert "\n" + Redact("", root) == "\n" by { EmptyIsKept(root); }
    assert "\n" + "" == "\n";
    RedactionKeepsNumbers(v, root);
    LoadsPrinted(RedactAll(v, root));
  }

  lemma EmptyIsKept(root: string)
    requires IsAbsolute(root)
    ensures Redact("", root) == ""
  {
  }

  // ----- Dictionaries -----

  predicate HasKey(ms: Members, key: string) {
    ms.Member? && (ms.key == key || HasKey(ms.tail, key))
  }

  /** Every object of the value is a dictionary: no key is repeated. */
  predicate IsDictionary(v: Json) {
    match v
    case Arr(items) => AreDictionaries(items)
    case Obj(members) => IsDictionaryBody(members)
    case _ => true
  }

  predicate AreDictionaries(xs: Items) {
    xs.Item? ==> IsDictionary(xs.head) && AreDictionaries(xs.tail)
  }

  predicate IsDictionaryBody(ms: Members) {
    ms.Member? ==> !HasKey(ms.tail, ms.key) && IsDictionary(ms.value) && IsDictionaryBody(ms.tail)
  }

  lemma {:induction false} DictionariesDoNotCollapse(v: Json)
    requires IsDictionary(v)
    ensures Collapse(v) == v
  {
    match v
    case Arr(items) => ItemsDoNotCollapse(items);
    case Obj(members) =>
      StoringAppends(NoMember, members);
    case _ =>
  }

  lemma {:induction false} ItemsDoNotCollapse(xs: Items)
    requires AreDictionaries(xs)
    ensures CollapseItems(xs) == xs
  {
    if xs.Item? {
      DictionariesDoNotCollapse(xs.head);
      ItemsDoNotCollapse(xs.tail);
    }
  }

  function Append(a: Members, b: Members): Members {
    match a
    case NoMember => b
    case Member(k, v, more) => Member(k, v, Append(more, b))
  }

  lemma {:induction false} PutNewKey(ms: Members, key: string, value: Json, more: Members)
    requires !HasKey(ms, key)
    ensures Append(Put(ms, key, value), more) == Append(ms, Member(key, value, more))
    ensures forall k :: HasKey(Put(ms, key, value), k) <==> HasKey(ms, k) || k == key
  {
    if ms.Member? {
      PutNewKey(ms.tail, key, value, more);
    }
  }

  /** Storing members under fresh, distinct keys appends them. */
  lemma {:induction false} StoringAppends(done: Members, ms: Members)
    requires IsDictionaryBody(ms)
    requires forall k :: HasKey(ms, k) ==> !HasKey(done, k)
    ensures PutAll(done, ms) == Append(done, ms)
    decreases ms
  {
    if ms.Member? {
      DictionariesDoNotCollapse(ms.value);
      assert HasKey(ms, ms.key);
      PutNewKey(done, ms.key, ms.value, ms.tail);
      forall k | HasKey(ms.tail, k) ensures !HasKey(Put(done, ms.key, ms.value), k) {
        assert HasKey(ms, k);
      }
      StoringAppends(Put(done, ms.key, ms.value), ms.tail);
    } else {
      AppendNothing(done);
    }
  }

  lemma {:induction false} AppendNothing(ms: Members)
    ensures Append(ms, NoMember) == ms
  {
    if ms.Member? {
      AppendNothing(ms.tail);
    }
  }

  // ----- Keys -----

  /** The string values redacted, the keys as they are: what the harness wants from a runner. */
  function RedactValues(v: Json, root: string): Json
    requires IsAbsolute(root)
  {
    match v
    case Str(s) => Str(Redact(s, root))
    case Arr(items) => Arr(RedactValueItems(items, root))
    case Obj(members) => Obj(RedactValueMembers(members, root))
    case _ => v
  }

  function RedactValueItems(xs: Items, root: string): Items
    requires IsAbsolute(root)
  {
    match xs
    case NoItem => NoItem
    case Item(v, more) => Item(RedactValues(v, root), RedactValueItems(more, root))
  }

  function RedactValueMembers(ms: Members, root: string): Members
    requires IsAbsolute(root)
  {
    match ms
    case NoMember => NoMember
    case Member(k, v, more) => Member(k, RedactValues(v, root), RedactValueMembers(more, root))
  }

  ghost predicate CleanKeys(v: Json, root: string) {
    match v
    case Arr(items) => CleanKeysInItems(items, root)
    case Obj(members) => CleanKeysInMembers(members, root)
    case _ => true
  }

  ghost predicate CleanKeysInItems(xs: Items, root: string) {
    xs.Item? ==> CleanKeys(xs.head, root) && CleanKeysInItems(xs.tail, root)
  }

  ghost predicate CleanKeysInMembers(ms: Members, root: string) {
    ms.Member? ==> !Occurs(root, ms.key) && CleanKeys(ms.value, root) && CleanKeysInMembers(ms.tail, root)
  }

  /** No string and no key contains the root. */
  ghost predicate IsClean(v: Json, root: string) {
    match v
    case Str(s) => !Occurs(root, s)
    case Arr(items) => AreClean(items, root)
    case Obj(members) => IsCleanBody(members, root)
    case _ => true
  }

  ghost predicate AreClean(xs: Items, root: string) {
    xs.Item? ==> IsClean(xs.head, root) && AreClean(xs.tail, root)
  }

  ghost predicate IsCleanBody(ms: Members, root: string) {
    ms.Member? ==> !Occurs(root, ms.key) && IsClean(ms.value, root) && IsCleanBody(ms.tail, root)
  }

  /** Redacting the values changes no key, so it keeps dictionaries and clean keys. */
  lemma {:induction false} ValuesKeepKeys(v: Json, root: string)
    requires IsAbsolute(root)
    ensures IsDictionary(v) ==> IsDictionary(RedactValues(v, root))
    ensures CleanKeys(RedactValues(v, root), root) <==> CleanKeys(v, root)
    ensures CleanKeys(v, root) ==> RedactAll(v, root) == RedactValues(v, root)
  {
    match v
    case Arr(items) => ValueItemsKeepKeys(items, root);
    case Obj(members) => ValueMembersKeepKeys(members, root);
    case _ =>
  }

  lemma {:induction false} ValueItemsKeepKeys(xs: Items, root: string)
    requires IsAbsolute(root)
    ensures AreDictionaries(xs) ==> AreDictionaries(RedactValueItems(xs, root))
    ensures CleanKeysInItems(RedactValueItems(xs, root), root) <==> CleanKeysInItems(xs, root)
    ensures CleanKeysInItems(xs, root) ==> RedactItems(xs, root) == RedactValueItems(xs, root)
  {
    if xs.Item? {
      ValuesKeepKeys(xs.head, root);
      ValueItemsKeepKeys(xs.tail, root);
    }
  }

  lemma {:induction false} ValueMembersKeepKeys(ms: Members, root: string)
    requires IsAbsolute(root)
    ensures IsDictionaryBody(ms) ==> IsDictionaryBody(RedactValueMembers(ms, root))
    ensures forall k :: HasKey(RedactValueMembers(ms, root), k) <==> HasKey(ms, k)
    ensures CleanKeysInMembers(RedactValueMembers(ms, root), root) <==> CleanKeysInMembers(ms, root)
    ensures CleanKeysInMembers(ms, root) ==> RedactMembers(ms, root) == RedactValueMembers(ms, root)
  {
    if ms.Member? {
      ValuesKeepKeys(ms.value, root);
      ValueMembersKeepKeys(ms.tail, root);
      if !Occurs(root, ms.key) {
        KeepsTextsWithoutRoot(ms.key, root);
      }
    }
  }

  lemma {:induction false} CollectedIsClean(v: Json, root: string)
    requires IsAbsolute(root) && !Rebuildable(root)
    ensures IsClean(Collapse(RedactAll(v, root)), root)
  {
    match v
    case Str(s) => RootIsGone(s, root);
    case Arr(items) => CollectedItemsAreClean(items, root);
    case Obj(members) => CollectedMembersAreClean(NoMember, members, root);
    case _ =>
  }

  lemma {:induction false} CollectedItemsAreClean(xs: Items, root: string)
    requires IsAbsolute(root) && !Rebuildable(root)
    ensures AreClean(CollapseItems(RedactItems(xs, root)), root)
  {
    if xs.Item? {
      CollectedIsClean(xs.head, root);
      CollectedItemsAreClean(xs.tail, root);
    }
  }

  lemma {:induction false} CollectedMembersAreClean(done: Members, ms: Members, root: string)
    requires IsAbsolute(root) && !Rebuildable(root)
    requires IsCleanBody(done, root)
    ensures IsCleanBody(PutAll(done, RedactMembers(ms, root)), root)
    decreases ms
  {
    if ms.Member? {
      var key, v := Redact(ms.key, root), Collapse(RedactAll(ms.value, root));
      RootIsGone(ms.key, root);
      CollectedIsClean(ms.value, root);
      PutClean(done, key, v, root);
      CollectedMembersAreClean(Put(done, key, v), ms.tail, root);
    }
  }

  lemma {:induction false} PutClean(ms: Members, key: string, v: Json, root: string)
    requires IsCleanBody(ms, root) && !Occurs(root, key) && IsClean(v, root)
    ensures IsCleanBody(Put(ms, key, v), root)
  {
    if ms.Member? {
      PutClean(ms.tail, key, v, root);
    }
  }

  // ----- Slashes in keys -----

  /** The slashes in all keys of a value, at every depth. */
  function KeySlashes(v: Json): nat {
    match v
    case Arr(items) => KeySlashesInItems(items)
    case Obj(members) => KeySlashesInMembers(members)
    case _ => 0
  }

  function KeySlashesInItems(xs: Items): nat {
    match xs
    case NoItem => 0
    case Item(v, more) => KeySlashes(v) + KeySlashesInItems(more)
  }

  function KeySlashesInMembers(ms: Members): nat {
    match ms
    case NoMember => 0
    case Member(k, v, more) => Slashes(k) + KeySlashes(v) + KeySlashesInMembers(more)
  }

  lemma {:induction false} ValuesKeepKeySlashes(v: Json, root: string)
    requires IsAbsolute(root)
    ensures KeySlashes(RedactValues(v, root)) == KeySlashes(v)
  {
    match v
    case Arr(items) => ValueItemsKeepKeySlashes(items, root);
    case Obj(members) => ValueMembersKeepKeySlashes(members, root);
    case _ =>
  }

  lemma {:induction false} ValueItemsKeepKeySlashes(xs: Items, root: string)
    requires IsAbsolute(root)
    ensures KeySlashesInItems(RedactValueItems(xs, root)) == KeySlashesInItems(xs)
  {
    if xs.Item? {
      ValuesKeepKeySlashes(xs.head, root);
      ValueItemsKeepKeySlashes(xs.tail, root);
    }
  }

  lemma {:induction false} ValueMembersKeepKeySlashes(ms: Members, root: string)
    requires IsAbsolute(root)
    ensures KeySlashesInMembers(RedactValueMembers(ms, root)) == KeySlashesInMembers(ms)
  {
    if ms.Member? {
      ValuesKeepKeySlashes(ms.value, root);
      ValueMembersKeepKeySlashes(ms.tail, root);
    }
  }

  lemma {:induction false} PutKeySlashes(ms: Members, key: string, v: Json)
    ensures KeySlashesInMembers(Put(ms, key, v)) <= KeySlashesInMembers(ms) + Slashes(key) + KeySlashes(v)
  {
    if ms.Member? {
      PutKeySlashes(ms.tail, key, v);
    }
  }

  /** Redacting every string and collapsing keys lowers the slashes in keys, if some key has the root. */
  lemma {:induction false} CollectingLowersKeySlashes(v: Json, root: string)
    requires IsAbsolute(root)
    ensures KeySlashes(Collapse(RedactAll(v, root))) <= KeySlashes(v)
    ensures !CleanKeys(v, root) ==> KeySlashes(Collapse(RedactAll(v, root))) < KeySlashes(v)
  {
    match v
    case Arr(items) => CollectingItemsLowersKeySlashes(items, root);
    case Obj(members) => CollectingMembersLowersKeySlashes(NoMember, members, root);
    case _ =>
  }

  lemma {:induction false} CollectingItemsLowersKeySlashes(xs: Items, root: string)
    requires IsAbsolute(root)
    ensures var n := KeySlashesInItems(CollapseItems(RedactItems(xs, root)));
            n <= KeySlashesInItems(xs) && (!CleanKeysInItems(xs, root) ==> n < KeySlashesInItems(xs))
  {
    if xs.Item? {
      CollectingLowersKeySlashes(xs.head, root);
      CollectingItemsLowersKeySlashes(xs.tail, root);
    }
  }

  lemma {:induction false} CollectingMembersLowersKeySlashes(done: Members, ms: Members, root: string)
    requires IsAbsolute(root)
    ensures var n := KeySlashesInMembers(PutAll(done, RedactMembers(ms, root)));
            var bound := KeySlashesInMembers(done) + KeySlashesInMembers(ms);
            n <= bound && (!CleanKeysInMembers(ms, root) ==> n < bound)
    decreases ms
  {
    hide Redact;
    if ms.Member? {
      var key, v := Redact(ms.key, root), Collapse(RedactAll(ms.value, root));
      RedactionLowersSlashes(ms.key, root);
      KeepsExactlyTextsWithoutRoot(ms.key, root);
      CollectingLowersKeySlashes(ms.value, root);
      PutKeySlashes(done, key, v);
      CollectingMembersLowersKeySlashes(Put(done, key, v), ms.tail, root);
    }
  }

  /**
    * For a plain root the runner's object comes out with exactly its string values redacted if and
    * only if no key contains the root; and nothing collected contains a root that the placeholder
    * cannot rebuild.
    */
  lemma CollectsRedactedValues(v: Json, root: string)
    requires IsAbsolute(root) && IsPlainText(root)
    requires WellFormed(v) && IsDictionary(v)
    ensures Collected(v, root) == Some(RedactValues(v, root)) <==> CleanKeys(v, root)
    ensures Collected(v, root).Some?
    ensures !Rebuildable(root) ==> IsClean(Collected(v, root).value, root)
  {
    hide Redact, Collected, Rebuildable, IsPlainText;
    CollectsRedacted(v, root);
    ValuesKeepKeys(v, root);
    if CleanKeys(v, root) {
      DictionariesDoNotCollapse(RedactValues(v, root));
    } else {
      CollectingLowersKeySlashes(v, root);
      ValuesKeepKeySlashes(v, root);
    }
    if !Rebuildable(root) {
      CollectedIsClean(v, root);
    }
  }
}
