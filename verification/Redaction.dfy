/**
  * Removing the checkout's absolute path from anything that is committed: `redact` and
  * `redact_tree` of runners/harness.py.
  */
module Redaction {
  import opened Sequences

  const REPO: string := "<repo>"

  /** str.replace for a non-empty pattern: leftmost occurrences first, never overlapping. */
  function Replace(text: string, pattern: string, replacement: string): string
    requires pattern != ""
  {
    if text == "" then ""
    else if pattern <= text then replacement + Replace(text[|pattern|..], pattern, replacement)
    else [text[0]] + Replace(text[1..], pattern, replacement)
  }

  ghost predicate OccursAt(pattern: string, text: string, q: nat) {
    q <= |text| && pattern <= text[q..]
  }

  ghost predicate Occurs(pattern: string, text: string) {
    exists q: nat :: OccursAt(pattern, text, q)
  }

  lemma OccursAfter(pattern: string, front: string, rest: string, q: nat)
    requires q >= |front|
    ensures OccursAt(pattern, front + rest, q) <==> OccursAt(pattern, rest, q - |front|)
  {
    if q <= |front + rest| {
      assert (front + rest)[q..] == rest[q - |front|..];
    }
  }

  lemma OccursWhereItsFirstCharacterIs(pattern: string, text: string, q: nat)
    requires pattern != "" && OccursAt(pattern, text, q)
    ensures q < |text| && text[q] == pattern[0]
  {
    assert text[q..][0] == pattern[0];
  }

  lemma PrefixOfTail(a: string, b: string)
    requires a != "" && b != ""
    ensures a <= b ==> a[1..] <= b[1..]
  {
    if a <= b {
      assert a[1..] == b[1..][..|a| - 1];
    }
  }

  /** str(ROOT) for a resolved path. */
  predicate IsAbsolute(root: string) {
    root != "" && root[0] == '/'
  }

  function Redact(text: string, root: string): string
    requires IsAbsolute(root)
  {
    Replace(text, root, REPO)
  }

  // ----- When the root cannot come back -----

  /** The placeholder and t agree as far as both go. */
  predicate Overlaps(t: string) {
    t <= REPO || REPO <= t
  }

  /** Some proper suffix of the root can be formed with the help of the placeholder. */
  predicate Rebuildable(root: string) {
    exists k :: 1 <= k < |root| && Overlaps(root[k..])
  }

  lemma NoAngleBracket(root: string)
    requires '<' !in root
    ensures !Rebuildable(root)
  {
    forall k | 1 <= k < |root| ensures !Overlaps(root[k..]) {
      assert root[k..][0] == root[k] != '<';
      assert REPO[0] == '<';
    }
  }

  lemma PlaceholderOverlaps(t: string, rest: string)
    requires t <= REPO + rest
    ensures Overlaps(t)
  {
    var out := REPO + rest;
    assert t == out[..|t|];
    if |t| <= |REPO| {
      assert t == REPO[..|t|];
    } else {
      assert t[..|REPO|] == REPO;
    }
  }

  /** If the redacted text starts with the rest of a root, so did the text. */
  lemma {:induction false} RestOfRootSurvives(text: string, root: string, k: nat)
    requires IsAbsolute(root) && !Rebuildable(root)
    requires 1 <= k <= |root| && root[k..] <= Redact(text, root)
    ensures root[k..] <= text
  {
    if k < |root| {
      if root <= text {
        PlaceholderOverlaps(root[k..], Redact(text[|root|..], root));
      } else {
        var out := Redact(text, root);
        assert out == [text[0]] + Redact(text[1..], root);
        assert root[k] == root[k..][0] == out[0] == text[0];
        assert root[k..] == [root[k]] + root[k + 1..];
        assert out[1..] == Redact(text[1..], root);
        RestOfRootSurvives(text[1..], root, k + 1);
      }
    }
  }

  lemma {:induction false} RootIsGoneAt(text: string, root: string, q: nat)
    requires IsAbsolute(root) && !Rebuildable(root)
    ensures !OccursAt(root, Redact(text, root), q)
    decreases |text|
  {
    hide OccursAt, Rebuildable;
    var out := Redact(text, root);
    if text == "" || (root <= text && q < |REPO|) {
      if OccursAt(root, out, q) {
        OccursWhereItsFirstCharacterIs(root, out, q);
      }
    } else if root <= text {
      var rest := Redact(text[|root|..], root);
      OccursAfter(root, REPO, rest, q);
      RootIsGoneAt(text[|root|..], root, q - |REPO|);
    } else if q > 0 {
      var rest := Redact(text[1..], root);
      OccursAfter(root, [text[0]], rest, q);
      RootIsGoneAt(text[1..], root, q - 1);
    } else {
      RootIsNotFirst(text, root);
    }
  }

  lemma RootIsNotFirst(text: string, root: string)
    requires IsAbsolute(root) && !Rebuildable(root)
    requires text != "" && !(root <= text)
    ensures !OccursAt(root, Redact(text, root), 0)
  {
    hide Rebuildable;
    var rest := Redact(text[1..], root);
    var out := Redact(text, root);
    assert out == [text[0]] + rest && out[0..] == out;
    if root[1..] <= rest {
      RestOfRootSurvives(text[1..], root, 1);
      assert root == [root[0]] + root[1..];
      assert text == [text[0]] + text[1..];
    }
    assert out[1..] == rest;
    PrefixOfTail(root, out);
  }

  lemma RootIsGone(text: string, root: string)
    requires IsAbsolute(root) && !Rebuildable(root)
    ensures !Occurs(root, Redact(text, root))
  {
    forall q: nat ensures !OccursAt(root, Redact(text, root), q) {
      RootIsGoneAt(text, root, q);
    }
  }

  // ----- The condition is exact -----

  /** What follows the placeholder's part of a root that contains it from position k. */
  function LeakingTail(root: string, k: nat): (tail: string)
    requires 1 <= k < |root|
    ensures |tail| < |root|
  {
    if REPO <= root[k..] then root[k + |REPO|..] else ""
  }

  /** A text whose redaction contains a rebuildable root. */
  function LeakingText(root: string, k: nat): string
    requires 1 <= k < |root|
  {
    root[..k] + (root + LeakingTail(root, k))
  }

  lemma OccursAtStart(pattern: string, text: string)
    ensures OccursAt(pattern, text, 0) <==> pattern <= text
  {
    assert text[0..] == text;
  }

  lemma OccursInTail(pattern: string, text: string, q: nat)
    requires text != ""
    ensures OccursAt(pattern, text, q + 1) <==> OccursAt(pattern, text[1..], q)
  {
    if q + 1 <= |text| {
      assert text[q + 1..] == text[1..][q..];
    }
  }

  /** Nothing of a text is replaced before the first position at which the root occurs. */
  lemma {:induction false} ReplaceSkips(text: string, root: string, k: nat)
    requires IsAbsolute(root) && k <= |text|
    requires forall m: nat :: m < k ==> !OccursAt(root, text, m)
    ensures Redact(text, root) == text[..k] + Redact(text[k..], root)
    decreases k
  {
    hide OccursAt;
    if k > 0 {
      OccursAtStart(root, text);
      forall m: nat | m < k - 1 ensures !OccursAt(root, text[1..], m) {
        OccursInTail(root, text, m);
      }
      ReplaceSkips(text[1..], root, k - 1);
      assert text[1..][k - 1..] == text[k..];
      assert text[..k] == [text[0]] + text[1..][..k - 1];
    } else {
      assert text[0..] == text;
    }
  }

  /** The root does not occur in the leaking text before position k. */
  lemma LeakingTextStartsClean(root: string, k: nat, m: nat)
    requires IsAbsolute(root)
    requires 1 <= k < |root| && Overlaps(root[k..])
    requires m < k
    ensures !OccursAt(root, LeakingText(root, k), m)
  {
    var text := LeakingText(root, k);
    hide LeakingTail;
    var found := text[m..];
    assert root[k] == '<' by { assert root[k..][0] == root[k]; assert REPO[0] == '<'; }
    assert text[k..][..|root|] == root;
    assert found[0] == text[m] == root[m];
    assert found[k] == text[m + k] == text[k..][m] == root[m];
  }

  lemma RebuiltFromPieces(root: string, k: nat)
    requires 1 <= k < |root| && Overlaps(root[k..])
    ensures root <= root[..k] + (REPO + LeakingTail(root, k))
  {
    assert root == root[..k] + root[k..];
    if REPO <= root[k..] {
      assert root[k..] == REPO + LeakingTail(root, k);
    }
  }

  lemma RedactAtRoot(text: string, root: string)
    requires IsAbsolute(root) && root <= text
    ensures Redact(text, root) == REPO + Redact(text[|root|..], root)
  {
  }

  lemma RebuildableRootLeaks(root: string, k: nat)
    requires IsAbsolute(root)
    requires 1 <= k < |root| && Overlaps(root[k..])
    ensures Occurs(root, Redact(LeakingText(root, k), root))
  {
    hide Redact, LeakingTail, Overlaps;
    var text, tail := LeakingText(root, k), LeakingTail(root, k);
    forall m: nat | m < k ensures !OccursAt(root, text, m) {
      LeakingTextStartsClean(root, k, m);
    }
    ReplaceSkips(text, root, k);
    assert text[..k] == root[..k];
    assert text[k..] == root + tail;
    assert (root + tail)[|root|..] == tail;
    RedactAtRoot(root + tail, root);
    ShortTextsAreKept(tail, root);
    RebuiltFromPieces(root, k);
    var out := Redact(text, root);
    assert out[0..] == out;
    assert OccursAt(root, out, 0);
  }

  lemma {:induction false} ShortTextsAreKept(text: string, root: string)
    requires IsAbsolute(root) && |text| < |root|
    ensures Redact(text, root) == text
  {
    if text != "" {
      ShortTextsAreKept(text[1..], root);
    }
  }

  /** Redaction removes an absolute root from every text exactly when the placeholder cannot rebuild it. */
  lemma RemovesRootFromEveryText(root: string)
    requires IsAbsolute(root)
    ensures (forall text: string :: !Occurs(root, Redact(text, root))) <==> !Rebuildable(root)
  {
    if Rebuildable(root) {
      var k :| 1 <= k < |root| && Overlaps(root[k..]);
      RebuildableRootLeaks(root, k);
    } else {
      forall text: string ensures !Occurs(root, Redact(text, root)) {
        RootIsGone(text, root);
      }
    }
  }

  /** Texts without the root are kept, and they are the only ones when the root cannot come back. */
  lemma KeepsTextsWithoutRoot(text: string, root: string)
    requires IsAbsolute(root) && !Occurs(root, text)
    ensures Redact(text, root) == text
  {
    ReplaceSkips(text, root, |text|);
  }

  lemma FirstOccurrence(text: string, root: string) returns (m: nat)
    requires Occurs(root, text)
    ensures OccursAt(root, text, m)
    ensures forall j: nat :: j < m ==> !OccursAt(root, text, j)
  {
    m :| OccursAt(root, text, m);
    while exists j: nat :: j < m && OccursAt(root, text, j)
      invariant OccursAt(root, text, m)
      decreases m
    {
      var j: nat :| j < m && OccursAt(root, text, j);
      m := j;
    }
  }

  /**
    * Replacement is leftmost: the text before the first occurrence is kept, that occurrence becomes
    * the placeholder, and the search goes on behind it.
    */
  lemma ReplacesLeftmost(text: string, root: string, m: nat)
    requires IsAbsolute(root) && OccursAt(root, text, m)
    requires forall j: nat :: j < m ==> !OccursAt(root, text, j)
    ensures Redact(text, root) == text[..m] + "<repo>" + Redact(text[m + |root|..], root)
  {
    hide Redact;
    ReplaceSkips(text, root, m);
    RedactAtRoot(text[m..], root);
    assert text[m..][|root|..] == text[m + |root|..];
  }

  /** A text is kept exactly when it does not contain the root. */
  lemma KeepsExactlyTextsWithoutRoot(text: string, root: string)
    requires IsAbsolute(root)
    ensures Redact(text, root) == text <==> !Occurs(root, text)
  {
    hide Redact;
    if Occurs(root, text) {
      var m := FirstOccurrence(text, root);
      ReplacesLeftmost(text, root, m);
      OccursWhereItsFirstCharacterIs(root, text, m);
      assert Redact(text, root)[m] == REPO[0];
    } else {
      KeepsTextsWithoutRoot(text, root);
    }
  }

  /** A text that redaction changes shows the placeholder. */
  lemma RedactionShows(text: string, root: string)
    requires IsAbsolute(root) && Occurs(root, text)
    ensures '<' in Redact(text, root)
  {
    hide Redact;
    var m := FirstOccurrence(text, root);
    ReplacesLeftmost(text, root, m);
    OccursWhereItsFirstCharacterIs(root, text, m);
    assert Redact(text, root)[m] == REPO[0];
  }

  /** Redaction is idempotent on every text exactly when the placeholder cannot rebuild the root. */
  lemma RedactingTwice(root: string)
    requires IsAbsolute(root)
    ensures (forall text: string :: Redact(Redact(text, root), root) == Redact(text, root)) <==> !Rebuildable(root)
  {
    hide Redact, Rebuildable;
    RemovesRootFromEveryText(root);
    forall text: string
      ensures Redact(Redact(text, root), root) == Redact(text, root) <==> !Occurs(root, Redact(text, root))
    {
      KeepsExactlyTextsWithoutRoot(Redact(text, root), root);
    }
  }

  // ----- Slashes -----

  function Slashes(s: string): nat {
    if s == "" then 0 else (if s[0] == '/' then 1 else 0) + Slashes(s[1..])
  }

  lemma {:induction false} SlashesAppend(a: string, b: string)
    ensures Slashes(a + b) == Slashes(a) + Slashes(b)
  {
    if a == "" {
      assert a + b == b;
    } else {
      assert (a + b)[1..] == a[1..] + b;
      SlashesAppend(a[1..], b);
    }
  }

  lemma PlaceholderHasNoSlash()
    ensures Slashes(REPO) == 0
  {
    assert Slashes("") == 0;
    assert REPO[5..][1..] == "" && REPO[4..][1..] == REPO[5..] && REPO[3..][1..] == REPO[4..];
    assert REPO[2..][1..] == REPO[3..] && REPO[1..][1..] == REPO[2..];
    assert Slashes(REPO[5..]) == 0;
    assert Slashes(REPO[3..]) == 0;
    assert Slashes(REPO[1..]) == 0;
  }

  /** Every replacement takes slashes away, so redaction changes a text only by lowering their number. */
  lemma {:induction false} RedactionLowersSlashes(text: string, root: string)
    requires IsAbsolute(root)
    ensures Slashes(Redact(text, root)) <= Slashes(text)
    ensures Redact(text, root) == text || Slashes(Redact(text, root)) < Slashes(text)
    decreases |text|
  {
    if text == "" {
    } else if root <= text {
      var rest := text[|root|..];
      assert text == root + rest;
      RedactionLowersSlashes(rest, root);
      SlashesAppend(root, rest);
      SlashesAppend(REPO, Redact(rest, root));
      PlaceholderHasNoSlash();
    } else {
      RedactionLowersSlashes(text[1..], root);
      var out := Redact(text, root);
      assert out[0] == text[0] && out[1..] == Redact(text[1..], root);
      assert text == [text[0]] + text[1..];
    }
  }

  // ----- The evidence directory -----

  /** What an entry under the directory is to the harness; `Unreadable` is a file whose read fails. */
  datatype Entry = Directory | Unreadable | Text(text: string)

  function RedactEntry(e: Entry, root: string): Entry
    requires IsAbsolute(root)
  {
    match e
    case Text(t) => Text(Redact(t, root))
    case _ => e
  }

  lemma RedactEntryCases(e: Entry, root: string)
    requires IsAbsolute(root)
    ensures RedactEntry(e, root) == if e.Text? then Text(Redact(e.text, root)) else e
  {
  }

  class EvidenceTree {
    var entries: map<string, Entry>
    /** The files written so far, in order. */
    var writes: seq<string>

    constructor (entries: map<string, Entry>)
      ensures this.entries == entries && writes == []
    {
      this.entries := entries;
      writes := [];
    }

    /**
      * redact_tree over the paths that rglob lists: every text file ends up redacted, nothing else
      * changes, and a file is written exactly when redaction changed its text.
      */
    method RedactTree(paths: seq<string>, root: string) returns (ghost written: seq<string>)
      requires IsAbsolute(root)
      requires forall i, j :: 0 <= i < j < |paths| ==> paths[i] != paths[j]
      requires forall f :: f in paths <==> f in entries
      modifies this
      ensures entries.Keys == old(entries.Keys)
      ensures forall f :: f in entries ==> entries[f] == RedactEntry(old(entries[f]), root)
      ensures forall f :: f in entries && !old(entries[f]).Text? ==> entries[f] == old(entries[f])
      ensures forall f :: f in entries && old(entries[f]).Text? ==>
                entries[f] == Text(Redact(old(entries[f]).text, root))
      ensures forall f :: f in written
                     <==> f in old(entries) && old(entries[f]).Text? && Occurs(root, old(entries[f]).text)
      ensures writes == old(writes) + written
      ensures forall f :: f in written
                     <==> f in old(entries) && RedactEntry(old(entries[f]), root) != old(entries[f])
    {
      hide Redact, RedactEntry;
      ghost var before := entries;
      written := [];
      for i := 0 to |paths|
        invariant entries.Keys == before.Keys
        invariant forall j :: 0 <= j < i ==> entries[paths[j]] == RedactEntry(before[paths[j]], root)
        invariant forall j :: i <= j < |paths| ==> entries[paths[j]] == before[paths[j]]
        invariant writes == old(writes) + written
        invariant forall f :: f in written
                         <==> f in paths[..i] && RedactEntry(before[f], root) != before[f]
      {
        var f := paths[i];
        RedactEntryCases(entries[f], root);
        assert f in paths && f in entries;
        assert paths[..i + 1] == paths[..i] + [f];
        match entries[f] {
          case Directory =>
          case Unreadable =>
          case Text(original) =>
            var cleaned := Redact(original, root);
            if cleaned != original {
              entries := entries[f := Text(cleaned)];
              writes := writes + [f];
              written := written + [f];
            }
        }
      }
      assert paths[..|paths|] == paths;
      forall f | f in entries ensures entries[f] == RedactEntry(before[f], root) {
        assert f in paths;
      }
      forall f | f in before
        ensures before[f].Text? ==> RedactEntry(before[f], root) == Text(Redact(before[f].text, root))
        ensures !before[f].Text? ==> RedactEntry(before[f], root) == before[f]
        ensures RedactEntry(before[f], root) != before[f]
           <==> before[f].Text? && Occurs(root, before[f].text)
      {
        RedactEntryCases(before[f], root);
        if before[f].Text? { KeepsExactlyTextsWithoutRoot(before[f].text, root); }
      }
    }

    /**
      * Two passes. The second writes exactly the files whose redacted text still contains the root;
      * when the placeholder cannot rebuild the root there is none, and no file holds the root.
      */
    method RedactTreeTwice(paths: seq<string>, root: string)
      returns (ghost first: seq<string>, ghost second: seq<string>)
      requires IsAbsolute(root)
      requires forall i, j :: 0 <= i < j < |paths| ==> paths[i] != paths[j]
      requires forall f :: f in paths <==> f in entries
      modifies this
      ensures entries.Keys == old(entries.Keys)
      ensures forall f :: f in entries ==>
                entries[f] == RedactEntry(RedactEntry(old(entries[f]), root), root)
      ensures writes == old(writes) + first + second
      ensures forall f :: f in first
                     <==> f in old(entries) && RedactEntry(old(entries[f]), root) != old(entries[f])
      ensures forall f :: f in second
                     <==> && f in old(entries) && old(entries[f]).Text?
                          && Occurs(root, Redact(old(entries[f]).text, root))
      ensures !Rebuildable(root) ==>
                && second == []
                && forall f :: f in entries && entries[f].Text? ==> !Occurs(root, entries[f].text)
    {
      hide Rebuildable, Redact;
      first := RedactTree(paths, root);
      ghost var once := entries;
      forall f | f in once && once[f].Text?
        ensures RedactEntry(once[f], root) == once[f] <==> !Occurs(root, once[f].text)
      {
        KeepsExactlyTextsWithoutRoot(once[f].text, root);
      }
      second := RedactTree(paths, root);
      EmptyOrInhabited(second);
      if !Rebuildable(root) {
        RemovesRootFromEveryText(root);
        assert forall f :: f in once && once[f].Text? ==> once[f].text == Redact(old(entries[f]).text, root);
      }
    }
  }
}
