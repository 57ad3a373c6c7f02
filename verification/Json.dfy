/**
  * Python's json.dumps with its default settings and json.loads, as far as runner output needs
  * them: the printed form is what runners/lib/emit.py writes and runners/harness.py reads.
  * The text grammar is the one of RFC 8259.
  */
module Json {
  import opened Wrappers
  import opened PythonText

  datatype Json =
    | Null
    | Bool(value: bool)
    | Num(token: string)
    | Str(text: string)
    | Arr(items: Items)
    | Obj(members: Members)

  datatype Items = NoItem | Item(head: Json, tail: Items)

  /** A dictionary in insertion order. */
  datatype Members = NoMember | Member(key: string, value: Json, tail: Members)

  // ----- Numbers -----

  predicate IsNumberChar(c: char) {
    IsDigit(c) || c == '-' || c == '+' || c == '.' || c == 'e' || c == 'E'
  }

  function SkipDigits(t: string): (r: string)
    ensures |r| <= |t|
  {
    if t != "" && IsDigit(t[0]) then SkipDigits(t[1..]) else t
  }

  predicate IsExponentPart(t: string) {
    t == "" ||
    (&& (t[0] == 'e' || t[0] == 'E')
     && var digits := if |t| > 1 && (t[1] == '-' || t[1] == '+') then t[2..] else t[1..];
        digits != "" && SkipDigits(digits) == "")
  }

  predicate IsFractionPart(t: string) {
    if t != "" && t[0] == '.' then
      && SkipDigits(t[1..]) != t[1..]
      && IsExponentPart(SkipDigits(t[1..]))
    else IsExponentPart(t)
  }

  /** The number grammar of section 6 of RFC 8259; the token is kept as it is written. */
  predicate IsNumber(t: string) {
    var u := if t != "" && t[0] == '-' then t[1..] else t;
    && t != ""
    && (forall i :: 0 <= i < |t| ==> IsNumberChar(t[i]))
    && u != "" && IsDigit(u[0])
    && (u[0] == '0' ==> u[1..] == SkipDigits(u))
    && IsFractionPart(SkipDigits(u))
  }

  /** Every number in a value is a number of the grammar. */
  predicate WellFormed(v: Json) {
    match v
    case Num(t) => IsNumber(t)
    case Arr(items) => WellFormedItems(items)
    case Obj(members) => WellFormedMembers(members)
    case _ => true
  }

  predicate WellFormedItems(xs: Items) {
    xs.Item? ==> WellFormed(xs.head) && WellFormedItems(xs.tail)
  }

  predicate WellFormedMembers(ms: Members) {
    ms.Member? ==> WellFormed(ms.value) && WellFormedMembers(ms.tail)
  }

  // ----- Printing strings -----

  /** The characters that printing leaves as they are. */
  predicate IsPlain(c: char) {
    ' ' <= c <= '~' && c != '\"' && c != '\\'
  }

  function HexDigit(d: nat): char
    requires d < 16
  {
    if d < 10 then ('0' as int + d) as char else ('a' as int + (d - 10)) as char
  }

  function UnicodeEscape(n: nat): string
    requires n < 0x10000
  {
    ['\\', 'u', HexDigit(n / 4096), HexDigit(n / 256 % 16), HexDigit(n / 16 % 16), HexDigit(n % 16)]
  }

  function EscapeChar(c: char): (e: string)
    ensures e != ""
  {
    if c == '\"' then "\\\""
    else if c == '\\' then "\\\\"
    else if c == '\n' then "\\n"
    else if c == '\r' then "\\r"
    else if c == '\t' then "\\t"
    else if c as int == 12 then "\\f"
    else if c as int == 8 then "\\b"
    else if IsPlain(c) then [c]
    else if c as int < 0x10000 then UnicodeEscape(c as int)
    else
      var v := c as int - 0x10000;
      UnicodeEscape(0xD800 + v / 1024) + UnicodeEscape(0xDC00 + v % 1024)
  }

  function Escape(s: string): string {
    if s == "" then "" else EscapeChar(s[0]) + Escape(s[1..])
  }

  function PrintString(s: string): string {
    "\"" + Escape(s) + "\""
  }

  // ----- Printing values -----

  function Print(v: Json): string {
    match v
    case Null => "null"
    case Bool(b) => if b then "true" else "false"
    case Num(t) => t
    case Str(s) => PrintString(s)
    case Arr(items) => "[" + PrintItems(items) + "]"
    case Obj(members) => "{" + PrintMembers(members) + "}"
  }

  function PrintItems(xs: Items): string {
    match xs
    case NoItem => ""
    case Item(v, NoItem) => Print(v)
    case Item(v, more) => Print(v) + ", " + PrintItems(more)
  }

  function PrintMembers(ms: Members): string {
    match ms
    case NoMember => ""
    case Member(k, v, NoMember) => PrintString(k) + ": " + Print(v)
    case Member(k, v, more) => PrintString(k) + ": " + Print(v) + ", " + PrintMembers(more)
  }

  // ----- Parsing strings -----

  function HexValue(c: char): Option<nat> {
    if '0' <= c <= '9' then Some(c as int - '0' as int)
    else if 'a' <= c <= 'f' then Some(c as int - 'a' as int + 10)
    else if 'A' <= c <= 'F' then Some(c as int - 'A' as int + 10)
    else None
  }

  /** The four hexadecimal digits after `\u`. */
  function ParseHex4(s: string): (r: Option<nat>)
    ensures r.Some? ==> |s| >= 4
  {
    if |s| < 4 then None
    else
      match (HexValue(s[0]), HexValue(s[1]), HexValue(s[2]), HexValue(s[3]))
      case (Some(a), Some(b), Some(c), Some(d)) => Some(4096 * a + 256 * b + 16 * c + d)
      case _ => None
  }

  function Unescaped(c: char): Option<char> {
    if c == '\"' || c == '\\' || c == '/' then Some(c)
    else if c == 'b' then Some(8 as char)
    else if c == 'f' then Some(12 as char)
    else if c == 'n' then Some('\n')
    else if c == 'r' then Some('\r')
    else if c == 't' then Some('\t')
    else None
  }

  /** One character after the opening quote, with the text after it. A lone surrogate is refused. */
  function ParseChar(s: string): (r: Option<(char, string)>)
    requires s != ""
    ensures r.Some? ==> |r.value.1| < |s|
  {
    if s[0] != '\\' then
      if s[0] < ' ' then None else Some((s[0], s[1..]))
    else if |s| < 2 then None
    else if s[1] != 'u' then
      match Unescaped(s[1])
      case None => None
      case Some(c) => Some((c, s[2..]))
    else
      match ParseHex4(s[2..])
      case None => None
      case Some(n) =>
        if n < 0xD800 || 0xE000 <= n < 0x10000 then Some((n as char, s[6..]))
        else if 0xD800 <= n < 0xDC00 && |s| >= 12 && s[6] == '\\' && s[7] == 'u' then
          match ParseHex4(s[8..])
          case None => None
          case Some(m) =>
            if 0xDC00 <= m < 0xE000
            then Some(((0x10000 + 1024 * (n - 0xD800) + (m - 0xDC00)) as char, s[12..]))
            else None
        else None
  }

  /** The rest of a string literal, with the text after its closing quote. */
  function ParseString(s: string): (r: Option<(string, string)>)
    ensures r.Some? ==> |r.value.1| < |s|
    decreases |s|
  {
    if s == "" then None
    else if s[0] == '\"' then Some(("", s[1..]))
    else
      match ParseChar(s)
      case None => None
      case Some((c, rest)) =>
        match ParseString(rest)
        case None => None
        case Some((tail, after)) => Some(([c] + tail, after))
  }

  // ----- Parsing values -----

  predicate IsSpace(c: char) {
    c == ' ' || c == '\t' || c == '\n' || c == '\r'
  }

  function SkipSpace(s: string): (r: string)
    ensures |r| <= |s|
  {
    if s != "" && IsSpace(s[0]) then SkipSpace(s[1..]) else s
  }

  function NumberRun(s: string): nat
    ensures NumberRun(s) <= |s|
  {
    if s != "" && IsNumberChar(s[0]) then 1 + NumberRun(s[1..]) else 0
  }

  /** Storing under a key of a dictionary: a known key keeps its place. */
  function Put(ms: Members, key: string, value: Json): Members {
    match ms
    case NoMember => Member(key, value, NoMember)
    case Member(k, v, more) =>
      if k == key then Member(k, value, more) else Member(k, v, Put(more, key, value))
  }

  function ParseValue(s: string): (r: Option<(Json, string)>)
    ensures r.Some? ==> |r.value.1| < |s|
    decreases |s|, 1
  {
    if s == "" then None
    else if s[0] == '\"' then
      match ParseString(s[1..])
      case None => None
      case Some((text, rest)) => Some((Str(text), rest))
    else if s[0] == '[' then
      var t := SkipSpace(s[1..]);
      if t != "" && t[0] == ']' then Some((Arr(NoItem), t[1..]))
      else
        match ParseItems(t)
        case None => None
        case Some((items, rest)) => Some((Arr(items), rest))
    else if s[0] == '{' then
      var t := SkipSpace(s[1..]);
      if t != "" && t[0] == '}' then Some((Obj(NoMember), t[1..]))
      else
        match ParseMembers(t, NoMember)
        case None => None
        case Some((members, rest)) => Some((Obj(members), rest))
    else if "null" <= s then Some((Null, s[4..]))
    else if "true" <= s then Some((Bool(true), s[4..]))
    else if "false" <= s then Some((Bool(false), s[5..]))
    else
      var n := NumberRun(s);
      if IsNumber(s[..n]) then Some((Num(s[..n]), s[n..])) else None
  }

  function ParseItems(s: string): (r: Option<(Items, string)>)
    ensures r.Some? ==> |r.value.1| < |s|
    decreases |s|, 2
  {
    match ParseValue(s)
    case None => None
    case Some((v, after)) =>
      var t := SkipSpace(after);
      if t != "" && t[0] == ']' then Some((Item(v, NoItem), t[1..]))
      else if t != "" && t[0] == ',' then
        match ParseItems(SkipSpace(t[1..]))
        case None => None
        case Some((more, rest)) => Some((Item(v, more), rest))
      else None
  }

  /** A name and its colon, with the text where the value starts. */
  function ParseName(s: string): (r: Option<(string, string)>)
    ensures r.Some? ==> |r.value.1| < |s|
  {
    if s == "" || s[0] != '\"' then None
    else
      match ParseString(s[1..])
      case None => None
      case Some((key, after)) =>
        var t := SkipSpace(after);
        if t != "" && t[0] == ':' then Some((key, SkipSpace(t[1..]))) else None
  }

  /** The rest of an object, whose members so far are in `done`. */
  function ParseMembers(s: string, done: Members): (r: Option<(Members, string)>)
    ensures r.Some? ==> |r.value.1| < |s|
    decreases |s|, 2
  {
    match ParseName(s)
    case None => None
    case Some((key, u)) =>
      match ParseValue(u)
      case None => None
      case Some((v, after)) =>
        var t := SkipSpace(after);
        if t != "" && t[0] == '}' then Some((Put(done, key, v), t[1..]))
        else if t != "" && t[0] == ',' then ParseMembers(SkipSpace(t[1..]), Put(done, key, v))
        else None
  }

  /** json.loads; None is JSONDecodeError. */
  function Loads(s: string): Option<Json> {
    match ParseValue(SkipSpace(s))
    case None => None
    case Some((v, rest)) => if SkipSpace(rest) == "" then Some(v) else None
  }

  // ----- What printing and parsing do to a value -----

  /** Repeated keys collapse, as in the dictionary that parsing builds. */
  function Collapse(v: Json): Json {
    match v
    case Arr(items) => Arr(CollapseItems(items))
    case Obj(members) => Obj(PutAll(NoMember, members))
    case _ => v
  }

  function CollapseItems(xs: Items): Items {
    match xs
    case NoItem => NoItem
    case Item(v, more) => Item(Collapse(v), CollapseItems(more))
  }

  function PutAll(done: Members, ms: Members): Members
    decreases ms
  {
    match ms
    case NoMember => done
    case Member(k, v, more) => PutAll(Put(done, k, Collapse(v)), more)
  }

  // ----- Round trip -----

  lemma HexRoundTrip(d: nat)
    requires d < 16
    ensures HexValue(HexDigit(d)) == Some(d)
  {
  }

  lemma FourHexDigits(n: nat)
    requires n < 0x10000
    ensures n / 4096 < 16
    ensures 4096 * (n / 4096) + 256 * (n / 256 % 16) + 16 * (n / 16 % 16) + n % 16 == n
  {
    var a, b := n / 16, n / 256;
    assert a / 16 == b && b / 16 == n / 4096;
  }

  lemma Hex4RoundTrip(n: nat, rest: string)
    requires n < 0x10000
    ensures UnicodeEscape(n) + rest != ""
    ensures ParseHex4((UnicodeEscape(n) + rest)[2..]) == Some(n)
  {
    hide HexDigit, HexValue;
    FourHexDigits(n);
    HexRoundTrip(n / 4096);
    HexRoundTrip(n / 256 % 16);
    HexRoundTrip(n / 16 % 16);
    HexRoundTrip(n % 16);
    var e := UnicodeEscape(n);
    var s := (e + rest)[2..];
    assert s[0] == e[2] && s[1] == e[3] && s[2] == e[4] && s[3] == e[5];
  }

  lemma CharRoundTrip(c: char, rest: string)
    ensures ParseChar(EscapeChar(c) + rest) == Some((c, rest))
    ensures EscapeChar(c)[0] != '\"'
  {
    var s := EscapeChar(c) + rest;
    var n := c as int;
    if n >= 0x10000 {
      SurrogateRoundTrip(c, rest);
    } else if |EscapeChar(c)| == 6 {
      Hex4RoundTrip(n, rest);
      assert s[6..] == rest;
    } else if |EscapeChar(c)| == 2 {
      assert s[2..] == rest;
    } else {
      assert s[1..] == rest;
    }
  }

  lemma SurrogateRoundTrip(c: char, rest: string)
    requires c as int >= 0x10000
    ensures ParseChar(EscapeChar(c) + rest) == Some((c, rest))
  {
    hide ParseHex4, HexDigit;
    var v := c as int - 0x10000;
    var hi, lo := UnicodeEscape(0xD800 + v / 1024), UnicodeEscape(0xDC00 + v % 1024);
    var s := EscapeChar(c) + rest;
    assert s == hi + (lo + rest);
    Hex4RoundTrip(0xD800 + v / 1024, lo + rest);
    Hex4RoundTrip(0xDC00 + v % 1024, rest);
    assert s[8..] == (lo + rest)[2..];
    assert s[6] == lo[0] && s[7] == lo[1];
    assert s[12..] == rest;
  }

  lemma {:induction false} StringRoundTrip(s: string, rest: string)
    ensures ParseString(Escape(s) + "\"" + rest) == Some((s, rest))
  {
    hide EscapeChar, ParseChar;
    if s == "" {
      assert Escape(s) + "\"" + rest == "\"" + rest;
      assert ("\"" + rest)[1..] == rest;
    } else {
      var e, after := EscapeChar(s[0]), Escape(s[1..]) + "\"" + rest;
      var text := e + after;
      assert Escape(s) + "\"" + rest == text;
      CharRoundTrip(s[0], after);
      assert text[0] == e[0];
      StringRoundTrip(s[1..], rest);
      assert s == [s[0]] + s[1..];
    }
  }

  /** No further character of the text could belong to a number before it. */
  predicate EndsNumber(rest: string) {
    rest == "" || !IsNumberChar(rest[0])
  }

  lemma {:induction false} NumberRoundTrip(t: string, rest: string)
    requires forall i :: 0 <= i < |t| ==> IsNumberChar(t[i])
    requires EndsNumber(rest)
    ensures NumberRun(t + rest) == |t|
  {
    if t == "" {
      assert t + rest == rest;
    } else {
      assert (t + rest)[1..] == t[1..] + rest;
      NumberRoundTrip(t[1..], rest);
    }
  }

  /** The first character of a printed value is no space and closes nothing. */
  lemma PrintStart(v: Json)
    requires WellFormed(v)
    ensures Print(v) != ""
    ensures !IsSpace(Print(v)[0]) && Print(v)[0] != ']' && Print(v)[0] != '}'
  {
  }

  lemma NumberValueRoundTrip(t: string, rest: string)
    requires IsNumber(t) && EndsNumber(rest)
    ensures ParseValue(t + rest) == Some((Num(t), rest))
  {
    NumberRoundTrip(t, rest);
    var s := t + rest;
    assert s[0] == t[0] && IsNumberChar(t[0]);
    assert s[..|t|] == t && s[|t|..] == rest;
    assert "null"[0] == 'n' && "true"[0] == 't' && "false"[0] == 'f';
  }

  lemma LiteralRoundTrip(rest: string)
    ensures ParseValue("null" + rest) == Some((Null, rest))
    ensures ParseValue("true" + rest) == Some((Bool(true), rest))
    ensures ParseValue("false" + rest) == Some((Bool(false), rest))
  {
    assert ("null" + rest)[4..] == rest;
    assert ("true" + rest)[4..] == rest;
    assert ("false" + rest)[5..] == rest;
  }

  lemma StringValueRoundTrip(text: string, rest: string)
    ensures ParseValue(PrintString(text) + rest) == Some((Str(text), rest))
  {
    hide Escape, ParseString;
    var s := PrintString(text) + rest;
    StringRoundTrip(text, rest);
    assert s[0] == '\"' && s[1..] == Escape(text) + "\"" + rest;
  }

  /**
    * Parsing the print of a value gives the value, whatever follows it; only after a bare number must
    * the text not go on like a number.
    */
  lemma {:induction false} ValueRoundTrip(v: Json, rest: string)
    requires WellFormed(v) && (v.Num? ==> EndsNumber(rest))
    ensures ParseValue(Print(v) + rest) == Some((Collapse(v), rest))
    decreases v, 1
  {
    hide ParseValue, PrintString, PrintItems, PrintMembers, IsNumber, PutAll;
    match v
    case Null => LiteralRoundTrip(rest);
    case Bool(b) => LiteralRoundTrip(rest);
    case Num(t) => NumberValueRoundTrip(t, rest);
    case Str(text) => StringValueRoundTrip(text, rest);
    case Arr(items) => ArrayRoundTrip(items, rest);
    case Obj(members) => ObjectRoundTrip(members, rest);
  }

  lemma {:induction false} ArrayRoundTrip(items: Items, rest: string)
    requires WellFormedItems(items)
    ensures ParseValue("[" + PrintItems(items) + "]" + rest) == Some((Arr(CollapseItems(items)), rest))
    decreases items, 1
  {
    var inner := PrintItems(items) + "]" + rest;
    var s := "[" + PrintItems(items) + "]" + rest;
    assert s[0] == '[' && s[1..] == inner;
    if items.NoItem? {
      assert inner == "]" + rest;
      assert inner[1..] == rest;
    } else {
      hide Print, ParseItems;
      ItemsStart(items);
      assert inner[0] == PrintItems(items)[0];
      ItemsRoundTrip(items, rest);
    }
  }

  lemma ItemsStart(items: Items)
    requires items.Item? && WellFormedItems(items)
    ensures PrintItems(items) != ""
    ensures !IsSpace(PrintItems(items)[0]) && PrintItems(items)[0] != ']'
  {
    hide Print;
    PrintStart(items.head);
  }

  lemma NoSpaceToSkip(s: string)
    requires s != "" && !IsSpace(s[0])
    ensures SkipSpace(s) == s
  {
  }

  lemma SpaceAfterComma(next: string)
    requires next != "" && !IsSpace(next[0])
    ensures SkipSpace(", " + next) == ", " + next
    ensures SkipSpace((", " + next)[1..]) == next
  {
    assert (", " + next)[1..] == " " + next;
    assert (" " + next)[1..] == next;
  }

  lemma {:induction false} ItemsRoundTrip(items: Items, rest: string)
    requires items.Item? && WellFormedItems(items)
    ensures ParseItems(PrintItems(items) + "]" + rest) == Some((CollapseItems(items), rest))
    decreases items, 0
  {
    hide Print, ParseValue, WellFormed, Collapse, SkipSpace;
    var v, more := items.head, items.tail;
    var s := PrintItems(items) + "]" + rest;
    if more.NoItem? {
      ValueRoundTrip(v, "]" + rest);
      assert s == Print(v) + ("]" + rest);
      NoSpaceToSkip("]" + rest);
      assert ("]" + rest)[1..] == rest;
    } else {
      var next := PrintItems(more) + "]" + rest;
      ValueRoundTrip(v, ", " + next);
      assert s == Print(v) + (", " + next);
      PrintStart(more.head);
      assert next[0] == PrintItems(more)[0] == Print(more.head)[0];
      SpaceAfterComma(next);
      ItemsRoundTrip(more, rest);
    }
  }

  lemma NameRoundTrip(key: string, value: string)
    requires value != "" && !IsSpace(value[0])
    ensures ParseName(PrintString(key) + ": " + value) == Some((key, value))
  {
    hide Escape, ParseString;
    var s := PrintString(key) + ": " + value;
    StringRoundTrip(key, ": " + value);
    assert s[1..] == Escape(key) + "\"" + (": " + value);
    assert (": " + value)[1..] == " " + value;
    assert (" " + value)[1..] == value;
    assert SkipSpace(" " + value) == value;
  }

  lemma {:induction false} ObjectRoundTrip(members: Members, rest: string)
    requires WellFormedMembers(members)
    ensures ParseValue("{" + PrintMembers(members) + "}" + rest)
         == Some((Obj(PutAll(NoMember, members)), rest))
    decreases members, 1
  {
    hide Escape, ParseString, ParseItems, PrintItems, NumberRun;
    var inner := PrintMembers(members) + "}" + rest;
    var s := "{" + PrintMembers(members) + "}" + rest;
    assert s[0] == '{' && s[1..] == inner;
    if members.NoMember? {
      assert inner == "}" + rest;
      assert inner[1..] == rest;
    } else {
      hide Print, PrintString, ParseMembers;
      MembersStart(members);
      assert inner[0] == PrintMembers(members)[0];
      MembersRoundTrip(members, NoMember, rest);
    }
  }

  lemma MembersStart(members: Members)
    requires members.Member?
    ensures PrintMembers(members) != "" && PrintMembers(members)[0] == '\"'
  {
    hide Escape, Print;
  }

  lemma LastMember(s: string, u: string, key: string, v: Json, rest: string, done: Members)
    requires ParseName(s) == Some((key, u)) && ParseValue(u) == Some((v, "}" + rest))
    ensures ParseMembers(s, done) == Some((Put(done, key, v), rest))
  {
    hide ParseName, ParseValue, SkipSpace;
    NoSpaceToSkip("}" + rest);
    assert ("}" + rest)[1..] == rest;
  }

  lemma MoreMembers(s: string, u: string, key: string, v: Json, next: string, done: Members)
    requires next != "" && !IsSpace(next[0])
    requires ParseName(s) == Some((key, u)) && ParseValue(u) == Some((v, ", " + next))
    ensures ParseMembers(s, done) == ParseMembers(next, Put(done, key, v))
  {
    hide ParseName, ParseValue, SkipSpace;
    SpaceAfterComma(next);
  }

  lemma {:induction false} MembersRoundTrip(members: Members, done: Members, rest: string)
    requires members.Member? && WellFormedMembers(members)
    ensures ParseMembers(PrintMembers(members) + "}" + rest, done)
         == Some((PutAll(done, members), rest))
    decreases members, 0
  {
    hide Print, ParseValue, ParseMembers, ParseName, WellFormed, Collapse, PrintString;
    var k, v, more := members.key, members.value, members.tail;
    var s := PrintMembers(members) + "}" + rest;
    PrintStart(v);
    if more.NoMember? {
      var u := Print(v) + ("}" + rest);
      ValueRoundTrip(v, "}" + rest);
      NameRoundTrip(k, u);
      assert s == PrintString(k) + ": " + u;
      LastMember(s, u, k, Collapse(v), rest, done);
    } else {
      var next := PrintMembers(more) + "}" + rest;
      var u := Print(v) + (", " + next);
      ValueRoundTrip(v, ", " + next);
      NameRoundTrip(k, u);
      assert s == PrintString(k) + ": " + u;
      MembersStart(more);
      assert next[0] == PrintMembers(more)[0];
      MoreMembers(s, u, k, Collapse(v), next, done);
      MembersRoundTrip(more, Put(done, k, Collapse(v)), rest);
    }
  }

  /** json.loads of what a runner prints gives the value, with repeated keys collapsed. */
  lemma LoadsPrinted(v: Json)
    requires WellFormed(v)
    ensures Loads(Print(v) + "\n") == Some(Collapse(v))
  {
    PrintStart(v);
    ValueRoundTrip(v, "\n");
    assert SkipSpace(Print(v) + "\n") == Print(v) + "\n";
    assert "\n"[1..] == "";
  }

  // ----- The printed form, character by character -----

  /** The escapes of section 7 of RFC 8259 that have a short form, and the characters that need none. */
  lemma ShortEscapes()
    ensures Escape("\"") == "\\\"" && Escape("\\") == "\\\\" && Escape("/") == "/"
    ensures Escape("\n") == "\\n" && Escape("\r") == "\\r" && Escape("\t") == "\\t"
    ensures Escape([8 as char]) == "\\b" && Escape([12 as char]) == "\\f"
    ensures forall c: char :: ' ' <= c <= '~' && c != '\"' && c != '\\' ==> Escape([c]) == [c]
  {
    forall c: char ensures Escape([c]) == EscapeChar(c) {
      assert [c][1..] == "";
    }
    assert ["\""[0]] == "\"";
  }

  /** Other characters print as a lower-case hexadecimal number, above the basic plane as two. */
  lemma HexEscapes(c: char, hex: string)
    requires !(' ' <= c <= '~') && c as int !in {8, 9, 10, 12, 13} && hex == "0123456789abcdef"
    ensures var n := c as int;
            n < 0x10000 ==>
              Escape([c]) == "\\u" + [hex[n / 4096], hex[n / 256 % 16], hex[n / 16 % 16], hex[n % 16]]
    ensures var v := c as int - 0x10000;
            v >= 0 ==>
              var hi, lo := 0xD800 + v / 1024, 0xDC00 + v % 1024;
              Escape([c])
              == "\\u" + [hex[hi / 4096], hex[hi / 256 % 16], hex[hi / 16 % 16], hex[hi % 16]]
               + ("\\u" + [hex[lo / 4096], hex[lo / 256 % 16], hex[lo / 16 % 16], hex[lo % 16]])
  {
    hide UnicodeEscape;
    assert [c][1..] == "" && Escape("") == "";
    forall n: nat | n < 0x10000
      ensures UnicodeEscape(n) == "\\u" + [hex[n / 4096], hex[n / 256 % 16], hex[n / 16 % 16], hex[n % 16]]
    {
      HexEscape(n, hex);
    }
  }

  lemma HexEscape(n: nat, hex: string)
    requires n < 0x10000 && hex == "0123456789abcdef"
    ensures UnicodeEscape(n) == "\\u" + [hex[n / 4096], hex[n / 256 % 16], hex[n / 16 % 16], hex[n % 16]]
  {
    assert forall d: nat :: d < 16 ==> HexDigit(d) == hex[d];
  }
}
