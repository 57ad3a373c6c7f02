/**
  * Base64 (section 4 of RFC 4648) and the forgiving decoder behind Python's base64.b64decode, which
  * skips every character outside the alphabet and stops at complete padding.
  */
module Base64 {
  import opened Wrappers
  import opened Bytes

  function CharOf(v: nat): char
    requires v < 64
  {
    if v < 26 then ('A' as int + v) as char
    else if v < 52 then ('a' as int + (v - 26)) as char
    else if v < 62 then ('0' as int + (v - 52)) as char
    else if v == 62 then '+'
    else '/'
  }

  function ValueOf(c: char): (v: Option<nat>)
    ensures v.Some? ==> v.value < 64
  {
    if 'A' <= c <= 'Z' then Some(c as int - 'A' as int)
    else if 'a' <= c <= 'z' then Some(c as int - 'a' as int + 26)
    else if '0' <= c <= '9' then Some(c as int - '0' as int + 52)
    else if c == '+' then Some(62)
    else if c == '/' then Some(63)
    else None
  }

  lemma ValueOfCharOf(v: nat)
    requires v < 64
    ensures ValueOf(CharOf(v)) == Some(v)
  {
  }

  function FourCharacters(a: Byte, b: Byte, c: Byte): string {
    [CharOf(a / 4), CharOf(a % 4 * 16 + b / 16), CharOf(b % 16 * 4 + c / 64), CharOf(c % 64)]
  }

  function Encode(d: seq<Byte>): string {
    if d == [] then ""
    else if |d| == 1 then [CharOf(d[0] / 4), CharOf(d[0] % 4 * 16), '=', '=']
    else if |d| == 2 then
      [CharOf(d[0] / 4), CharOf(d[0] % 4 * 16 + d[1] / 16), CharOf(d[1] % 16 * 4), '=']
    else FourCharacters(d[0], d[1], d[2]) + Encode(d[3..])
  }

  /** Bits carried over from earlier characters of the current group of four. */
  datatype Group = Group(count: nat, left: nat, pads: nat)

  predicate IsGroup(g: Group) {
    || (g.count == 0 && g.left == 0)
    || (g.count == 1 && g.left < 64)
    || (g.count == 2 && g.left < 16)
    || (g.count == 3 && g.left < 4)
  }

  const FRESH: Group := Group(0, 0, 0)

  /** What a character of the alphabet does to the group: the octet it completes, and the next group. */
  function Take(g: Group, v: nat): (r: (seq<Byte>, Group))
    requires IsGroup(g) && v < 64
    ensures IsGroup(r.1)
  {
    if g.count == 0 then ([], Group(1, v, 0))
    else if g.count == 1 then ([g.left * 4 + v / 16], Group(2, v % 16, 0))
    else if g.count == 2 then ([g.left * 16 + v / 4], Group(3, v % 4, 0))
    else ([g.left * 64 + v], FRESH)
  }

  /** Octets in front of what the rest of a text decodes to. */
  function Then(octets: seq<Byte>, rest: Option<seq<Byte>>): Option<seq<Byte>> {
    match rest
    case None => None
    case Some(more) => Some(octets + more)
  }

  lemma ThenThen(a: seq<Byte>, b: seq<Byte>, rest: Option<seq<Byte>>)
    ensures Then(a, Then(b, rest)) == Then(a + b, rest)
    ensures Then([], rest) == rest
  {
    match rest
    case None =>
    case Some(more) =>
      assert a + (b + more) == a + b + more;
      assert [] + more == more;
  }

  /** The decoder in the middle of a text; None is binascii.Error. */
  function DecodeFrom(s: string, g: Group): Option<seq<Byte>>
    requires IsGroup(g)
  {
    if s == "" then if g.count == 0 then Some([]) else None
    else if s[0] == '=' then
      if g.count < 2 then DecodeFrom(s[1..], g)
      else if g.count + g.pads + 1 >= 4 then Some([])
      else DecodeFrom(s[1..], g.(pads := g.pads + 1))
    else
      match ValueOf(s[0])
      case None => DecodeFrom(s[1..], g)
      case Some(v) =>
        var (octets, next) := Take(g, v);
        Then(octets, DecodeFrom(s[1..], next))
  }

  function Decode(s: string): Option<seq<Byte>> {
    DecodeFrom(s, FRESH)
  }

  predicate IsBase64Char(c: char) {
    c == '=' || ValueOf(c).Some?
  }

  /** The characters of a text that belong to base64: line breaks and the like removed. */
  function Base64Chars(s: string): string {
    if s == "" then ""
    else (if IsBase64Char(s[0]) then [s[0]] else "") + Base64Chars(s[1..])
  }

  /** Characters outside the alphabet change nothing, wherever they stand. */
  lemma {:induction false} DecodingSkipsOthers(s: string, g: Group)
    requires IsGroup(g)
    ensures DecodeFrom(s, g) == DecodeFrom(Base64Chars(s), g)
  {
    hide ValueOf;
    if s != "" {
      var t := Base64Chars(s);
      if !IsBase64Char(s[0]) {
        assert t == Base64Chars(s[1..]);
        DecodingSkipsOthers(s[1..], g);
      } else {
        assert t[0] == s[0] && t[1..] == Base64Chars(s[1..]);
        if s[0] == '=' {
          DecodingSkipsOthers(s[1..], g);
          if g.count >= 2 {
            DecodingSkipsOthers(s[1..], g.(pads := g.pads + 1));
          }
        } else {
          DecodingSkipsOthers(s[1..], Take(g, ValueOf(s[0]).value).1);
        }
      }
    }
  }

  lemma TakeOne(v: nat, rest: string, g: Group)
    requires IsGroup(g) && v < 64
    ensures DecodeFrom([CharOf(v)] + rest, g) == Then(Take(g, v).0, DecodeFrom(rest, Take(g, v).1))
  {
    hide Take;
    var s := [CharOf(v)] + rest;
    ValueOfCharOf(v);
    assert s[0] == CharOf(v) && s[0] != '=' && s[1..] == rest;
  }

  /** The first two characters of a group: the first octet, and the start of the second. */
  lemma TwoCharacters(a: Byte, v: nat, rest: string)
    requires v < 16
    ensures DecodeFrom([CharOf(a / 4), CharOf(a % 4 * 16 + v)] + rest, FRESH)
         == Then([a], DecodeFrom(rest, Group(2, v, 0)))
  {
    hide DecodeFrom, CharOf, Then;
    var v0, v1 := a / 4, a % 4 * 16 + v;
    assert v1 / 16 == a % 4 && v1 % 16 == v;
    var r1 := [CharOf(v1)] + rest;
    assert [CharOf(v0), CharOf(v1)] + rest == [CharOf(v0)] + r1;
    TakeOne(v0, r1, FRESH);
    TakeOne(v1, rest, Group(1, v0, 0));
    ThenThen([], [], DecodeFrom(r1, Group(1, v0, 0)));
  }

  lemma WholeGroup(a: Byte, b: Byte, c: Byte, rest: string)
    ensures DecodeFrom(FourCharacters(a, b, c) + rest, FRESH) == Then([a, b, c], DecodeFrom(rest, FRESH))
  {
    hide DecodeFrom, CharOf, Then;
    var v2, v3 := b % 16 * 4 + c / 64, c % 64;
    assert v2 / 4 == b % 16 && v2 % 4 == c / 64;
    var r3 := [CharOf(v3)] + rest;
    var r2 := [CharOf(v2)] + r3;
    var two := [CharOf(a / 4), CharOf(a % 4 * 16 + b / 16)];
    assert FourCharacters(a, b, c) + rest == two + r2;
    TwoCharacters(a, b / 16, r2);
    TakeOne(v2, r3, Group(2, b / 16, 0));
    assert b / 16 * 16 + v2 / 4 == b;
    TakeOne(v3, rest, Group(3, c / 64, 0));
    assert c / 64 * 64 + v3 == c;
    var tail := DecodeFrom(rest, FRESH);
    ThenThen([b], [c], tail);
    ThenThen([a], [b] + [c], tail);
    assert [a] + ([b] + [c]) == [a, b, c];
  }

  lemma PaddedEnd(g: Group, rest: string)
    requires IsGroup(g) && g.pads == 0
    ensures g.count == 3 ==> DecodeFrom("=" + rest, g) == Some([])
    ensures g.count == 2 ==> DecodeFrom("==" + rest, g) == Some([])
  {
    assert ("==" + rest)[1..] == "=" + rest && ("=" + rest)[1..] == rest;
  }

  lemma OneOctet(a: Byte, rest: string)
    ensures Decode([CharOf(a / 4), CharOf(a % 4 * 16), '=', '='] + rest) == Some([a])
  {
    hide DecodeFrom, CharOf;
    assert [CharOf(a / 4), CharOf(a % 4 * 16), '=', '='] + rest
        == [CharOf(a / 4), CharOf(a % 4 * 16 + 0)] + ("==" + rest);
    TwoCharacters(a, 0, "==" + rest);
    PaddedEnd(Group(2, 0, 0), rest);
    assert [a] + [] == [a];
  }

  lemma TwoOctets(a: Byte, b: Byte, rest: string)
    ensures Decode([CharOf(a / 4), CharOf(a % 4 * 16 + b / 16), CharOf(b % 16 * 4), '='] + rest) == Some([a, b])
  {
    hide DecodeFrom, CharOf;
    var v2 := b % 16 * 4;
    assert v2 / 4 == b % 16 && v2 % 4 == 0;
    var two := [CharOf(a / 4), CharOf(a % 4 * 16 + b / 16)];
    var more := [CharOf(v2)] + ("=" + rest);
    assert [CharOf(a / 4), CharOf(a % 4 * 16 + b / 16), CharOf(v2), '='] + rest == two + more;
    TwoCharacters(a, b / 16, more);
    TakeOne(v2, "=" + rest, Group(2, b / 16, 0));
    assert b / 16 * 16 + v2 / 4 == b;
    PaddedEnd(Group(3, 0, 0), rest);
    assert [a] + ([b] + []) == [a, b];
  }

  /**
    * What was encoded is decoded in front of any other text. Complete padding ends the decoding;
    * without padding it goes on with the text.
    */
  lemma {:induction false} EncodeThenMore(d: seq<Byte>, rest: string)
    ensures Decode(Encode(d) + rest) == if |d| % 3 == 0 then Then(d, Decode(rest)) else Some(d)
  {
    hide DecodeFrom, CharOf, FourCharacters, Then;
    if d == [] {
      assert Encode(d) + rest == rest;
      ThenThen([], [], Decode(rest));
    } else if |d| == 1 {
      OneOctet(d[0], rest);
      assert d == [d[0]];
    } else if |d| == 2 {
      TwoOctets(d[0], d[1], rest);
      assert d == [d[0], d[1]];
    } else {
      EncodeThenMore(d[3..], rest);
      var group := FourCharacters(d[0], d[1], d[2]);
      WholeGroup(d[0], d[1], d[2], Encode(d[3..]) + rest);
      assert Encode(d) + rest == group + (Encode(d[3..]) + rest);
      assert d == [d[0], d[1], d[2]] + d[3..];
      ThenThen([d[0], d[1], d[2]], d[3..], Decode(rest));
      ThenSome([d[0], d[1], d[2]], d[3..]);
    }
  }

  lemma ThenSome(a: seq<Byte>, b: seq<Byte>)
    ensures Then(a, Some(b)) == Some(a + b)
  {
  }

  /** Decoding what was encoded gives it back. */
  lemma EncodeThenDecode(d: seq<Byte>)
    ensures Decode(Encode(d)) == Some(d)
  {
    hide DecodeFrom, Encode;
    EncodeThenMore(d, "");
    EmptyText();
    assert Encode(d) + "" == Encode(d);
    assert d + [] == d;
  }

  /** Text without padding decodes exactly when its characters fill whole groups. */
  lemma {:induction false} WholeGroupsOnly(s: string, g: Group)
    requires IsGroup(g) && forall i :: 0 <= i < |s| ==> ValueOf(s[i]).Some?
    ensures DecodeFrom(s, g).Some? <==> (g.count + |s|) % 4 == 0
  {
    hide ValueOf;
    if s != "" {
      assert s[0] != '=' by { PaddingHasNoValue(); }
      WholeGroupsOnly(s[1..], Take(g, ValueOf(s[0]).value).1);
    }
  }

  lemma PaddingHasNoValue()
    ensures ValueOf('=').None?
  {
  }

  lemma EmptyText()
    ensures DecodeFrom("", FRESH) == Some([])
  {
  }

  /** The print consists of base64 characters. */
  lemma {:induction false} EncodedChars(d: seq<Byte>)
    ensures forall i :: 0 <= i < |Encode(d)| ==> IsBase64Char(Encode(d)[i])
  {
    if |d| >= 3 {
      EncodedChars(d[3..]);
      ValueOfCharOf(d[0] / 4);
      ValueOfCharOf(d[0] % 4 * 16 + d[1] / 16);
      ValueOfCharOf(d[1] % 16 * 4 + d[2] / 64);
      ValueOfCharOf(d[2] % 64);
    } else if |d| == 2 {
      ValueOfCharOf(d[0] / 4);
      ValueOfCharOf(d[0] % 4 * 16 + d[1] / 16);
      ValueOfCharOf(d[1] % 16 * 4);
    } else if |d| == 1 {
      ValueOfCharOf(d[0] / 4);
      ValueOfCharOf(d[0] % 4 * 16);
    }
  }

  lemma {:induction false} CharsOfAll(s: string)
    requires forall i :: 0 <= i < |s| ==> IsBase64Char(s[i])
    ensures Base64Chars(s) == s
  {
    if s != "" {
      CharsOfAll(s[1..]);
      assert s == [s[0]] + s[1..];
    }
  }

  lemma {:induction false} CharsOfConcat(a: string, b: string)
    ensures Base64Chars(a + b) == Base64Chars(a) + Base64Chars(b)
  {
    if a == "" {
      assert a + b == b;
    } else {
      assert (a + b)[1..] == a[1..] + b;
      CharsOfConcat(a[1..], b);
    }
  }

  // ----- The encoding by its digits -----

  /** The alphabet of table 1 of RFC 4648: three runs of consecutive characters and two single ones. */
  lemma AlphabetOfCharacters()
    ensures CharOf(0) == 'A' && CharOf(25) == 'Z' && CharOf(26) == 'a' && CharOf(51) == 'z'
    ensures CharOf(52) == '0' && CharOf(61) == '9' && CharOf(62) == '+' && CharOf(63) == '/'
    ensures forall v: nat :: v < 61 && v != 25 && v != 51 ==> CharOf(v + 1) as int == CharOf(v) as int + 1
  {
  }

  /** Three octets are one number of 24 bits, printed as its four digits in base 64. */
  lemma ThreeOctets(a: Byte, b: Byte, c: Byte, more: seq<Byte>) returns (w: nat, x: nat, y: nat, z: nat)
    ensures w < 64 && x < 64 && y < 64 && z < 64
    ensures 65536 * a + 256 * b + c == 262144 * w + 4096 * x + 64 * y + z
    ensures Encode([a, b, c] + more) == [CharOf(w), CharOf(x), CharOf(y), CharOf(z)] + Encode(more)
  {
    hide CharOf;
    w, x, y, z := a / 4, a % 4 * 16 + b / 16, b % 16 * 4 + c / 64, c % 64;
    assert ([a, b, c] + more)[3..] == more;
  }

  /** One or two octets at the end are filled up with zero bits, the group with padding. */
  lemma LastOctet(a: Byte) returns (w: nat, x: nat)
    ensures w < 64 && x < 64
    ensures Encode([]) == ""
    ensures 16 * a == 64 * w + x && Encode([a]) == [CharOf(w), CharOf(x), '=', '=']
  {
    hide CharOf;
    w, x := a / 4, a % 4 * 16;
  }

  lemma LastTwoOctets(a: Byte, b: Byte) returns (w: nat, x: nat, y: nat)
    ensures w < 64 && x < 64 && y < 64
    ensures 4 * (256 * a + b) == 4096 * w + 64 * x + y
    ensures Encode([a, b]) == [CharOf(w), CharOf(x), CharOf(y), '=']
  {
    hide CharOf;
    w, x, y := a / 4, a % 4 * 16 + b / 16, b % 16 * 4;
  }
}
