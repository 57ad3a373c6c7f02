/**
  * Certificate extraction in phase3/compressibility.py: a non-greedy scan for PEM blocks (section 2
  * of RFC 7468) over a file that runners/harness.py made by concatenating files. Octets of a file
  * are characters here.
  */
module Pem {
  import opened Wrappers
  import opened Bytes
  import Base64

  function Begin(): (s: string)
    ensures |s| == 27 && s[0] == '-'
  {
    "-----BEGIN CERTIFICATE-----"
  }

  function End(): (s: string)
    ensures |s| == 25 && s[0] == '-'
  {
    "-----END CERTIFICATE-----"
  }

  /** Where the pattern first occurs. */
  function Find(pattern: string, s: string): (r: Option<nat>)
    ensures r.Some? ==> r.value + |pattern| <= |s| && pattern <= s[r.value..]
    ensures r.Some? ==> forall i: nat :: i < r.value ==> !(pattern <= s[i..])
    ensures r.None? ==> forall i: nat :: i <= |s| ==> !(pattern <= s[i..])
  {
    if pattern <= s then (assert s[0..] == s; Some(0))
    else if s == "" then None
    else
      match Find(pattern, s[1..])
      case None =>
        assert forall i: nat :: 0 < i <= |s| ==> s[i..] == s[1..][i - 1..];
        assert s[0..] == s;
        None
      case Some(n) =>
        assert forall i: nat :: 0 < i <= |s| ==> s[i..] == s[1..][i - 1..];
        assert s[0..] == s;
        Some(n + 1)
  }

  /**
    * PEM_RE.findall: leftmost blocks first; the group holds at least one character and reaches to
    * the first END from there; the search goes on behind the END.
    */
  function FindAll(s: string): seq<string>
    decreases |s|
  {
    if s == "" then []
    else if Begin() <= s && |s| > |Begin()| then
      match Find(End(), s[|Begin()| + 1..])
      case None => FindAll(s[1..])
      case Some(n) =>
        var close := |Begin()| + 1 + n;
        [s[|Begin()|..close]] + FindAll(s[close + |End()|..])
    else FindAll(s[1..])
  }

  datatype PayloadError = NoCertificates | BadBase64

  function DecodeBlocks(blocks: seq<string>): Option<seq<seq<Byte>>> {
    if blocks == [] then Some([])
    else
      match (Base64.Decode(blocks[0]), DecodeBlocks(blocks[1..]))
      case (Some(d), Some(ds)) => Some([d] + ds)
      case _ => None
  }

  function Concat(ds: seq<seq<Byte>>): seq<Byte> {
    if ds == [] then [] else ds[0] + Concat(ds[1..])
  }

  function DerPayload(text: string): Result<seq<Byte>, PayloadError> {
    var blocks := FindAll(text);
    if blocks == [] then Err(NoCertificates)
    else
      match DecodeBlocks(blocks)
      case None => Err(BadBase64)
      case Some(ds) => Ok(Concat(ds))
  }

  // ----- Printing -----

  /** Base64 text wrapped at 64 columns, every line ended. */
  function Wrap(e: string): string {
    if e == "" then ""
    else if |e| <= 64 then e + "\n"
    else e[..64] + "\n" + Wrap(e[64..])
  }

  /** No marker starts in the text, when one follows it. */
  ghost predicate MarkerIsFirst(text: string, marker: string) {
    forall q :: 0 <= q < |text| ==> !(marker <= (text + marker)[q..])
  }

  /** No marker starts in the text, whatever follows it. */
  ghost predicate NoMarkerStarts(text: string, marker: string) {
    forall q :: 0 <= q < |text| ==> !(marker <= text[q..]) && !(text[q..] <= marker)
  }

  /**
    * A block body for some octets: their base64 with any other characters in between, as long as no
    * END starts behind its first character before the block's own.
    */
  ghost predicate IsBody(body: string, der: seq<Byte>) {
    && body != ""
    && MarkerIsFirst(body[1..], End())
    && Base64.Base64Chars(body) == Base64.Encode(der)
  }

  /** One certificate of a file: text in front, and the body between the markers. */
  datatype Block = Block(before: string, body: string, der: seq<Byte>)

  ghost predicate IsBlock(b: Block) {
    MarkerIsFirst(b.before, Begin()) && IsBody(b.body, b.der)
  }

  function PrintBlock(b: Block): string {
    b.before + Begin() + b.body + End()
  }

  function PrintFile(bs: seq<Block>, trailer: string): string {
    if bs == [] then trailer else PrintBlock(bs[0]) + PrintFile(bs[1..], trailer)
  }

  ghost predicate IsFile(bs: seq<Block>, trailer: string) {
    NoMarkerStarts(trailer, Begin()) && forall i :: 0 <= i < |bs| ==> IsBlock(bs[i])
  }

  function Ders(bs: seq<Block>): (ds: seq<seq<Byte>>)
    ensures |ds| == |bs|
  {
    seq(|bs|, i requires 0 <= i < |bs| => bs[i].der)
  }

  function Bodies(bs: seq<Block>): (ts: seq<string>)
    ensures |ts| == |bs|
  {
    seq(|bs|, i requires 0 <= i < |bs| => bs[i].body)
  }

  /** A certificate printed the strict way, with 64-column lines. */
  function StrictBlock(before: string, der: seq<Byte>): Block {
    Block(before, "\n" + Wrap(Base64.Encode(der)), der)
  }

  lemma {:induction false} WrapKeepsChars(e: string)
    requires forall i :: 0 <= i < |e| ==> Base64.IsBase64Char(e[i])
    ensures Base64.Base64Chars(Wrap(e)) == e
    ensures '-' !in Wrap(e)
    decreases |e|
  {
    assert !Base64.IsBase64Char('\n') && !Base64.IsBase64Char('-');
    assert "\n"[1..] == "";
    assert Base64.Base64Chars("\n") == "";
    if |e| > 64 {
      var line, rest := e[..64], e[64..];
      WrapKeepsChars(rest);
      Base64.CharsOfAll(line);
      Base64.CharsOfConcat(line + "\n", Wrap(rest));
      Base64.CharsOfConcat(line, "\n");
      assert e == line + rest;
    } else if e != "" {
      Base64.CharsOfAll(e);
      Base64.CharsOfConcat(e, "\n");
    }
  }

  /** Text whose hyphens stand alone, such as the name of a signature algorithm, starts no marker. */
  lemma LoneHyphens(text: string, marker: string)
    requires marker != "" && |marker| > 1 && marker[..2] == "--"
    requires forall i :: 0 <= i < |text| && text[i] == '-' ==> i + 1 < |text| && text[i + 1] != '-'
    ensures MarkerIsFirst(text, marker) && NoMarkerStarts(text, marker)
  {
    forall q | 0 <= q < |text| ensures !(marker <= (text + marker)[q..]) {
      LoneHyphenStartsNone(text, marker, (text + marker)[q..], q);
    }
    forall q | 0 <= q < |text| ensures !(marker <= text[q..]) && !(text[q..] <= marker) {
      LoneHyphenStartsNone(text, marker, text[q..], q);
    }
  }

  lemma LoneHyphenStartsNone(text: string, marker: string, rest: string, q: nat)
    requires |marker| > 1 && marker[..2] == "--" && q < |text| && text[q..] <= rest
    requires text[q] == '-' ==> q + 1 < |text| && text[q + 1] != '-'
    ensures !(marker <= rest) && !(rest <= marker)
  {
    assert marker[0] == marker[..2][0] && marker[1] == marker[..2][1];
    assert rest[0] == text[q..][0] == text[q];
    assert text[q] == '-' ==> rest[1] == text[q..][1] == text[q + 1];
  }

  /** Strict printing is one of the layouts covered, for every octet string, the empty one included. */
  lemma StrictBlockIsBlock(before: string, der: seq<Byte>)
    requires MarkerIsFirst(before, Begin())
    ensures IsBlock(StrictBlock(before, der))
  {
    var e := Base64.Encode(der);
    Base64.EncodedChars(der);
    WrapKeepsChars(e);
    Base64.CharsOfConcat("\n", Wrap(e));
    assert Base64.Base64Chars("\n") == "" by {
      assert !Base64.IsBase64Char('\n');
      assert "\n"[1..] == "";
    }
    var body := "\n" + Wrap(e);
    assert body[1..] == Wrap(e);
    LoneHyphens(body[1..], End());
  }

  // ----- Scanning -----

  lemma {:induction false} SkipMarkerFree(front: string, rest: string)
    requires forall q :: 0 <= q < |front| ==> !(Begin() <= (front + rest)[q..])
    ensures FindAll(front + rest) == FindAll(rest)
  {
    hide Begin, End, Find;
    var s := front + rest;
    if front == "" {
      assert s == rest;
    } else {
      assert s[0..] == s;
      assert s[1..] == front[1..] + rest;
      forall q | 0 <= q < |front[1..]| ensures !(Begin() <= (front[1..] + rest)[q..]) {
        assert s[q + 1..] == s[1..][q..];
      }
      SkipMarkerFree(front[1..], rest);
    }
  }

  lemma FollowedByMarker(text: string, marker: string, rest: string, q: nat)
    requires q < |text|
    ensures marker <= (text + (marker + rest))[q..] <==> marker <= (text + marker)[q..]
  {
    assert text + (marker + rest) == text + marker + rest;
    assert (text + marker + rest)[q..] == (text + marker)[q..] + rest;
  }

  lemma FollowedByAnything(text: string, marker: string, rest: string, q: nat)
    requires q < |text| && NoMarkerStarts(text, marker)
    ensures !(marker <= (text + rest)[q..])
  {
    assert (text + rest)[q..] == text[q..] + rest;
    PrefixOfConcat(marker, text[q..], rest);
  }

  lemma PrefixOfConcat(a: string, b: string, c: string)
    ensures a <= b + c ==> a <= b || b <= a
  {
    if a <= b + c {
      assert a == (b + c)[..|a|];
      if |a| <= |b| {
        assert a == b[..|a|];
      } else {
        assert a[..|b|] == b;
      }
    }
  }

  lemma EndIsFoundFirst(body: string, rest: string)
    requires MarkerIsFirst(body, End())
    ensures Find(End(), body + (End() + rest)) == Some(|body|)
  {
    hide End, Find;
    var s := body + (End() + rest);
    assert s[|body|..] == End() + rest;
    forall q: nat | q < |body| ensures !(End() <= s[q..]) {
      FollowedByMarker(body, End(), rest, q);
    }
  }

  /** One block at the start of the text is found, whatever follows. */
  lemma ScanMarkers(body: string, rest: string)
    requires body != "" && MarkerIsFirst(body[1..], End())
    ensures FindAll(Begin() + (body + (End() + rest))) == [body] + FindAll(rest)
  {
    hide Find, Begin, End, MarkerIsFirst;
    var inner := body + (End() + rest);
    var s := Begin() + inner;
    var first, more := body[..1], body[1..];
    assert body == first + more;
    assert s[27..] == inner;
    assert s[28..] == inner[1..] == more + (End() + rest);
    EndIsFoundFirst(more, rest);
    var close := 28 + |more|;
    assert s[27..close] == inner[..|body|] == body;
    assert s[close + 25..] == inner[|body| + 25..] == rest;
  }

  lemma ScanBlock(b: Block, rest: string)
    requires IsBlock(b)
    ensures FindAll(PrintBlock(b) + rest) == [b.body] + FindAll(rest)
  {
    hide FindAll, Base64.Base64Chars, Base64.Encode, Begin, End;
    var s := Begin() + (b.body + (End() + rest));
    assert PrintBlock(b) + rest == b.before + s;
    forall q | 0 <= q < |b.before| ensures !(Begin() <= (b.before + s)[q..]) {
      FollowedByMarker(b.before, Begin(), b.body + (End() + rest), q);
    }
    SkipMarkerFree(b.before, s);
    ScanMarkers(b.body, rest);
  }

  /** Scanning a file of blocks and then more text finds the blocks, then what the text holds. */
  lemma {:induction false} ScanFile(bs: seq<Block>, trailer: string, more: string)
    requires IsFile(bs, trailer)
    ensures FindAll(PrintFile(bs, trailer) + more) == Bodies(bs) + FindAll(more)
  {
    hide FindAll, PrintBlock, IsBlock;
    if bs == [] {
      forall q | 0 <= q < |trailer| ensures !(Begin() <= (trailer + more)[q..]) {
        FollowedByAnything(trailer, Begin(), more, q);
      }
      SkipMarkerFree(trailer, more);
    } else {
      var rest := PrintFile(bs[1..], trailer) + more;
      assert PrintFile(bs, trailer) + more == PrintBlock(bs[0]) + rest;
      ScanBlock(bs[0], rest);
      ScanFile(bs[1..], trailer, more);
      assert Bodies(bs) == [bs[0].body] + Bodies(bs[1..]);
    }
  }

  /** Scanning a concatenation of files finds what scanning each finds, in order. */
  lemma ScanOfConcatenation(bs: seq<Block>, trailer: string, more: string)
    requires IsFile(bs, trailer)
    ensures FindAll(PrintFile(bs, trailer) + more) == FindAll(PrintFile(bs, trailer)) + FindAll(more)
  {
    hide FindAll, IsBlock, PrintFile;
    ScanFile(bs, trailer, more);
    ScanFile(bs, trailer, "");
    assert PrintFile(bs, trailer) + "" == PrintFile(bs, trailer);
    NothingToFind();
    assert Bodies(bs) + [] == Bodies(bs);
  }

  lemma BodyDecodes(b: Block)
    requires IsBlock(b)
    ensures Base64.Decode(b.body) == Some(b.der)
  {
    Base64.DecodingSkipsOthers(b.body, Base64.FRESH);
    Base64.EncodeThenDecode(b.der);
  }

  lemma {:induction false} BodiesDecode(bs: seq<Block>)
    requires forall i :: 0 <= i < |bs| ==> IsBlock(bs[i])
    ensures DecodeBlocks(Bodies(bs)) == Some(Ders(bs))
  {
    hide IsBlock;
    if bs != [] {
      BodyDecodes(bs[0]);
      BodiesDecode(bs[1..]);
      assert Bodies(bs)[1..] == Bodies(bs[1..]);
      assert Ders(bs) == [bs[0].der] + Ders(bs[1..]);
    }
  }

  /**
    * der_payload of a concatenation of certificate files (a leaf file, then an intermediate file) is
    * the certificates' octets, concatenated in order.
    */
  lemma PayloadRoundTrip(leaf: seq<Block>, leafTrailer: string, issuer: seq<Block>, issuerTrailer: string)
    requires IsFile(leaf, leafTrailer) && IsFile(issuer, issuerTrailer)
    requires leaf + issuer != []
    ensures FindAll(PrintFile(leaf, leafTrailer) + PrintFile(issuer, issuerTrailer)) == Bodies(leaf + issuer)
    ensures DecodeBlocks(Bodies(leaf + issuer)) == Some(Ders(leaf + issuer))
    ensures DerPayload(PrintFile(leaf, leafTrailer) + PrintFile(issuer, issuerTrailer))
         == Ok(Concat(Ders(leaf + issuer)))
  {
    hide FindAll, IsBlock, DecodeBlocks, PrintFile, Bodies, Ders, Concat;
    ScanFile(leaf, leafTrailer, PrintFile(issuer, issuerTrailer));
    ScanFile(issuer, issuerTrailer, "");
    assert PrintFile(issuer, issuerTrailer) + "" == PrintFile(issuer, issuerTrailer);
    NothingToFind();
    BodiesAppend(leaf, issuer);
    assert Bodies(issuer) + [] == Bodies(issuer);
    BodiesDecode(leaf + issuer);
    assert |Bodies(leaf + issuer)| > 0;
  }

  lemma BodiesAppend(a: seq<Block>, b: seq<Block>)
    ensures Bodies(a) + Bodies(b) == Bodies(a + b)
  {
  }

  lemma NothingToFind()
    ensures FindAll("") == []
  {
  }

  // ----- Payloads by their certificates -----

  lemma {:induction false} ConcatAppend(a: seq<seq<Byte>>, b: seq<seq<Byte>>)
    ensures Concat(a + b) == Concat(a) + Concat(b)
  {
    if a == [] {
      assert a + b == b;
    } else {
      assert (a + b)[1..] == a[1..] + b;
      ConcatAppend(a[1..], b);
    }
  }

  lemma FilePayload(bs: seq<Block>, trailer: string)
    requires IsFile(bs, trailer) && bs != []
    ensures DerPayload(PrintFile(bs, trailer)) == Ok(Concat(Ders(bs)))
  {
    hide FindAll, IsBlock, DecodeBlocks, PrintFile, Bodies, Ders, Concat;
    ScanFile(bs, trailer, "");
    assert PrintFile(bs, trailer) + "" == PrintFile(bs, trailer);
    NothingToFind();
    assert Bodies(bs) + [] == Bodies(bs);
    BodiesDecode(bs);
    assert |Bodies(bs)| > 0;
  }

  /**
    * The payload of two files is that of the first, then that of the second; it starts with the first
    * certificate's octets.
    */
  lemma PayloadOfConcatenation(leaf: seq<Block>, leafTrailer: string, issuer: seq<Block>, issuerTrailer: string)
    requires IsFile(leaf, leafTrailer) && IsFile(issuer, issuerTrailer)
    requires leaf != [] && issuer != []
    ensures var first, second := PrintFile(leaf, leafTrailer), PrintFile(issuer, issuerTrailer);
            && DerPayload(first).Ok? && DerPayload(second).Ok? && DerPayload(first + second).Ok?
            && DerPayload(first + second).value == DerPayload(first).value + DerPayload(second).value
            && leaf[0].der <= DerPayload(first).value
  {
    hide FindAll, IsBlock, DecodeBlocks, PrintFile, DerPayload;
    PayloadRoundTrip(leaf, leafTrailer, issuer, issuerTrailer);
    FilePayload(leaf, leafTrailer);
    FilePayload(issuer, issuerTrailer);
    assert Ders(leaf + issuer) == Ders(leaf) + Ders(issuer);
    ConcatAppend(Ders(leaf), Ders(issuer));
  }

  /** The payload of one leaf and one intermediate: the leaf's octets, then the intermediate's. */
  lemma PayloadOfTwo(leaf: Block, leafTrailer: string, issuer: Block, issuerTrailer: string)
    requires IsFile([leaf], leafTrailer) && IsFile([issuer], issuerTrailer)
    ensures DerPayload(PrintFile([leaf], leafTrailer) + PrintFile([issuer], issuerTrailer))
         == Ok(leaf.der + issuer.der)
  {
    hide FindAll, IsBlock, DecodeBlocks, PrintFile, DerPayload;
    PayloadRoundTrip([leaf], leafTrailer, [issuer], issuerTrailer);
    assert Ders([leaf] + [issuer]) == [leaf.der, issuer.der];
    ConcatTwo(leaf.der, issuer.der);
  }

  lemma ConcatTwo(a: seq<Byte>, b: seq<Byte>)
    ensures Concat([a, b]) == a + b
  {
    assert [a, b][1..] == [b] && [b][1..] == [];
    assert Concat([b]) == b + [];
  }

  /** A file as the tools print it. */
  lemma TextOfStrictFile(der: seq<Byte>)
    ensures PrintFile([StrictBlock("", der)], "\n")
         == "-----BEGIN CERTIFICATE-----\n" + Wrap(Base64.Encode(der)) + "-----END CERTIFICATE-----\n"
    ensures IsFile([StrictBlock("", der)], "\n")
  {
    hide Wrap, Base64.Encode;
    var b := StrictBlock("", der);
    StrictBlockIsBlock("", der);
    LoneHyphens("\n", Begin());
    assert PrintFile([b][1..], "\n") == "\n";
    assert "-----BEGIN CERTIFICATE-----" + "\n" == "-----BEGIN CERTIFICATE-----\n";
    assert "-----END CERTIFICATE-----" + "\n" == "-----END CERTIFICATE-----\n";
    assert PrintBlock(b)
        == "-----BEGIN CERTIFICATE-----" + ("\n" + Wrap(Base64.Encode(der))) + "-----END CERTIFICATE-----";
  }

  /** The two exceptions: no block at all, and a block that base64 refuses. */
  lemma PayloadExceptions(text: string)
    ensures DerPayload(text) == Err(NoCertificates) <==> FindAll(text) == []
    ensures DerPayload(text) == Err(BadBase64)
       <==> exists i :: 0 <= i < |FindAll(text)| && Base64.Decode(FindAll(text)[i]) == None
  {
    hide FindAll, Base64.Decode;
    UndecodableBlocks(FindAll(text));
  }

  lemma {:induction false} UndecodableBlocks(blocks: seq<string>)
    ensures DecodeBlocks(blocks) == None <==> exists i :: 0 <= i < |blocks| && Base64.Decode(blocks[i]) == None
  {
    hide Base64.Decode;
    if blocks != [] {
      UndecodableBlocks(blocks[1..]);
      assert blocks == [blocks[0]] + blocks[1..];
      assert forall i :: 0 < i < |blocks| ==> blocks[i] == blocks[1..][i - 1];
      assert forall i :: 0 <= i < |blocks| - 1 ==> blocks[1..][i] == blocks[i + 1];
    }
  }

  /** Markers with nothing between them are no block: the group holds at least one character. */
  lemma EmptyBlockIsNone()
    ensures FindAll("-----BEGIN CERTIFICATE-----" + "-----END CERTIFICATE-----") == []
  {
    hide FindAll;
    ShortTextHasNoBlock("-----BEGIN CERTIFICATE-----" + "-----END CERTIFICATE-----");
  }

  /** A block takes at least 53 characters. */
  lemma {:induction false} ShortTextHasNoBlock(s: string)
    requires |s| <= 52
    ensures FindAll(s) == []
  {
    hide Find;
    if s != "" {
      ShortTextHasNoBlock(s[1..]);
      if |s| > 27 {
        var rest := s[28..];
        assert |rest| < 25;
      }
    }
  }
}
