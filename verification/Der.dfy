/**
  * Tag-length-value octets: the length printer of phase0/catalyst_build.py and the parsing loop
  * of gen/sizes.py, and how far the two are inverses of each other.
  *
  * Length octets follow section 8.1.3 of X.690; the minimal form is the one of its section 10.1.
  */
module Der {
  import opened Wrappers
  import opened Bytes
  import opened Sequences

  datatype Tlv = Tlv(tag: Byte, content: seq<Byte>)

  // ----- Printing -----

  /**
    * der_len. Python's bytes([0x80 | len(b)]) raises ValueError once the octet count no longer
    * fits an octet; that is None here.
    */
  function DerLen(n: nat): Option<seq<Byte>> {
    if n < 0x80 then Some([n])
    else
      var b := ToBigEndian(n, MinBytes(n));
      if |b| < 0x100 then (OctetMasks(|b|); Some([Or(|b|, 0x80)] + b))
      else None
  }

  /** The least content length that der_len no longer prints readably: 256^127. */
  function Limit(): nat {
    Pow256(127)
  }

  lemma OneOctetBound()
    ensures Pow256(1) == 256 <= Limit()
  {
    assert Pow256(0) == 1;
    Pow256Monotone(1, 127);
  }

  /** The printed length, for the contents below Limit() (and whatever is printed above it). */
  function LengthOctets(n: nat): seq<Byte> {
    match DerLen(n)
    case Some(h) => h
    case None => []
  }

  function Encode(x: Tlv): seq<Byte> {
    [x.tag] + LengthOctets(|x.content|) + x.content
  }

  function EncodeAll(xs: seq<Tlv>): seq<Byte> {
    if xs == [] then [] else Encode(xs[0]) + EncodeAll(xs[1..])
  }

  ghost predicate Fits(x: Tlv) {
    |x.content| < Limit()
  }

  ghost predicate AllFit(xs: seq<Tlv>) {
    forall i :: 0 <= i < |xs| ==> Fits(xs[i])
  }

  // ----- Parsing -----

  /** Where the content starts, and the length the header announces. */
  datatype Header = Header(start: nat, length: nat)

  /** Reads a tag octet and its length octets; a short buffer cuts the length octets off. */
  function ReadHeader(buf: seq<Byte>): (h: Header)
    requires |buf| >= 2
    ensures h.start >= 2
  {
    if buf[1] < 128 then Header(2, buf[1])
    else
      var n := buf[1] - 128;
      Header(2 + n, FromBigEndian(Slice(buf, 2, 2 + n)))
  }

  lemma AnnouncedLengthFits(buf: seq<Byte>)
    requires |buf| >= 2
    ensures ReadHeader(buf).length < Limit()
  {
    OneOctetBound();
    if buf[1] >= 128 {
      OctetsFit(Slice(buf, 2, 2 + (buf[1] - 128)));
    }
  }

  lemma OctetsFit(octets: seq<Byte>)
    requires |octets| <= 127
    ensures FromBigEndian(octets) < Limit()
  {
    FromThenToBigEndian(octets);
    Pow256Monotone(|octets|, 127);
  }

  /**
    * Everything the generator does: the elements it yields, and whether it then ends normally or
    * raises IndexError because a tag is the last octet of the buffer.
    */
  datatype Walk = Walk(items: seq<Tlv>, ok: bool)

  function Yield(x: Tlv, rest: Walk): Walk {
    Walk([x] + rest.items, rest.ok)
  }

  function FirstItem(buf: seq<Byte>): Tlv
    requires |buf| >= 2
  {
    var h := ReadHeader(buf);
    Tlv(buf[0], Slice(buf, h.start, h.start + h.length))
  }

  function AfterFirst(buf: seq<Byte>): (rest: seq<Byte>)
    requires |buf| >= 2
    ensures |rest| <= |buf| - 2
  {
    var h := ReadHeader(buf);
    Drop(buf, h.start + h.length)
  }

  function Children(buf: seq<Byte>): Walk
    decreases |buf|
  {
    if buf == [] then Walk([], true)
    else if |buf| == 1 then Walk([], false)
    else Yield(FirstItem(buf), Children(AfterFirst(buf)))
  }

  /** One turn of the loop, at offset i of the whole buffer. */
  lemma LoopTurn(buf: seq<Byte>, i: nat)
    requires i + 1 < |buf|
    ensures var h := ReadHeader(Drop(buf, i));
            var j := i + h.start;
            Children(Drop(buf, i))
            == Yield(Tlv(buf[i], Slice(buf, j, j + h.length)), Children(Drop(buf, j + h.length)))
  {
    hide Children, FromBigEndian;
    var here := Drop(buf, i);
    var h := ReadHeader(here);
    SliceOfDrop(buf, i, h.start, h.start + h.length);
    DropThenDrop(buf, i, h.start + h.length);
    UnfoldChildren(here);
  }

  lemma UnfoldChildren(buf: seq<Byte>)
    requires |buf| >= 2
    ensures Children(buf) == Yield(FirstItem(buf), Children(AfterFirst(buf)))
  {
  }

  lemma DropThenDrop(buf: seq<Byte>, i: nat, k: nat)
    requires i <= |buf|
    ensures Drop(Drop(buf, i), k) == Drop(buf, i + k)
  {
  }

  lemma SliceOfDrop(buf: seq<Byte>, i: nat, lo: nat, hi: nat)
    requires i <= |buf| && lo <= hi
    ensures Slice(Drop(buf, i), lo, hi) == Slice(buf, i + lo, i + hi)
  {
  }

  lemma HeaderAtOffset(buf: seq<Byte>, i: nat)
    requires i + 1 < |buf|
    ensures ReadHeader(Drop(buf, i))
         == if buf[i + 1] < 128 then Header(2, buf[i + 1])
            else var n := buf[i + 1] - 128; Header(2 + n, FromBigEndian(Slice(buf, i + 2, i + 2 + n)))
  {
    hide FromBigEndian;
    if buf[i + 1] >= 128 {
      SliceOfDrop(buf, i, 2, 2 + (buf[i + 1] - 128));
    }
  }

  /** der_children, with the loop of the source: `ok` is false when it ends in IndexError. */
  method DerChildren(buf: seq<Byte>) returns (items: seq<Tlv>, ok: bool)
    ensures Walk(items, ok) == Children(buf)
  {
    hide Children, FromBigEndian, And, ReadHeader, Slice, Drop, Prepend, Yield;
    items := [];
    var i := 0;
    ghost var rest := Children(buf);
    DropNothing(buf);
    PrependNothing(rest);
    while i < |buf|
      invariant 0 <= i
      invariant rest == Children(Drop(buf, i))
      invariant Children(buf) == Prepend(items, rest)
      decreases |buf| - i
    {
      if i + 1 >= |buf| {
        TruncatedTag(buf, i);
        PrependEnd(items, false);
        return items, false;
      }
      LoopTurn(buf, i);
      HeaderAtOffset(buf, i);
      var tag := buf[i];
      var length: nat := buf[i + 1];
      var j := i + 2;
      OctetMasks(buf[i + 1]);
      if And(buf[i + 1], 0x80) != 0 {
        var n := And(buf[i + 1], 0x7F);
        length := FromBigEndian(Slice(buf, j, j + n));
        j := j + n;
      }
      var item := Tlv(tag, Slice(buf, j, j + length));
      ghost var next := Children(Drop(buf, j + length));
      PrependYield(items, item, next);
      items := items + [item];
      rest := next;
      i := j + length;
    }
    NothingLeft(buf, i);
    PrependEnd(items, true);
    ok := true;
  }

  /** A walk with some elements already yielded before it. */
  ghost function Prepend(done: seq<Tlv>, rest: Walk): Walk {
    Walk(done + rest.items, rest.ok)
  }

  lemma PrependNothing(w: Walk)
    ensures Prepend([], w) == w
  {
    assert [] + w.items == w.items;
  }

  lemma PrependYield(done: seq<Tlv>, x: Tlv, rest: Walk)
    ensures Prepend(done, Yield(x, rest)) == Prepend(done + [x], rest)
  {
    assert done + ([x] + rest.items) == done + [x] + rest.items;
  }

  lemma PrependEnd(done: seq<Tlv>, ok: bool)
    ensures Prepend(done, Walk([], ok)) == Walk(done, ok)
  {
    assert done + [] == done;
  }

  lemma DropNothing(buf: seq<Byte>)
    ensures Drop(buf, 0) == buf
  {
  }

  lemma TruncatedTag(buf: seq<Byte>, i: nat)
    requires i + 1 == |buf|
    ensures Children(Drop(buf, i)) == Walk([], false)
  {
  }

  lemma NothingLeft(buf: seq<Byte>, i: nat)
    requires i >= |buf|
    ensures Children(Drop(buf, i)) == Walk([], true)
  {
    assert Drop(buf, i) == [];
  }

  // ----- No gap and no overlap, on every octet string -----

  /** The header octets of the yielded elements, in order. */
  function Headers(buf: seq<Byte>): seq<seq<Byte>>
    decreases |buf|
  {
    if |buf| < 2 then []
    else [Slice(buf, 0, ReadHeader(buf).start)] + Headers(AfterFirst(buf))
  }

  /** Headers and contents laid one after the other. */
  function Interleave(headers: seq<seq<Byte>>, items: seq<Tlv>): seq<Byte>
    requires |headers| == |items|
  {
    if items == [] then []
    else headers[0] + items[0].content + Interleave(headers[1..], items[1..])
  }

  lemma FirstTile(buf: seq<Byte>)
    requires |buf| >= 2
    ensures Headers(buf)[0] + FirstItem(buf).content + AfterFirst(buf) == buf
    ensures |Headers(buf)[0]| >= 2 && Headers(buf)[0][0] == FirstItem(buf).tag
  {
    var h := ReadHeader(buf);
    SlicesMeet(buf, h.start, h.start + h.length);
  }

  lemma SlicesMeet(buf: seq<Byte>, a: nat, b: nat)
    requires a <= b
    ensures Slice(buf, 0, a) + Slice(buf, a, b) + Drop(buf, b) == buf
  {
  }

  /**
    * On every octet string the yielded elements tile the buffer: headers of at least two octets
    * and contents follow each other with no gap and no overlap up to the end, or up to the one
    * octet at which the generator raises IndexError.
    */
  lemma {:induction false} ElementsTileTheBuffer(buf: seq<Byte>)
    ensures |Headers(buf)| == |Children(buf).items|
    ensures forall k :: 0 <= k < |Headers(buf)| ==>
              |Headers(buf)[k]| >= 2 && Headers(buf)[k][0] == Children(buf).items[k].tag
    ensures Interleave(Headers(buf), Children(buf).items)
         == if Children(buf).ok then buf else buf[..|buf| - 1]
    decreases |buf|
  {
    if |buf| >= 2 {
      var rest := AfterFirst(buf);
      ElementsTileTheBuffer(rest);
      FirstTile(buf);
      var headers, items := Headers(buf), Children(buf).items;
      assert headers[1..] == Headers(rest) && items[1..] == Children(rest).items;
      var front := headers[0] + items[0].content;
      if !Children(buf).ok {
        LastOctet(front, rest);
      }
    }
  }

  lemma LastOctet(front: seq<Byte>, rest: seq<Byte>)
    requires rest != []
    ensures (front + rest)[..|front + rest| - 1] == front + rest[..|rest| - 1]
  {
  }

  lemma {:induction false} ParsedLengthsFit(buf: seq<Byte>)
    ensures AllFit(Children(buf).items)
    decreases |buf|
  {
    if |buf| >= 2 {
      AnnouncedLengthFits(buf);
      ParsedLengthsFit(AfterFirst(buf));
    }
  }

  // ----- Length octets of any width -----

  /** h is a definite-form encoding of n, of minimal width or wider (section 8.1.3 of X.690). */
  predicate IsLengthOctets(h: seq<Byte>, n: nat) {
    && h != []
    && if h[0] < 128 then |h| == 1 && n == h[0]
       else |h| == 1 + (h[0] - 128) && n == FromBigEndian(h[1..])
  }

  lemma LengthOctetsReadBack(tag: Byte, h: seq<Byte>, n: nat, rest: seq<Byte>)
    requires IsLengthOctets(h, n)
    ensures ReadHeader([tag] + h + rest) == Header(1 + |h|, n)
  {
    var buf := [tag] + h + rest;
    assert buf[1] == h[0];
    if h[0] >= 128 {
      assert Slice(buf, 2, 1 + |h|) == h[1..];
    }
  }

  /** One element with a header of any width is peeled off, whatever follows it. */
  lemma ParseOne(tag: Byte, h: seq<Byte>, content: seq<Byte>, rest: seq<Byte>)
    requires IsLengthOctets(h, |content|)
    ensures Children([tag] + h + content + rest)
         == Yield(Tlv(tag, content), Children(rest))
  {
    var buf := [tag] + h + content + rest;
    assert buf == [tag] + h + (content + rest);
    LengthOctetsReadBack(tag, h, |content|, content + rest);
    assert FirstItem(buf) == Tlv(tag, content);
    assert AfterFirst(buf) == rest;
  }

  // ----- der_len -----

  lemma DerLenShape(n: nat)
    requires n >= 0x80
    ensures var k := MinBytes(n);
            && k >= 1
            && Pow256(k - 1) <= n < Pow256(k)
            && FromBigEndian(ToBigEndian(n, k)) == n
  {
    var k := MinBytes(n);
    MinBytesIsLeast(n, k);
    MinBytesIsLeast(n, 0);
    MinBytesIsLeast(n, k - 1);
    assert Pow256(0) == 1;
    ToThenFromBigEndian(n, k);
  }

  /**
    * der_len prints length octets that read back as the length exactly below 256^127. From there
    * on `0x80 | len(b)` no longer announces len(b) octets, until it stops fitting an octet and
    * the call raises.
    */
  lemma DerLenReadsBackBelowLimit(n: nat)
    ensures n < Limit() <==> DerLen(n).Some? && IsLengthOctets(DerLen(n).value, n)
  {
    hide ToBigEndian, FromBigEndian, Or, MinBytes;
    OneOctetBound();
    if n >= 0x80 {
      DerLenShape(n);
      var k := MinBytes(n);
      MinBytesIsLeast(n, 127);
      if k < 0x100 {
        OctetMasks(k);
        var h := DerLen(n).value;
        assert h[1..] == ToBigEndian(n, k);
      }
    }
  }

  /**
    * From the limit on the first octet is the octet count itself instead of 128 more, which announces
    * 128 octets too few; and the call raises exactly from 256^255 on.
    */
  lemma DerLenAboveLimit(n: nat)
    requires n >= Limit()
    ensures DerLen(n).None? <==> n >= Pow256(255)
    ensures n < Pow256(255) ==>
              var h := DerLen(n).value;
              && h != [] && h[0] == |h| - 1 >= 128
              && FromBigEndian(h[1..]) == n && n >= Pow256(|h| - 2)
  {
    hide ToBigEndian, FromBigEndian, Or, MinBytes, Pow256;
    OneOctetBound();
    DerLenShape(n);
    var k := MinBytes(n);
    MinBytesIsLeast(n, 127);
    MinBytesIsLeast(n, 255);
    MinBytesIsLeast(n, k - 1);
    if k < 0x100 {
      OctetMasks(k);
      assert DerLen(n).value[1..] == ToBigEndian(n, k);
    }
  }

  /** The first octet 0xFF, which section 8.1.3.5 of X.690 reserves, is avoided exactly below 256^126. */
  lemma ReservedFirstOctet(n: nat)
    requires n < Limit()
    ensures DerLen(n).Some? && (DerLen(n).value[0] != 0xFF <==> n < Pow256(126))
  {
    DerLenReadsBackBelowLimit(n);
    if n >= 0x80 {
      MinBytesIsLeast(n, 127);
      MinBytesIsLeast(n, 126);
      OctetMasks(MinBytes(n));
    } else {
      Pow256Monotone(1, 126);
      assert Pow256(1) == 256 by { assert Pow256(0) == 1; }
    }
  }

  /** What section 10.1 of X.690 asks of length octets: short form below 128, no leading zero. */
  predicate IsMinimal(h: seq<Byte>) {
    h != [] && (h[0] < 128 || (h[0] > 129 && |h| > 1 && h[1] != 0) || (h[0] == 129 && |h| > 1 && h[1] >= 128))
  }

  /** The minimal definite form of a length exists only below 256^127, is unique, and is der_len's. */
  lemma DerLenIsTheMinimalForm(h: seq<Byte>, n: nat)
    ensures IsLengthOctets(h, n) && IsMinimal(h) <==> n < Limit() && DerLen(n) == Some(h)
  {
    hide DerLen, FromBigEndian;
    DerLenReadsBackBelowLimit(n);
    if n < Limit() {
      MinimalFormOfDerLen(n);
    }
    if IsLengthOctets(h, n) && IsMinimal(h) {
      MinimalFormIsDerLen(h, n);
    }
  }

  lemma MinimalFormIsDerLen(h: seq<Byte>, n: nat)
    requires IsLengthOctets(h, n) && IsMinimal(h)
    ensures n < Limit() && DerLen(n) == Some(h)
  {
    hide FromBigEndian, ToBigEndian, Or, MinBytes, Limit;
    if h[0] < 128 {
      OneOctetBound();
      assert h == [n];
    } else {
      var octets := h[1..];
      MinimalOctetsAreLarge(octets);
      MinimalOctetCount(octets);
      FromThenToBigEndian(octets);
      OctetsFit(octets);
      OctetMasks(|octets|);
      assert h == [h[0]] + octets;
    }
  }

  lemma MinimalOctetCount(octets: seq<Byte>)
    requires octets != [] && octets[0] != 0
    ensures MinBytes(FromBigEndian(octets)) == |octets|
  {
    var n, k := FromBigEndian(octets), |octets|;
    FromThenToBigEndian(octets);
    LeadingZero(octets);
    MinBytesIsLeast(n, k);
    MinBytesIsLeast(n, k - 1);
  }

  lemma MinimalOctetsAreLarge(octets: seq<Byte>)
    requires octets != [] && octets[0] != 0 && (|octets| == 1 ==> octets[0] >= 128)
    ensures FromBigEndian(octets) >= 128
  {
    OneOctetBound();
    if |octets| == 1 {
      assert FromBigEndian(octets[..0]) == 0;
    } else {
      LeadingZero(octets);
      Pow256Monotone(1, |octets| - 1);
    }
  }

  lemma MinimalFormOfDerLen(n: nat)
    requires n < Limit()
    ensures DerLen(n).Some? && IsMinimal(DerLen(n).value)
  {
    hide FromBigEndian, ToBigEndian, Or, MinBytes;
    if n >= 0x80 {
      var k := MinBytes(n);
      MinBytesIsLeast(n, 127);
      DerLenShape(n);
      OctetMasks(k);
      var h := DerLen(n).value;
      assert h[1..] == ToBigEndian(n, k);
      LeadingOctet(n);
    }
  }

  lemma LeadingOctet(n: nat)
    requires n >= 0x80
    ensures var octets := ToBigEndian(n, MinBytes(n));
            octets != [] && octets[0] != 0 && (|octets| == 1 ==> octets[0] >= 128)
  {
    DerLenShape(n);
    var octets := ToBigEndian(n, MinBytes(n));
    LeadingZero(octets);
    if |octets| == 1 {
      OneOctetBound();
      assert octets == [] + [n % 256] by { assert ToBigEndian(n / 256, 0) == []; }
    }
  }

  /** No definite form of a length, of any width, is shorter than der_len's. */
  lemma DerLenIsShortest(h: seq<Byte>, n: nat)
    requires IsLengthOctets(h, n)
    ensures DerLen(n).Some? && |DerLen(n).value| <= |h|
  {
    var octets := h[1..];
    OneOctetBound();
    if h[0] >= 128 {
      FromThenToBigEndian(octets);
      Pow256Monotone(|octets|, 127);
      MinBytesIsLeast(n, |octets|);
    }
    DerLenReadsBackBelowLimit(n);
  }

  /** No printed length is a prefix of the print of another; in particular der_len is injective. */
  lemma DerLenIsPrefixFree(a: nat, b: nat)
    requires a < Limit() && b < Limit()
    requires LengthOctets(a) <= LengthOctets(b)
    ensures a == b
  {
    DerLenReadsBackBelowLimit(a);
    DerLenReadsBackBelowLimit(b);
    var h, g := LengthOctets(a), LengthOctets(b);
    assert h[0] == g[0];
    assert h == g;
  }

  // ----- Round trips -----

  lemma ParseEncoded(x: Tlv, rest: seq<Byte>)
    requires Fits(x)
    ensures Children(Encode(x) + rest)
         == Yield(x, Children(rest))
  {
    DerLenReadsBackBelowLimit(|x.content|);
    var h := LengthOctets(|x.content|);
    ParseOne(x.tag, h, x.content, rest);
    assert Encode(x) + rest == [x.tag] + h + x.content + rest;
  }

  /** Parsing the print of a list of elements, followed by anything, gives the list and then the rest. */
  lemma {:induction false} ParsePrinted(xs: seq<Tlv>, rest: seq<Byte>)
    requires AllFit(xs)
    ensures Children(EncodeAll(xs) + rest)
         == Walk(xs + Children(rest).items, Children(rest).ok)
  {
    hide Encode, Children;
    if xs == [] {
      assert EncodeAll(xs) + rest == rest;
    } else {
      var tail := EncodeAll(xs[1..]);
      ParsePrinted(xs[1..], rest);
      ParseEncoded(xs[0], tail + rest);
      assert EncodeAll(xs) + rest == Encode(xs[0]) + (tail + rest);
      assert [xs[0]] + (xs[1..] + Children(rest).items) == xs + Children(rest).items;
    }
  }

  /** der_children inverts printing: every list of elements below the limit comes back as it was. */
  lemma RoundTrip(xs: seq<Tlv>)
    requires AllFit(xs)
    ensures Children(EncodeAll(xs)) == Walk(xs, true)
  {
    ParsePrinted(xs, []);
    assert EncodeAll(xs) + [] == EncodeAll(xs);
    assert xs + [] == xs;
  }

  lemma ParseSingle(x: Tlv)
    requires Fits(x)
    ensures Children(Encode(x)) == Walk([x], true)
  {
    ParseEncoded(x, []);
    assert Encode(x) + [] == Encode(x);
  }

  /** Printing is injective on lists of elements below the limit. */
  lemma EncodeAllIsInjective(xs: seq<Tlv>, ys: seq<Tlv>)
    requires AllFit(xs) && AllFit(ys)
    requires EncodeAll(xs) == EncodeAll(ys)
    ensures xs == ys
  {
    RoundTrip(xs);
    RoundTrip(ys);
  }

  /** A single element survives the round trip exactly when its content is below the limit. */
  lemma RoundTripNeedsLimit(x: Tlv)
    requires DerLen(|x.content|).Some?
    ensures Children(Encode(x)) == Walk([x], true) <==> Fits(x)
  {
    if Fits(x) {
      ParseSingle(x);
    } else {
      ParsedLengthsFit(Encode(x));
      assert [x][0] == x;
    }
  }

  // ----- Canonical buffers -----

  /** The length octets actually present in a buffer that starts with a tag. */
  function PresentLengthOctets(buf: seq<Byte>): seq<Byte>
    requires |buf| >= 2
  {
    Slice(buf, 1, ReadHeader(buf).start)
  }

  /** A sequence of complete elements, each with minimal length octets (section 10.1 of X.690). */
  predicate Canonical(buf: seq<Byte>)
    decreases |buf|
  {
    buf == [] ||
    (&& |buf| >= 2
     && ReadHeader(buf).start + ReadHeader(buf).length <= |buf|
     && IsMinimal(PresentLengthOctets(buf))
     && Canonical(AfterFirst(buf)))
  }

  lemma CanonicalFirst(buf: seq<Byte>)
    requires |buf| >= 2
    requires ReadHeader(buf).start + ReadHeader(buf).length <= |buf|
    requires IsMinimal(PresentLengthOctets(buf))
    ensures Encode(FirstItem(buf)) + AfterFirst(buf) == buf
  {
    hide FromBigEndian, DerLen, AfterFirst, IsMinimal;
    var h := ReadHeader(buf);
    var octets := PresentLengthOctets(buf);
    PresentOctetsAreLengthOctets(buf);
    DerLenIsTheMinimalForm(octets, h.length);
    assert LengthOctets(h.length) == octets;
    FirstTile(buf);
    assert Headers(buf)[0] == [buf[0]] + octets;
    assert |FirstItem(buf).content| == h.length;
  }

  lemma PresentOctetsAreLengthOctets(buf: seq<Byte>)
    requires |buf| >= 2
    requires ReadHeader(buf).start <= |buf|
    ensures IsLengthOctets(PresentLengthOctets(buf), ReadHeader(buf).length)
  {
    hide FromBigEndian;
    assert Slice(buf, 2, ReadHeader(buf).start) == PresentLengthOctets(buf)[1..];
  }

  lemma CanonicalPrepend(x: Tlv, rest: seq<Byte>)
    requires Fits(x)
    ensures Canonical(Encode(x) + rest) <==> Canonical(rest)
  {
    hide FromBigEndian, DerLen, IsMinimal;
    var n := |x.content|;
    var h := LengthOctets(n);
    DerLenReadsBackBelowLimit(n);
    DerLenIsTheMinimalForm(h, n);
    var buf := Encode(x) + rest;
    assert buf == [x.tag] + h + (x.content + rest);
    LengthOctetsReadBack(x.tag, h, n, x.content + rest);
    assert PresentLengthOctets(buf) == h;
    assert AfterFirst(buf) == rest;
  }

  lemma {:induction false} PrintIsCanonical(xs: seq<Tlv>)
    requires AllFit(xs)
    ensures Canonical(EncodeAll(xs))
  {
    if xs != [] {
      PrintIsCanonical(xs[1..]);
      CanonicalPrepend(xs[0], EncodeAll(xs[1..]));
    }
  }

  lemma {:induction false} CanonicalReencodes(buf: seq<Byte>)
    requires Canonical(buf)
    ensures Children(buf).ok && EncodeAll(Children(buf).items) == buf
    decreases |buf|
  {
    if buf != [] {
      CanonicalReencodes(AfterFirst(buf));
      CanonicalFirst(buf);
      var items := Children(buf).items;
      assert items[1..] == Children(AfterFirst(buf)).items;
    }
  }

  /** Re-encoding what der_children returns reproduces the buffer exactly when it was canonical. */
  lemma ReencodingIdentifiesCanonical(buf: seq<Byte>)
    ensures Canonical(buf) <==> Children(buf).ok && EncodeAll(Children(buf).items) == buf
  {
    if Canonical(buf) {
      CanonicalReencodes(buf);
    }
    if Children(buf).ok && EncodeAll(Children(buf).items) == buf {
      ParsedLengthsFit(buf);
      PrintIsCanonical(Children(buf).items);
    }
  }

  // ----- Sizes -----

  lemma {:induction false} EncodeAllAppend(xs: seq<Tlv>, ys: seq<Tlv>)
    ensures EncodeAll(xs + ys) == EncodeAll(xs) + EncodeAll(ys)
  {
    hide Encode;
    if xs == [] {
      assert xs + ys == ys;
    } else {
      EncodeAllAppend(xs[1..], ys);
      assert (xs + ys)[0] == xs[0] && (xs + ys)[1..] == xs[1..] + ys;
      Associate(Encode(xs[0]), EncodeAll(xs[1..]), EncodeAll(ys));
    }
  }

  /** An element inside a printed list is no longer than the print. */
  lemma {:induction false} ContentsAreShorter(xs: seq<Tlv>)
    requires |EncodeAll(xs)| < Limit()
    ensures AllFit(xs)
  {
    if xs != [] {
      assert |EncodeAll(xs[1..])| <= |EncodeAll(xs)|;
      ContentsAreShorter(xs[1..]);
      assert Fits(xs[0]);
      forall i | 0 <= i < |xs| ensures Fits(xs[i]) {
        if i > 0 { assert xs[i] == xs[1..][i - 1]; }
      }
    }
  }
}
