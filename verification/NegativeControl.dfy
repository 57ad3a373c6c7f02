/**
  * The tampering step of composite/negative-control.sh: one bit is flipped at offset len - 50 of a
  * DER certificate, which is claimed to fall inside the signature and clear of the framing.
  */
module NegativeControl {
  import opened Wrappers
  import opened Bytes
  import opened Der
  import opened Certificates
  import SizeModel

  /** Where Python's b[i] looks in a sequence of n elements; None is IndexError. */
  function PythonIndex(i: int, n: nat): (p: Option<nat>)
    ensures p.Some? ==> p.value < n
  {
    if 0 <= i < n then Some(i)
    else if i < 0 <= n + i then Some(n + i)
    else None
  }

  function FlippedOctet(b: Byte): Byte {
    FlipLowBit(b);
    Xor(b, 1)
  }

  function Tamper(der: seq<Byte>): Option<seq<Byte>> {
    match PythonIndex(|der| - 50, |der|)
    case None => None
    case Some(p) => Some(der[p := FlippedOctet(der[p])])
  }

  /** One bit differs between the two, the lowest of octet k. */
  ghost predicate LowBitFlippedAt(a: seq<Byte>, b: seq<Byte>, k: nat) {
    && |a| == |b|
    && k < |a|
    && b[k] / 2 == a[k] / 2 && b[k] % 2 != a[k] % 2
    && forall i :: 0 <= i < |a| && i != k ==> a[i] == b[i]
  }

  /** The flipped octet is the fiftieth from the end; below 50 octets the subscript wraps around. */
  lemma TamperingFlipsOneBit(der: seq<Byte>)
    ensures Tamper(der).Some? <==> |der| >= 25
    ensures |der| >= 50 ==> LowBitFlippedAt(der, Tamper(der).value, |der| - 50)
    ensures 25 <= |der| < 50 ==> LowBitFlippedAt(der, Tamper(der).value, 2 * |der| - 50)
  {
    hide Xor;
    if |der| >= 25 {
      var p := PythonIndex(|der| - 50, |der|).value;
      FlipLowBit(der[p]);
    }
  }

  /** Tampering twice gives the certificate back. */
  lemma TamperingTwice(der: seq<Byte>)
    requires |der| >= 25
    ensures Tamper(der).Some? && Tamper(Tamper(der).value) == Some(der)
  {
    hide Tamper;
    TamperingFlipsOneBit(der);
    var der' := Tamper(der).value;
    TamperingFlipsOneBit(der');
    var p := if |der| >= 50 then |der| - 50 else 2 * |der| - 50;
    SameBitTwice(der, der', Tamper(der').value, p);
  }

  lemma SameBitTwice(a: seq<Byte>, b: seq<Byte>, c: seq<Byte>, p: nat)
    requires LowBitFlippedAt(a, b, p) && LowBitFlippedAt(b, c, p)
    ensures c == a
  {
    assert c[p] == 2 * (c[p] / 2) + c[p] % 2 && a[p] == 2 * (a[p] / 2) + a[p] % 2;
  }

  /** The in-place flip on the bytearray; `ok` is false when the subscript raises IndexError. */
  method FlipBit(b: array<Byte>) returns (ok: bool)
    modifies b
    ensures ok == Tamper(old(b[..])).Some?
    ensures b[..] == if ok then Tamper(old(b[..])).value else old(b[..])
    ensures ok <==> b.Length >= 25
    ensures b.Length >= 50 ==> LowBitFlippedAt(old(b[..]), b[..], b.Length - 50)
    ensures 25 <= b.Length < 50 ==> LowBitFlippedAt(old(b[..]), b[..], 2 * b.Length - 50)
  {
    TamperingFlipsOneBit(b[..]);
    var idx := b.Length - 50;
    var p := PythonIndex(idx, b.Length);
    if p.None? {
      return false;
    }
    b[p.value] := FlippedOctet(b[p.value]);
    ok := true;
  }

  /** The claim: same three tags and lengths, and one bit flipped, in the signature past its first octet. */
  ghost predicate OnlySignatureTouched(p: Parts, q: Parts) {
    && q.tbs == p.tbs
    && q.algorithm == p.algorithm
    && q.signature.tag == p.signature.tag
    && |q.signature.content| == |p.signature.content|
    && exists k :: 1 <= k && LowBitFlippedAt(p.signature.content, q.signature.content, k)
  }

  /** The flipped position lies in the last `sig` octets of the certificate, but is not their first. */
  predicate HitsSignature(total: nat, sig: nat) {
    var p := PythonIndex(total - 50, total);
    p.Some? && p.value > total - sig
  }

  // ----- Locality of parsing -----

  /** Two buffers of one length that agree outside the last m octets. */
  ghost predicate SameFront(a: seq<Byte>, b: seq<Byte>, m: nat) {
    && |a| == |b|
    && m <= |a|
    && a[..|a| - m] == b[..|b| - m]
  }

  /** The header octets decide the header; what comes later does not matter. */
  lemma HeaderIsLocal(a: seq<Byte>, b: seq<Byte>, m: nat)
    requires |a| >= 2 && SameFront(a, b, m)
    requires |a| - m >= 2 && ReadHeader(a).start <= |a| - m
    ensures ReadHeader(b) == ReadHeader(a)
  {
    hide FromBigEndian;
    assert a[0] == a[..|a| - m][0] == b[0];
    assert a[1] == a[..|a| - m][1] == b[1];
    var s := ReadHeader(a).start;
    assert Slice(a, 2, s) == a[..|a| - m][2..s] == Slice(b, 2, s);
  }

  lemma {:induction false} LastContentIsShorter(buf: seq<Byte>)
    requires Children(buf).items != []
    ensures var items := Children(buf).items;
            |items[|items| - 1].content| + 2 <= |buf|
    decreases |buf|
  {
    hide ReadHeader;
    UnfoldChildren(buf);
    var rest := AfterFirst(buf);
    if Children(rest).items != [] {
      LastContentIsShorter(rest);
    }
  }

  /**
    * Changing a buffer only inside the content of its last element changes that content and nothing
    * else of what the parser sees.
    */
  lemma {:induction false} ParsingIsLocal(a: seq<Byte>, b: seq<Byte>)
    requires Children(a).ok && Children(a).items != []
    requires var items := Children(a).items;
             SameFront(a, b, |items[|items| - 1].content|)
    ensures var items := Children(a).items;
            var last := items[|items| - 1];
            Children(b) == Walk(items[..|items| - 1]
                                + [Tlv(last.tag, b[|b| - |last.content|..])], true)
    decreases |a|
  {
    hide ReadHeader, Children;
    var items := Children(a).items;
    var last := items[|items| - 1];
    var m := |last.content|;
    LastContentIsShorter(a);
    if m == 0 {
      assert a == a[..|a|] == b[..|b|] == b;
      assert b[|b| - m..] == last.content;
      assert items == items[..|items| - 1] + [last];
    } else {
      UnfoldChildren(a);
      if AfterFirst(a) == [] {
        NothingLeft(a, |a|);
        assert items == [FirstItem(a)];
        OnlyElement(a, b, m);
        assert items[..|items| - 1] + [Tlv(last.tag, b[|b| - m..])] == [Tlv(a[0], b[|b| - m..])];
      } else {
        LaterElement(a, b, m);
        var rest, rest' := AfterFirst(a), AfterFirst(b);
        ParsingIsLocal(rest, rest');
        var inner := Children(rest).items;
        assert items == [FirstItem(a)] + inner;
        assert [FirstItem(a)] + (inner[..|inner| - 1] + [Tlv(last.tag, b[|b| - m..])])
            == items[..|items| - 1] + [Tlv(last.tag, b[|b| - m..])];
      }
    }
  }

  /** The content of an element that ends the buffer reaches from its header to the end. */
  lemma OnlyElementReachesEnd(a: seq<Byte>)
    requires |a| >= 2 && AfterFirst(a) == [] && FirstItem(a).content != []
    ensures ReadHeader(a).start == |a| - |FirstItem(a).content|
    ensures ReadHeader(a).start + ReadHeader(a).length >= |a|
  {
    hide ReadHeader;
  }

  lemma ContentToEnd(b: seq<Byte>)
    requires |b| >= 2 && ReadHeader(b).start <= |b| <= ReadHeader(b).start + ReadHeader(b).length
    ensures FirstItem(b) == Tlv(b[0], b[ReadHeader(b).start..]) && AfterFirst(b) == []
  {
    hide ReadHeader;
  }

  lemma OnlyElement(a: seq<Byte>, b: seq<Byte>, m: nat)
    requires |a| >= 2 && AfterFirst(a) == []
    requires m == |FirstItem(a).content| > 0
    requires SameFront(a, b, m)
    ensures Children(b) == Walk([Tlv(a[0], b[|b| - m..])], true)
  {
    hide ReadHeader, Children, AfterFirst, FirstItem;
    OnlyElementReachesEnd(a);
    HeaderIsLocal(a, b, m);
    ContentToEnd(b);
    FirstOctetIsLocal(a, b, m);
    UnfoldLast(b);
  }

  lemma FirstOctetIsLocal(a: seq<Byte>, b: seq<Byte>, m: nat)
    requires SameFront(a, b, m) && |a| > m
    ensures a[0] == b[0]
  {
    assert b[0] == b[..|b| - m][0] == a[..|a| - m][0] == a[0];
  }

  lemma UnfoldLast(b: seq<Byte>)
    requires |b| >= 2 && AfterFirst(b) == []
    ensures Children(b) == Walk([FirstItem(b)], true)
  {
    hide ReadHeader;
    UnfoldChildren(b);
  }

  lemma SameSlices(a: seq<Byte>, b: seq<Byte>, m: nat, lo: nat, hi: nat)
    requires SameFront(a, b, m) && lo <= hi <= |a| - m
    ensures a[lo..hi] == b[lo..hi]
  {
    assert a[lo..hi] == a[..|a| - m][lo..hi];
    assert b[lo..hi] == b[..|b| - m][lo..hi];
  }

  lemma SameFrontOfRest(a: seq<Byte>, b: seq<Byte>, m: nat, k: nat)
    requires SameFront(a, b, m) && k <= |a| - m
    ensures SameFront(a[k..], b[k..], m)
    ensures b[k..][|b| - k - m..] == b[|b| - m..]
  {
    SameSlices(a, b, m, k, |a| - m);
    assert a[k..][..|a| - k - m] == a[k..|a| - m];
    assert b[k..][..|b| - k - m] == b[k..|b| - m];
  }

  lemma LaterElement(a: seq<Byte>, b: seq<Byte>, m: nat)
    requires Children(a).ok && |a| >= 2 && AfterFirst(a) != []
    requires var items := Children(a).items; items != [] && m == |items[|items| - 1].content|
    requires SameFront(a, b, m)
    ensures |b| >= 2
    ensures var rest, rest' := AfterFirst(a), AfterFirst(b);
            && Children(rest).ok
            && Children(rest).items != []
            && Children(a).items[|Children(a).items| - 1] == Children(rest).items[|Children(rest).items| - 1]
            && SameFront(rest, rest', m)
            && b[|b| - m..] == rest'[|rest'| - m..]
            && Children(b) == Yield(FirstItem(a), Children(rest'))
  {
    hide ReadHeader, Children;
    UnfoldChildren(a);
    var rest := AfterFirst(a);
    NotEmptyHasItems(rest);
    LastContentIsShorter(rest);
    var h := ReadHeader(a);
    var end := h.start + h.length;
    assert rest == a[end..];
    HeaderIsLocal(a, b, m);
    assert AfterFirst(b) == b[end..];
    SameFrontOfRest(a, b, m, end);
    assert FirstItem(b) == FirstItem(a) by {
      SameSlices(a, b, m, h.start, end);
      FirstOctetIsLocal(a, b, m);
    }
    UnfoldChildren(b);
  }

  lemma NotEmptyHasItems(buf: seq<Byte>)
    requires Children(buf).ok && buf != []
    ensures Children(buf).items != []
  {
  }

  // ----- The claim -----

  /** Changing the signature content alone changes the split alone there. */
  lemma SplittingIsLocal(der: seq<Byte>, der': seq<Byte>)
    requires SplitCertificate(der).Ok?
    requires SameFront(der, der', |SplitCertificate(der).value.signature.content|)
    ensures var p := SplitCertificate(der).value;
            var tail := der'[|der'| - |p.signature.content|..];
            SplitCertificate(der') == Ok(p.(signature := Tlv(p.signature.tag, tail)))
  {
    hide ReadHeader, Children;
    var p := SplitCertificate(der).value;
    var m := |p.signature.content|;
    TailIsInBody(der);
    var front, front' := der[..|der| - m], der'[..|der'| - m];
    assert der[0] == front[0] == front'[0] == der'[0];
    assert der[1] == front[1] == front'[1] == der'[1];
    var off := BodyOffset(der);
    var body, body' := Body(der), Body(der');
    assert body == der[off..] && body' == der'[off..];
    assert body[..|body| - m] == front[off..] && body'[..|body'| - m] == front'[off..];
    ParsingIsLocal(body, body');
    assert body'[|body'| - m..] == der'[|der'| - m..];
    var items := Children(body).items;
    assert items[..2] == [p.tbs, p.algorithm];
  }

  /** Two buffers that differ at one position differ there alone in their last m octets. */
  lemma DifferenceInTail(a: seq<Byte>, b: seq<Byte>, pos: nat, m: nat)
    requires LowBitFlippedAt(a, b, pos) && m <= |a| && |a| - m <= pos
    ensures SameFront(a, b, m)
    ensures LowBitFlippedAt(a[|a| - m..], b[|b| - m..], pos - (|a| - m))
  {
    var tail, tail' := a[|a| - m..], b[|b| - m..];
    assert forall i :: 0 <= i < m ==> tail[i] == a[|a| - m + i] && tail'[i] == b[|b| - m + i];
  }

  /** Inside the signature the flip leaves everything but one signature octet as it was. */
  lemma FlipInsideSignature(der: seq<Byte>)
    requires SplitCertificate(der).Ok?
    requires HitsSignature(|der|, |SplitCertificate(der).value.signature.content|)
    ensures Tamper(der).Some? && SplitCertificate(Tamper(der).value).Ok?
    ensures OnlySignatureTouched(SplitCertificate(der).value, SplitCertificate(Tamper(der).value).value)
  {
    hide SplitCertificate, Tamper, LowBitFlippedAt, SameFront;
    var sig := SplitCertificate(der).value.signature.content;
    SignatureIsTheTail(der);
    var pos := PythonIndex(|der| - 50, |der|).value;
    TamperingFlipsOneBit(der);
    var der' := Tamper(der).value;
    DifferenceInTail(der, der', pos, |sig|);
    SplittingIsLocal(der, der');
    SameLength(der, der', pos);
    assert LowBitFlippedAt(sig, der'[|der'| - |sig|..], pos - (|der| - |sig|));
  }

  lemma SameLength(a: seq<Byte>, b: seq<Byte>, k: nat)
    requires LowBitFlippedAt(a, b, k)
    ensures |a| == |b|
  {
  }

  lemma TailIsInBody(der: seq<Byte>)
    requires SplitCertificate(der).Ok?
    ensures BodyOffset(der) + |SplitCertificate(der).value.signature.content| + 2 <= |der|
  {
    LastContentIsShorter(Body(der));
  }

  /** Outside it, the claim cannot hold, whatever the tampered certificate then parses to. */
  lemma FlipOutsideSignature(der: seq<Byte>)
    requires SplitCertificate(der).Ok? && Tamper(der).Some?
    requires !HitsSignature(|der|, |SplitCertificate(der).value.signature.content|)
    requires SplitCertificate(Tamper(der).value).Ok?
    ensures !OnlySignatureTouched(SplitCertificate(der).value, SplitCertificate(Tamper(der).value).value)
  {
    hide SplitCertificate;
    var p, q := SplitCertificate(der).value, SplitCertificate(Tamper(der).value).value;
    var sig, sig' := p.signature.content, q.signature.content;
    if |sig| == |sig'| {
      var der' := Tamper(der).value;
      SignatureIsTheTail(der);
      SignatureIsTheTail(der');
      assert forall i :: 1 <= i < |sig| ==>
                sig[i] == der[|der| - |sig| + i] == der'[|der| - |sig| + i] == sig'[i];
    }
  }

  /** The claim of one flip on one certificate. */
  ghost predicate FlipIsInSignature(der: seq<Byte>)
    requires SplitCertificate(der).Ok?
  {
    && Tamper(der).Some?
    && SplitCertificate(Tamper(der).value).Ok?
    && OnlySignatureTouched(SplitCertificate(der).value, SplitCertificate(Tamper(der).value).value)
  }

  /**
    * The flip changes one bit of a signature octet past the unused-bits octet, and nothing else of the
    * parse, exactly when the position it computes lies there.
    */
  lemma TamperingClaim(der: seq<Byte>)
    requires SplitCertificate(der).Ok?
    ensures HitsSignature(|der|, |SplitCertificate(der).value.signature.content|) <==> FlipIsInSignature(der)
  {
    hide SplitCertificate, OnlySignatureTouched;
    if HitsSignature(|der|, |SplitCertificate(der).value.signature.content|) {
      FlipInsideSignature(der);
    } else if Tamper(der).Some? && SplitCertificate(Tamper(der).value).Ok? {
      FlipOutsideSignature(der);
    }
  }

  /**
    * For a certificate of 50 octets or more the condition is a signature content of at least 51; below
    * 50 octets it is more of them than are missing to 50.
    */
  lemma FiftyOneOctets(total: nat, sig: nat)
    ensures total >= 50 ==> (HitsSignature(total, sig) <==> sig >= 51)
    ensures total < 50 ==> (HitsSignature(total, sig) <==> total >= 25 && total + sig > 50)
  {
  }

  /**
    * A certificate with a BIT STRING of at most 50 content octets, a DSA signature over a 160-bit
    * group for instance, misses the condition: the flip lands in front of the signature's own octets.
    */
  lemma ShortSignatureIsMissed(p: Parts)
    requires |p.signature.content| <= 50 <= |p.tbs.content| && |CertificateBody(p)| < Limit()
    ensures var der := EncodeCertificate(p);
            && SplitCertificate(der) == Ok(p)
            && |der| >= 50
            && !FlipIsInSignature(der)
  {
    hide SplitCertificate, OnlySignatureTouched, Limit, LengthOctets;
    var der := EncodeCertificate(p);
    CertificateRoundTrip(p);
    assert EncodeAll(PartsList(p)) == Encode(p.tbs) + EncodeAll(PartsList(p)[1..]);
    assert |der| >= 50;
    FiftyOneOctets(|der|, |p.signature.content|);
    TamperingClaim(der);
  }

  // ----- A self-signed certificate that the flip misses -----

  function Sequence(items: seq<Tlv>): Tlv {
    Tlv(0x30, EncodeAll(items))
  }

  function Oid(content: seq<Byte>): Tlv {
    Tlv(0x06, content)
  }

  /** ecdsa-with-SHA1, 1.2.840.10045.4.1. */
  function EcdsaWithSha1(): Tlv {
    Sequence([Oid([0x2A, 0x86, 0x48, 0xCE, 0x3D, 0x04, 0x01])])
  }

  /** The name whose commonName (2.5.4.3) is matrix.test. */
  function MatrixName(): Tlv {
    var text: seq<Byte> := [0x6D, 0x61, 0x74, 0x72, 0x69, 0x78, 0x2E, 0x74, 0x65, 0x73, 0x74];
    Sequence([Tlv(0x31, EncodeAll([Sequence([Oid([0x55, 0x04, 0x03]), Tlv(0x0C, text)])]))])
  }

  /** Valid from 1 August 2026 to 31 August 2026, in UTCTime. */
  function August(): Tlv {
    Sequence([
      Tlv(0x17, [0x32, 0x36, 0x30, 0x38, 0x30, 0x31, 0x30, 0x30, 0x30, 0x30, 0x30, 0x30, 0x5A]),
      Tlv(0x17, [0x32, 0x36, 0x30, 0x38, 0x33, 0x31, 0x30, 0x30, 0x30, 0x30, 0x30, 0x30, 0x5A])])
  }

  /** An id-ecPublicKey (1.2.840.10045.2.1) on secp160r1 (1.3.132.0.8): a point of 41 octets. */
  function Secp160Key(point: seq<Byte>): Tlv {
    Sequence([
      Sequence([Oid([0x2A, 0x86, 0x48, 0xCE, 0x3D, 0x02, 0x01]), Oid([0x2B, 0x81, 0x04, 0x00, 0x08])]),
      Tlv(0x03, [0] + point)])
  }

  /** A version 1 certificate, self-signed with ECDSA on that curve. */
  function Secp160Certificate(point: seq<Byte>, r: seq<Byte>, s: seq<Byte>): Parts {
    Parts(
      Sequence([Tlv(0x02, [1]), EcdsaWithSha1(), MatrixName(), August(), MatrixName(), Secp160Key(point)]),
      EcdsaWithSha1(),
      Tlv(0x03, [0] + Encode(Sequence([Tlv(0x02, r), Tlv(0x02, s)]))))
  }

  function ShortSizes(xs: seq<Tlv>): nat {
    if xs == [] then 0 else |xs[0].content| + 2 + ShortSizes(xs[1..])
  }

  lemma {:induction false} ShortElements(xs: seq<Tlv>)
    requires forall i :: 0 <= i < |xs| ==> |xs[i].content| < 0x80
    ensures |EncodeAll(xs)| == ShortSizes(xs)
  {
    hide Encode;
    if xs != [] {
      SizeModel.EncodeSize(xs[0]);
      SizeModel.ShortSize(|xs[0].content|);
      ShortElements(xs[1..]);
    }
  }

  lemma OneShort(x: Tlv)
    requires |x.content| < 0x80
    ensures |EncodeAll([x])| == |x.content| + 2 == |Encode(x)|
  {
    hide Encode, EncodeAll;
    ShortElements([x]);
    SizeModel.EncodeSize(x);
    SizeModel.ShortSize(|x.content|);
  }

  lemma TwoShort(x: Tlv, y: Tlv)
    requires |x.content| < 0x80 && |y.content| < 0x80
    ensures |EncodeAll([x, y])| == |x.content| + |y.content| + 4
  {
    hide Encode, EncodeAll;
    ShortElements([x, y]);
    assert [x, y][1..] == [y] && ShortSizes([y]) == |y.content| + 2;
  }

  lemma SixShort(xs: seq<Tlv>)
    requires |xs| == 6 && forall i :: 0 <= i < 6 ==> |xs[i].content| < 0x80
    ensures |EncodeAll(xs)|
         == |xs[0].content| + |xs[1].content| + |xs[2].content|
          + |xs[3].content| + |xs[4].content| + |xs[5].content| + 12
  {
    hide Encode, EncodeAll;
    ShortElements(xs);
    assert xs[5..] == [xs[5]] && ShortSizes([xs[5]]) == |xs[5].content| + 2;
    assert xs[4..][1..] == xs[5..] && ShortSizes(xs[4..]) == |xs[4].content| + 2 + ShortSizes(xs[5..]);
    assert xs[3..][1..] == xs[4..] && ShortSizes(xs[3..]) == |xs[3].content| + 2 + ShortSizes(xs[4..]);
    assert xs[2..][1..] == xs[3..] && ShortSizes(xs[2..]) == |xs[2].content| + 2 + ShortSizes(xs[3..]);
    assert xs[1..][1..] == xs[2..] && ShortSizes(xs[1..]) == |xs[1].content| + 2 + ShortSizes(xs[2..]);
  }

  lemma Secp160Sizes(point: seq<Byte>, r: seq<Byte>, s: seq<Byte>)
    requires |point| == 41 && 1 <= |r| <= 21 && 1 <= |s| <= 21
    ensures |Secp160Certificate(point, r, s).tbs.content| == 158
    ensures |Secp160Certificate(point, r, s).algorithm.content| == 9
    ensures |Secp160Certificate(point, r, s).signature.content| == |r| + |s| + 7
  {
    hide Encode, EncodeAll;
    OneShort(Oid([0x2A, 0x86, 0x48, 0xCE, 0x3D, 0x04, 0x01]));
    var text: seq<Byte> := [0x6D, 0x61, 0x74, 0x72, 0x69, 0x78, 0x2E, 0x74, 0x65, 0x73, 0x74];
    var attribute := [Oid([0x55, 0x04, 0x03]), Tlv(0x0C, text)];
    TwoShort(attribute[0], attribute[1]);
    OneShort(Sequence(attribute));
    OneShort(Tlv(0x31, EncodeAll([Sequence(attribute)])));
    TwoShort(
      Tlv(0x17, [0x32, 0x36, 0x30, 0x38, 0x30, 0x31, 0x30, 0x30, 0x30, 0x30, 0x30, 0x30, 0x5A]),
      Tlv(0x17, [0x32, 0x36, 0x30, 0x38, 0x33, 0x31, 0x30, 0x30, 0x30, 0x30, 0x30, 0x30, 0x5A]));
    var curve := [Oid([0x2A, 0x86, 0x48, 0xCE, 0x3D, 0x02, 0x01]), Oid([0x2B, 0x81, 0x04, 0x00, 0x08])];
    TwoShort(curve[0], curve[1]);
    TwoShort(Sequence(curve), Tlv(0x03, [0] + point));
    var fields := [Tlv(0x02, [1]), EcdsaWithSha1(), MatrixName(), August(), MatrixName(), Secp160Key(point)];
    assert |fields[0].content| == 1 && |fields[1].content| == 9 && |fields[2].content| == 22;
    assert |fields[3].content| == 30 && |fields[4].content| == 22 && |fields[5].content| == 62;
    SixShort(fields);
    TwoShort(Tlv(0x02, r), Tlv(0x02, s));
    OneShort(Sequence([Tlv(0x02, r), Tlv(0x02, s)]));
  }

  /** Whatever the key and the signature value are, the flip does not land in the signature. */
  lemma MissedSignatureExample(point: seq<Byte>, r: seq<Byte>, s: seq<Byte>)
    requires |point| == 41 && 1 <= |r| <= 21 && 1 <= |s| <= 21
    ensures var der := EncodeCertificate(Secp160Certificate(point, r, s));
            && SplitCertificate(der) == Ok(Secp160Certificate(point, r, s))
            && |der| >= 50
            && !FlipIsInSignature(der)
  {
    hide Limit, SplitCertificate, FlipIsInSignature, Secp160Certificate, Encode, EncodeAll;
    var p := Secp160Certificate(point, r, s);
    Secp160Sizes(point, r, s);
    SizeModel.ThreeElements(p);
    SizeModel.EncodeSize(p.tbs);
    SizeModel.SizeGrows(158, 158);
    OneShort(p.algorithm);
    OneShort(p.signature);
    OneOctetBound();
    ShortSignatureIsMissed(p);
  }
}
