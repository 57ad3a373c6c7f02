/**
  * The compositional size model of tools/build-calculator-data.py:
  * certificate = structural + SPKI(key algorithm) + signature(signing algorithm).
  * The structural part is not quite constant: it moves with the widths of three length headers.
  */
module SizeModel {
  import opened Wrappers
  import opened Bytes
  import opened Sequences
  import opened Der
  import opened Certificates
  import opened Catalyst
  import opened CatalystBuild

  /** A certificate split where the model splits it. `before` and `after` are the rest of the TBS. */
  datatype Shape = Shape(before: seq<Byte>, spki: seq<Byte>, after: seq<Byte>,
                         algorithm: Tlv, signature: seq<Byte>)
  {
    function Tbs(): seq<Byte> {
      before + spki + after
    }

    /** The BIT STRING content: no unused bits, then the raw signature. */
    function BitString(): seq<Byte> {
      [0] + signature
    }

    function ToParts(): Parts {
      Parts(Tlv(0x30, Tbs()), algorithm, Tlv(0x03, BitString()))
    }

    function Der(): seq<Byte> {
      EncodeCertificate(ToParts())
    }

    function BodySize(): nat {
      |CertificateBody(ToParts())|
    }

    /** Everything that depends neither on the key, nor on the signature, nor on a header width. */
    function Fixed(): nat {
      |before| + |after| + |Encode(algorithm)| + 4
    }

    /** The three length headers that enclose the key or the signature. */
    function HeaderWidths(): nat {
      Width(|Tbs()|) + Width(BodySize()) + Width(|signature| + 1)
    }
  }

  function Width(n: nat): nat {
    |LengthOctets(n)|
  }

  /** The two-octet long form covers exactly the lengths from 256 to 65535. */
  lemma TwoOctetLengths(n: nat)
    ensures Width(n) == 3 <==> 256 <= n < 65536
  {
    hide ToBigEndian, MinBytes, Or;
    assert Pow256(1) == 256 && Pow256(2) == 65536 by { assert Pow256(0) == 1; }
    MinBytesIsLeast(n, 1);
    MinBytesIsLeast(n, 2);
    MinBytesIsLeast(n, 0xFF);
    if n >= 0x80 {
      var k := MinBytes(n);
      if k < 0x100 {
        OctetMasks(k);
        assert Width(n) == 1 + k;
      }
    }
  }

  /** What `measure` reports as "other", for every certificate: the fixed part and three widths. */
  lemma RemainderFormula(c: Shape)
    requires c.BodySize() < Limit()
    ensures SplitCertificate(c.Der()) == Ok(c.ToParts())
    ensures |c.ToParts().signature.content| - 1 == |c.signature|
    ensures Structural(c) == c.Fixed() + c.HeaderWidths()
  {
    hide LengthOctets, SplitCertificate;
    CertificateRoundTrip(c.ToParts());
    ThreeElements(c.ToParts());
  }

  lemma ThreeElements(p: Parts)
    ensures CertificateBody(p) == Encode(p.tbs) + Encode(p.algorithm) + Encode(p.signature)
  {
    hide Encode;
    var xs := PartsList(p);
    assert EncodeAll(xs[3..]) == [];
    assert EncodeAll(xs[2..]) == Encode(p.signature) by { assert xs[2..][1..] == xs[3..]; }
    assert EncodeAll(xs[1..]) == Encode(p.algorithm) + Encode(p.signature) by {
      assert xs[1..][1..] == xs[2..];
    }
    Associate(Encode(p.tbs), Encode(p.algorithm), Encode(p.signature));
  }

  /** Between certificates that differ in key and signature only, "other" moves by header widths alone. */
  lemma RemainderMovesByHeaderWidths(c: Shape, d: Shape)
    requires c.before == d.before && c.after == d.after && c.algorithm == d.algorithm
    requires c.BodySize() < Limit() && d.BodySize() < Limit()
    ensures Structural(c) - Structural(d) == c.HeaderWidths() - d.HeaderWidths()
  {
    hide Limit;
    RemainderFormula(c);
    RemainderFormula(d);
  }

  function Structural(c: Shape): int {
    |c.Der()| - |c.spki| - |c.signature|
  }

  /**
    * Pricing an unminted certificate from a minted one, with the SPKI and signature replaced, is
    * exact exactly when the three header widths have the same sum.
    */
  lemma PredictionIsExact(minted: Shape, wanted: Shape)
    requires minted.before == wanted.before && minted.after == wanted.after
    requires minted.algorithm == wanted.algorithm
    requires minted.BodySize() < Limit() && wanted.BodySize() < Limit()
    ensures |wanted.Der()| == Structural(minted) + |wanted.spki| + |wanted.signature|
            <==> minted.HeaderWidths() == wanted.HeaderWidths()
  {
    RemainderMovesByHeaderWidths(wanted, minted);
  }

  /** The leaf of one algorithm (the base) with the extension octets of one SAN count. */
  function Leaf(base: Shape, san: seq<Byte>): Shape {
    base.(after := san)
  }

  function Surcharge(a: Shape, b: Shape, san: seq<Byte>): int {
    |Leaf(a, san).Der()| - |Leaf(b, san).Der()|
  }

  /** The part of the surcharge that sits in the Certificate header itself. */
  function OuterSurcharge(a: Shape, b: Shape, san: seq<Byte>): int {
    Width(Leaf(a, san).BodySize()) - Width(Leaf(b, san).BodySize())
  }

  /**
    * The leaf surcharge between two algorithms, at any two SAN counts, differs by header widths only.
    * The bases may differ in everything that does not depend on the SAN count.
    */
  lemma SurchargeMovesByHeaderWidths(a: Shape, b: Shape, san: seq<Byte>, san': seq<Byte>)
    requires Leaf(a, san).BodySize() < Limit() && Leaf(a, san').BodySize() < Limit()
    requires Leaf(b, san).BodySize() < Limit() && Leaf(b, san').BodySize() < Limit()
    ensures Surcharge(a, b, san) - Surcharge(a, b, san')
         == (Leaf(a, san).HeaderWidths() - Leaf(b, san).HeaderWidths())
          - (Leaf(a, san').HeaderWidths() - Leaf(b, san').HeaderWidths())
  {
    hide Limit, Shape.HeaderWidths, Shape.Der;
    RemainderFormula(Leaf(a, san));
    RemainderFormula(Leaf(a, san'));
    RemainderFormula(Leaf(b, san));
    RemainderFormula(Leaf(b, san'));
  }

  /**
    * While the four TBS lengths stay within 256..65535 the surcharge is the same at both SAN counts
    * exactly when the outer headers balance: the TBS range alone does not settle it, because the
    * signature can carry one Certificate past 65535 and not the other.
    */
  lemma SurchargeIsConstant(a: Shape, b: Shape, san: seq<Byte>, san': seq<Byte>)
    requires Leaf(a, san).BodySize() < Limit() && Leaf(a, san').BodySize() < Limit()
    requires Leaf(b, san).BodySize() < Limit() && Leaf(b, san').BodySize() < Limit()
    requires 256 <= |Leaf(a, san).Tbs()| < 65536 && 256 <= |Leaf(a, san').Tbs()| < 65536
    requires 256 <= |Leaf(b, san).Tbs()| < 65536 && 256 <= |Leaf(b, san').Tbs()| < 65536
    ensures Surcharge(a, b, san) == Surcharge(a, b, san')
            <==> OuterSurcharge(a, b, san) == OuterSurcharge(a, b, san')
  {
    hide Limit, LengthOctets, Shape.Der;
    SurchargeMovesByHeaderWidths(a, b, san, san');
    TwoOctetLengths(|Leaf(a, san).Tbs()|);
    TwoOctetLengths(|Leaf(a, san').Tbs()|);
    TwoOctetLengths(|Leaf(b, san).Tbs()|);
    TwoOctetLengths(|Leaf(b, san').Tbs()|);
  }

  /** With the Certificate bodies in the same range as well, the surcharge is constant. */
  lemma SurchargeInTwoOctetRange(a: Shape, b: Shape, san: seq<Byte>, san': seq<Byte>)
    requires 256 <= |Leaf(a, san).Tbs()| && 256 <= |Leaf(a, san').Tbs()|
    requires 256 <= |Leaf(b, san).Tbs()| && 256 <= |Leaf(b, san').Tbs()|
    requires Leaf(a, san).BodySize() < 65536 && Leaf(a, san').BodySize() < 65536
    requires Leaf(b, san).BodySize() < 65536 && Leaf(b, san').BodySize() < 65536
    ensures Surcharge(a, b, san) == Surcharge(a, b, san')
  {
    hide LengthOctets, Shape.Der;
    InTwoOctetRange(Leaf(a, san));
    InTwoOctetRange(Leaf(a, san'));
    InTwoOctetRange(Leaf(b, san));
    InTwoOctetRange(Leaf(b, san'));
    SurchargeIsConstant(a, b, san, san');
  }

  lemma InTwoOctetRange(c: Shape)
    requires 256 <= |c.Tbs()| && c.BodySize() < 65536
    ensures |c.Tbs()| < c.BodySize() && Width(c.BodySize()) == 3 && c.BodySize() < Limit()
  {
    hide LengthOctets;
    ThreeElements(c.ToParts());
    TwoOctetLengths(c.BodySize());
    assert Pow256(2) == 65536 by { assert Pow256(0) == 1; assert Pow256(1) == 256; }
    Pow256Monotone(2, 127);
  }

  // ----- Sizes of nested elements -----

  /** Octets of an element with n content octets. */
  function Size(n: nat): nat {
    1 + Width(n) + n
  }

  lemma EncodeSize(x: Tlv)
    ensures |Encode(x)| == Size(|x.content|)
  {
    hide LengthOctets;
  }

  lemma WidthOfLong(n: nat)
    requires 0x80 <= n < 0x100_0000
    ensures Width(n) == 1 + MinBytes(n) && 1 <= MinBytes(n) <= 3
  {
    hide MinBytes, Or;
    assert Pow256(3) == 0x100_0000 by {
      assert Pow256(0) == 1;
      assert Pow256(1) == 256 && Pow256(2) == 65536;
    }
    MinBytesIsLeast(n, 3);
    MinBytesIsLeast(n, 0);
    OctetMasks(MinBytes(n));
  }

  /** A longer content never takes a shorter header, nor one that is longer by more than three octets. */
  lemma SizeGrows(m: nat, n: nat)
    requires m <= n < 0x100_0000
    ensures Size(m) + (n - m) <= Size(n) <= Size(m) + (n - m) + 3
    ensures m + 2 <= Size(m) <= m + 5
  {
    hide MinBytes, Or, ToBigEndian;
    if m >= 0x80 {
      WidthOfLong(m);
      WidthOfLong(n);
      MinBytesIsLeast(n, MinBytes(n));
      MinBytesIsLeast(m, MinBytes(n));
    } else if n >= 0x80 {
      WidthOfLong(n);
    }
  }

  lemma BodySizeIs(c: Shape)
    ensures c.BodySize() == Size(|c.Tbs()|) + |Encode(c.algorithm)| + Size(|c.signature| + 1)
  {
    hide LengthOctets, Encode;
    ThreeElements(c.ToParts());
    EncodeSize(c.ToParts().tbs);
    EncodeSize(c.ToParts().signature);
  }

  // ----- The SAN ladder -----

  /** dNSName entries of a GeneralNames list (section 4.2.1.6 of RFC 5280). */
  function NameTlvs(names: seq<seq<Byte>>): seq<Tlv> {
    seq(|names|, i requires 0 <= i < |names| => Tlv(0x82, names[i]))
  }

  function SanExtension(names: seq<seq<Byte>>): Extension {
    Extension(CertificateExtensionOid(17), false, Encode(Tlv(0x30, EncodeAll(NameTlvs(names)))))
  }

  /** The extensions field of a leaf with these names, among its other extensions. */
  function SanField(front: seq<Extension>, names: seq<seq<Byte>>, back: seq<Extension>): seq<Byte> {
    EncodeAll(ExtensionsField(ExtensionTlvs(front) + [ExtensionTlv(SanExtension(names))] + ExtensionTlvs(back)))
  }

  function NameOctets(names: seq<seq<Byte>>): nat {
    |EncodeAll(NameTlvs(names))|
  }

  function FieldSize(names: nat, others: nat): nat {
    Size(Size(Size(5 + Size(Size(names))) + others))
  }

  function Others(front: seq<Extension>, back: seq<Extension>): nat {
    |EncodeAll(ExtensionTlvs(front))| + |EncodeAll(ExtensionTlvs(back))|
  }

  lemma SanExtensionSize(names: seq<seq<Byte>>)
    ensures |Encode(ExtensionTlv(SanExtension(names)))| == Size(5 + Size(Size(NameOctets(names))))
  {
    hide Encode, NameTlvs, Width;
    var e := SanExtension(names);
    var oid, value := Tlv(0x06, e.oid), Tlv(0x04, e.value);
    assert ExtensionFields(e) == [oid] + [value];
    EncodeAllAppend([oid], [value]);
    EncodeSingle(oid);
    EncodeSingle(value);
    EncodeSize(Tlv(0x30, EncodeAll(NameTlvs(names))));
    EncodeSize(value);
    EncodeSize(oid);
    assert Size(3) == 5 by { ShortSize(3); }
    EncodeSize(ExtensionTlv(e));
  }

  lemma ShortSize(n: nat)
    requires n < 0x80
    ensures Size(n) == n + 2
  {
  }

  lemma SanFieldSize(front: seq<Extension>, names: seq<seq<Byte>>, back: seq<Extension>)
    ensures |SanField(front, names, back)| == FieldSize(NameOctets(names), Others(front, back))
  {
    hide Encode, Size, ExtensionTlv, ExtensionTlvs, SanExtension, NameOctets;
    var f, x, b := ExtensionTlvs(front), ExtensionTlv(SanExtension(names)), ExtensionTlvs(back);
    var list := Tlv(0x30, EncodeAll(f + [x] + b));
    var field := Tlv(0xA3, Encode(list));
    EncodeAllAppend(f + [x], b);
    EncodeAllAppend(f, [x]);
    EncodeSingle(x);
    SanExtensionSize(names);
    EncodeSize(list);
    EncodeSingle(field);
    EncodeSize(field);
  }

  /** More names never shrink the field, and the five headers around them add little to what the names add. */
  lemma FieldSizeGrows(m: nat, n: nat, others: nat)
    requires m <= n && n + others < 0x80_0000
    ensures FieldSize(m, others) + (n - m) <= FieldSize(n, others) <= FieldSize(m, others) + (n - m) + 15
    ensures m + others <= FieldSize(m, others) <= m + others + 30
  {
    hide Size;
    SizeGrows(m, n);
    SizeGrows(Size(m), Size(n));
    SizeGrows(5 + Size(Size(m)), 5 + Size(Size(n)));
    var x, y := Size(5 + Size(Size(m))) + others, Size(5 + Size(Size(n))) + others;
    SizeGrows(x, y);
    SizeGrows(Size(x), Size(y));
  }

  lemma OneMoreName(names: seq<seq<Byte>>, n: nat)
    requires n < |names| && |names[n]| <= 100
    ensures NameOctets(names[..n + 1]) == NameOctets(names[..n]) + |names[n]| + 2
  {
    hide Encode, EncodeAll;
    var x := Tlv(0x82, names[n]);
    assert NameTlvs(names[..n + 1]) == NameTlvs(names[..n]) + [x];
    EncodeAllAppend(NameTlvs(names[..n]), [x]);
    EncodeSingle(x);
    EncodeSize(x);
    ShortSize(|names[n]|);
  }

  lemma {:induction false} NameOctetsGrow(names: seq<seq<Byte>>, m: nat, n: nat)
    requires m <= n <= |names| && forall i :: 0 <= i < |names| ==> |names[i]| <= 100
    ensures 2 * (n - m) <= NameOctets(names[..n]) - NameOctets(names[..m]) <= 102 * (n - m)
  {
    hide NameOctets;
    if m < n {
      NameOctetsGrow(names, m, n - 1);
      OneMoreName(names, n - 1);
    }
  }

  // ----- A step in the surcharge -----

  /** What a leaf weighs besides its extensions and the headers of its own. */
  function Load(c: Shape): nat {
    |c.before| + |c.spki| + |Encode(c.algorithm)| + |c.signature|
  }

  /** The leaf with the first n names. */
  function Rung(base: Shape, front: seq<Extension>, names: seq<seq<Byte>>, back: seq<Extension>, n: nat): Shape
    requires n <= |names|
  {
    Leaf(base, SanField(front, names[..n], back))
  }

  lemma RungSizes(base: Shape, front: seq<Extension>, names: seq<seq<Byte>>, back: seq<Extension>, n: nat)
    requires n <= |names|
    ensures var c := Rung(base, front, names, back, n);
            var field := FieldSize(NameOctets(names[..n]), Others(front, back));
            && |c.Tbs()| == |base.before| + |base.spki| + field
            && c.BodySize() == Size(|c.Tbs()|) + |Encode(base.algorithm)| + Size(|base.signature| + 1)
  {
    hide SanField, Size, FieldSize, NameOctets, Others, Shape.BodySize, Encode;
    SanFieldSize(front, names[..n], back);
    BodySizeIs(Rung(base, front, names, back, n));
  }

  lemma NoNames(names: seq<seq<Byte>>)
    ensures NameOctets(names[..0]) == 0
  {
  }

  /** From one rung to the next a body grows, by no more than one name and the headers around it. */
  lemma NextRung(base: Shape, front: seq<Extension>, names: seq<seq<Byte>>, back: seq<Extension>, m: nat, n: nat)
    requires forall i :: 0 <= i < |names| ==> |names[i]| <= 100
    requires 1 <= m <= n <= |names| && n <= 32768
    requires Rung(base, front, names, back, 1).BodySize() < 65536
    ensures var c, d := Rung(base, front, names, back, m), Rung(base, front, names, back, n);
            && |c.Tbs()| <= |d.Tbs()|
            && c.BodySize() + 2 * (n - m) <= d.BodySize() <= c.BodySize() + 102 * (n - m) + 18
            && |d.Tbs()| + |base.signature| + 5 <= d.BodySize()
            && |d.Tbs()| + |base.signature| + |Encode(base.algorithm)| < 0x70_0000
            && NameOctets(names[..n]) + Others(front, back) < 0x70_0000
  {
    hide Size, FieldSize, NameOctets, Others, Shape.BodySize, Shape.Tbs, Rung, Encode;
    var others := Others(front, back);
    RungSizes(base, front, names, back, 1);
    RungSizes(base, front, names, back, m);
    RungSizes(base, front, names, back, n);
    NoNames(names);
    NameOctetsGrow(names, 0, 1);
    NameOctetsGrow(names, 1, m);
    NameOctetsGrow(names, m, n);
    SizeIsMore(|Rung(base, front, names, back, 1).Tbs()|);
    FieldIsMore(NameOctets(names[..1]), others);
    FieldSizeGrows(NameOctets(names[..1]), NameOctets(names[..m]), others);
    FieldSizeGrows(NameOctets(names[..m]), NameOctets(names[..n]), others);
    SizeGrows(|Rung(base, front, names, back, m).Tbs()|, |Rung(base, front, names, back, n).Tbs()|);
    SizeIsMore(|base.signature| + 1);
    SizeGrows(|base.signature| + 1, |base.signature| + 1);
  }

  lemma SizeIsMore(n: nat)
    ensures Size(n) > n
  {
  }

  lemma FieldIsMore(m: nat, others: nat)
    ensures FieldSize(m, others) >= m + others
  {
    hide Size;
    SizeIsMore(m);
    SizeIsMore(Size(m));
    SizeIsMore(5 + Size(Size(m)));
    SizeIsMore(Size(5 + Size(Size(m))) + others);
    SizeIsMore(Size(Size(5 + Size(Size(m))) + others));
  }

  lemma LoadDecides(a: Shape, b: Shape, front: seq<Extension>, names: seq<seq<Byte>>, back: seq<Extension>, n: nat)
    requires n <= |names| && Load(a) >= Load(b) + 128
    requires var d := Rung(a, front, names, back, n);
             |d.Tbs()| + |a.signature| + |Encode(a.algorithm)| < 0x70_0000
    ensures Rung(b, front, names, back, n).BodySize() + 122 <= Rung(a, front, names, back, n).BodySize()
  {
    hide Size, FieldSize, NameOctets, Others, Shape.BodySize, Shape.Tbs, Rung, Encode;
    RungSizes(a, front, names, back, n);
    RungSizes(b, front, names, back, n);
    SizeGrows(|a.signature| + 1, |a.signature| + 1);
    SizeGrows(|b.signature| + 1, |b.signature| + 1);
    var tbs, tbs' := |Rung(a, front, names, back, n).Tbs()|, |Rung(b, front, names, back, n).Tbs()|;
    SizeGrows(tbs, tbs);
    SizeGrows(tbs', tbs');
  }

  lemma {:induction false} FirstThreeOctetRung(
      base: Shape, front: seq<Extension>, names: seq<seq<Byte>>, back: seq<Extension>, n: nat) returns (k: nat)
    requires 1 <= n <= |names|
    requires Rung(base, front, names, back, 1).BodySize() < 65536 <= Rung(base, front, names, back, n).BodySize()
    ensures 1 < k <= n
    ensures Rung(base, front, names, back, k - 1).BodySize() < 65536 <= Rung(base, front, names, back, k).BodySize()
  {
    hide Rung, Shape.BodySize;
    if Rung(base, front, names, back, n - 1).BodySize() < 65536 {
      k := n;
    } else {
      k := FirstThreeOctetRung(base, front, names, back, n - 1);
    }
  }

  lemma RungIsLeaf(base: Shape, front: seq<Extension>, names: seq<seq<Byte>>, back: seq<Extension>, n: nat)
    requires n <= |names|
    ensures Rung(base, front, names, back, n) == Leaf(base, SanField(front, names[..n], back))
  {
  }

  lemma LimitIsLarge()
    ensures 0x100_0000 <= Limit()
  {
    assert Pow256(0) == 1;
    assert Pow256(1) == 256;
    assert Pow256(2) == 65536;
    assert Pow256(3) == 256 * Pow256(2);
    Pow256Monotone(3, 127);
  }

  lemma ThreeOctetLengths(n: nat)
    requires 65536 <= n < 0x100_0000
    ensures Width(n) == 4
  {
    hide LengthOctets;
    WidthOfLong(n);
    MinBytesIsLeast(n, 2);
    assert Pow256(2) == 65536 by { assert Pow256(0) == 1; assert Pow256(1) == 256; }
  }

  /**
    * Between any two algorithms whose keys and signatures weigh 128 octets apart or more, on any
    * ladder of names, the surcharge does change inside the TBS range: at some SAN count the heavier
    * Certificate has crossed 65535 and the lighter one has not, and the surcharge is one octet more.
    */
  lemma TbsRangeIsNotEnough(a: Shape, b: Shape, front: seq<Extension>, names: seq<seq<Byte>>, back: seq<Extension>)
    returns (n: nat)
    requires |names| >= 32768 && forall i :: 0 <= i < |names| ==> |names[i]| <= 100
    requires Load(a) >= Load(b) + 128 && |a.signature| >= 128
    requires 256 <= |Rung(a, front, names, back, 1).Tbs()| && 256 <= |Rung(b, front, names, back, 1).Tbs()|
    requires Rung(a, front, names, back, 1).BodySize() < 65536
    ensures 1 < n <= |names|
    ensures |Rung(a, front, names, back, 1).Tbs()| < 65536 && |Rung(b, front, names, back, 1).Tbs()| < 65536
    ensures 256 <= |Rung(a, front, names, back, n).Tbs()| < 65536
    ensures 256 <= |Rung(b, front, names, back, n).Tbs()| < 65536
    ensures Surcharge(a, b, SanField(front, names[..n], back)) == Surcharge(a, b, SanField(front, names[..1], back)) + 1
  {
    hide Size, SanField, Shape.BodySize, Shape.Tbs, Rung, Limit, Surcharge, Encode, LengthOctets, Load;
    NextRung(a, front, names, back, 1, 1);
    NextRung(a, front, names, back, 1, 32768);
    n := FirstThreeOctetRung(a, front, names, back, 32768);
    NextRung(a, front, names, back, n - 1, n);
    NextRung(a, front, names, back, 1, n);
    LoadDecides(a, b, front, names, back, 1);
    LoadDecides(a, b, front, names, back, n);
    NextRung(b, front, names, back, 1, 1);
    NextRung(b, front, names, back, 1, n);
    RungIsLeaf(a, front, names, back, 1);
    RungIsLeaf(a, front, names, back, n);
    RungIsLeaf(b, front, names, back, 1);
    RungIsLeaf(b, front, names, back, n);
    OneOctetMore(a, b, SanField(front, names[..1], back), SanField(front, names[..n], back));
  }

  lemma OneOctetMore(a: Shape, b: Shape, san: seq<Byte>, san': seq<Byte>)
    requires 256 <= |Leaf(a, san).Tbs()| < Leaf(a, san).BodySize() < 65536
    requires 256 <= |Leaf(b, san).Tbs()| < Leaf(b, san).BodySize() < 65536
    requires 256 <= |Leaf(a, san').Tbs()| < 65536 <= Leaf(a, san').BodySize() < 0x100_0000
    requires 256 <= |Leaf(b, san').Tbs()| < Leaf(b, san').BodySize() < 65536
    ensures Surcharge(a, b, san') == Surcharge(a, b, san) + 1
  {
    hide Surcharge, LengthOctets, Shape.BodySize, Shape.Tbs, Limit;
    LimitIsLarge();
    SurchargeMovesByHeaderWidths(a, b, san', san);
    ThreeOctetLengths(Leaf(a, san').BodySize());
    forall n | n in {|Leaf(a, san).Tbs()|, |Leaf(b, san).Tbs()|, |Leaf(a, san').Tbs()|, |Leaf(b, san').Tbs()|,
                     Leaf(a, san).BodySize(), Leaf(b, san).BodySize(), Leaf(b, san').BodySize()}
      ensures Width(n) == 3
    {
      TwoOctetLengths(n);
    }
  }
}
