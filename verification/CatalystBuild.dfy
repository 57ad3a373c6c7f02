/**
  * Building, signing and verifying the hybrid certificate of phase0/catalyst_build.py. Keys, the
  * two signature schemes and the certificate library's field encodings are parameters.
  */
module CatalystBuild {
  import opened Wrappers
  import opened Bytes
  import opened Der
  import opened Certificates
  import opened Catalyst

  /** Content octets of the object identifier 2.5.29.n. */
  function CertificateExtensionOid(n: Byte): seq<Byte> {
    [0x55, 0x1D, n]
  }

  const OID_SAPKI: seq<Byte> := CertificateExtensionOid(72)
  const OID_ALT_ALG: seq<Byte> := CertificateExtensionOid(73)
  const OID_ALT_SIG: seq<Byte> := CertificateExtensionOid(74)

  const ALT_ALG_DER: seq<Byte> :=
    [0x30, 0x0b, 0x06, 0x09, 0x60, 0x86, 0x48, 0x01, 0x65, 0x03, 0x04, 0x03, 0x12]

  /** What the builder takes from the leaf key, the issuer and the library's encoders. */
  datatype Request = Request(
    fields: seq<Tlv>,
    basicConstraints: seq<Byte>,
    keyUsage: seq<Byte>,
    extendedKeyUsage: seq<Byte>,
    subjectAltName: seq<Byte>,
    subjectKeyIdentifier: seq<Byte>,
    issuerSki: Option<seq<Byte>>,
    issuerKeyIdentifier: seq<Byte>,
    sapki: seq<Byte>)

  /** The key identifier of section 4.2.1.1 of RFC 5280: the issuer's own when it has one. */
  function IssuerAki(r: Request): seq<Byte> {
    var id := match r.issuerSki
              case Some(ski) => ski
              case None => r.issuerKeyIdentifier;
    Encode(Tlv(0x30, Encode(Tlv(0x80, id))))
  }

  function Build(extra: Option<Extension>, r: Request): Tbs {
    var common := [
      Extension(CertificateExtensionOid(19), false, r.basicConstraints),
      Extension(CertificateExtensionOid(15), true, r.keyUsage),
      Extension(CertificateExtensionOid(37), false, r.extendedKeyUsage),
      Extension(CertificateExtensionOid(17), false, r.subjectAltName),
      Extension(CertificateExtensionOid(14), false, r.subjectKeyIdentifier),
      Extension(CertificateExtensionOid(35), false, IssuerAki(r)),
      Extension(OID_SAPKI, false, r.sapki),
      Extension(OID_ALT_ALG, false, ALT_ALG_DER)
    ];
    Tbs(r.fields, match extra case None => common case Some(e) => common + [e])
  }

  /** A BIT STRING with no unused bits, assembled by hand as in the source. */
  function AltSignatureDer(sig: seq<Byte>): seq<Byte> {
    [0x03] + LengthOctets(|sig| + 1) + [0x00] + sig
  }

  // ----- Verification -----

  function DecodeExtension(x: Tlv): Option<Extension> {
    var w := Children(x.content);
    if !w.ok then None
    else if |w.items| == 2 && w.items[0].tag == 0x06 && w.items[1].tag == 0x04 then
      Some(Extension(w.items[0].content, false, w.items[1].content))
    else if |w.items| == 3 && w.items[0].tag == 0x06 && w.items[1] == Tlv(0x01, [0xFF]) && w.items[2].tag == 0x04 then
      Some(Extension(w.items[0].content, true, w.items[2].content))
    else None
  }

  /** The bits of a BIT STRING that uses whole octets. */
  function BitStringOctets(buf: seq<Byte>): Option<seq<Byte>> {
    match Single(buf, 0x03)
    case None => None
    case Some(content) => if content != [] && content[0] == 0 then Some(content[1..]) else None
  }

  /** What a verifier of the alternative signature extracts: the covered octets and the signature. */
  datatype AltSigned = AltSigned(covered: seq<Byte>, signature: seq<Byte>)

  function RecoverAltSigned(cert: seq<Byte>): Option<AltSigned> {
    match SplitCertificate(cert)
    case Err(_) => None
    case Ok(p) =>
      match StripLastExtension(Encode(p.tbs))
      case None => None
      case Some(s) =>
        match DecodeExtension(s.removed)
        case None => None
        case Some(e) =>
          if e.oid != OID_ALT_SIG then None
          else
            match BitStringOctets(e.value)
            case None => None
            case Some(sig) => Some(AltSigned(s.covered, sig))
  }

  // ----- Lemmas -----

  lemma DecodeEncodedExtension(e: Extension)
    requires |ExtensionTlv(e).content| < Limit()
    ensures DecodeExtension(ExtensionTlv(e)) == Some(e)
  {
    hide EncodeAll, Children, Limit;
    ContentsAreShorter(ExtensionFields(e));
    RoundTrip(ExtensionFields(e));
  }

  /** The hand-made octets are the BIT STRING element, and read back as the signature. */
  lemma AltSignatureReadsBack(sig: seq<Byte>)
    requires |sig| + 1 < Limit()
    ensures AltSignatureDer(sig) == Encode(Tlv(0x03, [0x00] + sig))
    ensures BitStringOctets(AltSignatureDer(sig)) == Some(sig)
  {
    hide LengthOctets, Single, Limit;
    var x := Tlv(0x03, [0x00] + sig);
    FitsBelow(x);
    SingleOfEncode(x);
    assert AltSignatureDer(sig) == Encode(x);
  }

  /** Extensions are shorter than the TBSCertificate around them, and values than extensions. */
  lemma ExtensionSizes(fields: seq<Tlv>, es: seq<Extension>, e: Extension)
    ensures |e.value| < |ExtensionTlv(e).content| < |TbsTlv(fields, ExtensionTlvs(es + [e])).content|
  {
    hide LengthOctets, TbsTlv;
    var xs := ExtensionTlvs(es + [e]);
    AppendedExtension(es, e);
    EnclosedSizes(fields, xs);
    EncodeAllAppend(ExtensionTlvs(es), [ExtensionTlv(e)]);
    EncodeSingle(ExtensionTlv(e));
    var value := Tlv(0x04, e.value);
    var before := ExtensionFields(e)[..|ExtensionFields(e)| - 1];
    assert ExtensionFields(e) == before + [value];
    EncodeAllAppend(before, [value]);
    EncodeSingle(value);
  }

  lemma AppendedExtension(es: seq<Extension>, e: Extension)
    ensures ExtensionTlvs(es + [e]) == ExtensionTlvs(es) + [ExtensionTlv(e)]
  {
  }

  lemma {:induction false} ElementIsShorter(xs: seq<Tlv>, i: nat)
    requires i < |xs|
    ensures |xs[i].content| < |EncodeAll(xs)|
  {
    hide LengthOctets;
    if i > 0 {
      ElementIsShorter(xs[1..], i - 1);
    }
  }

  lemma ExtensionsReadBack(t: Tbs, i: nat)
    requires |t.ToTlv().content| < Limit() && i < |t.extensions|
    ensures DecodeExtension(ExtensionTlvs(t.extensions)[i]) == Some(t.extensions[i])
  {
    hide EncodeAll, Encode, TbsTlv, ExtensionTlv, DecodeExtension, Limit;
    var xs := ExtensionTlvs(t.extensions);
    EnclosedSizes(t.fields, xs);
    ElementIsShorter(xs, i);
    DecodeEncodedExtension(t.extensions[i]);
  }

  /**
    * The covered octets determine the fields and the extensions: no two builds share them. A build
    * without extensions is told apart because no other field carries their tag.
    */
  lemma TbsPrintIsInjective(a: Tbs, b: Tbs)
    requires a.extensions == [] ==> NoExtensionsTag(a.fields)
    requires b.extensions == [] ==> NoExtensionsTag(b.fields)
    requires |a.ToTlv().content| < Limit() && |b.ToTlv().content| < Limit()
    requires Encode(a.ToTlv()) == Encode(b.ToTlv())
    ensures a == b
  {
    hide Encode, TbsTlv, Single, ExtensionTlv, DecodeExtension, Limit;
    var xs, ys := ExtensionTlvs(a.extensions), ExtensionTlvs(b.extensions);
    FitsBelow(a.ToTlv());
    FitsBelow(b.ToTlv());
    TbsIsSequence(a.fields, xs);
    TbsIsSequence(b.fields, ys);
    SingleOfEncode(a.ToTlv());
    SingleOfEncode(b.ToTlv());
    TbsTlvIsInjective(a.fields, xs, b.fields, ys);
    forall i | 0 <= i < |a.extensions| ensures a.extensions[i] == b.extensions[i] {
      ExtensionsReadBack(a, i);
      ExtensionsReadBack(b, i);
    }
  }

  /**
    * A certificate whose last extension is an altSignatureValue around sig gives back sig and
    * exactly the TBSCertificate octets without that extension.
    */
  lemma RecoversCoveredOctets(fields: seq<Tlv>, es: seq<Extension>, sig: seq<Byte>, p: Parts)
    requires p.tbs == Tbs(fields, es + [Extension(OID_ALT_SIG, false, AltSignatureDer(sig))]).ToTlv()
    requires |CertificateBody(p)| < Limit()
    ensures RecoverAltSigned(EncodeCertificate(p))
         == Some(AltSigned(Encode(Tbs(fields, es).ToTlv()), sig))
  {
    hide EncodeAll, LengthOctets, SplitCertificate, TbsTlv, StripLastExtension,
         DecodeExtension, BitStringOctets, ExtensionTlvs, ExtensionTlv, Limit;
    var e := Extension(OID_ALT_SIG, false, AltSignatureDer(sig));
    CertificateRoundTrip(p);
    TbsIsShorter(p);
    ExtensionSizes(fields, es, e);
    AppendedExtension(es, e);
    StripEncodedTbs(fields, ExtensionTlvs(es), ExtensionTlv(e));
    DecodeEncodedExtension(e);
    assert |AltSignatureDer(sig)| >= |sig| + 2;
    AltSignatureReadsBack(sig);
  }

  lemma TbsIsShorter(p: Parts)
    ensures |p.tbs.content| < |CertificateBody(p)|
  {
    hide LengthOctets;
    var xs := PartsList(p);
    assert EncodeAll(xs) == Encode(xs[0]) + EncodeAll(xs[1..]);
  }

  // ----- The script -----

  function Certificate(tbs: Tlv, algorithm: Tlv, sig: seq<Byte>): Parts {
    Parts(tbs, algorithm, Tlv(0x03, [0x00] + sig))
  }

  /** The authority key identifier names the issuer's own key identifier whenever it has one. */
  lemma IssuerAkiReadsBack(r: Request)
    requires |IssuerAki(r)| < Limit()
    ensures Single(IssuerAki(r), 0x30).Some?
    ensures Single(Single(IssuerAki(r), 0x30).value, 0x80)
         == (if r.issuerSki.Some? then r.issuerSki else Some(r.issuerKeyIdentifier))
  {
    hide Encode, Single, Limit;
    var id := if r.issuerSki.Some? then r.issuerSki.value else r.issuerKeyIdentifier;
    var inner := Tlv(0x80, id);
    var outer := Tlv(0x30, Encode(inner));
    ContentIsShorter(inner);
    ContentIsShorter(outer);
    FitsBelow(inner);
    FitsBelow(outer);
    SingleOfEncode(inner);
    SingleOfEncode(outer);
  }

  // ----- What a reader finds in the certificate -----

  function DecodeExtensions(xs: seq<Tlv>): Option<seq<Extension>> {
    if xs == [] then Some([])
    else
      match (DecodeExtension(xs[0]), DecodeExtensions(xs[1..]))
      case (Some(e), Some(es)) => Some([e] + es)
      case _ => None
  }

  /** The fields in front of the extensions, and the extensions, decoded from the certificate's octets. */
  function ReadTbs(cert: seq<Byte>): Option<Tbs> {
    match SplitCertificate(cert)
    case Err(_) => None
    case Ok(p) =>
      match DecodeTbs(p.tbs.content)
      case None => None
      case Some((fields, xs)) =>
        match DecodeExtensions(xs)
        case None => None
        case Some(es) => Some(Tbs(fields, es))
  }

  /** The identifier 2.5.29.n occurs exactly once, with this criticality and value. */
  ghost predicate Carries(es: seq<Extension>, n: Byte, critical: bool, value: seq<Byte>) {
    exists i :: && 0 <= i < |es| && es[i] == Extension([0x55, 0x1D, n], critical, value)
                && forall j :: 0 <= j < |es| && j != i ==> es[j].oid != [0x55, 0x1D, n]
  }

  lemma {:induction false} ExtensionsDecode(es: seq<Extension>)
    requires forall i :: 0 <= i < |es| ==> |ExtensionTlv(es[i]).content| < Limit()
    ensures DecodeExtensions(ExtensionTlvs(es)) == Some(es)
  {
    hide ExtensionTlv, DecodeExtension, Limit;
    if es != [] {
      DecodeEncodedExtension(es[0]);
      ExtensionsDecode(es[1..]);
      assert ExtensionTlvs(es)[1..] == ExtensionTlvs(es[1..]);
      assert ExtensionTlvs(es)[0] == ExtensionTlv(es[0]) && es == [es[0]] + es[1..];
    }
  }

  /** Reading a printed certificate gives back the fields and the extensions. */
  lemma ReadPrintedTbs(t: Tbs, p: Parts)
    requires p.tbs == t.ToTlv() && t.extensions != []
    requires |CertificateBody(p)| < Limit()
    ensures ReadTbs(EncodeCertificate(p)) == Some(t)
  {
    hide EncodeAll, Encode, LengthOctets, SplitCertificate, TbsTlv, DecodeTbs, ExtensionTlv, DecodeExtensions, Limit;
    var xs := ExtensionTlvs(t.extensions);
    CertificateRoundTrip(p);
    TbsIsShorter(p);
    DecodeEncodedTbs(t.fields, xs);
    EnclosedSizes(t.fields, xs);
    forall i | 0 <= i < |xs| ensures |ExtensionTlv(t.extensions[i]).content| < Limit() {
      ElementIsShorter(xs, i);
    }
    ExtensionsDecode(t.extensions);
  }

  lemma CarriedAt(es: seq<Extension>, numbers: seq<Byte>, i: nat)
    requires |es| == |numbers| && i < |es|
    requires forall j :: 0 <= j < |es| ==> es[j].oid == [0x55, 0x1D, numbers[j]]
    requires forall j, k :: 0 <= j < k < |es| ==> numbers[j] != numbers[k]
    ensures Carries(es, numbers[i], es[i].critical, es[i].value)
  {
    forall j | 0 <= j < |es| && j != i ensures es[j].oid != [0x55, 0x1D, numbers[i]] {
      assert es[j].oid[2] == numbers[j];
    }
    assert es[i] == Extension([0x55, 0x1D, numbers[i]], es[i].critical, es[i].value);
  }

  /**
    * The extensions of the minted certificate, as a reader decodes them: the library's six values, the
    * alternative public key, the SEQUENCE of the identifier of ML-DSA-65 (2.16.840.1.101.3.4.3.18) and
    * the BIT STRING of the signature, each under its own identifier. Key usage alone is critical.
    */
  ghost predicate HasHybridExtensions(es: seq<Extension>, r: Request, sig: seq<Byte>) {
    && |es| == 9
    && Carries(es, 19, false, r.basicConstraints)
    && Carries(es, 15, true, r.keyUsage)
    && Carries(es, 37, false, r.extendedKeyUsage)
    && Carries(es, 17, false, r.subjectAltName)
    && Carries(es, 14, false, r.subjectKeyIdentifier)
    && Carries(es, 35, false, Encode(Tlv(0x30, Encode(
         Tlv(0x80, if r.issuerSki.Some? then r.issuerSki.value else r.issuerKeyIdentifier)))))
    && Carries(es, 72, false, r.sapki)
    && Carries(es, 73, false, Encode(Tlv(0x30, Encode(
         Tlv(0x06, [0x60, 0x86, 0x48, 0x01, 0x65, 0x03, 0x04, 0x03, 0x12])))))
    && Carries(es, 74, false, Encode(Tlv(0x03, [0x00] + sig)))
    && es[8].oid == [0x55, 0x1D, 74]
  }

  lemma AlgorithmOctets()
    ensures ALT_ALG_DER
         == Encode(Tlv(0x30, Encode(Tlv(0x06, [0x60, 0x86, 0x48, 0x01, 0x65, 0x03, 0x04, 0x03, 0x12]))))
  {
    ShortLength(9);
    ShortLength(11);
  }

  lemma HybridExtensions(r: Request, sig: seq<Byte>)
    ensures HasHybridExtensions(Build(Some(Extension(OID_ALT_SIG, false, AltSignatureDer(sig))), r).extensions, r, sig)
  {
    hide Encode, Carries, LengthOctets;
    var es := Build(Some(Extension(OID_ALT_SIG, false, AltSignatureDer(sig))), r).extensions;
    var numbers: seq<Byte> := [19, 15, 37, 17, 14, 35, 72, 73, 74];
    AlgorithmOctets();
    AltSignatureOctets(sig);
    forall i | 0 <= i < 9 ensures Carries(es, numbers[i], es[i].critical, es[i].value) {
      CarriedAt(es, numbers, i);
    }
    assert Carries(es, numbers[0], es[0].critical, es[0].value);
    assert Carries(es, numbers[1], es[1].critical, es[1].value);
    assert Carries(es, numbers[2], es[2].critical, es[2].value);
    assert Carries(es, numbers[3], es[3].critical, es[3].value);
    assert Carries(es, numbers[4], es[4].critical, es[4].value);
    assert Carries(es, numbers[5], es[5].critical, es[5].value);
    assert Carries(es, numbers[6], es[6].critical, es[6].value);
    assert Carries(es, numbers[7], es[7].critical, es[7].value);
    assert Carries(es, numbers[8], es[8].critical, es[8].value);
  }

  lemma AltSignatureOctets(sig: seq<Byte>)
    ensures AltSignatureDer(sig) == Encode(Tlv(0x03, [0x00] + sig))
  {
    hide LengthOctets;
  }

  predicate HasNonCritical(es: seq<Extension>, oid: seq<Byte>) {
    exists i :: 0 <= i < |es| && es[i].oid == oid && !es[i].critical
  }

  /**
    * The two builds differ by the last extension alone; no extension occurs twice; and the three
    * alternative-signature extensions are non-critical, so a verifier that does not know them ignores
    * them.
    */
  lemma BuildsDifferInLastExtension(r: Request, value: seq<Byte>)
    ensures var first := Build(None, r);
            var second := Build(Some(Extension(OID_ALT_SIG, false, value)), r);
            && second.fields == first.fields
            && second.extensions[..|second.extensions| - 1] == first.extensions
            && (forall i, j :: 0 <= i < j < |second.extensions| ==>
                  second.extensions[i].oid != second.extensions[j].oid)
            && HasNonCritical(second.extensions, OID_SAPKI)
            && HasNonCritical(second.extensions, OID_ALT_ALG)
            && HasNonCritical(second.extensions, OID_ALT_SIG)
  {
    var es := Build(Some(Extension(OID_ALT_SIG, false, value)), r).extensions;
    var numbers: seq<Byte> := [19, 15, 37, 17, 14, 35, 72, 73, 74];
    assert |es| == 9;
    forall i | 0 <= i < 9 ensures es[i].oid == CertificateExtensionOid(numbers[i]) && es[i].oid[2] == numbers[i] {
    }
    assert es[6].oid == CertificateExtensionOid(72) && !es[6].critical;
    assert es[7].oid == CertificateExtensionOid(73) && !es[7].critical;
    assert es[8].oid == CertificateExtensionOid(74) && !es[8].critical;
  }

  /**
    * The steps of `main`: build without the alternative signature, sign those octets with the
    * alternative key, build again with the signature as the last extension, sign classically.
    * Whatever the two signing functions are, a verifier of the result finds the octets that the
    * alternative key signed and that signature, and `measure` accepts the certificate. A reader finds
    * the request's fields and the nine extensions, the covered octets print the first eight of them,
    * and the outer elements are the algorithm and the classical signature over the TBSCertificate.
    */
  method Mint(r: Request, algorithm: Tlv, altSign: seq<Byte> -> seq<Byte>, caSign: seq<Byte> -> seq<Byte>)
    returns (cert: seq<Byte>, covered: seq<Byte>)
    ensures covered == Encode(Build(None, r).ToTlv())
    ensures |cert| < Limit() ==> RecoverAltSigned(cert) == Some(AltSigned(covered, altSign(covered)))
    ensures |cert| < Limit() ==>
              && SplitCertificate(cert).Ok?
              && var p := SplitCertificate(cert).value;
                 && p.tbs.tag == 0x30
                 && p.algorithm == algorithm
                 && p.signature == Tlv(0x03, [0x00] + caSign(Encode(p.tbs)))
    ensures |cert| < Limit() ==>
              && ReadTbs(cert).Some?
              && var t := ReadTbs(cert).value;
                 && t.fields == r.fields
                 && HasHybridExtensions(t.extensions, r, altSign(covered))
                 && covered == Encode(Tbs(t.fields, t.extensions[..8]).ToTlv())
  {
    hide EncodeAll, Encode, SplitCertificate, RecoverAltSigned, ReadTbs, HasHybridExtensions, AltSignatureDer, Limit;
    var tbs1 := Build(None, r);
    covered := Encode(tbs1.ToTlv());
    var sig := altSign(covered);
    var altSig := Extension(OID_ALT_SIG, false, AltSignatureDer(sig));
    var tbs2 := Build(Some(altSig), r);
    var p := Certificate(tbs2.ToTlv(), algorithm, caSign(Encode(tbs2.ToTlv())));
    cert := EncodeCertificate(p);
    ContentIsShorter(Tlv(0x30, CertificateBody(p)));
    if |cert| < Limit() {
      CertificateRoundTrip(p);
      RecoversCoveredOctets(tbs1.fields, tbs1.extensions, sig, p);
      ReadPrintedTbs(tbs2, p);
      HybridExtensions(r, sig);
      assert tbs2.extensions[..8] == tbs1.extensions;
    }
  }

  /** Only a certificate that carries the altSignatureValue extension last is recovered at all. */
  lemma RecoveryNeedsTheLastExtension(fields: seq<Tlv>, es: seq<Extension>, e: Extension, p: Parts)
    requires p.tbs == Tbs(fields, es + [e]).ToTlv()
    requires |CertificateBody(p)| < Limit()
    ensures RecoverAltSigned(EncodeCertificate(p)).Some?
       <==> e.oid == OID_ALT_SIG && BitStringOctets(e.value).Some?
    ensures RecoverAltSigned(EncodeCertificate(p)).Some? ==>
              RecoverAltSigned(EncodeCertificate(p)).value.covered == Encode(Tbs(fields, es).ToTlv())
  {
    hide EncodeAll, LengthOctets, SplitCertificate, TbsTlv, StripLastExtension,
         DecodeExtension, BitStringOctets, ExtensionTlvs, ExtensionTlv, Limit;
    CertificateRoundTrip(p);
    TbsIsShorter(p);
    ExtensionSizes(fields, es, e);
    AppendedExtension(es, e);
    StripEncodedTbs(fields, ExtensionTlvs(es), ExtensionTlv(e));
    DecodeEncodedExtension(e);
  }
}
