/**
  * The certificate walk of gen/sizes.py: skip the outer header, expect three elements, and report
  * the raw signature length. The shape is the one of section 4.1 of RFC 5280; the signature is a
  * BIT STRING whose first content octet counts unused bits (section 8.6 of X.690).
  */
module Certificates {
  import opened Wrappers
  import opened Bytes
  import opened Der

  datatype MeasureError = IndexError | NotASequence | NotThreeElements

  datatype Parts = Parts(tbs: Tlv, algorithm: Tlv, signature: Tlv)

  datatype Measurement = Measurement(total: nat, spki: nat, signature: int, other: int)

  function PartsList(p: Parts): seq<Tlv> {
    [p.tbs, p.algorithm, p.signature]
  }

  function CertificateBody(p: Parts): seq<Byte> {
    EncodeAll(PartsList(p))
  }

  function EncodeCertificate(p: Parts): seq<Byte> {
    Encode(Tlv(0x30, CertificateBody(p)))
  }

  /** Where `measure` takes the body to start; it never reads the announced length. */
  function BodyOffset(der: seq<Byte>): nat
    requires |der| >= 2
  {
    if der[1] < 128 then 2 else 2 + (der[1] - 128)
  }

  function Body(der: seq<Byte>): seq<Byte>
    requires |der| >= 2
  {
    Drop(der, BodyOffset(der))
  }

  function SplitCertificate(der: seq<Byte>): Result<Parts, MeasureError> {
    if der == [] then Err(IndexError)
    else if der[0] != 0x30 then Err(NotASequence)
    else if |der| < 2 then Err(IndexError)
    else
      var w := Children(Body(der));
      if !w.ok then Err(IndexError)
      else if |w.items| != 3 then Err(NotThreeElements)
      else Ok(Parts(w.items[0], w.items[1], w.items[2]))
  }

  /** measure; the SubjectPublicKeyInfo size comes from openssl and is a parameter. */
  method Measure(der: seq<Byte>, spki: nat) returns (r: Result<Measurement, MeasureError>)
    ensures r == Err(NotASequence) <==> der != [] && der[0] != 0x30
    ensures r == Err(NotThreeElements)
       <==> |der| >= 2 && der[0] == 0x30 && Children(Body(der)).ok && |Children(Body(der)).items| != 3
    ensures r.Ok? ==>
              var m := r.value;
              && |der| >= 2 && Children(Body(der)).ok && |Children(Body(der)).items| == 3
              && m.total == |der| && m.spki == spki
              && m.signature + 1 == |Children(Body(der)).items[2].content|
              && m.spki + m.signature + m.other == m.total
    ensures SplitCertificate(der).Err? ==> r == Err(SplitCertificate(der).error)
    ensures SplitCertificate(der).Ok? ==>
              var sig := |SplitCertificate(der).value.signature.content| - 1;
              r == Ok(Measurement(|der|, spki, sig, |der| - spki - sig))
  {
    hide And, Children, PartsList;
    if der == [] {
      return Err(IndexError);
    }
    if der[0] != 0x30 {
      return Err(NotASequence);
    }
    if |der| < 2 {
      return Err(IndexError);
    }
    var j := 2;
    OctetMasks(der[1]);
    if And(der[1], 0x80) != 0 {
      var n := And(der[1], 0x7F);
      j := j + n;
    }
    assert j == BodyOffset(der);
    var items, ok := DerChildren(Drop(der, j));
    if !ok {
      return Err(IndexError);
    }
    if |items| != 3 {
      return Err(NotThreeElements);
    }
    var sig := |items[2].content| - 1;
    r := Ok(Measurement(|der|, spki, sig, |der| - spki - sig));
  }

  /**
    * A certificate whose outer header has length octets of any width, around a body that parses to
    * three elements, is split into those three; der_children on the whole buffer finds the same body.
    */
  lemma SplitsAnyHeaderWidth(h: seq<Byte>, body: seq<Byte>, p: Parts)
    requires IsLengthOctets(h, |body|)
    requires Children(body) == Walk(PartsList(p), true)
    ensures SplitCertificate([0x30] + h + body) == Ok(p)
    ensures Children([0x30] + h + body) == Walk([Tlv(0x30, body)], true)
  {
    hide FromBigEndian;
    var der := [0x30] + h + body;
    ParseOne(0x30, h, body, []);
    assert der + [] == der;
    assert Body(der) == body;
  }

  /** Printing a certificate and splitting it gives back its three elements. */
  lemma CertificateRoundTrip(p: Parts)
    requires |CertificateBody(p)| < Limit()
    ensures SplitCertificate(EncodeCertificate(p)) == Ok(p)
    ensures Children(EncodeCertificate(p)) == Walk([Tlv(0x30, CertificateBody(p))], true)
  {
    hide EncodeAll, DerLen;
    var body := CertificateBody(p);
    ContentsAreShorter(PartsList(p));
    RoundTrip(PartsList(p));
    DerLenReadsBackBelowLimit(|body|);
    SplitsAnyHeaderWidth(LengthOctets(|body|), body, p);
  }

  /**
    * On every buffer that starts as a SEQUENCE, `measure` and der_children agree on where the body
    * starts, and they agree on the body itself exactly when the announced length reaches the end.
    */
  lemma BodyAgreesWithFirstChild(der: seq<Byte>)
    requires |der| >= 2
    ensures BodyOffset(der) == ReadHeader(der).start
    ensures Children(der).items != []
    ensures Children(der).items[0].content == Body(der)
       <==> ReadHeader(der).start + ReadHeader(der).length >= |der|
            || ReadHeader(der).start >= |der|
  {
    hide FromBigEndian, Children;
    UnfoldChildren(der);
    SlicesMeet(der, ReadHeader(der).start, ReadHeader(der).start + ReadHeader(der).length);
  }

  /** Every buffer that splits ends with the content of its third element. */
  lemma SignatureIsTheTail(der: seq<Byte>)
    requires SplitCertificate(der).Ok?
    ensures var sig := SplitCertificate(der).value.signature.content;
            |sig| + 8 <= |der| && der[|der| - |sig|..] == sig
  {
    hide Children, Headers;
    var body := Body(der);
    var items, headers := Children(body).items, Headers(body);
    ElementsTileTheBuffer(body);
    var sig := items[2].content;
    assert items == [items[0], items[1], items[2]];
    assert Interleave(headers[3..], items[3..]) == [];
    assert Interleave(headers[2..], items[2..]) == headers[2] + sig by {
      assert headers[2..][1..] == headers[3..] && items[2..][1..] == items[3..];
      assert headers[2] + sig + [] == headers[2] + sig;
    }
    assert Interleave(headers[1..], items[1..])
        == headers[1] + items[1].content + (headers[2] + sig) by {
      assert headers[1..][1..] == headers[2..] && items[1..][1..] == items[2..];
    }
    assert body == headers[0] + items[0].content + (headers[1] + items[1].content + (headers[2] + sig));
    assert |body| >= 6 + |sig|;
    assert body[|body| - |sig|..] == sig;
    assert body == der[BodyOffset(der)..];
  }
}
