/**
  * The two-build hybrid certificate of phase0/catalyst_build.py. The alternative signature covers
  * the TBSCertificate without the altSignatureValue extension; the certificate that ships carries
  * that extension last. A verifier gets the covered octets back by decoding level by level,
  * dropping the last extension and re-encoding every enclosing length.
  */
module Catalyst {
  import opened Wrappers
  import opened Bytes
  import opened Der

  // ----- TBSCertificate (section 4.1 of RFC 5280) -----

  datatype Extension = Extension(oid: seq<Byte>, critical: bool, value: seq<Byte>)

  /** The DEFAULT FALSE criticality flag is present only when it is true. */
  function ExtensionFields(e: Extension): seq<Tlv> {
    [Tlv(0x06, e.oid)] + (if e.critical then [Tlv(0x01, [0xFF])] else []) + [Tlv(0x04, e.value)]
  }

  function ExtensionTlv(e: Extension): Tlv {
    Tlv(0x30, EncodeAll(ExtensionFields(e)))
  }

  function ExtensionTlvs(es: seq<Extension>): (xs: seq<Tlv>)
    ensures |xs| == |es|
  {
    seq(|es|, i requires 0 <= i < |es| => ExtensionTlv(es[i]))
  }

  /** The field tagged [3] around the SEQUENCE OF Extension; it is absent when there is none. */
  function ExtensionsField(xs: seq<Tlv>): seq<Tlv> {
    if xs == [] then [] else [Tlv(0xA3, Encode(Tlv(0x30, EncodeAll(xs))))]
  }

  function TbsTlv(fields: seq<Tlv>, xs: seq<Tlv>): Tlv {
    Tlv(0x30, EncodeAll(fields + ExtensionsField(xs)))
  }

  /** A TBSCertificate: its fields up to the public key, then its extensions. */
  datatype Tbs = Tbs(fields: seq<Tlv>, extensions: seq<Extension>)
  {
    function ToTlv(): Tlv {
      TbsTlv(fields, ExtensionTlvs(extensions))
    }
  }

  lemma EncodeSingle(x: Tlv)
    ensures EncodeAll([x]) == Encode(x)
  {
    hide Encode;
    assert EncodeAll([x][1..]) == [];
    assert Encode(x) + [] == Encode(x);
  }

  /** The octets of an extension, octet by octet. */
  lemma ExtensionOctets(e: Extension)
    ensures var oid, value := [0x06] + LengthOctets(|e.oid|) + e.oid, [0x04] + LengthOctets(|e.value|) + e.value;
            var body := if e.critical then oid + [0x01, 0x01, 0xFF] + value else oid + value;
            Encode(ExtensionTlv(e)) == [0x30] + LengthOctets(|body|) + body
  {
    hide EncodeAll, LengthOctets;
    var oid, value, flag := Tlv(0x06, e.oid), Tlv(0x04, e.value), Tlv(0x01, [0xFF]);
    EncodeSingle(oid);
    EncodeSingle(value);
    EncodeSingle(flag);
    assert LengthOctets(1) == [1] by { ShortLength(1); }
    assert Encode(flag) == [0x01, 0x01, 0xFF];
    EncodeAllAppend([oid], [value]);
    EncodeAllAppend([oid], [flag]);
    EncodeAllAppend([oid] + [flag], [value]);
    assert ExtensionFields(e) == if e.critical then [oid] + [flag] + [value] else [oid] + [value];
  }

  lemma ShortLength(n: nat)
    requires n < 0x80
    ensures LengthOctets(n) == [n]
  {
  }

  /** The octets of a TBSCertificate around its fields and its extensions. */
  lemma TbsOctets(fields: seq<Tlv>, xs: seq<Tlv>)
    requires xs != []
    ensures var list := [0x30] + LengthOctets(|EncodeAll(xs)|) + EncodeAll(xs);
            var body := EncodeAll(fields) + ([0xA3] + LengthOctets(|list|) + list);
            Encode(TbsTlv(fields, xs)) == [0x30] + LengthOctets(|body|) + body
  {
    hide EncodeAll, LengthOctets;
    var field := Tlv(0xA3, Encode(Tlv(0x30, EncodeAll(xs))));
    EncodeAllAppend(fields, [field]);
    EncodeSingle(field);
  }

  // ----- Stripping the last extension -----

  /** The content of a buffer that holds one element with this tag and nothing else. */
  function Single(buf: seq<Byte>, tag: Byte): Option<seq<Byte>> {
    var w := Children(buf);
    if w.ok && |w.items| == 1 && w.items[0].tag == tag then Some(w.items[0].content) else None
  }

  /** The TBSCertificate content as fields and extensions; None when it does not end in field [3]. */
  function DecodeTbs(content: seq<Byte>): Option<(seq<Tlv>, seq<Tlv>)> {
    var w := Children(content);
    if !w.ok || w.items == [] || w.items[|w.items| - 1].tag != 0xA3 then None
    else
      match Single(w.items[|w.items| - 1].content, 0x30)
      case None => None
      case Some(list) =>
        var xs := Children(list);
        if !xs.ok || xs.items == [] then None
        else Some((w.items[..|w.items| - 1], xs.items))
  }

  datatype Stripped = Stripped(covered: seq<Byte>, removed: Tlv)

  /** The verifier's reconstruction. */
  function StripLastExtension(tbs: seq<Byte>): Option<Stripped> {
    match Single(tbs, 0x30)
    case None => None
    case Some(content) =>
      match DecodeTbs(content)
      case None => None
      case Some((fields, xs)) =>
        Some(Stripped(Encode(TbsTlv(fields, xs[..|xs| - 1])), xs[|xs| - 1]))
  }

  /** Every level of the TBSCertificate down to the list of extensions is canonical DER. */
  predicate LevelsCanonical(tbs: seq<Byte>) {
    && Canonical(tbs)
    && match Single(tbs, 0x30)
       case None => true
       case Some(content) =>
         && Canonical(content)
         && var w := Children(content);
            w.items != [] ==>
              var field := w.items[|w.items| - 1].content;
              && Canonical(field)
              && match Single(field, 0x30)
                 case None => true
                 case Some(list) => Canonical(list)
  }

  lemma SingleOfEncode(x: Tlv)
    requires Fits(x)
    ensures Single(Encode(x), x.tag) == Some(x.content)
    ensures Canonical(Encode(x))
  {
    hide Encode, Canonical, Children;
    ParseSingle(x);
    CanonicalPrepend(x, []);
    assert Canonical([]) by { PrintIsCanonical([]); assert EncodeAll([]) == []; }
    assert Encode(x) + [] == Encode(x);
  }

  lemma SingleReencodes(buf: seq<Byte>, tag: Byte)
    requires Canonical(buf) && Single(buf, tag).Some?
    ensures buf == Encode(Tlv(tag, Single(buf, tag).value))
  {
    hide Encode, Canonical, Children;
    ReencodingIdentifiesCanonical(buf);
    var items := Children(buf).items;
    assert items == [items[0]];
    assert EncodeAll(items[1..]) == [];
    assert Encode(items[0]) + [] == Encode(items[0]);
  }

  /** Nested contents are shorter than what encloses them. */
  lemma EnclosedSizes(fields: seq<Tlv>, xs: seq<Tlv>)
    requires xs != []
    ensures var list := Tlv(0x30, EncodeAll(xs));
            |EncodeAll(xs)| <= |Encode(list)| <= |TbsTlv(fields, xs).content|
  {
    hide LengthOctets;
    var list := Tlv(0x30, EncodeAll(xs));
    var field := Tlv(0xA3, Encode(list));
    EncodeAllAppend(fields, [field]);
    EncodeSingle(field);
  }

  lemma DecodeEncodedTbs(fields: seq<Tlv>, xs: seq<Tlv>)
    requires xs != []
    requires |TbsTlv(fields, xs).content| < Limit()
    ensures DecodeTbs(TbsTlv(fields, xs).content) == Some((fields, xs))
  {
    hide Encode, Children, EncodeAll, Single, Limit, Fits;
    var list := Tlv(0x30, EncodeAll(xs));
    var field := Tlv(0xA3, Encode(list));
    EnclosedSizes(fields, xs);
    ContentsAreShorter(fields + [field]);
    RoundTrip(fields + [field]);
    ContentsAreShorter(xs);
    RoundTrip(xs);
    assert Fits(list) by { FitsBelow(list); }
    SingleOfEncode(list);
    assert (fields + [field])[..|fields|] == fields;
  }

  lemma FitsBelow(x: Tlv)
    requires |x.content| < Limit()
    ensures Fits(x)
  {
  }

  /** Stripping a TBSCertificate with at least one extension gives exactly the print without it. */
  lemma StripEncodedTbs(fields: seq<Tlv>, xs: seq<Tlv>, last: Tlv)
    requires |TbsTlv(fields, xs + [last]).content| < Limit()
    ensures StripLastExtension(Encode(TbsTlv(fields, xs + [last])))
         == Some(Stripped(Encode(TbsTlv(fields, xs)), last))
  {
    hide Encode, Single, DecodeTbs, Limit, TbsTlv;
    var tbs := TbsTlv(fields, xs + [last]);
    FitsBelow(tbs);
    assert tbs.tag == 0x30 by { TbsIsSequence(fields, xs + [last]); }
    SingleOfEncode(tbs);
    DecodeEncodedTbs(fields, xs + [last]);
    assert (xs + [last])[..|xs|] == xs;
  }

  lemma TbsIsSequence(fields: seq<Tlv>, xs: seq<Tlv>)
    ensures TbsTlv(fields, xs).tag == 0x30
  {
  }

  /**
    * Stripping is the inverse of appending: on any octets below the limit it yields s, and all
    * levels were canonical, exactly when the octets print some fields and extensions ending in the
    * removed one, and s.covered prints the same fields and the extensions before it.
    */
  lemma StrippingUndoesAppending(tbs: seq<Byte>, s: Stripped)
    requires |tbs| < Limit()
    ensures StripLastExtension(tbs) == Some(s) && LevelsCanonical(tbs)
       <==> exists fields: seq<Tlv>, xs: seq<Tlv> ::
              && tbs == Encode(TbsTlv(fields, xs + [s.removed]))
              && s.covered == Encode(TbsTlv(fields, xs))
  {
    hide Encode, TbsTlv, LevelsCanonical, StripLastExtension, Limit;
    if StripLastExtension(tbs) == Some(s) && LevelsCanonical(tbs) {
      var fields, xs := CanonicalLevelsReencode(tbs, s);
    }
    forall fields: seq<Tlv>, xs: seq<Tlv> |
      && tbs == Encode(TbsTlv(fields, xs + [s.removed]))
      && s.covered == Encode(TbsTlv(fields, xs))
      ensures StripLastExtension(tbs) == Some(s) && LevelsCanonical(tbs)
    {
      var x := TbsTlv(fields, xs + [s.removed]);
      ContentIsShorter(x);
      StripEncodedTbs(fields, xs, s.removed);
      PrintedLevelsAreCanonical(fields, xs + [s.removed]);
    }
  }

  lemma ContentIsShorter(x: Tlv)
    ensures |x.content| < |Encode(x)|
  {
  }

  lemma CanonicalLevelsReencode(tbs: seq<Byte>, s: Stripped) returns (fields: seq<Tlv>, xs: seq<Tlv>)
    requires StripLastExtension(tbs) == Some(s) && LevelsCanonical(tbs)
    ensures tbs == Encode(TbsTlv(fields, xs + [s.removed]))
    ensures s.covered == Encode(TbsTlv(fields, xs))
  {
    hide Encode, Canonical, Children, Single, EncodeAll;
    var content := Single(tbs, 0x30).value;
    SingleReencodes(tbs, 0x30);
    var items := Children(content).items;
    ReencodingIdentifiesCanonical(content);
    var field := items[|items| - 1];
    fields := items[..|items| - 1];
    assert items == fields + [field];
    var list := Single(field.content, 0x30).value;
    SingleReencodes(field.content, 0x30);
    ReencodingIdentifiesCanonical(list);
    var all := Children(list).items;
    xs := all[..|all| - 1];
    assert all == xs + [s.removed];
    assert field == Tlv(0xA3, Encode(Tlv(0x30, EncodeAll(all))));
  }

  lemma PrintedLevelsAreCanonical(fields: seq<Tlv>, xs: seq<Tlv>)
    requires xs != []
    requires |TbsTlv(fields, xs).content| < Limit()
    ensures LevelsCanonical(Encode(TbsTlv(fields, xs)))
  {
    hide Encode, Canonical, Children, Single, EncodeAll, Limit, Fits;
    var tbs := TbsTlv(fields, xs);
    FitsBelow(tbs);
    SingleOfEncode(tbs);
    EnclosedSizes(fields, xs);
    var list := Tlv(0x30, EncodeAll(xs));
    var field := Tlv(0xA3, Encode(list));
    ContentsAreShorter(fields + [field]);
    RoundTrip(fields + [field]);
    PrintIsCanonical(fields + [field]);
    FitsBelow(list);
    SingleOfEncode(list);
    ContentsAreShorter(xs);
    PrintIsCanonical(xs);
  }

  /** No field but the one around the extensions is tagged [3] in section 4.1 of RFC 5280. */
  predicate NoExtensionsTag(fields: seq<Tlv>) {
    forall i :: 0 <= i < |fields| ==> fields[i].tag != 0xA3
  }

  lemma ExtensionsFieldIsLast(fields: seq<Tlv>, xs: seq<Tlv>)
    requires xs == [] ==> NoExtensionsTag(fields)
    ensures var all := fields + ExtensionsField(xs);
            xs == [] <==> all == [] || all[|all| - 1].tag != 0xA3
  {
  }

  lemma TbsTlvIsInjective(fields: seq<Tlv>, xs: seq<Tlv>, fields': seq<Tlv>, xs': seq<Tlv>)
    requires xs == [] ==> NoExtensionsTag(fields)
    requires xs' == [] ==> NoExtensionsTag(fields')
    requires |TbsTlv(fields, xs).content| < Limit()
    requires TbsTlv(fields, xs) == TbsTlv(fields', xs')
    ensures fields == fields' && xs == xs'
  {
    hide Encode, EncodeAll, Limit, DecodeTbs;
    var all, all' := fields + ExtensionsField(xs), fields' + ExtensionsField(xs');
    ContentsAreShorter(all);
    ContentsAreShorter(all');
    EncodeAllIsInjective(all, all');
    ExtensionsFieldIsLast(fields, xs);
    ExtensionsFieldIsLast(fields', xs');
    if xs == [] {
      assert all == fields && all' == fields';
    } else {
      DecodeEncodedTbs(fields, xs);
      DecodeEncodedTbs(fields', xs');
    }
  }
}
