/**
  * The saving table of phase3/compressibility.py: three compressors, the best of them, and the split
  * of the saving into a part inside the certificates and a part across them. The compressors are
  * arbitrary functions from octets to a size.
  */
module Compression {
  import opened Wrappers
  import opened Bytes
  import opened Sequences
  import opened Pem

  type Compressor = seq<Byte> -> nat

  datatype Compressors = Compressors(zlib: Compressor, brotli: Compressor, zstd: Compressor)

  datatype Algorithm = Zlib | Brotli | Zstd

  datatype Sizes = Sizes(zlib: nat, brotli: nat, zstd: nat)
  {
    function Of(a: Algorithm): nat {
      match a
      case Zlib => zlib
      case Brotli => brotli
      case Zstd => zstd
    }
  }

  function CompressAll(payload: seq<Byte>, cs: Compressors): Sizes {
    Sizes(cs.zlib(payload), cs.brotli(payload), cs.zstd(payload))
  }

  /** The smallest size any of the compressors reaches. */
  function BestSize(payload: seq<Byte>, cs: Compressors): nat {
    var s := CompressAll(payload, cs);
    Min(s.zlib, Min(s.brotli, s.zstd))
  }

  /** The algorithm of the smallest size; the first one on a tie. */
  function BestAlgorithm(s: Sizes): Algorithm {
    if s.zlib <= s.brotli && s.zlib <= s.zstd then Zlib
    else if s.brotli <= s.zstd then Brotli
    else Zstd
  }

  /** The named algorithm has the best size, and every earlier one is strictly worse. */
  lemma BestAlgorithmIsFirstBest(payload: seq<Byte>, cs: Compressors)
    ensures var s := CompressAll(payload, cs);
            var best := BestAlgorithm(s);
            && s.Of(best) == BestSize(payload, cs)
            && (forall a: Algorithm :: BestSize(payload, cs) <= s.Of(a))
            && (best == Brotli ==> s.zlib > s.brotli)
            && (best == Zstd ==> s.zlib > s.zstd && s.brotli > s.zstd)
  {
  }

  function Alone(certs: seq<seq<Byte>>, cs: Compressors): seq<int> {
    seq(|certs|, i requires 0 <= i < |certs| => |certs[i]| - BestSize(certs[i], cs))
  }

  function SizesOf(certs: seq<seq<Byte>>): seq<int> {
    seq(|certs|, i requires 0 <= i < |certs| => |certs[i]|)
  }

  datatype Decomposition = Decomposition(perCert: seq<int>, within: int, across: int)

  function Decompose(certs: seq<seq<Byte>>, cs: Compressors): Decomposition {
    var alone := Alone(certs, cs);
    var together := Sum(SizesOf(certs)) - BestSize(Concat(certs), cs);
    Decomposition(alone, Sum(alone), together - Sum(alone))
  }

  datatype RowError = Payload(error: PayloadError) | ZeroDivision

  datatype Row = Row(
    certSizes: seq<int>,
    raw: nat,
    sizes: Sizes,
    bestAlgorithm: Algorithm,
    best: nat,
    saved: int,
    decomposition: Decomposition)

  /**
    * The row `main` builds for one chain file. The file is scanned twice: for the list of
    * certificates and, through der_payload, for the payload. An empty payload divides by zero in the
    * percentage.
    */
  function BuildRow(text: string, cs: Compressors): Result<Row, RowError> {
    match DecodeBlocks(FindAll(text))
    case None => Err(Payload(BadBase64))
    case Some(certs) =>
      match DerPayload(text)
      case Err(e) => Err(Payload(e))
      case Ok(payload) =>
        var comp := CompressAll(payload, cs);
        var best := BestAlgorithm(comp);
        if payload == [] then Err(ZeroDivision)
        else Ok(Row(SizesOf(certs), |payload|, comp, best, comp.Of(best), |payload| - comp.Of(best),
                    Decompose(certs, cs)))
  }

  lemma {:induction false} SizesAddUp(certs: seq<seq<Byte>>)
    ensures Sum(SizesOf(certs)) == |Concat(certs)|
  {
    if certs != [] {
      SizesAddUp(certs[1..]);
      assert SizesOf(certs)[1..] == SizesOf(certs[1..]);
    }
  }

  /**
    * For every file and every compressors: the two parts of the saving add up to the saving of the
    * row, the sizes add up to the raw payload, and the part inside is the sum over the certificates.
    */
  lemma SavingIsConserved(text: string, cs: Compressors)
    requires BuildRow(text, cs).Ok?
    ensures var r := BuildRow(text, cs).value;
            && r.decomposition.within + r.decomposition.across == r.saved
            && Sum(r.certSizes) == r.raw
            && r.saved == r.raw - r.best
            && (forall a: Algorithm :: r.best <= r.sizes.Of(a))
  {
    hide FindAll;
    var certs := DecodeBlocks(FindAll(text)).value;
    SizesAddUp(certs);
    BestAlgorithmIsFirstBest(Concat(certs), cs);
  }

  /** A chain of one certificate saves nothing across certificates. */
  lemma OneCertificateSavesNothingAcross(text: string, cs: Compressors)
    requires BuildRow(text, cs).Ok? && |BuildRow(text, cs).value.certSizes| == 1
    ensures BuildRow(text, cs).value.decomposition.across == 0
    ensures BuildRow(text, cs).value.decomposition.perCert == [BuildRow(text, cs).value.saved]
  {
    hide FindAll;
    SavingIsConserved(text, cs);
    var certs := DecodeBlocks(FindAll(text)).value;
    assert certs == [certs[0]];
    assert Concat(certs[1..]) == [] && certs[0] + [] == certs[0];
    assert Concat(certs) == certs[0];
    var alone := Alone(certs, cs);
    assert alone == [alone[0]] && Sum(alone[1..]) == 0;
  }

  /** The row of a printed leaf and intermediate: its certificates are theirs, in wire order. */
  lemma RowOfPrintedChain(leaf: seq<Block>, leafTrailer: string, issuer: seq<Block>, issuerTrailer: string,
                          cs: Compressors)
    requires IsFile(leaf, leafTrailer) && IsFile(issuer, issuerTrailer)
    ensures var r := BuildRow(PrintFile(leaf, leafTrailer) + PrintFile(issuer, issuerTrailer), cs);
            && (leaf + issuer == [] ==> r == Err(Payload(NoCertificates)))
            && (leaf + issuer != [] && Concat(Ders(leaf + issuer)) == [] ==> r == Err(ZeroDivision))
            && (Concat(Ders(leaf + issuer)) != [] ==>
                  && r.Ok?
                  && r.value.certSizes == SizesOf(Ders(leaf + issuer))
                  && r.value.decomposition == Decompose(Ders(leaf + issuer), cs))
  {
    hide FindAll, IsBlock, Decompose, CompressAll;
    var text := PrintFile(leaf, leafTrailer) + PrintFile(issuer, issuerTrailer);
    if leaf + issuer == [] {
      ScanFile(leaf, leafTrailer, PrintFile(issuer, issuerTrailer));
      ScanFile(issuer, issuerTrailer, "");
      assert PrintFile(issuer, issuerTrailer) + "" == PrintFile(issuer, issuerTrailer);
      NothingToFind();
      assert |leaf| == 0 && |issuer| == 0;
      assert FindAll(text) == [];
      assert Ders([]) == [];
    } else {
      PayloadRoundTrip(leaf, leafTrailer, issuer, issuerTrailer);
    }
  }

  /** The least of the three sizes of some octets. */
  ghost predicate IsLeast(n: int, payload: seq<Byte>, cs: Compressors) {
    && n <= cs.zlib(payload) && n <= cs.brotli(payload) && n <= cs.zstd(payload)
    && (n == cs.zlib(payload) || n == cs.brotli(payload) || n == cs.zstd(payload))
  }

  /** The columns of a row are the compressors' sizes of the payload, each under its own name. */
  ghost predicate ColumnsAreOf(r: Row, payload: seq<Byte>, cs: Compressors) {
    && r.raw == |payload|
    && r.sizes.zlib == cs.zlib(payload) && r.sizes.brotli == cs.brotli(payload) && r.sizes.zstd == cs.zstd(payload)
    && IsLeast(r.best, payload, cs)
    && r.saved == |payload| - r.best
    && (r.bestAlgorithm == Zlib <==> r.best == cs.zlib(payload))
    && (r.bestAlgorithm == Brotli <==> r.best == cs.brotli(payload) && r.best < cs.zlib(payload))
    && (r.bestAlgorithm == Zstd <==> r.best < cs.zlib(payload) && r.best < cs.brotli(payload))
  }

  /** The decomposition of a row: every certificate alone, their sum, and what is left of the saving. */
  ghost predicate SplitsSaving(r: Row, certs: seq<seq<Byte>>, cs: Compressors) {
    && |r.certSizes| == |certs| == |r.decomposition.perCert|
    && (forall i :: 0 <= i < |certs| ==>
          && r.certSizes[i] == |certs[i]|
          && IsLeast(|certs[i]| - r.decomposition.perCert[i], certs[i], cs))
    && r.decomposition.within == Sum(r.decomposition.perCert)
    && r.decomposition.across == r.saved - Sum(r.decomposition.perCert)
  }

  lemma BestSizeIsLeast(payload: seq<Byte>, cs: Compressors)
    ensures IsLeast(BestSize(payload, cs), payload, cs)
  {
  }

  /** Every row is about the payload that der_payload reads and the certificates that were found. */
  lemma RowIsAboutPayload(text: string, cs: Compressors)
    requires BuildRow(text, cs).Ok?
    ensures DerPayload(text).Ok? && DecodeBlocks(FindAll(text)).Some?
    ensures ColumnsAreOf(BuildRow(text, cs).value, DerPayload(text).value, cs)
    ensures SplitsSaving(BuildRow(text, cs).value, DecodeBlocks(FindAll(text)).value, cs)
  {
    hide FindAll, BestSize;
    SavingIsConserved(text, cs);
    var certs := DecodeBlocks(FindAll(text)).value;
    forall i | 0 <= i < |certs| ensures IsLeast(BestSize(certs[i], cs), certs[i], cs) {
      BestSizeIsLeast(certs[i], cs);
    }
  }

  /** The row of one leaf and one intermediate: the compressors see the leaf's octets first. */
  lemma RowOfTwo(leaf: Block, leafTrailer: string, issuer: Block, issuerTrailer: string, cs: Compressors)
    requires IsFile([leaf], leafTrailer) && IsFile([issuer], issuerTrailer)
    requires leaf.der + issuer.der != []
    ensures var row := BuildRow(PrintFile([leaf], leafTrailer) + PrintFile([issuer], issuerTrailer), cs);
            && row.Ok?
            && ColumnsAreOf(row.value, leaf.der + issuer.der, cs)
            && SplitsSaving(row.value, [leaf.der, issuer.der], cs)
  {
    hide FindAll, IsBlock, PrintFile, DerPayload, CompressAll, Decompose, SplitsSaving, ColumnsAreOf;
    var text := PrintFile([leaf], leafTrailer) + PrintFile([issuer], issuerTrailer);
    PayloadOfTwo(leaf, leafTrailer, issuer, issuerTrailer);
    PayloadRoundTrip([leaf], leafTrailer, [issuer], issuerTrailer);
    assert Ders([leaf] + [issuer]) == [leaf.der, issuer.der];
    assert BuildRow(text, cs).Ok?;
    RowIsAboutPayload(text, cs);
  }

  /** The exceptions of a row: those of the payload, and the division by an empty one. */
  lemma RowExceptions(text: string, cs: Compressors)
    ensures BuildRow(text, cs) == Err(Payload(BadBase64)) <==> DerPayload(text) == Err(BadBase64)
    ensures BuildRow(text, cs) == Err(Payload(NoCertificates)) <==> DerPayload(text) == Err(NoCertificates)
    ensures BuildRow(text, cs) == Err(ZeroDivision) <==> DerPayload(text) == Ok([])
  {
    hide FindAll, Decompose, CompressAll, DecodeBlocks;
    assert DecodeBlocks([]) == Some([]) by { NoBlocks(); }
  }

  lemma NoBlocks()
    ensures DecodeBlocks([]) == Some([])
  {
  }
}
