# Verification model of pqc-cert-matrix

A Dafny model of the parts of pqc-cert-matrix that every published number and verdict rests on:
reading and writing DER, the two-build catalyst certificate, the tampering control, redaction of
runner output, PEM extraction, compression savings, capture attribution, the window report and the
size model of the calculator. `dafny verify dfyconfig.toml` checks it.

Loops, in-place updates and object state of the scripts are methods with loops, arrays and a class;
each is proved against a function or a predicate, and the lemmas are about those. What an operation
promises to whoever uses it is stated end to end as well: with literal names, octets and numbers, and
without the functions that compute it.

## Modules

| file | models |
|---|---|
| `Wrappers.dfy`, `Sequences.dfy` | shared result types and sequence facts |
| `Bytes.dfy` | octets, clamped slices, `&`, `\|`, `^` on integers, big-endian numbers, `bit_length` |
| `Der.dfy` | `der_len` and `der_children` as printer and parser of tag-length-value octets |
| `Certificates.dfy` | `measure` |
| `NegativeControl.dfy` | the bit flip at offset len - 50 |
| `SizeModel.dfy` | certificate = structural + SPKI + signature, and where that is not exact |
| `Catalyst.dfy`, `CatalystBuild.dfy` | TBSCertificate encoding, stripping the last extension, the two builds |
| `Redaction.dfy` | `redact`, `redact_tree` |
| `Json.dfy`, `RunnerPipeline.dfy`, `RootCharacters.dfy`, `Emit.dfy`, `OutputText.dfy`, `DetailCut.dfy` | JSON text, the emitter, redact-then-parse, the detail read from an output file and its cut |
| `Base64.dfy`, `Pem.dfy`, `Compression.dfy` | PEM scan, base64, saving decomposition |
| `PythonText.dfy`, `TsharkRows.dfy` | text operations, the row parser |
| `Attribution.dfy`, `RowOutcomes.dfy`, `Conservation.dfy`, `FirstFlight.dfy`, `CaptureText.dfy` | `analyze`, what one row means to it, what it conserves, the first flight on TLS 1.3 runs, and all of it from printed text |
| `Report.dfy`, `Calculator.dfy` | the window report; the rounded structural overhead |

## Findings

Where the code and what is said about it differ, the model follows the code and the exact condition
is proved.

- `der_len` prints a length that reads back exactly below 256^127 (`Der.DerLenReadsBackBelowLimit`).
  From there `0x80 | len(b)` no longer announces the octet count. Between 256^126 and 256^127 it
  round-trips with the first octet 0xFF that section 8.1.3.5 of X.690 reserves.
- The tampering control says its flip is inside the signature. It is exactly when
  `HitsSignature` holds: from 50 octets of certificate on, a signature content of at least 51 octets;
  below 50 the negative subscript wraps around (`NegativeControl.TamperingClaim`). Certificates with a
  shorter signature are missed (`NegativeControl.ShortSignatureIsMissed`), every self-signed one on
  secp160r1 for instance (`NegativeControl.MissedSignatureExample`).
- Redaction removes the root from every text exactly for roots that the placeholder `<repo>` cannot
  rebuild (`Redaction.RemovesRootFromEveryText`); for exactly those it is idempotent
  (`Redaction.RedactingTwice`). Every root without `<` is one.
- Redacting printed JSON before parsing it is redacting the strings, for every report the emitter can
  print, exactly for roots whose characters JSON printing leaves unescaped
  (`RootCharacters.WorksExactlyForPlainRoots`): for any other root, a skipped test whose reason is the
  root and one more letter comes out with a different reason. A root with a character outside
  printable ASCII, other than a line feed, is not redacted at all. Keys are redacted as well, so a
  report comes out with only its values redacted exactly when no test name contains the root
  (`Emit.EmittedIsCollectedRedacted`).
- The emitter cuts a detail at 400 characters before the harness redacts it. What is collected is the
  front of the redacted detail exactly when the cut does not run through a root; otherwise the front of
  that root ends it (`DetailCut.CollectedDetailIsFront`). Every proper front of the root that fits can
  be collected that way (`DetailCut.FrontOfRootIsCollected`).
- The first flight is computed by leaving out NewSessionTicket by name, on the ground that it arrives
  after the client's Finished. Section 4.6.1 of RFC 8446 lets a server send it earlier. On a run whose
  server sends only tickets once connected, the name-based and the positional totals agree exactly
  when the server sends no ticket while the client's Finished is due; on a run whose server sends none
  then, exactly when it sends only tickets once connected (`FirstFlight.TotalsAgreeExactly`). With
  both, the difference is the other late messages minus the early tickets (`FirstFlight.FlightsDiffer`).
  Other early messages, such as KeyUpdate, do no harm (`FirstFlight.EarlyKeyUpdateExample`).
- The size model is exact exactly when three length headers keep the sum of their widths
  (`SizeModel.PredictionIsExact`). TBS lengths within 256..65535 alone do not make the leaf surcharge
  constant, because the outer Certificate header can widen for one algorithm only: between any two
  algorithms that weigh 128 octets apart, every ladder of names has a count at which the surcharge is
  one octet more (`SizeModel.TbsRangeIsNotEnough`). With the Certificate lengths in that range as well
  it is constant.

## Model

| member | source | states |
|---|---|---|
| `Bytes.OctetMasks` | gen/sizes.py:28-29 | for every octet, `& 0x80` is non-zero exactly from 128, `& 0x7F` removes 128, `\| 0x80` adds it |
| `Bytes.MinBytesIsLeast` | phase0/catalyst_build.py:50 | `(bit_length + 7) // 8` octets are the fewest that hold a number |
| `Bytes.ToThenFromBigEndian` | gen/sizes.py:30 | reading the big-endian octets of a number gives the number |
| `Bytes.FromThenToBigEndian` | phase0/catalyst_build.py:50 | and writing what was read gives the octets, for any width |
| `Bytes.FirstOctetIsHighest` | gen/sizes.py:30 | the first octet is the highest digit |
| `Der.DerChildren` | gen/sizes.py:21-33 | the loop yields the specified elements, or ends in IndexError, on every octet string; it terminates |
| `Der.ElementsTileTheBuffer` | gen/sizes.py:23-33 | headers of two or more octets and contents follow each other without gap or overlap, on every octet string |
| `Der.ParseOne` | gen/sizes.py:25-33 | an element with length octets of any width is peeled off whatever follows it |
| `Der.DerLenReadsBackBelowLimit` | phase0/catalyst_build.py:47-51 | a printed length reads back exactly below 256^127 |
| `Der.DerLenAboveLimit` | phase0/catalyst_build.py:47-51 | from 256^127 on the first octet is the octet count without the high bit's 128, and the call raises exactly from 256^255 |
| `Der.ReservedFirstOctet` | phase0/catalyst_build.py:51 | the reserved first octet 0xFF is avoided exactly below 256^126 |
| `Der.DerLenIsTheMinimalForm` | phase0/catalyst_build.py:47-51 | the print is the one minimal form: short below 128, no leading zero octet |
| `Der.DerLenIsShortest` | phase0/catalyst_build.py:47-51 | no length octets with the same meaning are shorter |
| `Der.DerLenIsPrefixFree` | phase0/catalyst_build.py:47-51 | no print is a prefix of another length's, so printing is injective |
| `Der.ParsePrinted` | gen/sizes.py:21-33 | parsing printed elements followed by anything gives the elements, then the parse of the rest |
| `Der.RoundTrip` | gen/sizes.py:21-33 | der_children of any printed list of elements is that list |
| `Der.RoundTripNeedsLimit` | gen/sizes.py:21-33 | one element round-trips exactly when its content is below 256^127 octets |
| `Der.EncodeAllIsInjective` | phase0/catalyst_build.py:47-51 | two lists of elements with the same print are the same |
| `Der.ReencodingIdentifiesCanonical` | gen/sizes.py:24-33 | re-encoding the parse reproduces a buffer exactly when it is canonical DER |
| `Certificates.Measure` | gen/sizes.py:55-76 | when each of the failures happens; else total, raw signature length and remainder of the three elements |
| `Certificates.SplitsAnyHeaderWidth` | gen/sizes.py:57-66 | an outer header of any width is skipped to the same body der_children finds, and three children are seen |
| `Certificates.CertificateRoundTrip` | gen/sizes.py:64-67 | splitting a printed certificate gives back its three elements |
| `Certificates.BodyAgreesWithFirstChild` | gen/sizes.py:59-64 | on every buffer both parsers start the body at one offset, and agree on it exactly when the announced length reaches the end |
| `Certificates.SignatureIsTheTail` | gen/sizes.py:64-67 | every buffer that splits ends with its signature content |
| `NegativeControl.FlipBit` | composite/negative-control.sh:23-25 | in place, the lowest bit of the fiftieth octet from the end is flipped and nothing else; from 25 to 49 octets the subscript wraps to 2 * len - 50, below 25 it raises |
| `NegativeControl.TamperingTwice` | composite/negative-control.sh:23-25 | tampering twice gives the certificate back |
| `NegativeControl.ParsingIsLocal` | gen/sizes.py:21-33 | changing octets of the last content changes that content alone in the parse |
| `NegativeControl.SplittingIsLocal` | gen/sizes.py:55-67 | the same for the three elements of a certificate |
| `NegativeControl.TamperingClaim` | composite/negative-control.sh:22-30 | same tags and lengths, first two elements equal, one bit flipped in the signature past its first octet: exactly when the position hits the signature |
| `NegativeControl.ShortSignatureIsMissed` | composite/negative-control.sh:24 | a printed certificate of 50 octets or more with a signature content of at most 50 splits, and fails the claim |
| `NegativeControl.MissedSignatureExample` | composite/negative-control.sh:24 | for any point, r and s, a self-signed certificate on secp160r1 built field by field is one |
| `NegativeControl.FiftyOneOctets` | composite/negative-control.sh:24 | from 50 octets on that is a signature content of at least 51; below, more of them than are missing to 50 |
| `SizeModel.RemainderFormula` | gen/sizes.py:68-76 | "other" is a fixed part plus three header widths, for every certificate |
| `SizeModel.RemainderMovesByHeaderWidths` | tools/build-calculator-data.py:8-15 | with key and signature exchanged, "other" moves by the header widths alone |
| `SizeModel.PredictionIsExact` | tools/build-calculator-data.py:8-15 | the compositional price is exact exactly when the widths have the same sum |
| `SizeModel.SurchargeMovesByHeaderWidths` | gen/sizes.py:117-122 | the leaf surcharge at two SAN counts differs by header widths only |
| `SizeModel.SurchargeIsConstant` | gen/sizes.py:117-122 | with TBS lengths in 256..65535 it is equal exactly when the outer headers balance |
| `SizeModel.SurchargeInTwoOctetRange` | gen/sizes.py:117-122 | with the Certificate lengths in that range too, it is equal |
| `SizeModel.TbsRangeIsNotEnough` | gen/sizes.py:117-122 | between any two bases at least 128 octets apart (key, signature and fields, the signature itself at least 128), on every ladder of at least 32,768 dNSName entries of up to 100 octets among any other extensions, some SAN count keeps all TBS lengths in range and makes the surcharge one octet more |
| `Catalyst.StripEncodedTbs` | phase0/catalyst_build.py:10-14 | stripping a TBSCertificate with extensions gives exactly the print without the last one |
| `Catalyst.StrippingUndoesAppending` | phase0/catalyst_build.py:10-14 | on any octets: stripping succeeds on canonical levels exactly when the octets print the stripped TBSCertificate with that extension appended |
| `CatalystBuild.Mint` | phase0/catalyst_build.py:68-128 | for any two signing functions, a verifier recovers from the certificate the covered octets and the alternative signature over them; a reader decodes the request's fields and nine extensions, each value under its own identifier, key usage alone critical, id-ml-dsa-65 in literal octets; the outer signature is over the whole TBSCertificate |
| `Catalyst.TbsOctets` | phase0/catalyst_build.py:68-88 | the octets of a TBSCertificate around its fields and extensions, header by header |
| `Catalyst.ExtensionOctets` | phase0/catalyst_build.py:77-87 | the octets of an extension, with the criticality flag only when it is set |
| `CatalystBuild.ReadPrintedTbs` | phase0/catalyst_build.py:124-130 | reading a printed certificate gives back its fields and extensions |
| `CatalystBuild.TbsPrintIsInjective` | phase0/catalyst_build.py:68-88 | two TBSCertificates with the same octets have the same fields and the same extensions; one without extensions must carry no field tagged [3] |
| `CatalystBuild.AltSignatureReadsBack` | phase0/catalyst_build.py:121-122 | the hand-made BIT STRING is the encoded element and reads back as the signature |
| `CatalystBuild.BuildsDifferInLastExtension` | phase0/catalyst_build.py:68-88 | the second build is the first with one more extension, no extension repeats, and the three alternative-signature extensions are non-critical |
| `CatalystBuild.IssuerAkiReadsBack` | phase0/catalyst_build.py:54-65 | the authority key identifier reads back as the issuer's own key identifier when it has one, else the derived one |
| `CatalystBuild.RecoversCoveredOctets` | phase0/catalyst_build.py:110-126 | whatever fields and extensions precede it, the last altSignatureValue gives back the covered octets |
| `CatalystBuild.RecoveryNeedsTheLastExtension` | phase0/catalyst_build.py:10-14 | recovery succeeds exactly when the last extension is a well-formed altSignatureValue |
| `Redaction.ReplacesLeftmost` | runners/harness.py:68 | the first occurrence becomes `<repo>`, the text before it is kept, the search continued behind it |
| `Redaction.RemovesRootFromEveryText` | runners/harness.py:59-68 | no redacted text contains the root, exactly when the placeholder cannot rebuild it |
| `Redaction.NoAngleBracket` | runners/harness.py:59-68 | a root without `<` cannot be rebuilt |
| `Redaction.KeepsExactlyTextsWithoutRoot` | runners/harness.py:68 | for every root, a text is unchanged exactly when it does not contain it |
| `Redaction.RedactingTwice` | runners/harness.py:68 | redaction is idempotent on every text, exactly when the placeholder cannot rebuild the root |
| `Redaction.EvidenceTree.RedactTree` | runners/harness.py:71-82 | every readable file is redacted, directories and unreadable files stay, and exactly the files that contain the root are written |
| `Redaction.EvidenceTree.RedactTreeTwice` | runners/harness.py:71-82 | a second pass writes exactly the files whose redacted text still contains the root; none when the placeholder cannot rebuild it, and then no file contains it |
| `Json.StringRoundTrip` | runners/lib/emit.py:34 | every printed string literal is read back, surrogate pairs included |
| `Json.ShortEscapes` | runners/lib/emit.py:34 | the short escapes, and the characters printed as they are |
| `Json.HexEscapes` | runners/lib/emit.py:34 | every other character as four lower-case hexadecimal digits, above U+FFFF as a surrogate pair |
| `Json.ValueRoundTrip` | runners/lib/emit.py:34 | so is every printed value, whatever follows it, except that nothing may continue a bare number |
| `Json.LoadsPrinted` | runners/harness.py:129 | parsing a printed object gives it back, repeated keys collapsed |
| `RunnerPipeline.RedactEscaped` | runners/harness.py:129 | for a root that is printed as it is, redaction commutes with string escaping |
| `RunnerPipeline.RedactPrinted` | runners/harness.py:129 | and with printing any value |
| `RunnerPipeline.CollectsRedacted` | runners/harness.py:129 | parsing the redacted text gives the object with every string and key redacted |
| `RunnerPipeline.CollectsRedactedValues` | runners/harness.py:129 | for a root that is printed as it is: the object with its values redacted exactly when no key contains the root, and nothing collected contains a root that the placeholder cannot rebuild |
| `RootCharacters.UnprintableRootIsNeverRedacted` | runners/harness.py:129 | a root with a character outside printable ASCII, other than a line feed, leaves every collected object unredacted |
| `RootCharacters.SpecialRootFails` | runners/harness.py:129 | for any other root, a report with one skipped test is collected with a reason that is not the redacted one |
| `RootCharacters.WorksExactlyForPlainRoots` | runners/harness.py:129 | whatever files the emitter reads, the step works for every report it prints exactly when each root character is printed as it is |
| `RootCharacters.TextOfSkipReport` | runners/lib/emit.py:14-34 | the printed line of one skipped test, letter by letter |
| `Emit.EmitMain` | runners/lib/emit.py:27-34 | the stride-3 loop builds the object, or raises on a missing or non-numeric argument |
| `Emit.EmitExceptions` | runners/lib/emit.py:22-33 | a code that is no number raises ValueError; an incomplete last group IndexError, unless an earlier code was bad |
| `Emit.TestsAreCells` | runners/lib/emit.py:14-33 | the keys are exactly the names given, every value has one of three statuses and a detail of at most 400 characters unless skipped |
| `Emit.LastGroupWins` | runners/lib/emit.py:31-33 | the entry of a name is the cell of the last group of three with that name |
| `Emit.EmittedIsCollectedRedacted` | runners/harness.py:129-131 | for a root that is printed as it is, whatever is emitted is collected with exactly its values redacted, if and only if no test name contains the root |
| `Emit.HarnessReadsOutcome` | runners/harness.py:129-135 | for the three names it prints, whatever the other names are, the harness reads the status of the return code of the last group with that name, and its cut detail redacted |
| `Emit.HarnessReadsCell` | runners/harness.py:129-135 | the same for every name that redaction keeps and turns no other name into |
| `OutputText.HarnessReadsOutput` | runners/lib/emit.py:14-24 | from arguments and file text to what the harness reads: client, version, status "ok" exactly for code zero, and the first 400 characters, redacted, of the last non-blank line, for a failure of the last two with a bar between spaces in between, nothing without one; a skip keeps its whole reason |
| `OutputText.OuterStripIsIdle` | runners/lib/emit.py:18-21 | stripping the whole output changes none of the lines kept |
| `DetailCut.CutKeepsFront` | runners/harness.py:68 | redacting the front of a text gives the front of the redacted text exactly when no replaced root is cut |
| `DetailCut.CutsExactlyStraddlingRoots` | runners/harness.py:68 | for a root no end of which is a start of it, that is when no occurrence lies around the cut |
| `DetailCut.CollectedDetailIsFront` | runners/lib/emit.py:19-24 | the collected detail is the front of the redacted full detail exactly when the cut at 400 does not run through a root; otherwise it ends with what is left of that root |
| `DetailCut.FrontOfRootIsCollected` | runners/lib/emit.py:24 | for every proper front of the root of up to 400 characters, a report whose collected detail ends with it |
| `Base64.DecodingSkipsOthers` | phase3/compressibility.py:51 | characters outside the alphabet change nothing |
| `Base64.EncodeThenDecode` | phase3/compressibility.py:51 | decoding the base64 of any octets gives them back |
| `Base64.EncodeThenMore` | phase3/compressibility.py:51 | encoded octets are decoded in front of any text; complete padding ends the decoding |
| `Base64.WholeGroupsOnly` | phase3/compressibility.py:51 | without padding exactly whole groups of four are decoded |
| `Base64.ThreeOctets` | phase3/compressibility.py:51 | three octets are one number, printed as its four digits in base 64 |
| `Base64.LastOctet` | phase3/compressibility.py:51 | a single last octet is filled up with zero bits and two padding characters |
| `Base64.LastTwoOctets` | phase3/compressibility.py:51 | two last octets with zero bits and one padding character |
| `Base64.AlphabetOfCharacters` | phase3/compressibility.py:51 | the digits are those of RFC 4648 |
| `Pem.StrictBlockIsBlock` | phase3/compressibility.py:41-43 | 64-column printing of any octets is one of the block layouts covered |
| `Pem.LoneHyphens` | phase3/compressibility.py:41-43 | text whose hyphens stand alone may surround the blocks |
| `Pem.ScanFile` | phase3/compressibility.py:41-48 | scanning a file of blocks, with any text around them that starts no marker, followed by any text finds its blocks, then what the text holds |
| `Pem.ScanOfConcatenation` | runners/harness.py:50-52 | scanning a concatenation is scanning each part and appending |
| `Pem.PayloadRoundTrip` | phase3/compressibility.py:46-51 | der_payload of leaf file + intermediate file is the certificates' octets in order |
| `Pem.PayloadOfTwo` | phase3/compressibility.py:46-51 | the payload of one leaf and one intermediate is the leaf's octets followed by the intermediate's |
| `Pem.PayloadOfConcatenation` | phase3/compressibility.py:46-51 | the payload of two files is that of the first followed by that of the second, and starts with the first certificate |
| `Pem.TextOfStrictFile` | phase3/compressibility.py:41-43 | the literal markers around wrapped base64 are such a file |
| `Pem.PayloadExceptions` | phase3/compressibility.py:48-51 | no certificate, or one that base64 refuses |
| `Pem.EmptyBlockIsNone` | phase3/compressibility.py:42 | markers with nothing between them are no block |
| `Compression.BestAlgorithmIsFirstBest` | phase3/compressibility.py:137-145 | the named algorithm has the best size and every earlier one is strictly worse |
| `Compression.SavingIsConserved` | phase3/compressibility.py:134-149 | within + across is the reported saving, for every file and any compressors |
| `Compression.OneCertificateSavesNothingAcross` | phase3/compressibility.py:84-90 | a chain of one certificate saves nothing across |
| `Compression.RowOfPrintedChain` | phase3/compressibility.py:127-149 | the row of a printed chain is about exactly its certificates; no certificate and an empty payload raise |
| `Compression.RowIsAboutPayload` | phase3/compressibility.py:58-149 | every row: each column is its own compressor's size of the payload, the best is the least and named first, and the parts are those of the single certificates |
| `Compression.RowOfTwo` | phase3/compressibility.py:127-149 | for one leaf and one intermediate the compressed octets are the leaf's followed by the intermediate's |
| `Compression.RowExceptions` | phase3/compressibility.py:133-147 | the exceptions of a row are those of the payload, and the division by an empty one |
| `PythonText.SplitOfJoin` | phase3/transport.py:78 | splitting a join gives back the parts |
| `PythonText.SplitPrintedLines` | phase3/transport.py:76 | splitlines gives back printed lines, empty ones included |
| `PythonText.LineBoundaries` | phase3/transport.py:76 | the line boundaries |
| `PythonText.StripOfPadded` | phase3/transport.py:77 | stripping removes exactly the white space around |
| `PythonText.IntOfDecimal` | phase3/transport.py:138-139 | int(str(n)) is n |
| `PythonText.IntOfSigned` | phase3/transport.py:138-139 | signs before a number |
| `PythonText.IntOfPadded` | phase3/transport.py:138-139 | white space around a number does not matter |
| `PythonText.UnderscoresInNumbers` | phase3/transport.py:138-139 | underscores stand between digits only |
| `PythonText.WhiteSpace` | phase3/transport.py:77 | the characters that stripping removes |
| `TsharkRows.TsharkFields` | phase3/transport.py:69-79 | the loop returns the rows of the specification |
| `TsharkRows.RowsRoundTrip` | phase3/transport.py:75-79 | printed rows come back unchanged and in order, except those without data |
| `TsharkRows.RowsComeBackExactlyWithData` | phase3/transport.py:75-79 | all rows come back exactly when each has a non-empty field |
| `Attribution.FileMessages` | phase3/transport.py:132-139 | the nested loops leave, per direction, exactly the names sent with the sum of their lengths |
| `RowOutcomes.MessagesOfRow` | phase3/transport.py:135-139 | the messages of a row, pair by pair, cut to the shorter list |
| `RowOutcomes.SegmentOfRow` | phase3/transport.py:146-149 | the segment of a row; no payload length counts zero |
| `RowOutcomes.RowExceptions` | phase3/transport.py:135-149 | fewer than three fields are an IndexError, a value that is no number a ValueError |
| `RowOutcomes.SenderOfField` | phase3/transport.py:136 | the server is the side with port text 14435, a row without a port counts for the client |
| `RowOutcomes.FirstFailingRow` | phase3/transport.py:132-139 | the exception of the first pass is that of its first failing row |
| `RowOutcomes.FirstFailingSegment` | phase3/transport.py:144-149 | the same for the second pass |
| `Attribution.FallbackIsUnknown` | phase3/transport.py:138 | a fallback name is no known name |
| `Attribution.CanonicalNamesAreDistinct` | phase3/transport.py:41-45 | two types printed in decimal are filed under two names |
| `Attribution.TallyConservesBytes` | phase3/transport.py:137-139 | the entries of a direction add up to all its lengths |
| `Attribution.FlightTotal` | phase3/transport.py:155 | the sum over the dictionary leaves out the ticket entry, in any order of entries |
| `Attribution.FlightLeavesOutTickets` | phase3/transport.py:151-155 | that is all server bytes minus those filed as tickets |
| `Attribution.CollectRecords` | phase3/transport.py:142-149 | record lists in capture order and TCP payload totals per direction, or the exception of the first failing row |
| `Attribution.Analyze` | phase3/transport.py:129-171 | the whole result, with the largest server record and the compression flag |
| `Conservation.RowOrderDoesNotMatter` | phase3/transport.py:132-139 | permuting rows leaves the dictionaries as they were |
| `Conservation.AnalysisIgnoresRowOrder` | phase3/transport.py:132-171 | permuting the rows of both passes changes nothing in the result, payload totals and largest record included, except the order within the record lists |
| `Conservation.RowSplittingDoesNotMatter` | phase3/transport.py:137-139 | so does spreading a row's messages over two rows |
| `Conservation.DictionariesHoldEveryByte` | phase3/transport.py:132-139 | both dictionaries together hold all printed lengths |
| `Conservation.EntryIsTypeTotal` | phase3/transport.py:138-139 | the entry of a type is the sum over exactly the messages of that type |
| `FirstFlight.FlightsDiffer` | phase3/transport.py:151-155 | on every capture the name-based and positional totals differ by late others minus early tickets |
| `FirstFlight.TotalsAgreeExactly` | phase3/transport.py:151-155 | on every run whose server messages are not empty: when only tickets follow the client's Finished, the totals agree exactly when no ticket is sent while it is due; when none is sent then, exactly when only tickets follow |
| `FirstFlight.EarlyKeyUpdateExample` | phase3/transport.py:151-155 | a legal run with a server KeyUpdate before the client's Finished on which the totals agree |
| `FirstFlight.ConnectedAfterFinished` | phase3/transport.py:151-153 | on every handshake run the connected phase starts exactly after the client's first Finished |
| `FirstFlight.LongRun` | phase3/transport.py:151-153 | the longest handshake is a run: retry, client authentication, compressed certificates, post-handshake messages |
| `FirstFlight.PatientFlight` | phase3/transport.py:151-155 | on every run whose server sends no ticket before the client's Finished and nothing else after it, the two totals are equal |
| `FirstFlight.EarlyTicketsAreMissed` | phase3/transport.py:151-155 | on runs with early tickets the name-based total misses exactly those |
| `FirstFlight.EarlyTicketExample` | phase3/transport.py:151-155 | a legal run on which the totals differ |
| `CaptureText.SenderIsByPort` | phase3/transport.py:136 | comparing the source port as text is comparing it with 14435 |
| `CaptureText.CaptureRoundTrip` | phase3/transport.py:69-149 | the printed passes over any capture are read back as its messages and segments, each under its side, type and length |
| `CaptureText.AnalyzeCapture` | phase3/transport.py:129-171 | analyze of any printed capture raises nothing; each dictionary holds the literal name of a type exactly when its side, the server being port 14435, sends it, with all its octets, other types as "type" and number; flight, payload totals and record lists are those of the packets, compression is a server's type 25; the flight is the positional one on every run whose server sends no early ticket and only tickets late, and with only tickets late exactly on those |
| `CaptureText.TallyHoldsTypes` | phase3/transport.py:41-45 | the nine types under their names, every other under "type" and its number |
| `CaptureText.TextOfPacket` | phase3/transport.py:69-79 | the printed text of one packet, separator by separator |
| `Report.SortByFlight` | phase3/report.py:36 | the rows end sorted, permuted, and stable |
| `Report.ListedAre` | phase3/report.py:34-35 | exactly the measurements without compression are listed, in the order of the file |
| `Report.SegmentsWithin` | phase3/report.py:86 | a segment count is within a window exactly up to window * MSS octets |
| `Report.VerdictByOctets` | phase3/report.py:87-88 | yes up to 13,600 octets, no above 14,600, borderline between |
| `Report.Summarize` | phase3/report.py:34-99 | the listed rows sorted, verdicts by octets, the first largest record, the fitting rows as those up to 14,600 octets, and when max or the last subscript raises |
| `Report.HeaviestFitting` | phase3/report.py:92-99 | the last fitting row is the heaviest that fits, and exactly the rows before its end are not "no" |
| `Calculator.RoundedIsNearest` | tools/build-calculator-data.py:83 | the rounded mean is nearest, ties to even |
| `Calculator.RoundingStaysBetween` | tools/build-calculator-data.py:83 | rounding stays between integer bounds of the fraction |
| `Calculator.MeasureStructural` | tools/build-calculator-data.py:77-83 | the exported mean is the rounded quotient of all totals without keys and signatures by the number of certificates, between the exported extremes, which are those of single certificates |

## Left out

- Signature schemes, key generation and the certificate library: signing functions are parameters, and the builder is taken to produce the structure of section 4.1 of RFC 5280.
- Sockets, processes, docker, tshark and file copying; files are parameters holding their text or octets.
- Text decoding and newline translation in `redact_tree`: a file is the text that reading it yields.
- The compressors and the floating-point percentages; ceilings and means are exact integers and fractions.
- list.sort is a library call in the source; `Report.SortByFlight` is an insertion sort with the same specification.
- The order of names in the message dictionaries, which are maps here.
- Json: NaN, Infinity, lone surrogate escapes and the recursion limit; numbers are kept as their tokens.
- PythonText: int() of decimal digits outside ASCII.
- Pem: a scan over text whose blocks are cut or nested; the scanner is modelled, but only files of whole blocks have a round trip.
- TLS Certificate message framing and fixed-overhead assertions of the calculator, its lookups over committed JSON, and the Markdown and matrix layout.
- The per-stack clients and the isolation server.
