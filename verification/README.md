# SOAP envelope layer of ews-rs, in Dafny

This project models the SOAP envelope layer of the `ews` crate
(`src/types/soap.rs`) and proves properties of it.

- **Encoding.** `Envelope::as_xml_document` writes an operation body as a
  complete document. The document is an XML declaration, a `soap:Envelope`
  start tag that binds the `soap` and `t` prefixes, the body serialized as
  `soap:Body`, and the envelope end tag.
- **Decoding.** `Envelope::from_xml_document` first runs a fault probe
  (`extract_maybe_fault`) over the raw response.
  - The probe finds the first `Envelope` element, the first `Body` inside it,
    and the first `Fault` inside that. Each search is by local name, at any
    depth.
  - A `Fault` is decoded into a `Fault` record, with an optional `detail`
    and, inside that, an optional `MessageXml` that may carry a
    `BackOffMilliseconds` retry hint.
  - Only when there is no fault is the document handed to the typed
    deserializer.
- **Span reader.** The probe runs on `TargetedReader`, a cursor over one
  byte buffer.
  - Locating an element gives a fresh reader over exactly that element's
    content, and moves the parent past the element's end tag.
  - Successive `maybe_get_next_subreader` calls therefore visit the direct
    children in order.

## How the model is built

- **Documents.** A document is the sequence of events a pull tokenizer
  reads from it (`XmlTokens.Token`): declaration, start tag, end tag, empty
  tag, text, miscellaneous markup, and `Malformed` where the tokenizer
  reports an error.
  - Every token keeps the raw text it was read from (`raw`), spelled as the
    document spells it: quoting, spacing and attribute order are kept.
  - A tree element (`XmlTree.Node`) likewise keeps the raw text of its own
    start and end tags.
  - The bytes of a stretch are the concatenation of its tokens' texts
    (`Raw`), so a byte span is a span of token indices.
- **Reader.** A reader is `Reader(lo, hi, pos)`: the stretch `[lo, hi)` of
  the shared document and a cursor (`TargetedReader`).
- **`read_to_end`** is `MatchingEnd`. It counts nesting of tags with the
  same qualified name, prefix included, and fails on a tokenizer error or at
  the end of the stretch.
- **Decoders.** `FaultDecoder` holds the probe and the decoders of a fault,
  a detail and a diagnostic payload, one function per source function.
- **Reference.** Each decoder is proved equal, on every well-nested
  document, to a tree-level reference.
  - A well-nested document is the flattening of a forest of
    `XmlTree.Node`s.
  - The reference (`FaultReference`) reads the tree: the first `Envelope`,
    `Body` and `Fault` in document order, and for each field the inner text
    of the LAST direct child with that field's local name.
  - `DecoderProofs.ExtractOfForest` states this equality for the whole
    probe and holds for every forest.
- **Library calls as parameters.** The body's serializer and the typed
  deserializer are library code outside this layer, so they are parameters
  of `AsXmlDocument` and `FromXmlDocument`, and either may fail.

## Model

| member | source | states |
|---|---|---|
| TargetedReader.FromBytes | src/types/soap.rs:216-221 | a reader over a document starts with nothing behind its cursor, and its text (what `to_string` reads) is the whole document |
| TargetedReader.MatchingEnd | src/types/soap.rs:260-261 | the end tag `read_to_end` stops at lies inside the stretch, after the start, and closes the same qualified name |
| TargetedReader.Open | src/types/soap.rs:260-270 | a sub-reader starts right after the start tag and ends at the matching end tag inside the parent's stretch, the first end tag with the same qualified name at which the depth of same-named elements opened since the start tag is back to zero (as `MatchingEnd` counts it); the parent resumes after that end tag; a missing end tag is an `Xml` error |
| TargetedReader.FindTag | src/types/soap.rs:223-239 | a located element has the requested local name, lies after the cursor, and its sub-reader and the parent's new position are as `Open` states; the only error is `Xml` |
| TargetedReader.FindTagFirst | src/types/soap.rs:223-239 | the located element is the first start tag with that local name after the cursor, with no tokenizer error before it |
| TargetedReader.FindTagNone | src/types/soap.rs:223-239 | "not found" holds exactly when no start tag with that local name and no tokenizer error is left in the stretch |
| TargetedReader.NextChild | src/types/soap.rs:241-258 | the next child opened is a start tag after the cursor, carries that tag's local name, and its span ends at the depth-matching end tag that `MatchingEnd` finds inside the parent's stretch |
| TargetedReader.NextChildFirst | src/types/soap.rs:241-258 | the child opened starts at the first start tag after the cursor; no tokenizer error comes before it |
| TargetedReader.NextChildNone | src/types/soap.rs:241-258 | no further child is reported exactly when no start tag and no tokenizer error is left in the stretch |
| TargetedReader.ChildListSpans | src/types/soap.rs:241-258 | the children seen by repeated `maybe_get_next_subreader` calls are start tags inside the stretch, in increasing order, without overlap |
| ReaderProofs.MatchingEndSkipsForest | src/types/soap.rs:261 | a balanced stretch of elements neither ends the search for the matching end tag nor changes its depth |
| ReaderProofs.MatchingEndOfElement | src/types/soap.rs:261 | in a well-nested document, the matching end tag of an element is its own end tag |
| ReaderProofs.OpenElement | src/types/soap.rs:260-270 | opening an element scopes the sub-reader to exactly the element's content and moves the parent past the element |
| ReaderProofs.SubreaderText | src/types/soap.rs:260-274 | `to_string` of an element's sub-reader is the element's inner text, without its own tags |
| ReaderProofs.FindInForest | src/types/soap.rs:223-239 | on a well-nested stretch, the search finds the tree's first element with the name, in document order at any depth, and scopes it to exactly its content; with no match the search runs on past the stretch |
| ReaderProofs.FindInCovered | src/types/soap.rs:223-239 | over a stretch that is exactly a forest, "not found" holds iff the tree has no element with the name |
| ReaderProofs.NextChildInForest | src/types/soap.rs:241-258 | on a stretch that is exactly a forest, the next child is the forest's first element scoped to its own content, with the rest of the forest after it; leaves before it are skipped; an empty forest has no child |
| ReaderProofs.ChildListOfForest | src/types/soap.rs:241-258 | on a well-nested stretch, repeated child reads visit exactly the forest's elements, in order, each scoped to its own content |
| FaultDecoder.RepeatedKeyIgnored | src/types/soap.rs:177-183 | an attribute whose key, prefix included, repeats an earlier one never decides whether a `Value` start tag is a hint, because the tokenizer's checked attribute iterator yields an error for it and an error counts as "not the hint" |
| FaultDecoder.BackOffScanNone | src/types/soap.rs:173-198 | with no `Value Name="BackOffMilliseconds"` start tag and no tokenizer error ahead, the scan reports no hint |
| FaultDecoder.BackOffScanFound | src/types/soap.rs:173-198 | a reported hint is the parsed text of some hint element ahead of the cursor, between its start tag and its matching end tag |
| FaultDecoder.ParseMessageXml | src/types/soap.rs:172-204 | the payload's content is the raw text of the whole span, whatever the scan finds; decoding fails exactly when the scan fails |
| FaultDecoder.ParseDetailChildren | src/types/soap.rs:142-170 | the raw content, once set, is never replaced; when it is set by an unknown child it is the whole detail span; only `Xml` errors arise |
| FaultDecoder.ParseDetail | src/types/soap.rs:142-170 | a decoded detail's content is absent or the text of the entire detail span |
| FaultDecoder.ParseFaultChildren | src/types/soap.rs:97-124 | a code or string already read is never lost; only `Xml` errors arise |
| FaultDecoder.FaultWithoutChildren | src/types/soap.rs:97-124 | a Fault with no child elements and no tokenizer error leaves every field as it was before the loop |
| FaultDecoder.ExtractMaybeFault | src/types/soap.rs:80-140 | the probe's errors are `Xml` or an unexpected response carrying the whole document; success implies the envelope search succeeded; a fault implies a `Fault` start tag in the document |
| DecoderProofs.BackOffInForest | src/types/soap.rs:173-198 | on a well-nested payload, the scan reports the first hint in document order whose text parses, skipping a hint whose text does not parse together with its content |
| DecoderProofs.BackOffAtCandidate | src/types/soap.rs:185-190 | at a hint start tag the scan stops with the parsed text, or resumes after the hint's end tag when the text does not parse |
| DecoderProofs.MessageXmlOfScoped | src/types/soap.rs:172-204 | on a well-nested payload, `parse_message_xml` yields the verbatim inner text and the tree's hint |
| DecoderProofs.DetailInForest | src/types/soap.rs:145-167 | on a well-nested detail, the child loop yields the last `ResponseCode`, `Message` and `MessageXml` children; the whole detail text is kept iff some other child element exists |
| DecoderProofs.DetailOfScoped | src/types/soap.rs:142-170 | `parse_detail_field` on a well-nested detail is the tree-level detail |
| DecoderProofs.FaultInForest | src/types/soap.rs:97-124 | on a well-nested Fault, the child loop yields the inner text of the last `faultcode`, `faultstring` and `faultactor` children and the last decoded `detail`; other children are ignored |
| DecoderProofs.ProbeWithoutEnvelope | src/types/soap.rs:83-85 | without an Envelope, the probe reports an unexpected response |
| DecoderProofs.ProbeWithoutBody | src/types/soap.rs:86-88 | without a Body inside the Envelope, the probe reports an unexpected response |
| DecoderProofs.ProbeWithoutFault | src/types/soap.rs:90-139 | without a Fault inside the Body, the probe reports no fault |
| DecoderProofs.ProbeWithFault | src/types/soap.rs:126-134 | a Fault missing its code or string is an unexpected response; otherwise the fault carries the code, string, actor and detail read |
| DecoderProofs.ExtractOfForest | src/types/soap.rs:80-140 | on every well-nested document, the probe equals the tree-level outcome: first Envelope, Body and Fault, last-wins fields, unexpected response for a missing Envelope, Body, code or string |
| Decimal.ParseUsize | src/types/soap.rs:187 | a hint parses exactly when it is an optional `+` followed by one or more decimal digits, with a value below 2^64; the value is the digits' value |
| Decimal.ParseShowNat | src/types/soap.rs:187 | every `usize` written in decimal, with or without a leading `+`, parses back to itself |
| Decimal.ParseRejectsOverflow | src/types/soap.rs:187 | a value of 2^64 or more is rejected |
| Decimal.ParseRejectsPadding | src/types/soap.rs:187 | a hint with surrounding whitespace is rejected |
| SoapEnvelope.AsXmlDocument | src/types/soap.rs:25-46 | the document is the declaration, the envelope start tag with both namespace bindings, the serialized `soap:Body`, and the envelope end tag, each spelled as the XML writer writes it; it exists iff the body serializes, else the error is `Serialize` with the serializer's cause |
| SoapEnvelope.FromXmlDocument | src/types/soap.rs:54-77 | a decoded envelope holds the typed decode's body and implies the probe found no fault; a fault found by the probe is always returned as `RequestFault`; a `Deserialize` error implies the probe found no fault; an error of the probe itself (`Xml`, or an unexpected response) is returned unchanged; when the probe finds no fault, the result is the typed decode's body, or its error wrapped as `Deserialize` |
| EnvelopeProofs.FaultTakesPrecedence | src/types/soap.rs:68-71 | when a well-nested response holds a fault, decoding returns it as `RequestFault` whatever the typed decode would do |
| EnvelopeProofs.ProbeErrorIsReturned | src/types/soap.rs:68 | a well-nested response without Envelope, Body or a complete Fault is an unexpected response, whatever the typed decode would do |
| EnvelopeProofs.CleanResponseIsDecoded | src/types/soap.rs:73-77 | a well-nested response without a fault yields the typed decode's body, or its error as `Deserialize` |
| EnvelopeProofs.MissingEnvelope | src/types/soap.rs:83-85 | any document without an `Envelope` start tag and without tokenizer errors is an unexpected response carrying the whole document |
| EnvelopeProofs.EncodedDocumentIsTree | src/types/soap.rs:25-46 | the encoded document is well nested: a declaration followed by the envelope element holding the body element |
| EnvelopeProofs.RoundTrip | src/types/soap.rs:25-77 | with a typed decode that reads the body back, decoding the encoding gives the envelope back iff the serialized body holds no element named `Fault` |
| ReferenceProperties.FaultNeedsCodeAndString | src/types/soap.rs:126-127 | a Fault is recognised iff it has both a `faultcode` and a `faultstring` child |
| ReferenceProperties.FaultFieldsFromLastChild | src/types/soap.rs:97-105 | the code and the string come from the last child of that name: no later child has the name |
| ReferenceProperties.UnknownFaultChildIgnored | src/types/soap.rs:115-122 | inserting a child that is not a fault field anywhere in a Fault does not change the decoded fault |
| ReferenceProperties.LaterFaultFieldWins | src/types/soap.rs:99-113 | a later field child replaces what earlier children of that name gave |
| ReferenceProperties.UnknownDetailChildIgnored | src/types/soap.rs:145-166 | inserting an unknown child anywhere in a detail leaves `ResponseCode`, `Message` and `MessageXml` as they were |
| ReferenceProperties.DetailContentIff | src/types/soap.rs:159-165 | a detail keeps raw content iff it has a child element other than the three known fields, and the content is the detail's whole inner text |
| ReferenceProperties.BackOffAppend | src/types/soap.rs:173-198 | the hint of two payload parts side by side is the first part's when it has one, and the second part's otherwise |
| ReferenceProperties.HintlessChildIgnored | src/types/soap.rs:173-198 | inserting an element without a readable hint anywhere in a payload leaves the reported hint as it was |
| ReferenceProperties.UnparsableHintSkipped | src/types/soap.rs:185-190 | a hint whose text does not parse is passed over, and the next hint is reported |
| ReferenceProperties.FirstParsedHintWins | src/types/soap.rs:187-188 | a hint whose text parses is reported, whatever follows it |
| Scenarios.SchemaFaultDecoded | src/types/soap.rs:316-354 | the test's schema-validation response, with every tag spelled as in the test, decodes to a request fault with the test's exact code and string, no actor, its response code and message, and as `MessageXml` content exactly the `LineNumber`, `LinePosition` and `Violation` markup the test expects, without a retry hint |
| Scenarios.BusyFaultDecoded | src/types/soap.rs:356-384 | the test's busy-server response, spelled as in the test, decodes to a request fault with the test's code, no actor, its response code, and a retry hint of 25 |

## Left out

- Tokenizing bytes into events (quick-xml) is not modelled. A document is
  its token sequence, and any tokenizer error is a `Malformed` token.
- quick-xml's check that an end tag names the open element is not
  modelled. A stray end tag is an ordinary token here.
- Character decoding is the identity: text is the raw UTF-8. Failures of
  `decoder().decode` are not modelled. This covers `to_string` at
  soap.rs:272-274 and the element name in the log message at soap.rs:120.
- Entity references are kept as written, as quick-xml's raw text leaves
  them.
- The `log::warn!` for an unexpected child of a Fault (soap.rs:118-121) has
  no effect on the result and is left out.
- Attributes come already parsed. A repeated attribute key is modelled: the
  tokenizer reports it as an error, which counts as "not a hint attribute",
  as `Err(_) => false` at soap.rs:182 does. Other attribute syntax errors
  are not modelled.
- A token's raw text and the name and attributes parsed from it are not
  tied together. Deriving one from the other is the tokenizer's job, which
  is left out.
- Writing into an in-memory buffer cannot fail, so write errors in
  `as_xml_document` other than the body's serialization are not modelled.
- The body's `serialize_as_element` and serde's `from_reader` are library
  code. They are parameters, and the typed payload shapes in the other
  operation files are not part of this model.
- `usize` is modelled as 64 bits wide.
- src/lib.rs declares only the `Serialize`, `Deserialize` and `Xml`
  errors. soap.rs also uses `RequestFault` and `UnexpectedResponse`,
  and the model follows soap.rs.
- A detail's `content` is the raw text of the ENTIRE detail span, because
  `reader.to_string()` at soap.rs:163 reads the detail's own reader. One
  reading of the intended behaviour has it capture only the first unknown
  child's text. The code does not do that, and the model follows the code.
