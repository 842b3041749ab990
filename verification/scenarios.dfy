/** Two responses of the shape Exchange sends, as trees, and what decoding
    them yields: a schema-validation fault with diagnostic content and a
    busy-server fault with a retry hint, spelled as the two tests of the
    envelope module spell them. */
module Scenarios {
  import opened Wrappers
  import opened XmlTokens
  import opened XmlTree
  import opened SoapTypes
  import opened FaultReference
  import opened Decimal
  import opened FaultDecoder
  import opened SoapEnvelope
  import opened EnvelopeProofs

  const ERRORS_NS_URI: string := "http://schemas.microsoft.com/exchange/services/2006/errors"
  const ErrorsNs := Attr(QName("xmlns", "e"), ERRORS_NS_URI)
  const TypesNs := Attr(QName("xmlns", "t"), TYPES_NS_URI)

  /** The raw text of an element's start tag and end tag. */
  datatype Tags = Tags(open: string, close: string)

  /** An element holding only the text `s`. */
  function TextElement(q: QName, attrs: seq<Attr>, t: Tags, s: string): Node {
    Element(q, attrs, t.open, [Leaf(Text(s))], t.close)
  }

  /** An element holding only text has that text inside. */
  lemma TextInside(x: Node, s: string)
    requires x.Element? && x.children == [Leaf(Text(s))]
    ensures InnerText(x) == s
  {
    assert FlattenAll([Leaf(Text(s))]) == [Text(s)] + FlattenAll([]);
    assert Raw([Text(s)]) == s + Raw([]);
  }

  /** The raw text of a text-only element is its tags around its text. */
  lemma TextElementRaw(x: Node, s: string)
    requires x.Element? && x.children == [Leaf(Text(s))]
    ensures Raw(Flatten(x)) == x.open + s + x.close
  {
    ElementText(x);
    TextInside(x, s);
  }

  /** The raw text of three nodes side by side. */
  lemma RawOfThree(x: Node, y: Node, z: Node)
    ensures Raw(FlattenAll([x, y, z])) == Raw(Flatten(x)) + Raw(Flatten(y)) + Raw(Flatten(z))
  {
    assert [x, y, z][1..] == [y, z];
    assert [y, z][1..] == [z];
    assert FlattenAll([z]) == Flatten(z) + FlattenAll([]);
    assert FlattenAll([x, y, z]) == Flatten(x) + (Flatten(y) + Flatten(z));
    RawConcat(Flatten(x), Flatten(y) + Flatten(z));
    RawConcat(Flatten(y), Flatten(z));
  }

  /** How a fault response spells the tags of its envelope, body and fault,
      and of the fault's code, string and detail. */
  datatype Spelling = Spelling(envelope: Tags, body: Tags, fault: Tags, code: Tags, str: Tags, detail: Tags)

  /** The spelling of both responses Exchange sent in the tests. */
  const ExchangeSpelling := Spelling(
    Tags("<s:Envelope xmlns:s=\"http://schemas.xmlsoap.org/soap/envelope/\">", "</s:Envelope>"),
    Tags("<s:Body>", "</s:Body>"),
    Tags("<s:Fault>", "</s:Fault>"),
    Tags("<faultcode xmlns:a=\"http://schemas.microsoft.com/exchange/services/2006/types\">", "</faultcode>"),
    Tags("<faultstring xml:lang=\"en-US\">", "</faultstring>"),
    Tags("<detail>", "</detail>"))

  /** A response whose Body holds a Fault with the given code, string and
      detail children. */
  function FaultResponse(sp: Spelling, code: string, str: string, detail: seq<Node>): seq<Node> {
    [Leaf(XmlDeclaration),
     Element(QName("s", "Envelope"), [Attr(QName("xmlns", "s"), SOAP_NS_URI)], sp.envelope.open, [
       Element(QName("s", "Body"), [], sp.body.open, [
         Element(QName("s", "Fault"), [], sp.fault.open, [
           TextElement(QName("", "faultcode"), [Attr(QName("xmlns", "a"), TYPES_NS_URI)], sp.code, code),
           TextElement(QName("", "faultstring"), [Attr(QName("xml", "lang"), "en-US")], sp.str, str),
           Element(QName("", "detail"), [], sp.detail.open, detail, sp.detail.close)],
         sp.fault.close)],
       sp.body.close)],
     sp.envelope.close)]
  }

  /** The fault such a response decodes to, however it is spelled: its code
      and string, no actor, and the detail read from `detail`. */
  lemma FaultResponseOutcome(sp: Spelling, code: string, str: string, detail: seq<Node>)
    ensures ProbeOutcome(FaultResponse(sp, code, str, detail)) ==
      Success(Some(Fault(code, str, None, Some(DetailFieldsOf(detail, Raw(FlattenAll(detail)), NoDetail)))))
  {
    var forest := FaultResponse(sp, code, str, detail);
    var envelope := forest[1];
    var body := envelope.children[0];
    var fault := body.children[0];
    assert FirstNamed(forest[1..], "Envelope") == Some(envelope);
    assert FirstNamed(forest, "Envelope") == Some(envelope);
    assert FirstNamed(envelope.children, "Body") == Some(body);
    assert FirstNamed(body.children, "Fault") == Some(fault);
    var fs := fault.children;
    assert LastNamed(fs, "faultcode") == Some(fs[0]);
    assert LastNamed(fs, "faultstring") == Some(fs[1]);
    assert LastNamed(fs, "faultactor") == None;
    assert LastNamed(fs, "detail") == Some(fs[2]);
    TextInside(fs[0], code);
    TextInside(fs[1], str);
  }

  const ResponseCodeTags :=
    Tags("<e:ResponseCode xmlns:e=\"http://schemas.microsoft.com/exchange/services/2006/errors\">", "</e:ResponseCode>")
  const MessageTags :=
    Tags("<e:Message xmlns:e=\"http://schemas.microsoft.com/exchange/services/2006/errors\">", "</e:Message>")
  const MessageXmlTags :=
    Tags("<t:MessageXml xmlns:t=\"http://schemas.microsoft.com/exchange/services/2006/types\">", "</t:MessageXml>")

  /** The detail of a response: its response code and message, and the
      `MessageXml` element holding `diagnostics`. */
  function DetailChildren(code: string, message: string, diagnostics: seq<Node>): seq<Node> {
    [TextElement(QName("e", "ResponseCode"), [ErrorsNs], ResponseCodeTags, code),
     TextElement(QName("e", "Message"), [ErrorsNs], MessageTags, message),
     Element(QName("t", "MessageXml"), [TypesNs], MessageXmlTags.open, diagnostics, MessageXmlTags.close)]
  }

  /** The detail such children decode to, however the diagnostics read. */
  lemma DetailChildrenRead(code: string, message: string, diagnostics: seq<Node>)
    ensures DetailFieldsOf(DetailChildren(code, message, diagnostics), Raw(FlattenAll(DetailChildren(code, message, diagnostics))), NoDetail)
      == FaultDetail(Some(code), Some(message), Some(MessageXmlOf(DetailChildren(code, message, diagnostics)[2])), None)
  {
    var f := DetailChildren(code, message, diagnostics);
    assert LastNamed(f, "ResponseCode") == Some(f[0]);
    assert LastNamed(f, "Message") == Some(f[1]);
    assert LastNamed(f, "MessageXml") == Some(f[2]);
    TextInside(f[0], code);
    TextInside(f[1], message);
    assert !HasUnknownDetailChild(f);
  }

  const SchemaFaultString: string :=
    "The request failed schema validation: The 'Id' attribute is invalid - The value 'invalidparentid' is invalid according to its datatype 'http://schemas.microsoft.com/exchange/services/2006/types:DistinguishedFolderIdNameType' - The Enumeration constraint failed."

  const ViolationText: string :=
    "The 'Id' attribute is invalid - The value 'invalidparentid' is invalid according to its datatype 'http://schemas.microsoft.com/exchange/services/2006/types:DistinguishedFolderIdNameType' - The Enumeration constraint failed."

  const LineNumber := TextElement(QName("t", "LineNumber"), [], Tags("<t:LineNumber>", "</t:LineNumber>"), "2")
  const LinePosition := TextElement(QName("t", "LinePosition"), [], Tags("<t:LinePosition>", "</t:LinePosition>"), "630")
  const Violation := TextElement(QName("t", "Violation"), [], Tags("<t:Violation>", "</t:Violation>"), ViolationText)

  const SchemaDiagnostics := [LineNumber, LinePosition, Violation]

  /** The diagnostic content the schema fault must carry: the whole body of
      its `MessageXml` element, tags and all. */
  const SchemaMessageXmlContent: string :=
    "<t:LineNumber>2</t:LineNumber>" + "<t:LinePosition>630</t:LinePosition>"
    + ("<t:Violation>" + ViolationText + "</t:Violation>")

  const SchemaDetail := DetailChildren("ErrorSchemaValidation", "The request failed schema validation.", SchemaDiagnostics)

  const BusyFaultString: string := "I made this up because I don't have real testing data. \U{1F643}"

  const BusyHint := TextElement(QName("t", "Value"), [Attr(QName("", "Name"), "BackOffMilliseconds")],
    Tags("<t:Value Name=\"BackOffMilliseconds\">", "</t:Value>"), "25")

  const BusyDetail := DetailChildren("ErrorServerBusy", "Who really knows?", [BusyHint])

  /** The diagnostic content of the schema fault is kept verbatim: the three
      diagnostic elements with their tags.  It has no retry hint. */
  lemma SchemaMessageXmlRead()
    ensures MessageXmlOf(SchemaDetail[2]) == MessageXml(SchemaMessageXmlContent, None)
  {
    SchemaContent();
    SchemaHintless();
  }

  lemma SchemaContent()
    ensures Raw(FlattenAll(SchemaDiagnostics)) == SchemaMessageXmlContent
  {
    RawOfThree(LineNumber, LinePosition, Violation);
    LineNumberRaw();
    LinePositionRaw();
    TextElementRaw(Violation, ViolationText);
  }

  lemma LineNumberRaw()
    ensures Raw(Flatten(LineNumber)) == "<t:LineNumber>2</t:LineNumber>"
  {
    TextElementRaw(LineNumber, "2");
    assert "<t:LineNumber>" + "2" + "</t:LineNumber>" == "<t:LineNumber>2</t:LineNumber>";
  }

  lemma LinePositionRaw()
    ensures Raw(Flatten(LinePosition)) == "<t:LinePosition>630</t:LinePosition>"
  {
    TextElementRaw(LinePosition, "630");
    assert "<t:LinePosition>" + "630" + "</t:LinePosition>" == "<t:LinePosition>630</t:LinePosition>";
  }

  lemma SchemaHintless()
    ensures BackOffOf(SchemaDiagnostics) == None
  {
    var cs := SchemaDiagnostics;
    assert BackOffIn(LineNumber) == BackOffOf([Leaf(Text("2"))]) == None;
    assert BackOffIn(LinePosition) == BackOffOf([Leaf(Text("630"))]) == None;
    assert BackOffIn(Violation) == BackOffOf([Leaf(Text(ViolationText))]) == None;
    assert BackOffOf([Violation]) == None;
    assert cs[2..] == [Violation];
    assert BackOffOf(cs[1..]) == None by {
      assert cs[1..][1..] == [Violation];
    }
    assert cs[1..] == [LinePosition, Violation];
  }

  /** The busy-server hint reads as 25 milliseconds. */
  lemma BusyMessageXmlRead()
    ensures MessageXmlOf(BusyDetail[2]).backOffMilliseconds == Some(25)
  {
    TextInside(BusyHint, "25");
    assert IsBackOffAttr(BusyHint.attrs[0]) && FirstWithKey(BusyHint.attrs, 0);
    assert IsBackOffElement(BusyHint);
    assert BackOffIn(BusyHint) == ParseUsize("25");
    ParseShowNat(25);
    assert ShowNat(25) == ShowNat(2) + [DigitChar(5)] == "25";
    assert BackOffOf([BusyHint]) == Some(25);
  }

  /** The schema-validation response of the first test is a request fault
      with its code and string, no actor, the known detail fields, and the
      full body of `MessageXml` verbatim, without a retry hint. */
  lemma SchemaFaultDecoded<B>(deserialize: seq<Token> -> Result<DummyEnvelope<B>, string>)
    ensures FromXmlDocument(FlattenAll(FaultResponse(ExchangeSpelling, "a:ErrorSchemaValidation", SchemaFaultString, SchemaDetail)), deserialize) ==
      Failure(RequestFault(Fault("a:ErrorSchemaValidation", SchemaFaultString, None, Some(FaultDetail(
        Some("ErrorSchemaValidation"),
        Some("The request failed schema validation."),
        Some(MessageXml(SchemaMessageXmlContent, None)),
        None)))))
  {
    DetailChildrenRead("ErrorSchemaValidation", "The request failed schema validation.", SchemaDiagnostics);
    SchemaMessageXmlRead();
    var forest := FaultResponse(ExchangeSpelling, "a:ErrorSchemaValidation", SchemaFaultString, SchemaDetail);
    FaultResponseOutcome(ExchangeSpelling, "a:ErrorSchemaValidation", SchemaFaultString, SchemaDetail);
    FaultTakesPrecedence(forest, deserialize, ProbeOutcome(forest).value.value);
  }

  /** The busy-server response of the second test is a request fault whose
      diagnostic payload carries a retry hint of 25. */
  lemma BusyFaultDecoded<B>(deserialize: seq<Token> -> Result<DummyEnvelope<B>, string>)
    ensures FromXmlDocument(FlattenAll(FaultResponse(ExchangeSpelling, "a:ErrorServerBusy", BusyFaultString, BusyDetail)), deserialize).Failure?
    ensures var err := FromXmlDocument(FlattenAll(FaultResponse(ExchangeSpelling, "a:ErrorServerBusy", BusyFaultString, BusyDetail)), deserialize).error;
      && err.RequestFault?
      && err.fault.faultCode == "a:ErrorServerBusy"
      && err.fault.faultActor.None?
      && err.fault.detail.Some?
      && err.fault.detail.value.responseCode == Some("ErrorServerBusy")
      && err.fault.detail.value.messageXml.Some?
      && err.fault.detail.value.messageXml.value.backOffMilliseconds == Some(25)
  {
    DetailChildrenRead("ErrorServerBusy", "Who really knows?", [BusyHint]);
    BusyMessageXmlRead();
    var forest := FaultResponse(ExchangeSpelling, "a:ErrorServerBusy", BusyFaultString, BusyDetail);
    FaultResponseOutcome(ExchangeSpelling, "a:ErrorServerBusy", BusyFaultString, BusyDetail);
    FaultTakesPrecedence(forest, deserialize, ProbeOutcome(forest).value.value);
  }
}
