/** What decoding a response means on a well-nested document, and what an
    encoded envelope decodes back to. */
module EnvelopeProofs {
  import opened Wrappers
  import opened XmlTokens
  import opened XmlTree
  import opened SoapTypes
  import opened TargetedReader
  import opened FaultDecoder
  import opened FaultReference
  import opened DecoderProofs
  import opened SoapEnvelope

  /** A fault in a well-nested response is reported as a request fault, and
      the typed decode is never consulted. */
  lemma FaultTakesPrecedence<B>(forest: seq<Node>, deserialize: seq<Token> -> Result<DummyEnvelope<B>, string>, fault: Fault)
    requires ProbeOutcome(forest) == Success(Some(fault))
    ensures FromXmlDocument(FlattenAll(forest), deserialize) == Failure(RequestFault(fault))
  {
    ExtractOfForest(forest);
  }

  /** A well-nested response that the tree reading rejects is rejected with
      the same error, whatever the typed decode would say. */
  lemma ProbeErrorIsReturned<B>(forest: seq<Node>, deserialize: seq<Token> -> Result<DummyEnvelope<B>, string>)
    requires ProbeOutcome(forest).Failure?
    ensures FromXmlDocument(FlattenAll(forest), deserialize) == Failure(ProbeOutcome(forest).error)
    ensures FromXmlDocument(FlattenAll(forest), deserialize).error.UnexpectedResponse?
  {
    ExtractOfForest(forest);
  }

  /** A well-nested response with an Envelope, a Body and no Fault is handed
      to the typed decode, whose verdict is returned. */
  lemma CleanResponseIsDecoded<B>(forest: seq<Node>, deserialize: seq<Token> -> Result<DummyEnvelope<B>, string>)
    requires ProbeOutcome(forest) == Success(None)
    ensures deserialize(FlattenAll(forest)).Success? ==>
      FromXmlDocument(FlattenAll(forest), deserialize) == Success(Envelope(deserialize(FlattenAll(forest)).value.body.inner))
    ensures deserialize(FlattenAll(forest)).Failure? ==>
      FromXmlDocument(FlattenAll(forest), deserialize) == Failure(Deserialize(deserialize(FlattenAll(forest)).error))
  {
    ExtractOfForest(forest);
  }

  /** Any document without an `Envelope` start tag, and on which the
      tokenizer does not fail, is an unexpected response carrying the whole
      document. */
  lemma MissingEnvelope<B>(doc: seq<Token>, deserialize: seq<Token> -> Result<DummyEnvelope<B>, string>)
    requires forall k :: 0 <= k < |doc| ==> !IsStartNamed(doc[k], "Envelope") && !doc[k].Malformed?
    ensures FromXmlDocument(doc, deserialize) == Failure(Error.UnexpectedResponse(Raw(doc)))
  {
    FindTagNone(doc, FromBytes(doc), "Envelope");
    ProbeWithoutEnvelope(doc);
  }

  /** The element a body serializes to when it is the well-nested element
      `soap:Body`, spelled however the serializer spells it. */
  predicate IsBodyElement(body: Node) {
    body.Element? && body.name == BodyName
  }

  /** The envelope element around a serialized body, with the writer's
      start and end tags. */
  function EnvelopeElement(body: Node): Node {
    Element(EnvelopeName, EnvelopeStart.attrs, EnvelopeStart.raw, [body], EnvelopeEnd.raw)
  }

  /** The tree of an encoded envelope whose body serialized as `body`. */
  function EncodedTree(body: Node): seq<Node> {
    [Leaf(XmlDeclaration), EnvelopeElement(body)]
  }

  /** The encoded document is well nested: it is the flattening of the
      declaration followed by the envelope element holding the body element. */
  lemma EncodedDocumentIsTree<B>(env: Envelope<B>, serialize: (B, QName) -> Result<seq<Token>, string>, body: Node)
    requires IsBodyElement(body) && serialize(env.body, BodyName) == Success(Flatten(body))
    ensures AsXmlDocument(env, serialize) == Success(FlattenAll(EncodedTree(body)))
  {
    var envelope := EnvelopeElement(body);
    assert FlattenAll([body]) == Flatten(body) + FlattenAll([]);
    assert FlattenAll([envelope]) == Flatten(envelope) + FlattenAll([]);
    var tree := EncodedTree(body);
    assert tree[1..] == [envelope];
    assert FlattenAll(tree) == [XmlDeclaration] + FlattenAll([envelope]);
    assert Flatten(envelope) == [EnvelopeStart] + Flatten(body) + [EnvelopeEnd];
    assert FlattenAll(tree) == [XmlDeclaration, EnvelopeStart] + Flatten(body) + [EnvelopeEnd];
  }

  /** Encoding and then decoding an envelope gives it back exactly when the
      serialized body holds no element named `Fault`, given a typed decode
      that reads the body back.  A body with such an element is taken for a
      fault response. */
  lemma {:induction false} RoundTrip<B>(env: Envelope<B>, serialize: (B, QName) -> Result<seq<Token>, string>,
                                         deserialize: seq<Token> -> Result<DummyEnvelope<B>, string>, body: Node)
    requires IsBodyElement(body) && serialize(env.body, BodyName) == Success(Flatten(body))
    requires deserialize(FlattenAll(EncodedTree(body))) == Success(DummyEnvelope(DummyBody(env.body)))
    ensures AsXmlDocument(env, serialize).Success?
    ensures FromXmlDocument(AsXmlDocument(env, serialize).value, deserialize) == Success(env) <==>
      FirstNamed(body.children, "Fault").None?
  {
    EncodedDocumentIsTree(env, serialize, body);
    var tree := EncodedTree(body);
    var envelope := EnvelopeElement(body);
    assert FirstNamed([envelope], "Envelope") == Some(envelope);
    assert FirstNamed(tree, "Envelope") == Some(envelope);
    assert FirstNamed([body], "Body") == Some(body);
    ExtractOfForest(tree);
  }
}
