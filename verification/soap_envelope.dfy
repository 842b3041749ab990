/** The SOAP envelope around an operation's body: encoding it as a complete
    document, and decoding a response with a fault taking precedence over
    the typed payload.  The body's own serialization and the typed decode
    are library code outside this layer; both are parameters here and may
    fail. */
module SoapEnvelope {
  import opened Wrappers
  import opened XmlTokens
  import opened SoapTypes
  import opened FaultDecoder

  datatype Envelope<B> = Envelope(body: B)

  /** The shape the typed decode fills: an envelope whose `Body` holds the
      payload as its one child. */
  datatype DummyBody<B> = DummyBody(inner: B)
  datatype DummyEnvelope<B> = DummyEnvelope(body: DummyBody<B>)

  const EnvelopeName := QName("soap", "Envelope")
  const BodyName := QName("soap", "Body")

  /** XML 1.0 in UTF-8, as every Exchange example uses, spelled as the XML
      writer spells a declaration. */
  const XmlDeclaration: Token := Decl("1.0", Some("utf-8"), "<?xml version=\"1.0\" encoding=\"utf-8\"?>")

  /** The envelope start tag binding the `soap` and `t` prefixes, as the
      writer spells it: one space before each attribute, double quotes. */
  const EnvelopeStart: Token :=
    Start(EnvelopeName,
      [Attr(QName("xmlns", "soap"), SOAP_NS_URI), Attr(QName("xmlns", "t"), TYPES_NS_URI)],
      "<soap:Envelope xmlns:soap=\"" + SOAP_NS_URI + "\" xmlns:t=\"" + TYPES_NS_URI + "\">")

  const EnvelopeEnd: Token := End(EnvelopeName, "</soap:Envelope>")

  /** The document for an envelope: the declaration, the envelope start tag
      binding the `soap` and `t` prefixes, the body serialized as an element
      named `soap:Body`, and the envelope end tag.  A body that fails to
      serialize yields a `Serialize` error and no document. */
  function AsXmlDocument<B>(env: Envelope<B>, serialize: (B, QName) -> Result<seq<Token>, string>)
    : (res: Result<seq<Token>, Error>)
    ensures res.Success? <==> serialize(env.body, BodyName).Success?
    ensures res.Success? ==>
      && |res.value| == |serialize(env.body, BodyName).value| + 3
      && res.value[0] == XmlDeclaration
      && res.value[1] == EnvelopeStart
      && res.value[2..|res.value| - 1] == serialize(env.body, BodyName).value
      && res.value[|res.value| - 1] == EnvelopeEnd
    ensures res.Failure? ==> res.error == Serialize(serialize(env.body, BodyName).error)
  {
    match serialize(env.body, BodyName)
    case Failure(cause) => Failure(Serialize(cause))
    case Success(body) => Success([XmlDeclaration, EnvelopeStart] + body + [EnvelopeEnd])
  }

  /** Decodes a response.  The fault probe runs first: its errors, and a fault
      it finds, are returned as they are, and the typed decode is used only
      when the probe found a well-shaped envelope without a fault. */
  function FromXmlDocument<B>(doc: seq<Token>, deserialize: seq<Token> -> Result<DummyEnvelope<B>, string>)
    : (res: Result<Envelope<B>, Error>)
    ensures res.Success? ==>
      && ExtractMaybeFault(doc) == Success(None)
      && deserialize(doc).Success?
      && res.value.body == deserialize(doc).value.body.inner
    ensures ExtractMaybeFault(doc).Success? && ExtractMaybeFault(doc).value.Some? ==>
      res == Failure(RequestFault(ExtractMaybeFault(doc).value.value))
    ensures res.Failure? && res.error.Deserialize? ==> ExtractMaybeFault(doc) == Success(None)
    ensures ExtractMaybeFault(doc).Failure? ==> res == Failure(ExtractMaybeFault(doc).error)
    ensures ExtractMaybeFault(doc) == Success(None) ==>
      res == match deserialize(doc)
        case Success(e) => Success(Envelope(e.body.inner))
        case Failure(cause) => Failure(Deserialize(cause))
  {
    match ExtractMaybeFault(doc)
    case Failure(e) => Failure(e)
    case Success(Some(fault)) => Failure(RequestFault(fault))
    case Success(None) =>
      match deserialize(doc)
      case Failure(cause) => Failure(Deserialize(cause))
      case Success(envelope) => Success(Envelope(envelope.body.inner))
  }
}
