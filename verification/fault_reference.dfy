/** What the fault probe means on a well-nested document, stated on its tree
    rather than on token positions: the first Envelope, the first Body in
    it, the first Fault in that (each at any depth), and for every field of
    the fault and its detail the LAST direct child with that field's local
    name. */
module FaultReference {
  import opened Wrappers
  import opened XmlTokens
  import opened XmlTree
  import opened SoapTypes
  import opened Decimal
  import opened FaultDecoder

  predicate IsBackOffElement(x: Node) {
    x.Element? && IsBackOffStart(StartOf(x))
  }

  /** The retry hint of a forest: the first one found by `BackOffIn` among
      its nodes, in document order. */
  function BackOffOf(f: seq<Node>): Option<Usize> {
    if |f| == 0 then None
    else match BackOffIn(f[0])
      case Some(v) => Some(v)
      case None => BackOffOf(f[1..])
  }

  /** The retry hint within one node.  A hint element yields its text when
      that parses and nothing otherwise: a hint whose text does not parse is
      passed over together with its content.  Any other element is searched
      inside. */
  function BackOffIn(x: Node): Option<Usize> {
    match x
    case Leaf(_) => None
    case Element(_, _, _, cs, _) =>
      if IsBackOffElement(x) then ParseUsize(InnerText(x)) else BackOffOf(cs)
  }

  function MessageXmlOf(e: Node): MessageXml
    requires e.Element?
  {
    MessageXml(InnerText(e), BackOffOf(e.children))
  }

  /** The text of the last child named `n`, or `otherwise` when there is none. */
  function LastText(f: seq<Node>, n: string, otherwise: Option<string>): Option<string> {
    match LastNamed(f, n)
    case Some(e) => Some(InnerText(e))
    case None => otherwise
  }

  predicate HasUnknownDetailChild(f: seq<Node>) {
    exists k :: 0 <= k < |f| && f[k].Element? && !IsDetailFieldName(f[k].name.local)
  }

  /** The detail fields after reading the children `f` of a detail element
      whose whole raw content is `whole`, starting from `acc`. */
  function DetailFieldsOf(f: seq<Node>, whole: string, acc: FaultDetail): FaultDetail {
    FaultDetail(
      LastText(f, "ResponseCode", acc.responseCode),
      LastText(f, "Message", acc.message),
      match LastNamed(f, "MessageXml")
      case Some(e) => Some(MessageXmlOf(e))
      case None => acc.messageXml,
      if acc.content.None? && HasUnknownDetailChild(f) then Some(whole) else acc.content)
  }

  function DetailOf(e: Node): FaultDetail
    requires e.Element?
  {
    DetailFieldsOf(e.children, InnerText(e), NoDetail)
  }

  /** The fault fields after reading the children `f` of a Fault element,
      starting from `acc`. */
  function FaultFieldsOf(f: seq<Node>, acc: FaultFields): FaultFields {
    FaultFields(
      LastText(f, "faultcode", acc.code),
      LastText(f, "faultstring", acc.str),
      LastText(f, "faultactor", acc.actor),
      match LastNamed(f, "detail")
      case Some(e) => Some(DetailOf(e))
      case None => acc.detail)
  }

  /** The fault a Fault element with children `f` denotes; none when the code
      or the string is missing. */
  function FaultOf(f: seq<Node>): Option<Fault> {
    var fs := FaultFieldsOf(f, NoFields);
    if fs.code.None? || fs.str.None? then None
    else Some(Fault(fs.code.value, fs.str.value, fs.actor, fs.detail))
  }

  /** The outcome of the fault probe on the document that flattens `forest`. */
  function ProbeOutcome(forest: seq<Node>): Result<Option<Fault>, Error> {
    var unexpected := Error.UnexpectedResponse(Raw(FlattenAll(forest)));
    match FirstNamed(forest, "Envelope")
    case None => Failure(unexpected)
    case Some(envelope) =>
      match FirstNamed(envelope.children, "Body")
      case None => Failure(unexpected)
      case Some(body) => BodyOutcome(body.children, unexpected)
  }

  /** The outcome once the Body, with children `f`, is found: no fault when
      there is no Fault element, and `unexpected` for a Fault without both a
      code and a string. */
  function BodyOutcome(f: seq<Node>, unexpected: Error): Result<Option<Fault>, Error> {
    match FirstNamed(f, "Fault")
    case None => Success(None)
    case Some(fault) =>
      match FaultOf(fault.children)
      case None => Failure(unexpected)
      case Some(flt) => Success(Some(flt))
  }
}
