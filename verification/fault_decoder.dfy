/** The fault probe: walk Envelope, then Body, then Fault with the span reader
    and, when a Fault is present, decode it into a `Fault` record without
    knowing the typed payload the response was meant to carry. */
module FaultDecoder {
  import opened Wrappers
  import opened XmlTokens
  import opened SoapTypes
  import opened Decimal
  import opened TargetedReader

  /** The fault's fields as they stand while its children are read. */
  datatype FaultFields = FaultFields(
    code: Option<string>,
    str: Option<string>,
    actor: Option<string>,
    detail: Option<FaultDetail>)

  const NoFields := FaultFields(None, None, None, None)

  predicate IsBackOffAttr(a: Attr) {
    a.key.local == "Name" && a.value == "BackOffMilliseconds"
  }

  /** Some attribute of `attrs` is `Name="BackOffMilliseconds"` and is the
      first with its key.  The tokenizer's attribute iterator reports an
      error, never an attribute, for a key (prefix included) repeated from
      an earlier attribute, and an error does not count as the hint. */
  predicate HasBackOffAttr(attrs: seq<Attr>) {
    exists i :: 0 <= i < |attrs| && IsBackOffAttr(attrs[i]) && FirstWithKey(attrs, i)
  }

  predicate FirstWithKey(attrs: seq<Attr>, i: nat)
    requires i < |attrs|
  {
    forall j :: 0 <= j < i ==> attrs[j].key != attrs[i].key
  }

  /** An attribute whose key repeats an earlier one never decides whether a
      tag is a hint: `Name="x" Name="BackOffMilliseconds"` is not one. */
  lemma {:induction false} RepeatedKeyIgnored(attrs: seq<Attr>, a: Attr)
    requires exists j :: 0 <= j < |attrs| && attrs[j].key == a.key
    ensures HasBackOffAttr(attrs + [a]) <==> HasBackOffAttr(attrs)
  {
    var all := attrs + [a];
    if HasBackOffAttr(all) {
      var i :| 0 <= i < |all| && IsBackOffAttr(all[i]) && FirstWithKey(all, i);
      var j :| 0 <= j < |attrs| && attrs[j].key == a.key;
      assert all[j] == attrs[j] && all[|attrs|] == a;
      assert i < |attrs|;
      assert all[i] == attrs[i];
      forall j | 0 <= j < i
        ensures attrs[j].key != attrs[i].key
      {
        assert all[j] == attrs[j];
      }
      assert IsBackOffAttr(attrs[i]) && FirstWithKey(attrs, i);
    }
    if HasBackOffAttr(attrs) {
      var i :| 0 <= i < |attrs| && IsBackOffAttr(attrs[i]) && FirstWithKey(attrs, i);
      assert all[i] == attrs[i];
      forall j | 0 <= j < i
        ensures all[j].key != all[i].key
      {
        assert all[j] == attrs[j];
      }
      assert IsBackOffAttr(all[i]) && FirstWithKey(all, i);
    }
  }

  /** A `<Value Name="BackOffMilliseconds">` start tag, prefixes ignored. */
  predicate IsBackOffStart(t: Token) {
    t.Start? && t.name.local == "Value" && HasBackOffAttr(t.attrs)
  }

  /** Scans every token from the cursor for a retry hint.  A hint whose text
      does not parse is passed over together with everything inside it, and
      the scan goes on after its end tag. */
  function BackOffScan(doc: seq<Token>, r: Reader): (res: Result<Option<Usize>, Error>)
    requires Valid(doc, r)
    ensures res.Failure? ==> res.error == Xml
    decreases r.hi - r.pos
  {
    if r.pos == r.hi then Success(None)
    else match doc[r.pos]
      case Malformed(_) => Failure(Xml)
      case Start(q, _, _) =>
        if IsBackOffStart(doc[r.pos]) then
          (match MatchingEnd(doc, q, r.pos + 1, r.hi, 0)
           case None => Failure(Xml)
           case Some(j) =>
             (match ParseUsize(Raw(doc[r.pos + 1..j]))
              case Some(v) => Success(Some(v))
              case None => BackOffScan(doc, r.(pos := j + 1))))
        else BackOffScan(doc, r.(pos := r.pos + 1))
      case _ => BackOffScan(doc, r.(pos := r.pos + 1))
  }

  /** With no hint start tag and no tokenizer failure ahead, the scan finds
      nothing. */
  lemma {:induction false} BackOffScanNone(doc: seq<Token>, r: Reader)
    requires Valid(doc, r)
    requires forall k :: r.pos <= k < r.hi ==> !IsBackOffStart(doc[k]) && !doc[k].Malformed?
    ensures BackOffScan(doc, r) == Success(None)
    decreases r.hi - r.pos
  {
    if r.pos < r.hi {
      BackOffScanNone(doc, r.(pos := r.pos + 1));
    }
  }

  /** A hint element starts at `i`, ahead of the cursor, its end tag is at
      `j`, and the text in between parses as `v`. */
  predicate HintAt(doc: seq<Token>, r: Reader, i: nat, j: nat, v: Option<Usize>) {
    && r.pos <= i < j < r.hi <= |doc|
    && IsBackOffStart(doc[i])
    && MatchingEnd(doc, doc[i].name, i + 1, r.hi, 0) == Some(j)
    && ParseUsize(Raw(doc[i + 1..j])) == v
  }

  /** A hint the scan reports is the parsed text of some hint element ahead
      of the cursor. */
  lemma {:induction false} BackOffScanFound(doc: seq<Token>, r: Reader)
    requires Valid(doc, r) && BackOffScan(doc, r).Success? && BackOffScan(doc, r).value.Some?
    ensures exists i, j :: HintAt(doc, r, i, j, BackOffScan(doc, r).value)
    decreases r.hi - r.pos
  {
    var t := doc[r.pos];
    var v := BackOffScan(doc, r).value;
    if IsBackOffStart(t) {
      var j := MatchingEnd(doc, t.name, r.pos + 1, r.hi, 0).value;
      var text := Raw(doc[r.pos + 1..j]);
      if ParseUsize(text).Some? {
        assert v == ParseUsize(text);
        assert HintAt(doc, r, r.pos, j, v);
      } else {
        var r' := r.(pos := j + 1);
        assert BackOffScan(doc, r) == BackOffScan(doc, r');
        BackOffScanFound(doc, r');
        var i', j' :| HintAt(doc, r', i', j', v);
        assert HintAt(doc, r, i', j', v);
      }
    } else {
      var r' := r.(pos := r.pos + 1);
      assert BackOffScan(doc, r) == BackOffScan(doc, r');
      BackOffScanFound(doc, r');
      var i', j' :| HintAt(doc, r', i', j', v);
      assert HintAt(doc, r, i', j', v);
    }
  }

  /** The `MessageXml` record of the element the reader is scoped to: its whole
      raw content, and the retry hint found in it, if any. */
  function ParseMessageXml(doc: seq<Token>, r: Reader): (res: Result<MessageXml, Error>)
    requires Valid(doc, r)
    ensures res.Success? <==> BackOffScan(doc, r).Success?
    ensures res.Success? ==> res.value.content == SpanText(doc, r)
    ensures res.Failure? ==> res.error == Xml
  {
    match BackOffScan(doc, r)
    case Failure(e) => Failure(e)
    case Success(b) => Success(MessageXml(SpanText(doc, r), b))
  }

  predicate IsDetailFieldName(n: string) {
    n == "ResponseCode" || n == "Message" || n == "MessageXml"
  }

  /** Reads the remaining children of a `detail` element into `acc`.  A known
      child replaces its field; the first unknown child stores the raw text of
      the whole `detail` content, and later ones leave it as it is. */
  function ParseDetailChildren(doc: seq<Token>, r: Reader, acc: FaultDetail): (res: Result<FaultDetail, Error>)
    requires Valid(doc, r)
    ensures res.Failure? ==> res.error == Xml
    ensures res.Success? && acc.content.None? ==>
      res.value.content.None? || res.value.content == Some(SpanText(doc, r))
    ensures res.Success? && acc.content.Some? ==> res.value.content == acc.content
    decreases r.hi - r.pos
  {
    match NextChild(doc, r)
    case Failure(e) => Failure(e)
    case Success(None) => Success(acc)
    case Success(Some(c)) =>
      if c.local == "ResponseCode" then
        ParseDetailChildren(doc, c.rest, acc.(responseCode := Some(SpanText(doc, c.sub))))
      else if c.local == "Message" then
        ParseDetailChildren(doc, c.rest, acc.(message := Some(SpanText(doc, c.sub))))
      else if c.local == "MessageXml" then
        (match ParseMessageXml(doc, c.sub)
         case Failure(e) => Failure(e)
         case Success(m) => ParseDetailChildren(doc, c.rest, acc.(messageXml := Some(m))))
      else if acc.content.None? then
        ParseDetailChildren(doc, c.rest, acc.(content := Some(SpanText(doc, r))))
      else
        ParseDetailChildren(doc, c.rest, acc)
  }

  function ParseDetail(doc: seq<Token>, r: Reader): (res: Result<FaultDetail, Error>)
    requires Valid(doc, r)
    ensures res.Failure? ==> res.error == Xml
    ensures res.Success? ==> res.value.content.None? || res.value.content == Some(SpanText(doc, r))
  {
    ParseDetailChildren(doc, r, NoDetail)
  }

  predicate IsFaultFieldName(n: string) {
    n == "faultcode" || n == "faultstring" || n == "faultactor" || n == "detail"
  }

  /** Reads the remaining children of a `Fault` element into `acc`: each known
      child replaces its field, any other child is passed over. */
  function ParseFaultChildren(doc: seq<Token>, r: Reader, acc: FaultFields): (res: Result<FaultFields, Error>)
    requires Valid(doc, r)
    ensures res.Failure? ==> res.error == Xml
    ensures res.Success? && acc.code.Some? ==> res.value.code.Some?
    ensures res.Success? && acc.str.Some? ==> res.value.str.Some?
    decreases r.hi - r.pos
  {
    match NextChild(doc, r)
    case Failure(e) => Failure(e)
    case Success(None) => Success(acc)
    case Success(Some(c)) =>
      if c.local == "faultcode" then
        ParseFaultChildren(doc, c.rest, acc.(code := Some(SpanText(doc, c.sub))))
      else if c.local == "faultstring" then
        ParseFaultChildren(doc, c.rest, acc.(str := Some(SpanText(doc, c.sub))))
      else if c.local == "faultactor" then
        ParseFaultChildren(doc, c.rest, acc.(actor := Some(SpanText(doc, c.sub))))
      else if c.local == "detail" then
        (match ParseDetail(doc, c.sub)
         case Failure(e) => Failure(e)
         case Success(d) => ParseFaultChildren(doc, c.rest, acc.(detail := Some(d))))
      else
        ParseFaultChildren(doc, c.rest, acc)
  }

  /** A Fault element without child elements leaves every field as it was. */
  lemma FaultWithoutChildren(doc: seq<Token>, r: Reader, acc: FaultFields)
    requires Valid(doc, r)
    requires forall k :: r.pos <= k < r.hi ==> !doc[k].Start? && !doc[k].Malformed?
    ensures ParseFaultChildren(doc, r, acc) == Success(acc)
  {
    NextChildNone(doc, r);
  }

  /** The error for a response that is not shaped like a SOAP envelope: it
      carries the document's bytes. */
  function UnexpectedResponse(doc: seq<Token>): Error {
    Error.UnexpectedResponse(Raw(doc))
  }

  /** Looks for Envelope, then Body inside it, then Fault inside that, and
      decodes the Fault when there is one.  A missing Envelope or Body, or a
      Fault without both `faultcode` and `faultstring`, is an unexpected
      response; a missing Fault is not an error. */
  function ExtractMaybeFault(doc: seq<Token>): (res: Result<Option<Fault>, Error>)
    ensures res.Failure? ==> res.error == Xml || res.error == Error.UnexpectedResponse(Raw(doc))
    ensures res.Success? ==> FindTag(doc, FromBytes(doc), "Envelope").Success?
    ensures res.Success? && res.value.Some? ==>
      exists k :: 0 <= k < |doc| && IsStartNamed(doc[k], "Fault")
  {
    var root := FromBytes(doc);
    match FindTag(doc, root, "Envelope")
    case Failure(e) => Failure(e)
    case Success(None) => Failure(UnexpectedResponse(doc))
    case Success(Some(envelope)) =>
      match FindTag(doc, envelope.sub, "Body")
      case Failure(e) => Failure(e)
      case Success(None) => Failure(UnexpectedResponse(doc))
      case Success(Some(body)) =>
        match FindTag(doc, body.sub, "Fault")
        case Failure(e) => Failure(e)
        case Success(None) => Success(None)
        case Success(Some(fault)) =>
          match ParseFaultChildren(doc, fault.sub, NoFields)
          case Failure(e) => Failure(e)
          case Success(fs) =>
            if fs.code.None? || fs.str.None? then Failure(UnexpectedResponse(doc))
            else Success(Some(Fault(fs.code.value, fs.str.value, fs.actor, fs.detail)))
  }
}
