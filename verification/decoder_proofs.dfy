/** The fault decoder on well-nested documents.  On the flattening of any
    forest, the span-level decoder computes exactly the tree-level meaning
    given in `FaultReference`: it never fails with an XML error, it finds the
    first Envelope, Body and Fault, the last child of each field name wins,
    and the retry hint is the first one that parses. */
module DecoderProofs {
  import opened Wrappers
  import opened XmlTokens
  import opened XmlTree
  import opened SoapTypes
  import opened Decimal
  import opened TargetedReader
  import opened FaultDecoder
  import opened FaultReference
  import opened ReaderProofs

  /** A reader scoped to exactly forest `f`, as every sub-reader is: its
      stretch is the forest and its cursor is at the stretch's start. */
  predicate Scoped(doc: seq<Token>, r: Reader, f: seq<Node>) {
    Covers(doc, r, f) && r.lo == r.pos
  }

  lemma SpanOfScoped(doc: seq<Token>, r: Reader, f: seq<Node>)
    requires Scoped(doc, r, f)
    ensures SpanText(doc, r) == Raw(FlattenAll(f))
  {
  }

  /** Scanning a forest for a retry hint finds the forest's hint when it has
      one, and otherwise runs on past the forest. */
  lemma {:induction false} BackOffInForest(doc: seq<Token>, r: Reader, f: seq<Node>)
    requires AtForest(doc, r, f)
    ensures BackOffOf(f).Some? ==> BackOffScan(doc, r) == Success(BackOffOf(f))
    ensures BackOffOf(f).None? ==>
      BackOffScan(doc, r) == BackOffScan(doc, r.(pos := r.pos + |FlattenAll(f)|))
    decreases f, 1
  {
    if |f| > 0 {
      PlacedForest(doc, r.pos, f);
      var next := r.(pos := r.pos + |Flatten(f[0])|);
      assert r.pos + |FlattenAll(f)| == next.pos + |FlattenAll(f[1..])|;
      BackOffInNode(doc, r, f[0]);
      if BackOffIn(f[0]).None? {
        BackOffInForest(doc, next, f[1..]);
        assert next.(pos := next.pos + |FlattenAll(f[1..])|) == r.(pos := r.pos + |FlattenAll(f)|);
      }
    } else {
      assert r.(pos := r.pos + |FlattenAll(f)|) == r;
    }
  }

  /** The same for a single node. */
  lemma {:induction false} BackOffInNode(doc: seq<Token>, r: Reader, x: Node)
    requires Valid(doc, r) && Placed(doc, r.pos, Flatten(x)) && r.pos + |Flatten(x)| <= r.hi
    ensures BackOffIn(x).Some? ==> BackOffScan(doc, r) == Success(BackOffIn(x))
    ensures BackOffIn(x).None? ==>
      BackOffScan(doc, r) == BackOffScan(doc, r.(pos := r.pos + |Flatten(x)|))
    decreases x, 1
  {
    if x.Leaf? {
      PlacedLeaf(doc, r.pos, x);
    } else if IsBackOffElement(x) {
      BackOffAtHint(doc, r, x);
    } else {
      BackOffInElement(doc, r, x);
    }
  }

  /** An element that is not a hint is searched inside. */
  lemma {:induction false} BackOffInElement(doc: seq<Token>, r: Reader, x: Node)
    requires Valid(doc, r) && Placed(doc, r.pos, Flatten(x)) && r.pos + |Flatten(x)| <= r.hi
    requires x.Element? && !IsBackOffElement(x)
    ensures BackOffOf(x.children).Some? ==> BackOffScan(doc, r) == Success(BackOffOf(x.children))
    ensures BackOffOf(x.children).None? ==>
      BackOffScan(doc, r) == BackOffScan(doc, r.(pos := r.pos + |Flatten(x)|))
    decreases x, 0
  {
    var cs := x.children;
    PlacedElement(doc, r.pos, x);
    var inside := r.(pos := r.pos + 1);
    BackOffPassesTag(doc, r);
    BackOffInForest(doc, inside, cs);
    if BackOffOf(cs).None? {
      var atEnd := r.(pos := r.pos + 1 + |FlattenAll(cs)|);
      assert inside.(pos := inside.pos + |FlattenAll(cs)|) == atEnd;
      BackOffPassesTag(doc, atEnd);
      assert atEnd.(pos := atEnd.pos + 1) == r.(pos := r.pos + |Flatten(x)|);
    }
  }

  /** A hint element yields its text when that parses, and is otherwise
      passed over whole. */
  lemma BackOffAtHint(doc: seq<Token>, r: Reader, x: Node)
    requires Valid(doc, r) && Placed(doc, r.pos, Flatten(x)) && r.pos + |Flatten(x)| <= r.hi
    requires IsBackOffElement(x)
    ensures ParseUsize(InnerText(x)).Some? ==> BackOffScan(doc, r) == Success(ParseUsize(InnerText(x)))
    ensures ParseUsize(InnerText(x)).None? ==>
      BackOffScan(doc, r) == BackOffScan(doc, r.(pos := r.pos + |Flatten(x)|))
  {
    PlacedElement(doc, r.pos, x);
    MatchingEndOfElement(doc, r.pos, r.hi, x);
    var j := r.pos + 1 + |FlattenAll(x.children)|;
    var inner := doc[r.pos + 1..j];
    assert inner == FlattenAll(x.children);
    BackOffAtCandidate(doc, r, j);
    assert r.(pos := j + 1) == r.(pos := r.pos + |Flatten(x)|);
  }

  /** At a hint start tag whose end tag is at `j`, the scan yields the text
      in between when it parses and resumes after `j` otherwise. */
  lemma BackOffAtCandidate(doc: seq<Token>, r: Reader, j: nat)
    requires Valid(doc, r) && r.pos < r.hi && IsBackOffStart(doc[r.pos])
    requires MatchingEnd(doc, doc[r.pos].name, r.pos + 1, r.hi, 0) == Some(j)
    ensures ParseUsize(Raw(doc[r.pos + 1..j])).Some? ==>
      BackOffScan(doc, r) == Success(ParseUsize(Raw(doc[r.pos + 1..j])))
    ensures ParseUsize(Raw(doc[r.pos + 1..j])).None? ==>
      BackOffScan(doc, r) == BackOffScan(doc, r.(pos := j + 1))
  {
    var t := doc[r.pos];
    assert t.Start?;
    var hint := ParseUsize(Raw(doc[r.pos + 1..j]));
    assert BackOffScan(doc, r) == match hint
      case Some(v) => Success(Some(v))
      case None => BackOffScan(doc, r.(pos := j + 1));
  }

  /** A tag that is not a hint, or an end tag, is stepped over. */
  lemma BackOffPassesTag(doc: seq<Token>, r: Reader)
    requires Valid(doc, r) && r.pos < r.hi
    requires doc[r.pos].End? || (doc[r.pos].Start? && !IsBackOffStart(doc[r.pos]))
    ensures BackOffScan(doc, r) == BackOffScan(doc, r.(pos := r.pos + 1))
  {
  }

  /** Reading a `MessageXml` element yields its whole raw content and the
      retry hint the tree-level search finds in it. */
  lemma MessageXmlOfScoped(doc: seq<Token>, r: Reader, e: Node)
    requires e.Element? && Scoped(doc, r, e.children)
    ensures ParseMessageXml(doc, r) == Success(MessageXmlOf(e))
  {
    BackOffInForest(doc, r, e.children);
    if BackOffOf(e.children).None? {
      BackOffAtEnd(doc, r.(pos := r.pos + |FlattenAll(e.children)|));
    }
    var hint := BackOffScan(doc, r);
    assert hint == Success(BackOffOf(e.children));
    SpanOfScoped(doc, r, e.children);
    assert SpanText(doc, r) == InnerText(e);
  }

  lemma BackOffAtEnd(doc: seq<Token>, r: Reader)
    requires Valid(doc, r) && r.pos == r.hi
    ensures BackOffScan(doc, r) == Success(None)
  {
  }

  /** One child's effect on the detail fields, as the decoder loop applies
      it: only a proof device relating the loop to the last-wins reference. */
  function DetailStep(x: Node, whole: string, acc: FaultDetail): FaultDetail {
    if x.Leaf? then acc
    else if x.name.local == "ResponseCode" then acc.(responseCode := Some(InnerText(x)))
    else if x.name.local == "Message" then acc.(message := Some(InnerText(x)))
    else if x.name.local == "MessageXml" then acc.(messageXml := Some(MessageXmlOf(x)))
    else if acc.content.None? then acc.(content := Some(whole))
    else acc
  }

  lemma HasUnknownDetailCons(x: Node, t: seq<Node>)
    ensures HasUnknownDetailChild([x] + t) <==>
      (x.Element? && !IsDetailFieldName(x.name.local)) || HasUnknownDetailChild(t)
  {
    var f := [x] + t;
    assert f[0] == x;
    if HasUnknownDetailChild(t) {
      var k :| 0 <= k < |t| && t[k].Element? && !IsDetailFieldName(t[k].name.local);
      assert f[k + 1] == t[k];
    }
    if HasUnknownDetailChild(f) {
      var k :| 0 <= k < |f| && f[k].Element? && !IsDetailFieldName(f[k].name.local);
      if k > 0 {
        assert f[k] == t[k - 1];
      }
    }
  }

  /** Folding the reference from the front: the last-wins reading of
      `[x] + t` is the reading of `t` after applying `x`. */
  lemma DetailFieldsCons(x: Node, t: seq<Node>, whole: string, acc: FaultDetail)
    ensures DetailFieldsOf([x] + t, whole, acc) == DetailFieldsOf(t, whole, DetailStep(x, whole, acc))
  {
    LastTextCons(x, t, "ResponseCode", acc.responseCode);
    LastTextCons(x, t, "Message", acc.message);
    LastNamedCons(x, t, "MessageXml");
    HasUnknownDetailCons(x, t);
  }

  /** Reading the children of a `detail` element gives exactly the last-wins
      reference, the unknown-child content being the whole detail text. */
  lemma {:induction false} DetailInForest(doc: seq<Token>, r: Reader, f: seq<Node>, acc: FaultDetail)
    requires Covers(doc, r, f)
    ensures ParseDetailChildren(doc, r, acc) == Success(DetailFieldsOf(f, SpanText(doc, r), acc))
    decreases |f|
  {
    NextChildInForest(doc, r, f);
    if |f| > 0 {
      var x := f[0];
      var whole := SpanText(doc, r);
      assert f == [x] + f[1..];
      DetailFieldsCons(x, f[1..], whole, acc);
      if x.Leaf? {
        var r' := r.(pos := r.pos + 1);
        assert ParseDetailChildren(doc, r, acc) == ParseDetailChildren(doc, r', acc);
        DetailInForest(doc, r', f[1..], acc);
        assert SpanText(doc, r') == whole;
      } else {
        var c := ChildOf(r, x);
        DetailChildStep(doc, r, f, acc);
        DetailInForest(doc, c.rest, f[1..], DetailStep(x, whole, acc));
        assert SpanText(doc, c.rest) == whole;
      }
    }
  }

  /** The decoder loop applies `DetailStep` for the element at the cursor. */
  lemma DetailChildStep(doc: seq<Token>, r: Reader, f: seq<Node>, acc: FaultDetail)
    requires Covers(doc, r, f) && |f| > 0 && f[0].Element?
    ensures Covers(doc, ChildOf(r, f[0]).rest, f[1..])
    ensures ParseDetailChildren(doc, r, acc) ==
      ParseDetailChildren(doc, ChildOf(r, f[0]).rest, DetailStep(f[0], SpanText(doc, r), acc))
  {
    var x := f[0];
    NextChildInForest(doc, r, f);
    var c := ChildOf(r, x);
    SpanOfScoped(doc, c.sub, x.children);
    if x.name.local == "MessageXml" {
      MessageXmlOfScoped(doc, c.sub, x);
    }
  }

  /** A `detail` element reads as the tree-level `DetailOf`. */
  lemma DetailOfScoped(doc: seq<Token>, r: Reader, e: Node)
    requires e.Element? && Scoped(doc, r, e.children)
    ensures ParseDetail(doc, r) == Success(DetailOf(e))
  {
    DetailInForest(doc, r, e.children, NoDetail);
    SpanOfScoped(doc, r, e.children);
  }

  /** One child's effect on the fault fields, as the decoder loop applies it. */
  function FaultStep(x: Node, acc: FaultFields): FaultFields {
    if x.Leaf? then acc
    else if x.name.local == "faultcode" then acc.(code := Some(InnerText(x)))
    else if x.name.local == "faultstring" then acc.(str := Some(InnerText(x)))
    else if x.name.local == "faultactor" then acc.(actor := Some(InnerText(x)))
    else if x.name.local == "detail" then acc.(detail := Some(DetailOf(x)))
    else acc
  }

  lemma FaultFieldsCons(x: Node, t: seq<Node>, acc: FaultFields)
    ensures FaultFieldsOf([x] + t, acc) == FaultFieldsOf(t, FaultStep(x, acc))
  {
    var acc' := FaultStep(x, acc);
    LastTextCons(x, t, "faultcode", acc.code);
    LastTextCons(x, t, "faultstring", acc.str);
    LastTextCons(x, t, "faultactor", acc.actor);
    LastNamedCons(x, t, "detail");
    assert acc'.code == if IsElementNamed(x, "faultcode") then Some(InnerText(x)) else acc.code;
    assert acc'.str == if IsElementNamed(x, "faultstring") then Some(InnerText(x)) else acc.str;
    assert acc'.actor == if IsElementNamed(x, "faultactor") then Some(InnerText(x)) else acc.actor;
    assert acc'.detail == if IsElementNamed(x, "detail") then Some(DetailOf(x)) else acc.detail;
  }

  /** `LastText` from the front: the head only matters when the tail has no
      child of that name. */
  lemma LastTextCons(x: Node, t: seq<Node>, n: string, otherwise: Option<string>)
    ensures LastText([x] + t, n, otherwise) ==
      LastText(t, n, if IsElementNamed(x, n) then Some(InnerText(x)) else otherwise)
  {
    LastNamedCons(x, t, n);
  }

  /** Reading the children of a `Fault` element gives exactly the last-wins
      reference. */
  lemma {:induction false} FaultInForest(doc: seq<Token>, r: Reader, f: seq<Node>, acc: FaultFields)
    requires Covers(doc, r, f)
    ensures ParseFaultChildren(doc, r, acc) == Success(FaultFieldsOf(f, acc))
    decreases |f|
  {
    NextChildInForest(doc, r, f);
    if |f| > 0 {
      var x := f[0];
      assert f == [x] + f[1..];
      FaultFieldsCons(x, f[1..], acc);
      if x.Leaf? {
        FaultInForest(doc, r.(pos := r.pos + 1), f[1..], acc);
      } else {
        var c := ChildOf(r, x);
        assert NextChild(doc, r) == Success(Some(c));
        SpanOfScoped(doc, c.sub, x.children);
        var acc' := FaultStep(x, acc);
        if x.name.local == "detail" {
          DetailOfScoped(doc, c.sub, x);
        }
        assert ParseFaultChildren(doc, r, acc) == ParseFaultChildren(doc, c.rest, acc');
        FaultInForest(doc, c.rest, f[1..], acc');
      }
    }
  }

  /** The probe's outcome once the Envelope search has found nothing. */
  lemma ProbeWithoutEnvelope(doc: seq<Token>)
    requires FindTag(doc, FromBytes(doc), "Envelope") == Success(None)
    ensures ExtractMaybeFault(doc) == Failure(FaultDecoder.UnexpectedResponse(doc))
  {
  }

  /** The probe's outcome once the Body search has found nothing. */
  lemma ProbeWithoutBody(doc: seq<Token>, ce: Child)
    requires FindTag(doc, FromBytes(doc), "Envelope") == Success(Some(ce))
    requires FindTag(doc, ce.sub, "Body") == Success(None)
    ensures ExtractMaybeFault(doc) == Failure(FaultDecoder.UnexpectedResponse(doc))
  {
  }

  /** The probe's outcome once the Fault search has found nothing. */
  lemma ProbeWithoutFault(doc: seq<Token>, ce: Child, cb: Child)
    requires FindTag(doc, FromBytes(doc), "Envelope") == Success(Some(ce))
    requires FindTag(doc, ce.sub, "Body") == Success(Some(cb))
    requires FindTag(doc, cb.sub, "Fault") == Success(None)
    ensures ExtractMaybeFault(doc) == Success(None)
  {
  }

  /** The probe's outcome once the Fault element's children are read. */
  lemma ProbeWithFault(doc: seq<Token>, ce: Child, cb: Child, cf: Child, fs: FaultFields)
    requires FindTag(doc, FromBytes(doc), "Envelope") == Success(Some(ce))
    requires FindTag(doc, ce.sub, "Body") == Success(Some(cb))
    requires FindTag(doc, cb.sub, "Fault") == Success(Some(cf))
    requires ParseFaultChildren(doc, cf.sub, NoFields) == Success(fs)
    ensures fs.code.None? || fs.str.None? ==>
      ExtractMaybeFault(doc) == Failure(FaultDecoder.UnexpectedResponse(doc))
    ensures fs.code.Some? && fs.str.Some? ==>
      ExtractMaybeFault(doc) == Success(Some(Fault(fs.code.value, fs.str.value, fs.actor, fs.detail)))
  {
  }

  /** Once Envelope and Body are found, the probe's outcome is the
      tree-level outcome of the Body's content. */
  lemma ProbeInBody(doc: seq<Token>, ce: Child, cb: Child, f: seq<Node>)
    requires FindTag(doc, FromBytes(doc), "Envelope") == Success(Some(ce))
    requires FindTag(doc, ce.sub, "Body") == Success(Some(cb))
    requires Covers(doc, cb.sub, f)
    ensures ExtractMaybeFault(doc) == BodyOutcome(f, FaultDecoder.UnexpectedResponse(doc))
  {
    FindInCovered(doc, cb.sub, f, "Fault");
    var found := FindTag(doc, cb.sub, "Fault");
    match FirstNamed(f, "Fault")
    case None =>
      ProbeWithoutFault(doc, ce, cb);
    case Some(fault) =>
      var cf := found.value.value;
      assert found == Success(Some(cf));
      ProbeAtFault(doc, ce, cb, cf, fault);
  }

  /** Once the Fault element is found, the probe's outcome is the fault the
      element denotes, or an unexpected response. */
  lemma ProbeAtFault(doc: seq<Token>, ce: Child, cb: Child, cf: Child, fault: Node)
    requires FindTag(doc, FromBytes(doc), "Envelope") == Success(Some(ce))
    requires FindTag(doc, ce.sub, "Body") == Success(Some(cb))
    requires FindTag(doc, cb.sub, "Fault") == Success(Some(cf))
    requires fault.Element? && Covers(doc, cf.sub, fault.children)
    ensures ExtractMaybeFault(doc) == (match FaultOf(fault.children)
      case None => Failure(FaultDecoder.UnexpectedResponse(doc))
      case Some(flt) => Success(Some(flt)))
  {
    var fs := FaultFieldsOf(fault.children, NoFields);
    FaultInForest(doc, cf.sub, fault.children, NoFields);
    ProbeWithFault(doc, ce, cb, cf, fs);
  }

  /** Once the Envelope is found, the probe's outcome is decided by the first
      Body inside it. */
  lemma ProbeInEnvelope(doc: seq<Token>, ce: Child, envelope: Node)
    requires FindTag(doc, FromBytes(doc), "Envelope") == Success(Some(ce))
    requires envelope.Element? && Covers(doc, ce.sub, envelope.children)
    ensures ExtractMaybeFault(doc) == (match FirstNamed(envelope.children, "Body")
      case None => Failure(FaultDecoder.UnexpectedResponse(doc))
      case Some(body) => BodyOutcome(body.children, FaultDecoder.UnexpectedResponse(doc)))
  {
    FindInCovered(doc, ce.sub, envelope.children, "Body");
    var found := FindTag(doc, ce.sub, "Body");
    match FirstNamed(envelope.children, "Body")
    case None =>
      ProbeWithoutBody(doc, ce);
    case Some(body) =>
      var cb := found.value.value;
      assert found == Success(Some(cb));
      ProbeInBody(doc, ce, cb, body.children);
  }

  /** The fault probe on any well-nested document is the tree-level
      `ProbeOutcome`: no XML error, the first Envelope, Body and Fault, and
      the fields by the last-wins rule. */
  lemma ExtractOfForest(forest: seq<Node>)
    ensures ExtractMaybeFault(FlattenAll(forest)) == ProbeOutcome(forest)
  {
    var doc := FlattenAll(forest);
    var root := FromBytes(doc);
    assert doc[0..|doc|] == doc;
    assert Covers(doc, root, forest);
    FindInCovered(doc, root, forest, "Envelope");
    var found := FindTag(doc, root, "Envelope");
    match FirstNamed(forest, "Envelope")
    case None =>
      ProbeWithoutEnvelope(doc);
    case Some(envelope) =>
      var ce := found.value.value;
      assert found == Success(Some(ce));
      ProbeInEnvelope(doc, ce, envelope);
  }
}
