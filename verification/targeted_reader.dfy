/** The span reader: a cursor over one shared document, scoped to a stretch
    of it.  Locating an element hands back a fresh reader scoped to exactly
    that element's content and leaves the parent positioned after the
    element's end tag, so nothing is copied and a subtree is skipped in one
    pass. */
module TargetedReader {
  import opened Wrappers
  import opened XmlTokens
  import opened SoapTypes

  /** A reader over the tokens `[lo, hi)` of a document, about to read the
      token at `pos`. */
  datatype Reader = Reader(lo: nat, hi: nat, pos: nat)

  predicate Valid(doc: seq<Token>, r: Reader) {
    r.lo <= r.pos <= r.hi <= |doc|
  }

  /** An element a reader located: its local name, a fresh reader over its
      content, and the locating reader advanced past the element's end tag. */
  datatype Child = Child(local: string, sub: Reader, rest: Reader)

  /** A reader over a whole document, at its start: nothing is behind its
      cursor and its text is the whole document. */
  function FromBytes(doc: seq<Token>): (r: Reader)
    ensures Valid(doc, r) && r.pos == r.lo
    ensures SpanText(doc, r) == Raw(doc)
  {
    assert doc[0..|doc|] == doc;
    Reader(0, |doc|, 0)
  }

  /** The index, at or after `from` and before `hi`, of the end tag that closes
      an element named `name` when `depth` elements of that same name are still
      open inside it.  Only tags with exactly `name`, prefix included, change
      the depth.  `None` when the stretch ends first or the tokenizer fails. */
  function MatchingEnd(doc: seq<Token>, name: QName, from: nat, hi: nat, depth: nat): (j: Option<nat>)
    requires from <= hi <= |doc|
    ensures j.Some? ==> from <= j.value < hi && doc[j.value].End? && doc[j.value].name == name
    decreases hi - from
  {
    if from == hi then None
    else match doc[from]
      case Start(q, _, _) =>
        MatchingEnd(doc, name, from + 1, hi, if q == name then depth + 1 else depth)
      case End(q, _) =>
        if q == name && depth == 0 then Some(from)
        else MatchingEnd(doc, name, from + 1, hi, if q == name then depth - 1 else depth)
      case Malformed(_) => None
      case _ => MatchingEnd(doc, name, from + 1, hi, depth)
  }

  /** Opens the element whose start tag is at index `i`: its content runs up to
      the matching end tag, which must lie inside the reader's stretch. */
  function Open(doc: seq<Token>, r: Reader, i: nat): (res: Result<Child, Error>)
    requires Valid(doc, r) && r.pos <= i < r.hi && doc[i].Start?
    ensures res.Success? ==>
      var c := res.value;
      && c.local == doc[i].name.local
      && c.sub.lo == i + 1 && c.sub.pos == i + 1 && c.sub.lo <= c.sub.hi < r.hi
      && doc[c.sub.hi].End? && doc[c.sub.hi].name == doc[i].name
      && MatchingEnd(doc, doc[i].name, i + 1, r.hi, 0) == Some(c.sub.hi)
      && c.rest == r.(pos := c.sub.hi + 1)
    ensures res.Failure? ==> res.error == Xml
  {
    match MatchingEnd(doc, doc[i].name, i + 1, r.hi, 0)
    case None => Failure(Xml)
    case Some(j) => Success(Child(doc[i].name.local, Reader(i + 1, j, i + 1), r.(pos := j + 1)))
  }

  /** Searches forward, at any depth, for the first start tag whose local name
      is `n`, and opens that element.  Running out of the stretch is not an
      error: the element is simply absent. */
  function FindTag(doc: seq<Token>, r: Reader, n: string): (res: Result<Option<Child>, Error>)
    requires Valid(doc, r)
    ensures res.Success? && res.value.Some? ==>
      var c := res.value.value;
      && r.pos < c.sub.lo <= c.sub.hi < r.hi
      && c.local == n && IsStartNamed(doc[c.sub.lo - 1], n)
      && doc[c.sub.hi].End? && doc[c.sub.hi].name == doc[c.sub.lo - 1].name
      && MatchingEnd(doc, doc[c.sub.lo - 1].name, c.sub.lo, r.hi, 0) == Some(c.sub.hi)
      && c.sub.pos == c.sub.lo && c.rest == r.(pos := c.sub.hi + 1)
    ensures res.Failure? ==> res.error == Xml
    decreases r.hi - r.pos
  {
    if r.pos == r.hi then Success(None)
    else match doc[r.pos]
      case Start(q, _, _) =>
        if q.local == n then
          (match Open(doc, r, r.pos)
           case Success(c) => Success(Some(c))
           case Failure(e) => Failure(e))
        else FindTag(doc, r.(pos := r.pos + 1), n)
      case Malformed(_) => Failure(Xml)
      case _ => FindTag(doc, r.(pos := r.pos + 1), n)
  }

  /** Opens the next element whose start tag is at or after the cursor.  Since
      opening an element moves the cursor past its end tag, successive calls
      visit the direct children of the reader's stretch in order. */
  function NextChild(doc: seq<Token>, r: Reader): (res: Result<Option<Child>, Error>)
    requires Valid(doc, r)
    ensures res.Success? && res.value.Some? ==>
      var c := res.value.value;
      && r.pos < c.sub.lo <= c.sub.hi < r.hi
      && doc[c.sub.lo - 1].Start? && c.local == doc[c.sub.lo - 1].name.local
      && doc[c.sub.hi].End? && doc[c.sub.hi].name == doc[c.sub.lo - 1].name
      && MatchingEnd(doc, doc[c.sub.lo - 1].name, c.sub.lo, r.hi, 0) == Some(c.sub.hi)
      && c.sub.pos == c.sub.lo && c.rest == r.(pos := c.sub.hi + 1)
    ensures res.Failure? ==> res.error == Xml
    decreases r.hi - r.pos
  {
    if r.pos == r.hi then Success(None)
    else match doc[r.pos]
      case Start(_, _, _) =>
        (match Open(doc, r, r.pos)
         case Success(c) => Success(Some(c))
         case Failure(e) => Failure(e))
      case Malformed(_) => Failure(Xml)
      case _ => NextChild(doc, r.(pos := r.pos + 1))
  }

  /** The element `FindTag` opens is the first start tag with that local name
      from the cursor on, and the tokenizer did not fail before it. */
  lemma {:induction false} FindTagFirst(doc: seq<Token>, r: Reader, n: string)
    requires Valid(doc, r) && FindTag(doc, r, n).Success? && FindTag(doc, r, n).value.Some?
    ensures forall k :: r.pos <= k < FindTag(doc, r, n).value.value.sub.lo - 1 ==>
      !IsStartNamed(doc[k], n) && !doc[k].Malformed?
    decreases r.hi - r.pos
  {
    if !IsStartNamed(doc[r.pos], n) {
      FindTagFirst(doc, r.(pos := r.pos + 1), n);
    }
  }

  /** `FindTag` finds nothing exactly when no start tag from the cursor to the
      end of the stretch has that local name and the tokenizer never fails
      there. */
  lemma {:induction false} FindTagNone(doc: seq<Token>, r: Reader, n: string)
    requires Valid(doc, r)
    ensures FindTag(doc, r, n) == Success(None) <==>
      forall k :: r.pos <= k < r.hi ==> !IsStartNamed(doc[k], n) && !doc[k].Malformed?
    decreases r.hi - r.pos
  {
    if r.pos < r.hi {
      FindTagNone(doc, r.(pos := r.pos + 1), n);
    }
  }

  /** The element `NextChild` opens starts at the first start tag from the
      cursor on, and the tokenizer did not fail before it. */
  lemma {:induction false} NextChildFirst(doc: seq<Token>, r: Reader)
    requires Valid(doc, r) && NextChild(doc, r).Success? && NextChild(doc, r).value.Some?
    ensures forall k :: r.pos <= k < NextChild(doc, r).value.value.sub.lo - 1 ==>
      !doc[k].Start? && !doc[k].Malformed?
    decreases r.hi - r.pos
  {
    if !doc[r.pos].Start? {
      NextChildFirst(doc, r.(pos := r.pos + 1));
    }
  }

  /** `NextChild` finds nothing exactly when no start tag is left in the
      stretch and the tokenizer never fails there. */
  lemma {:induction false} NextChildNone(doc: seq<Token>, r: Reader)
    requires Valid(doc, r)
    ensures NextChild(doc, r) == Success(None) <==>
      forall k :: r.pos <= k < r.hi ==> !doc[k].Start? && !doc[k].Malformed?
    decreases r.hi - r.pos
  {
    if r.pos < r.hi {
      NextChildNone(doc, r.(pos := r.pos + 1));
    }
  }

  /** The raw text of the reader's whole stretch, wherever its cursor is. */
  function SpanText(doc: seq<Token>, r: Reader): string
    requires r.lo <= r.hi <= |doc|
  {
    Raw(doc[r.lo..r.hi])
  }

  /** Every element `NextChild` yields, one call after another, until it yields
      none: the loop that walks a fault's or a detail's children. */
  function ChildList(doc: seq<Token>, r: Reader): (res: Result<seq<Child>, Error>)
    requires Valid(doc, r)
    ensures res.Failure? ==> res.error == Xml
    decreases r.hi - r.pos
  {
    match NextChild(doc, r)
    case Failure(e) => Failure(e)
    case Success(None) => Success([])
    case Success(Some(c)) =>
      match ChildList(doc, c.rest)
      case Failure(e) => Failure(e)
      case Success(cs) => Success([c] + cs)
  }

  /** The children lie inside the stretch after the cursor, each at a start
      tag whose local name it carries, one after another without overlap. */
  predicate ChildSpans(doc: seq<Token>, r: Reader, cs: seq<Child>) {
    && r.hi <= |doc|
    && (forall k :: 0 <= k < |cs| ==>
         && r.pos < cs[k].sub.lo <= cs[k].sub.hi < r.hi
         && doc[cs[k].sub.lo - 1].Start?
         && cs[k].local == doc[cs[k].sub.lo - 1].name.local)
    && (forall k :: 0 < k < |cs| ==> cs[k - 1].sub.hi < cs[k].sub.lo)
  }

  lemma {:induction false} ChildListSpans(doc: seq<Token>, r: Reader)
    requires Valid(doc, r) && ChildList(doc, r).Success?
    ensures ChildSpans(doc, r, ChildList(doc, r).value)
    decreases r.hi - r.pos
  {
    var next := NextChild(doc, r).value;
    if next.Some? {
      var c := next.value;
      ChildListSpans(doc, c.rest);
      var cs := ChildList(doc, c.rest).value;
      assert ChildList(doc, r).value == [c] + cs;
      ChildSpansCons(doc, r, c, cs);
    }
  }

  lemma ChildSpansCons(doc: seq<Token>, r: Reader, c: Child, cs: seq<Child>)
    requires r.pos < c.sub.lo <= c.sub.hi < r.hi <= |doc|
    requires doc[c.sub.lo - 1].Start? && c.local == doc[c.sub.lo - 1].name.local
    requires c.rest == r.(pos := c.sub.hi + 1)
    requires ChildSpans(doc, c.rest, cs)
    ensures ChildSpans(doc, r, [c] + cs)
  {
    var all := [c] + cs;
    forall k | 0 <= k < |all|
      ensures r.pos < all[k].sub.lo <= all[k].sub.hi < r.hi
      ensures doc[all[k].sub.lo - 1].Start? && all[k].local == doc[all[k].sub.lo - 1].name.local
    {
      if k > 0 {
        assert all[k] == cs[k - 1];
      }
    }
    forall k | 0 < k < |all|
      ensures all[k - 1].sub.hi < all[k].sub.lo
    {
      assert all[k] == cs[k - 1];
      if k > 1 {
        assert all[k - 1] == cs[k - 2];
      }
    }
  }
}
