/** The span reader on well-nested documents.  When a reader's cursor stands
    at the start of a flattened forest, locating an element finds exactly the
    element the tree search finds, and enumerating children yields exactly
    the forest's elements; each sub-reader is scoped to exactly the child's
    own content.  None of these operations fails on such documents. */
module ReaderProofs {
  import opened Wrappers
  import opened XmlTokens
  import opened XmlTree
  import opened SoapTypes
  import opened TargetedReader

  /** The cursor of `r` is at the start of forest `f`, which ends inside the
      reader's stretch. */
  predicate AtForest(doc: seq<Token>, r: Reader, f: seq<Node>) {
    Valid(doc, r) && Placed(doc, r.pos, FlattenAll(f)) && r.pos + |FlattenAll(f)| <= r.hi
  }

  /** The rest of the reader's stretch, from its cursor on, is forest `f`. */
  predicate Covers(doc: seq<Token>, r: Reader, f: seq<Node>) {
    AtForest(doc, r, f) && r.pos + |FlattenAll(f)| == r.hi
  }

  /** The element an `Open` at the cursor hands back for element `e`. */
  function ChildOf(r: Reader, e: Node): Child
    requires e.Element?
  {
    var inner := |FlattenAll(e.children)|;
    Child(e.name.local, Reader(r.pos + 1, r.pos + 1 + inner, r.pos + 1), r.(pos := r.pos + inner + 2))
  }

  /** Looking for an end tag across a whole forest neither finds one nor
      changes the depth: the forest is balanced for every name. */
  lemma {:induction false} MatchingEndSkipsForest(doc: seq<Token>, q: QName, k: nat, hi: nat, d: nat, f: seq<Node>)
    requires Placed(doc, k, FlattenAll(f)) && k + |FlattenAll(f)| <= hi <= |doc|
    ensures MatchingEnd(doc, q, k, hi, d) == MatchingEnd(doc, q, k + |FlattenAll(f)|, hi, d)
    decreases f, 1
  {
    if |f| > 0 {
      PlacedForest(doc, k, f);
      var next := k + |Flatten(f[0])|;
      assert FlattenAll(f) == Flatten(f[0]) + FlattenAll(f[1..]);
      MatchingEndSkipsNode(doc, q, k, hi, d, f[0]);
      MatchingEndSkipsForest(doc, q, next, hi, d, f[1..]);
    } else {
      assert k + |FlattenAll(f)| == k;
    }
  }

  /** The same for a single node. */
  lemma {:induction false} MatchingEndSkipsNode(doc: seq<Token>, q: QName, k: nat, hi: nat, d: nat, x: Node)
    requires Placed(doc, k, Flatten(x)) && k + |Flatten(x)| <= hi <= |doc|
    ensures MatchingEnd(doc, q, k, hi, d) == MatchingEnd(doc, q, k + |Flatten(x)|, hi, d)
    decreases x, 0
  {
    match x
    case Leaf(t) =>
      PlacedLeaf(doc, k, x);
      assert |Flatten(x)| == 1;
      assert !doc[k].Start? && !doc[k].End? && !doc[k].Malformed?;
    case Element(q0, _, _, cs, _) =>
      PlacedElement(doc, k, x);
      var d1 := if q0 == q then d + 1 else d;
      var e := k + 1 + |FlattenAll(cs)|;
      assert MatchingEnd(doc, q, k, hi, d) == MatchingEnd(doc, q, k + 1, hi, d1);
      MatchingEndSkipsForest(doc, q, k + 1, hi, d1, cs);
      assert MatchingEnd(doc, q, e, hi, d1) == MatchingEnd(doc, q, e + 1, hi, d);
  }

  /** The end tag matching a placed element's start tag is its own. */
  lemma MatchingEndOfElement(doc: seq<Token>, k: nat, hi: nat, e: Node)
    requires e.Element? && Placed(doc, k, Flatten(e)) && k + |Flatten(e)| <= hi <= |doc|
    ensures MatchingEnd(doc, e.name, k + 1, hi, 0) == Some(k + 1 + |FlattenAll(e.children)|)
  {
    PlacedElement(doc, k, e);
    MatchingEndSkipsForest(doc, e.name, k + 1, hi, 0, e.children);
  }

  /** Opening an element at the cursor scopes the sub-reader to exactly the
      element's content and moves the cursor past its end tag. */
  lemma OpenElement(doc: seq<Token>, r: Reader, e: Node)
    requires Valid(doc, r) && e.Element? && Placed(doc, r.pos, Flatten(e)) && r.pos + |Flatten(e)| <= r.hi
    ensures doc[r.pos] == StartOf(e)
    ensures Open(doc, r, r.pos) == Success(ChildOf(r, e))
    ensures Covers(doc, ChildOf(r, e).sub, e.children)
  {
    PlacedElement(doc, r.pos, e);
    MatchingEndOfElement(doc, r.pos, r.hi, e);
    OpenUpTo(doc, r, ChildOf(r, e).sub.hi);
  }

  /** `Open` at the cursor, once the matching end tag is known to be at `j`. */
  lemma OpenUpTo(doc: seq<Token>, r: Reader, j: nat)
    requires Valid(doc, r) && r.pos < r.hi && doc[r.pos].Start?
    requires MatchingEnd(doc, doc[r.pos].name, r.pos + 1, r.hi, 0) == Some(j)
    ensures Open(doc, r, r.pos) == Success(Child(doc[r.pos].name.local, Reader(r.pos + 1, j, r.pos + 1), r.(pos := j + 1)))
  {
  }

  /** The text of the sub-reader for an opened element is the element's inner
      text: its start and end tags are cut off. */
  lemma SubreaderText(doc: seq<Token>, r: Reader, e: Node)
    requires Valid(doc, r) && e.Element? && Placed(doc, r.pos, Flatten(e)) && r.pos + |Flatten(e)| <= r.hi
    ensures Open(doc, r, r.pos).Success?
    ensures SpanText(doc, Open(doc, r, r.pos).value.sub) == InnerText(e)
  {
    OpenElement(doc, r, e);
    var sub := ChildOf(r, e).sub;
    assert doc[sub.lo..sub.hi] == FlattenAll(e.children);
  }

  /** Locating by local name finds the first match of the tree search, in
      document order at any depth, with a sub-reader over exactly its
      content; when the forest holds no match the search runs on past it. */
  lemma {:induction false} FindInForest(doc: seq<Token>, r: Reader, f: seq<Node>, n: string)
    requires AtForest(doc, r, f)
    ensures FirstNamed(f, n).None? ==>
      FindTag(doc, r, n) == FindTag(doc, r.(pos := r.pos + |FlattenAll(f)|), n)
    ensures FirstNamed(f, n).Some? ==>
      && FindTag(doc, r, n).Success? && FindTag(doc, r, n).value.Some?
      && Covers(doc, FindTag(doc, r, n).value.value.sub, FirstNamed(f, n).value.children)
    decreases f, 2
  {
    if |f| == 0 {
      assert r.(pos := r.pos + |FlattenAll(f)|) == r;
    } else if FirstNamedIn(f[0], n).None? {
      FindPastHead(doc, r, f, n);
    } else {
      FindAtHead(doc, r, f, n);
    }
  }

  /** The first node of the forest holds the match. */
  lemma {:induction false} FindAtHead(doc: seq<Token>, r: Reader, f: seq<Node>, n: string)
    requires AtForest(doc, r, f) && |f| > 0 && FirstNamedIn(f[0], n).Some?
    ensures FirstNamed(f, n) == FirstNamedIn(f[0], n)
    ensures FindTag(doc, r, n).Success? && FindTag(doc, r, n).value.Some?
    ensures Covers(doc, FindTag(doc, r, n).value.value.sub, FirstNamedIn(f[0], n).value.children)
    decreases f, 0
  {
    PlacedForest(doc, r.pos, f);
    FindInNode(doc, r, f[0], n);
  }

  /** The first node of the forest has no match: the search passes over it
      and goes on in the rest of the forest. */
  lemma {:induction false} FindPastHead(doc: seq<Token>, r: Reader, f: seq<Node>, n: string)
    requires AtForest(doc, r, f) && |f| > 0 && FirstNamedIn(f[0], n).None?
    ensures FirstNamed(f, n) == FirstNamed(f[1..], n)
    ensures FirstNamed(f, n).None? ==>
      FindTag(doc, r, n) == FindTag(doc, r.(pos := r.pos + |FlattenAll(f)|), n)
    ensures FirstNamed(f, n).Some? ==>
      && FindTag(doc, r, n).Success? && FindTag(doc, r, n).value.Some?
      && Covers(doc, FindTag(doc, r, n).value.value.sub, FirstNamed(f, n).value.children)
    decreases f, 1
  {
    var next := SkipHead(doc, r, f, n);
    FindInForest(doc, next, f[1..], n);
    var found := FindTag(doc, next, n);
    assert FindTag(doc, r, n) == found;
    if FirstNamed(f[1..], n).None? {
      assert next.(pos := next.pos + |FlattenAll(f[1..])|) == r.(pos := r.pos + |FlattenAll(f)|);
    } else {
      assert found.Success? && found.value.Some?;
      assert Covers(doc, found.value.value.sub, FirstNamed(f[1..], n).value.children);
    }
  }

  /** Passing over a first node without a match leaves the search where it
      would stand at the start of the rest of the forest. */
  lemma {:induction false} SkipHead(doc: seq<Token>, r: Reader, f: seq<Node>, n: string) returns (next: Reader)
    requires AtForest(doc, r, f) && |f| > 0 && FirstNamedIn(f[0], n).None?
    ensures FirstNamed(f, n) == FirstNamed(f[1..], n)
    ensures AtForest(doc, next, f[1..]) && next == r.(pos := next.pos)
    ensures next.pos + |FlattenAll(f[1..])| == r.pos + |FlattenAll(f)|
    ensures FindTag(doc, r, n) == FindTag(doc, next, n)
    decreases f, 0
  {
    PlacedForest(doc, r.pos, f);
    next := r.(pos := r.pos + |Flatten(f[0])|);
    assert FlattenAll(f) == Flatten(f[0]) + FlattenAll(f[1..]);
    FindInNode(doc, r, f[0], n);
  }

  /** Over a reader whose remaining stretch is exactly forest `f`, the search
      fails to find `n` exactly when the tree has no element named `n`, and
      otherwise opens the tree's first one. */
  lemma FindInCovered(doc: seq<Token>, r: Reader, f: seq<Node>, n: string)
    requires Covers(doc, r, f)
    ensures FirstNamed(f, n).None? ==> FindTag(doc, r, n) == Success(None)
    ensures FirstNamed(f, n).Some? ==>
      && FindTag(doc, r, n).Success? && FindTag(doc, r, n).value.Some?
      && Covers(doc, FindTag(doc, r, n).value.value.sub, FirstNamed(f, n).value.children)
  {
    FindInForest(doc, r, f, n);
    var atEnd := r.(pos := r.pos + |FlattenAll(f)|);
    assert atEnd.pos == atEnd.hi;
    assert FindTag(doc, atEnd, n) == Success(None);
  }

  /** The same for a single node. */
  lemma {:induction false} FindInNode(doc: seq<Token>, r: Reader, x: Node, n: string)
    requires Valid(doc, r) && Placed(doc, r.pos, Flatten(x)) && r.pos + |Flatten(x)| <= r.hi
    ensures FirstNamedIn(x, n).None? ==>
      FindTag(doc, r, n) == FindTag(doc, r.(pos := r.pos + |Flatten(x)|), n)
    ensures FirstNamedIn(x, n).Some? ==>
      && FindTag(doc, r, n).Success? && FindTag(doc, r, n).value.Some?
      && Covers(doc, FindTag(doc, r, n).value.value.sub, FirstNamedIn(x, n).value.children)
    decreases x, 1
  {
    if x.Leaf? {
      PlacedLeaf(doc, r.pos, x);
      FindPassesToken(doc, r, n);
    } else if x.name.local == n {
      OpenElement(doc, r, x);
    } else {
      FindInElement(doc, r, x, n);
    }
  }

  /** An element whose own name does not match is searched inside. */
  lemma {:induction false} FindInElement(doc: seq<Token>, r: Reader, x: Node, n: string)
    requires Valid(doc, r) && Placed(doc, r.pos, Flatten(x)) && r.pos + |Flatten(x)| <= r.hi
    requires x.Element? && x.name.local != n
    ensures FirstNamed(x.children, n).None? ==>
      FindTag(doc, r, n) == FindTag(doc, r.(pos := r.pos + |Flatten(x)|), n)
    ensures FirstNamed(x.children, n).Some? ==>
      && FindTag(doc, r, n).Success? && FindTag(doc, r, n).value.Some?
      && Covers(doc, FindTag(doc, r, n).value.value.sub, FirstNamed(x.children, n).value.children)
    decreases x, 0
  {
    var cs := x.children;
    PlacedElement(doc, r.pos, x);
    var inside := r.(pos := r.pos + 1);
    FindPassesToken(doc, r, n);
    FindInForest(doc, inside, cs, n);
    if FirstNamed(cs, n).None? {
      var atEnd := r.(pos := r.pos + 1 + |FlattenAll(cs)|);
      var after := r.(pos := r.pos + |Flatten(x)|);
      assert inside.(pos := inside.pos + |FlattenAll(cs)|) == atEnd;
      assert FindTag(doc, inside, n) == FindTag(doc, atEnd, n);
      assert doc[atEnd.pos] == EndOf(x);
      FindPassesToken(doc, atEnd, n);
      assert atEnd.(pos := atEnd.pos + 1) == after;
      assert FindTag(doc, r, n) == FindTag(doc, after, n);
    } else {
      var found := FindTag(doc, inside, n);
      assert FindTag(doc, r, n) == found;
      assert Covers(doc, found.value.value.sub, FirstNamed(cs, n).value.children);
    }
  }

  /** A token that is neither a matching start tag nor a tokenizer failure is
      stepped over. */
  lemma FindPassesToken(doc: seq<Token>, r: Reader, n: string)
    requires Valid(doc, r) && r.pos < r.hi
    requires !IsStartNamed(doc[r.pos], n) && !doc[r.pos].Malformed?
    ensures FindTag(doc, r, n) == FindTag(doc, r.(pos := r.pos + 1), n)
  {
  }

  /** On a forest, the next child is the forest's first element: the leaves
      before it are passed over, and the cursor then stands at the start of
      the remaining forest. */
  lemma NextChildInForest(doc: seq<Token>, r: Reader, f: seq<Node>)
    requires Covers(doc, r, f)
    ensures |f| == 0 ==> NextChild(doc, r) == Success(None)
    ensures |f| > 0 && f[0].Leaf? ==>
      && Covers(doc, r.(pos := r.pos + 1), f[1..])
      && NextChild(doc, r) == NextChild(doc, r.(pos := r.pos + 1))
    ensures |f| > 0 && f[0].Element? ==>
      && NextChild(doc, r) == Success(Some(ChildOf(r, f[0])))
      && Covers(doc, ChildOf(r, f[0]).sub, f[0].children)
      && Covers(doc, ChildOf(r, f[0]).rest, f[1..])
  {
    if |f| > 0 {
      PlacedForest(doc, r.pos, f);
      assert r.pos + |FlattenAll(f)| == r.pos + |Flatten(f[0])| + |FlattenAll(f[1..])|;
      if f[0].Leaf? {
        PlacedLeaf(doc, r.pos, f[0]);
      } else {
        OpenElement(doc, r, f[0]);
      }
    }
  }

  /** Enumerating the children of a forest yields exactly its elements, in
      order and never an element nested inside one of them, each with a
      reader over exactly that element's content. */
  lemma {:induction false} ChildListOfForest(doc: seq<Token>, r: Reader, f: seq<Node>)
    requires Covers(doc, r, f)
    ensures ChildList(doc, r).Success?
    ensures |ChildList(doc, r).value| == |Elements(f)|
    ensures forall k :: 0 <= k < |Elements(f)| ==>
      && ChildList(doc, r).value[k].local == Elements(f)[k].name.local
      && Covers(doc, ChildList(doc, r).value[k].sub, Elements(f)[k].children)
    decreases |f|
  {
    NextChildInForest(doc, r, f);
    if |f| > 0 {
      if f[0].Leaf? {
        var r' := r.(pos := r.pos + 1);
        ChildListOfForest(doc, r', f[1..]);
        assert ChildList(doc, r) == ChildList(doc, r');
      } else {
        var c := ChildOf(r, f[0]);
        ChildListOfForest(doc, c.rest, f[1..]);
        var tail := ChildList(doc, c.rest).value;
        var cs := ChildList(doc, r).value;
        assert cs == [c] + tail;
        assert Elements(f) == [f[0]] + Elements(f[1..]);
        forall k | 0 <= k < |Elements(f)|
          ensures cs[k].local == Elements(f)[k].name.local
          ensures Covers(doc, cs[k].sub, Elements(f)[k].children)
        {
          if k > 0 {
            assert cs[k] == tail[k - 1];
            assert Elements(f)[k] == Elements(f[1..])[k - 1];
          }
        }
      }
    }
  }
}
