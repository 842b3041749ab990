/** Well-nested documents as trees.  A forest of nodes flattens to the token
    sequence a tokenizer would produce for it; every document that is a
    flattened forest has matching start and end tags.  The tree queries here
    are the reference against which the span reader is proved. */
module XmlTree {
  import opened Wrappers
  import opened XmlTokens

  /** Tokens that stand alone in a tree: everything but start tags, end tags
      and tokenizer errors. */
  type LeafToken = t: Token | !t.Start? && !t.End? && !t.Malformed? witness Text("")

  /** An element keeps the raw text of its own start tag (`open`) and end tag
      (`close`) as the document spells them. */
  datatype Node =
    | Element(name: QName, attrs: seq<Attr>, open: string, children: seq<Node>, close: string)
    | Leaf(token: LeafToken)

  function StartOf(e: Node): Token
    requires e.Element?
  {
    Start(e.name, e.attrs, e.open)
  }

  function EndOf(e: Node): Token
    requires e.Element?
  {
    End(e.name, e.close)
  }

  function Flatten(n: Node): seq<Token> {
    match n
    case Element(q, attrs, open, cs, close) => [Start(q, attrs, open)] + FlattenAll(cs) + [End(q, close)]
    case Leaf(t) => [t]
  }

  function FlattenAll(f: seq<Node>): seq<Token> {
    if |f| == 0 then [] else Flatten(f[0]) + FlattenAll(f[1..])
  }

  /** The raw text between an element's own start and end tags. */
  function InnerText(e: Node): string
    requires e.Element?
  {
    Raw(FlattenAll(e.children))
  }

  /** The raw text of an element is its start tag, its inner text and its
      end tag. */
  lemma ElementText(e: Node)
    requires e.Element?
    ensures Raw(Flatten(e)) == e.open + InnerText(e) + e.close
  {
    RawEnclosed(StartOf(e), FlattenAll(e.children), EndOf(e));
  }

  predicate IsElementNamed(x: Node, n: string) {
    x.Element? && x.name.local == n
  }

  /** The elements among the nodes of a forest, in order: the direct children
      when the forest is an element's content. */
  function Elements(f: seq<Node>): (es: seq<Node>)
    ensures forall k :: 0 <= k < |es| ==> es[k].Element?
    ensures |es| <= |f|
  {
    if |f| == 0 then []
    else if f[0].Element? then [f[0]] + Elements(f[1..])
    else Elements(f[1..])
  }

  /** The first element, in document order and at any depth, whose local name
      is `n`. */
  function FirstNamed(f: seq<Node>, n: string): (r: Option<Node>)
    ensures r.Some? ==> IsElementNamed(r.value, n)
  {
    if |f| == 0 then None
    else match FirstNamedIn(f[0], n)
      case Some(e) => Some(e)
      case None => FirstNamed(f[1..], n)
  }

  /** The same search within one node, the node itself first. */
  function FirstNamedIn(x: Node, n: string): (r: Option<Node>)
    ensures r.Some? ==> IsElementNamed(r.value, n)
  {
    match x
    case Leaf(_) => None
    case Element(q, _, _, cs, _) => if q.local == n then Some(x) else FirstNamed(cs, n)
  }

  /** The last node of `f` that is an element with local name `n`. */
  function LastNamed(f: seq<Node>, n: string): (r: Option<Node>)
    ensures r.Some? ==> IsElementNamed(r.value, n) && r.value in f
    ensures r.None? ==> forall k :: 0 <= k < |f| ==> !IsElementNamed(f[k], n)
  {
    if |f| == 0 then None
    else if IsElementNamed(f[|f| - 1], n) then Some(f[|f| - 1])
    else LastNamed(f[..|f| - 1], n)
  }

  /** The last match in a concatenation comes from the second part if it has
      one, and from the first part otherwise. */
  lemma {:induction false} LastNamedAppend(a: seq<Node>, b: seq<Node>, n: string)
    ensures LastNamed(a + b, n) == if LastNamed(b, n).Some? then LastNamed(b, n) else LastNamed(a, n)
    decreases |b|
  {
    if |b| == 0 {
      assert a + b == a;
    } else {
      var ab := a + b;
      assert ab[|ab| - 1] == b[|b| - 1];
      if !IsElementNamed(b[|b| - 1], n) {
        assert ab[..|ab| - 1] == a + b[..|b| - 1];
        LastNamedAppend(a, b[..|b| - 1], n);
      }
    }
  }

  /** Unfolding `LastNamed` from the front: the head only matters when the
      tail has no match. */
  lemma LastNamedCons(x: Node, t: seq<Node>, n: string)
    ensures LastNamed([x] + t, n) ==
      if LastNamed(t, n).Some? then LastNamed(t, n)
      else if IsElementNamed(x, n) then Some(x) else None
  {
    LastNamedAppend([x], t, n);
    assert [x][..0] == [];
  }

  /** `ts` occurs in `doc` starting at index `k`. */
  predicate Placed(doc: seq<Token>, k: nat, ts: seq<Token>) {
    k + |ts| <= |doc| && doc[k..k + |ts|] == ts
  }

  lemma PlacedSplit(doc: seq<Token>, k: nat, a: seq<Token>, b: seq<Token>)
    requires Placed(doc, k, a + b)
    ensures Placed(doc, k, a) && Placed(doc, k + |a|, b)
  {
    var s := doc[k..k + |a| + |b|];
    assert doc[k..k + |a|] == s[..|a|];
    assert s[..|a|] == a;
    assert doc[k + |a|..k + |a| + |b|] == s[|a|..];
    assert s[|a|..] == b;
  }

  /** A placed element contributes its start tag, its content and its end tag. */
  lemma PlacedElement(doc: seq<Token>, k: nat, e: Node)
    requires e.Element? && Placed(doc, k, Flatten(e))
    ensures doc[k] == StartOf(e)
    ensures Placed(doc, k + 1, FlattenAll(e.children))
    ensures doc[k + 1 + |FlattenAll(e.children)|] == EndOf(e)
    ensures |Flatten(e)| == |FlattenAll(e.children)| + 2
  {
    var inner := FlattenAll(e.children);
    PlacedSplit(doc, k, [StartOf(e)] + inner, [EndOf(e)]);
    PlacedSplit(doc, k, [StartOf(e)], inner);
    assert doc[k..k + 1][0] == doc[k];
    var j := k + 1 + |inner|;
    assert doc[j..j + 1][0] == doc[j];
  }

  /** A placed non-empty forest is its first node followed by the rest. */
  lemma PlacedForest(doc: seq<Token>, k: nat, f: seq<Node>)
    requires |f| > 0 && Placed(doc, k, FlattenAll(f))
    ensures Placed(doc, k, Flatten(f[0]))
    ensures Placed(doc, k + |Flatten(f[0])|, FlattenAll(f[1..]))
  {
    PlacedSplit(doc, k, Flatten(f[0]), FlattenAll(f[1..]));
  }

  /** A placed leaf is the one token it holds. */
  lemma PlacedLeaf(doc: seq<Token>, k: nat, x: Node)
    requires x.Leaf? && Placed(doc, k, Flatten(x))
    ensures doc[k] == x.token
  {
    assert doc[k..k + 1][0] == doc[k];
  }
}
