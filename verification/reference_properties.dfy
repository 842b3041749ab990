/** Properties of the fault reading stated on trees: which child a field is
    taken from, when a fault is complete, when a detail keeps its raw
    content, and which retry hint is reported. */
module ReferenceProperties {
  import opened Wrappers
  import opened XmlTokens
  import opened XmlTree
  import opened SoapTypes
  import opened Decimal
  import opened FaultDecoder
  import opened FaultReference

  /** `LastNamed` picks the child at the highest index with that name. */
  lemma {:induction false} LastNamedIsLast(f: seq<Node>, n: string)
    requires LastNamed(f, n).Some?
    ensures exists k ::
      && 0 <= k < |f| && f[k] == LastNamed(f, n).value
      && forall j :: k < j < |f| ==> !IsElementNamed(f[j], n)
    decreases |f|
  {
    var k := |f| - 1;
    if IsElementNamed(f[k], n) {
      assert f[k] == LastNamed(f, n).value;
    } else {
      var init := f[..k];
      LastNamedIsLast(init, n);
      var i :| 0 <= i < |init| && init[i] == LastNamed(init, n).value
        && forall j :: i < j < |init| ==> !IsElementNamed(init[j], n);
      assert LastNamed(f, n) == LastNamed(init, n);
      assert f[i] == init[i];
      forall j | i < j < |f|
        ensures !IsElementNamed(f[j], n)
      {
        if j < k {
          assert f[j] == init[j];
        }
      }
    }
  }

  /** A fault is recognised exactly when its content has both a `faultcode`
      and a `faultstring` child. */
  lemma FaultNeedsCodeAndString(f: seq<Node>)
    ensures FaultOf(f).Some? <==>
      (exists k :: 0 <= k < |f| && IsElementNamed(f[k], "faultcode"))
      && (exists k :: 0 <= k < |f| && IsElementNamed(f[k], "faultstring"))
  {
    var code := LastNamed(f, "faultcode");
    var str := LastNamed(f, "faultstring");
    if code.Some? {
      LastNamedIsLast(f, "faultcode");
    }
    if str.Some? {
      LastNamedIsLast(f, "faultstring");
    }
  }

  /** The code of a recognised fault is the inner text of its last
      `faultcode` child, and its string that of its last `faultstring`. */
  lemma FaultFieldsFromLastChild(f: seq<Node>)
    requires FaultOf(f).Some?
    ensures exists k ::
      && 0 <= k < |f| && IsElementNamed(f[k], "faultcode")
      && FaultOf(f).value.faultCode == InnerText(f[k])
      && forall j :: k < j < |f| ==> !IsElementNamed(f[j], "faultcode")
    ensures exists k ::
      && 0 <= k < |f| && IsElementNamed(f[k], "faultstring")
      && FaultOf(f).value.faultString == InnerText(f[k])
      && forall j :: k < j < |f| ==> !IsElementNamed(f[j], "faultstring")
  {
    LastNamedIsLast(f, "faultcode");
    LastNamedIsLast(f, "faultstring");
  }

  /** `LastNamed` over a forest with one node inserted that does not have
      the name is `LastNamed` over the forest without it. */
  lemma LastNamedSkipsInserted(a: seq<Node>, x: Node, b: seq<Node>, n: string)
    requires !IsElementNamed(x, n)
    ensures LastNamed(a + [x] + b, n) == LastNamed(a + b, n)
  {
    LastNamedAppend(a + [x], b, n);
    LastNamedAppend(a, [x], n);
    LastNamedAppend(a, b, n);
    assert [x][..0] == [];
  }

  /** A child inserted anywhere in a Fault that is not one of the four fault
      fields changes nothing. */
  lemma UnknownFaultChildIgnored(a: seq<Node>, x: Node, b: seq<Node>)
    requires !(x.Element? && IsFaultFieldName(x.name.local))
    ensures FaultOf(a + [x] + b) == FaultOf(a + b)
  {
    LastNamedSkipsInserted(a, x, b, "faultcode");
    LastNamedSkipsInserted(a, x, b, "faultstring");
    LastNamedSkipsInserted(a, x, b, "faultactor");
    LastNamedSkipsInserted(a, x, b, "detail");
  }

  /** A child inserted anywhere in a detail that is not one of its three
      known fields leaves those fields as they were; only the raw content can
      change. */
  lemma UnknownDetailChildIgnored(a: seq<Node>, x: Node, b: seq<Node>, whole: string, acc: FaultDetail)
    requires !(x.Element? && IsDetailFieldName(x.name.local))
    ensures var d, d' := DetailFieldsOf(a + [x] + b, whole, acc), DetailFieldsOf(a + b, whole, acc);
      d.responseCode == d'.responseCode && d.message == d'.message && d.messageXml == d'.messageXml
  {
    LastNamedSkipsInserted(a, x, b, "ResponseCode");
    LastNamedSkipsInserted(a, x, b, "Message");
    LastNamedSkipsInserted(a, x, b, "MessageXml");
  }

  /** An element inserted anywhere in a diagnostic payload that holds no
      readable hint leaves the reported hint as it was. */
  lemma HintlessChildIgnored(a: seq<Node>, x: Node, b: seq<Node>)
    requires BackOffIn(x).None?
    ensures BackOffOf(a + [x] + b) == BackOffOf(a + b)
  {
    BackOffAppend(a + [x], b);
    BackOffAppend(a, [x]);
    BackOffAppend(a, b);
    assert [x][1..] == [];
  }

  /** A trailing field child overrides every earlier child of that name. */
  lemma LaterFaultFieldWins(f: seq<Node>, x: Node, acc: FaultFields)
    requires x.Element?
    ensures x.name.local == "faultcode" ==> FaultFieldsOf(f + [x], acc).code == Some(InnerText(x))
    ensures x.name.local == "faultstring" ==> FaultFieldsOf(f + [x], acc).str == Some(InnerText(x))
    ensures x.name.local == "faultactor" ==> FaultFieldsOf(f + [x], acc).actor == Some(InnerText(x))
    ensures x.name.local == "detail" ==> FaultFieldsOf(f + [x], acc).detail == Some(DetailOf(x))
  {
    var g := f + [x];
    assert g[|g| - 1] == x;
  }

  /** A detail keeps its whole raw content exactly when one of its children
      is an element other than the three known fields. */
  lemma DetailContentIff(e: Node)
    requires e.Element?
    ensures DetailOf(e).content.Some? <==>
      exists k :: 0 <= k < |e.children| && e.children[k].Element? && !IsDetailFieldName(e.children[k].name.local)
    ensures DetailOf(e).content.Some? ==> DetailOf(e).content.value == InnerText(e)
  {
  }

  /** The retry hint of two forests side by side is the first one's when it
      has one, and the second one's otherwise. */
  lemma {:induction false} BackOffAppend(a: seq<Node>, b: seq<Node>)
    ensures BackOffOf(a + b) == if BackOffOf(a).Some? then BackOffOf(a) else BackOffOf(b)
    decreases |a|
  {
    if |a| == 0 {
      assert a + b == b;
    } else {
      assert (a + b)[0] == a[0];
      assert (a + b)[1..] == a[1..] + b;
      BackOffAppend(a[1..], b);
    }
  }

  /** A hint whose text is not a number is passed over: the hint reported is
      the next one. */
  lemma UnparsableHintSkipped(h: Node, rest: seq<Node>)
    requires IsBackOffElement(h) && ParseUsize(InnerText(h)).None?
    ensures BackOffOf([h] + rest) == BackOffOf(rest)
  {
    BackOffAppend([h], rest);
    assert [h][1..] == [];
  }

  /** A hint whose text is a number is reported, whatever follows it. */
  lemma FirstParsedHintWins(h: Node, rest: seq<Node>)
    requires IsBackOffElement(h) && ParseUsize(InnerText(h)).Some?
    ensures BackOffOf([h] + rest) == ParseUsize(InnerText(h))
  {
    BackOffAppend([h], rest);
    assert [h][1..] == [];
  }
}
