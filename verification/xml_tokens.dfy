/** The token stream a pull tokenizer produces from an XML document, and the
    raw text each token was read from.  A document is modelled as the
    sequence of its tokens; the bytes of any stretch of the document are the
    concatenation of its tokens' raw text, so a span of bytes is a span of
    token indices. */
module XmlTokens {
  import opened Wrappers

  /** A qualified name.  `prefix` is empty for an unprefixed name; matching by
      local name (section 4 of Namespaces in XML 1.0) ignores it. */
  datatype QName = QName(prefix: string, local: string)

  /** An attribute with its raw, still escaped, value. */
  datatype Attr = Attr(key: QName, value: string)

  /** Every token keeps the text it was read from, spelled as the document
      spells it (quoting, spacing before `>`, and so on), next to what the
      tokenizer parsed out of it. */
  datatype Token =
    | Decl(version: string, encoding: Option<string>, raw: string)  // <?xml ...?>
    | Start(name: QName, attrs: seq<Attr>, raw: string)              // <n a="v">
    | End(name: QName, raw: string)                                  // </n>
    | Empty(name: QName, attrs: seq<Attr>, raw: string)              // <n a="v"/>
    | Text(raw: string)                                              // character data
    | Misc(raw: string)                                              // comment, CDATA, PI, doctype
    | Malformed(raw: string)                                         // where the tokenizer reports an error

  /** The bytes of a stretch of tokens. */
  function Raw(ts: seq<Token>): string {
    if |ts| == 0 then "" else ts[0].raw + Raw(ts[1..])
  }

  /** The bytes of two adjacent stretches are the two stretches' bytes, in order. */
  lemma {:induction false} RawConcat(a: seq<Token>, b: seq<Token>)
    ensures Raw(a + b) == Raw(a) + Raw(b)
  {
    if |a| == 0 {
      assert a + b == b;
    } else {
      assert (a + b)[1..] == a[1..] + b;
      RawConcat(a[1..], b);
    }
  }

  /** The bytes of an element are its start tag, its content and its end tag. */
  lemma RawEnclosed(a: Token, m: seq<Token>, b: Token)
    ensures Raw([a] + m + [b]) == a.raw + Raw(m) + b.raw
  {
    RawConcat([a] + m, [b]);
    RawConcat([a], m);
    assert Raw([b]) == b.raw + Raw([]);
    assert Raw([a]) == a.raw + Raw([]);
  }

  /** True of the start tag of an element whose local name is `n`; self-closing
      elements are `Empty` tokens and never satisfy it. */
  predicate IsStartNamed(t: Token, n: string) {
    t.Start? && t.name.local == n
  }
}
