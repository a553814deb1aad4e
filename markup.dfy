/** The parsed HTML of an EPUB chapter as a tree, and the two ways the
    reader turns it into text: the DOM's `textContent` (used for headings
    and by the earlier snapshot for whole chapters) and
    `extractTextWithSpacing`, which pads block-level elements with spaces so
    that words in adjacent paragraphs do not run together. */
module Markup {
  import opened Wrappers
  import opened JsStrings
  import opened Tokenizer

  /** A DOM node: a text node, an element with its upper-case tag name and
      children, or any other node kind (comments, processing instructions). */
  datatype Node = Text(content: string) | Element(tagName: string, children: seq<Node>) | Other

  /** The tags `extractTextWithSpacing` pads with a space on each side. */
  const BlockElements: set<string> := {
    "P", "DIV", "H1", "H2", "H3", "H4", "H5", "H6",
    "LI", "TR", "TD", "TH", "BR", "HR",
    "BLOCKQUOTE", "PRE", "ARTICLE", "SECTION", "HEADER", "FOOTER",
    "NAV", "ASIDE", "FIGCAPTION", "FIGURE", "DT", "DD"
  }

  predicate IsBlock(n: Node) {
    n.Element? && n.tagName in BlockElements
  }

  /** The child nodes of a node; text and other nodes have none. */
  function ChildNodes(n: Node): seq<Node> {
    if n.Element? then n.children else []
  }

  // ---------------------------------------------------------------------------
  // `textContent`

  /** `node.textContent` of a node inside an element: a text node's data, the
      text of an element's subtree, nothing for other node kinds. */
  function TextOf(n: Node): string
    decreases n
  {
    match n
    case Text(s) => s
    case Element(_, cs) => TextOfAll(cs)
    case Other => ""
  }

  function TextOfAll(ns: seq<Node>): string
    decreases ns
  {
    if |ns| == 0 then "" else TextOf(ns[0]) + TextOfAll(ns[1..])
  }

  /** `element.textContent` of an element, `''` when it is absent. */
  function TextContent(e: Option<Node>): string {
    if e.None? then "" else TextOfAll(ChildNodes(e.value))
  }

  // ---------------------------------------------------------------------------
  // `extractTextWithSpacing`

  /** What one child node adds to the result of the loop: its text, with a
      space before and after when it is a block element. */
  function SpacedText(n: Node): string
    decreases n
  {
    match n
    case Text(s) => s
    case Element(tag, cs) =>
      var pad := if tag in BlockElements then " " else "";
      pad + SpacedTextOfAll(cs) + pad
    case Other => ""
  }

  function SpacedTextOfAll(ns: seq<Node>): string
    decreases ns
  {
    if |ns| == 0 then "" else SpacedText(ns[0]) + SpacedTextOfAll(ns[1..])
  }

  /** `extractTextWithSpacing(element)`: `''` for a missing element, else the
      children's texts in document order with block elements padded. */
  function ExtractTextWithSpacing(e: Option<Node>): string {
    if e.None? then "" else SpacedTextOfAll(ChildNodes(e.value))
  }

  /** The number of block elements in a subtree, the node itself included. */
  function BlockCount(n: Node): nat
    decreases n
  {
    match n
    case Text(_) => 0
    case Element(tag, cs) => (if tag in BlockElements then 1 else 0) + BlockCountOfAll(cs)
    case Other => 0
  }

  function BlockCountOfAll(ns: seq<Node>): nat
    decreases ns
  {
    if |ns| == 0 then 0 else BlockCount(ns[0]) + BlockCountOfAll(ns[1..])
  }

  // ---------------------------------------------------------------------------
  // Extraction against `textContent`

  /** Extraction adds exactly two characters per block element. */
  lemma {:induction false} SpacedTextLength(n: Node)
    ensures |SpacedText(n)| == |TextOf(n)| + 2 * BlockCount(n)
    decreases n
  {
    if n.Element? {
      SpacedTextOfAllLength(n.children);
    }
  }

  lemma {:induction false} SpacedTextOfAllLength(ns: seq<Node>)
    ensures |SpacedTextOfAll(ns)| == |TextOfAll(ns)| + 2 * BlockCountOfAll(ns)
    decreases ns
  {
    if |ns| > 0 {
      SpacedTextLength(ns[0]);
      SpacedTextOfAllLength(ns[1..]);
    }
  }

  /** Extraction adds only whitespace: without whitespace both texts agree. */
  lemma {:induction false} SpacedTextSameLetters(n: Node)
    ensures RemoveWhitespace(SpacedText(n)) == RemoveWhitespace(TextOf(n))
    decreases n
  {
    if n.Element? {
      var pad := if n.tagName in BlockElements then " " else "";
      var inner := SpacedTextOfAll(n.children);
      SpacedTextOfAllSameLetters(n.children);
      RemoveWhitespaceAppend(pad + inner, pad);
      RemoveWhitespaceAppend(pad, inner);
      assert RemoveWhitespace(pad) == "" by {
        if pad == " " {
          assert pad[1..] == "";
        }
      }
    }
  }

  lemma {:induction false} SpacedTextOfAllSameLetters(ns: seq<Node>)
    ensures RemoveWhitespace(SpacedTextOfAll(ns)) == RemoveWhitespace(TextOfAll(ns))
    decreases ns
  {
    if |ns| > 0 {
      SpacedTextSameLetters(ns[0]);
      SpacedTextOfAllSameLetters(ns[1..]);
      RemoveWhitespaceAppend(SpacedText(ns[0]), SpacedTextOfAll(ns[1..]));
      RemoveWhitespaceAppend(TextOf(ns[0]), TextOfAll(ns[1..]));
    }
  }

  /** Without block elements extraction is `textContent` itself. */
  lemma {:induction false} SpacedTextWithoutBlocks(n: Node)
    requires BlockCount(n) == 0
    ensures SpacedText(n) == TextOf(n)
    decreases n
  {
    if n.Element? {
      SpacedTextOfAllWithoutBlocks(n.children);
    }
  }

  lemma {:induction false} SpacedTextOfAllWithoutBlocks(ns: seq<Node>)
    requires BlockCountOfAll(ns) == 0
    ensures SpacedTextOfAll(ns) == TextOfAll(ns)
    decreases ns
  {
    if |ns| > 0 {
      SpacedTextWithoutBlocks(ns[0]);
      SpacedTextOfAllWithoutBlocks(ns[1..]);
    }
  }

  /** The properties of `extractTextWithSpacing` for any element or none:
      `''` for none; otherwise the element's `textContent` with two extra
      whitespace characters per block element inside it, equal to it when
      there is no block element. */
  lemma ExtractionAgainstTextContent(e: Option<Node>)
    ensures e.None? ==> ExtractTextWithSpacing(e) == ""
    ensures e.Some? ==> |ExtractTextWithSpacing(e)| == |TextContent(e)| + 2 * BlockCountOfAll(ChildNodes(e.value))
    ensures RemoveWhitespace(ExtractTextWithSpacing(e)) == RemoveWhitespace(TextContent(e))
    ensures e.Some? && BlockCountOfAll(ChildNodes(e.value)) == 0 ==> ExtractTextWithSpacing(e) == TextContent(e)
  {
    if e.Some? {
      var cs := ChildNodes(e.value);
      SpacedTextOfAllLength(cs);
      SpacedTextOfAllSameLetters(cs);
      if BlockCountOfAll(cs) == 0 {
        SpacedTextOfAllWithoutBlocks(cs);
      }
    }
  }

  /** The extracted text of consecutive siblings is the concatenation of
      their extracted texts. */
  lemma {:induction false} SpacedTextOfAllAppend(xs: seq<Node>, ys: seq<Node>)
    ensures SpacedTextOfAll(xs + ys) == SpacedTextOfAll(xs) + SpacedTextOfAll(ys)
    decreases |xs|
  {
    if |xs| == 0 {
      assert xs + ys == ys;
    } else {
      assert (xs + ys)[1..] == xs[1..] + ys;
      SpacedTextOfAllAppend(xs[1..], ys);
    }
  }

  /** Where the padding goes: a block element among siblings ends the words
      before it and starts its own, so its words are never joined to a
      neighbour's. Every word of the siblings before it, then every word
      inside it, then every word of the siblings after it. */
  lemma BlockSeparatesWords(pre: seq<Node>, b: Node, post: seq<Node>)
    requires IsBlock(b)
    ensures Words(SpacedTextOfAll(pre + [b] + post)) ==
      Words(SpacedTextOfAll(pre)) + Words(SpacedTextOfAll(b.children)) + Words(SpacedTextOfAll(post))
  {
    var p, c, q := SpacedTextOfAll(pre), SpacedTextOfAll(b.children), SpacedTextOfAll(post);
    SpacedTextOfAllAppend(pre + [b], post);
    SpacedTextOfAllAppend(pre, [b]);
    assert [b][1..] == [];
    assert SpacedText(b) == " " + c + " ";
    assert SpacedTextOfAll(pre + [b] + post) == (p + " ") + ((c + " ") + q);
    WordsAfterSeparator(p + " ", (c + " ") + q);
    WordsOfTrailingSpace(p);
    WordsAfterSeparator(c + " ", q);
    WordsOfTrailingSpace(c);
  }

  /** Two paragraphs in a row: `textContent` runs their words together,
      extraction keeps them apart. */
  lemma TwoParagraphs(a: string, b: string)
    ensures var body := Element("BODY", [Element("P", [Text(a)]), Element("P", [Text(b)])]);
      TextContent(Some(body)) == a + b &&
      ExtractTextWithSpacing(Some(body)) == " " + a + "  " + b + " "
  {
    var p1, p2 := Element("P", [Text(a)]), Element("P", [Text(b)]);
    assert [p1, p2][1..] == [p2] && [p2][1..] == [];
    assert [Text(a)][1..] == [] && [Text(b)][1..] == [];
    assert TextOfAll([Text(a)]) == TextOf(Text(a)) + TextOfAll([]) == a;
    assert TextOfAll([Text(b)]) == TextOf(Text(b)) + TextOfAll([]) == b;
    assert SpacedTextOfAll([Text(a)]) == SpacedText(Text(a)) + SpacedTextOfAll([]) == a;
    assert SpacedTextOfAll([Text(b)]) == SpacedText(Text(b)) + SpacedTextOfAll([]) == b;
    assert TextOf(p1) == a && TextOf(p2) == b;
    assert TextOfAll([p1, p2]) == a + b;
    assert SpacedText(p1) == " " + a + " " && SpacedText(p2) == " " + b + " ";
    assert SpacedTextOfAll([p1, p2]) == (" " + a + " ") + (" " + b + " ");
  }
}
