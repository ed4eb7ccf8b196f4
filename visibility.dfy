/**
 * `tag_visible` and the filter `html2text` applies with it: a text node is
 * shown unless it is a comment or sits directly inside an element whose
 * content is never rendered.
 *
 * Parsing the document is outside the model: the page is given as its text
 * nodes in document order, each with the name of its parent element.
 */
module Visibility {

  /** A text node: its text, its parent element's name, and whether it is a comment. */
  datatype TextNode = TextNode(text: string, parentName: string, isComment: bool)

  /** Parents whose text is not shown; "[document]" is the root of the parse tree. */
  const HiddenParents: seq<string> := ["style", "script", "head", "title", "meta", "[document]"]

  /**
   * `tag_visible`: a node is shown exactly when it is not a comment and its
   * parent is none of style, script, head, title, meta and the document root.
   */
  predicate TagVisible(node: TextNode): (visible: bool)
    ensures visible <==>
      && !node.isComment
      && node.parentName != "style" && node.parentName != "script" && node.parentName != "head"
      && node.parentName != "title" && node.parentName != "meta" && node.parentName != "[document]"
  {
    node.parentName !in HiddenParents && !node.isComment
  }

  /**
   * `filter(tag_visible, texts)`: the texts of the visible nodes, in document
   * order. Every text kept comes from a visible node.
   */
  function VisibleTexts(nodes: seq<TextNode>): (texts: seq<string>)
    ensures |texts| <= |nodes|
    ensures forall t :: t in texts ==> exists node :: node in nodes && TagVisible(node) && node.text == t
  {
    if nodes == [] then []
    else
      var n := |nodes| - 1;
      assert nodes == nodes[..n] + [nodes[n]];
      VisibleTexts(nodes[..n]) + (if TagVisible(nodes[n]) then [nodes[n].text] else [])
  }

  /** Every visible node contributes its text. */
  lemma {:induction false} VisibleNodesKept(nodes: seq<TextNode>)
    ensures forall node :: node in nodes && TagVisible(node) ==> node.text in VisibleTexts(nodes)
  {
    if nodes != [] {
      var n := |nodes| - 1;
      VisibleNodesKept(nodes[..n]);
      forall node | node in nodes && TagVisible(node) ensures node.text in VisibleTexts(nodes) {
        if node != nodes[n] {
          assert nodes == nodes[..n] + [nodes[n]];
          assert node in nodes[..n];
        }
      }
    }
  }

  /**
   * The filter works node by node: filtering a document in two pieces and
   * concatenating gives the filtered whole.
   */
  lemma {:induction false} VisibleTextsAppend(a: seq<TextNode>, b: seq<TextNode>)
    ensures VisibleTexts(a + b) == VisibleTexts(a) + VisibleTexts(b)
  {
    if b == [] {
      assert a + b == a;
    } else {
      var n, ab := |b| - 1, a + b;
      var last := if TagVisible(b[n]) then [b[n].text] else [];
      VisibleTextsAppend(a, b[..n]);
      assert ab[..|ab| - 1] == a + b[..n] && ab[|ab| - 1] == b[n];
      assert VisibleTexts(ab) == VisibleTexts(a + b[..n]) + last;
      assert VisibleTexts(b) == VisibleTexts(b[..n]) + last;
    }
  }

  /** Comments and text under script, style and document-head elements contribute nothing. */
  lemma {:induction false} HiddenNodesDropped(nodes: seq<TextNode>)
    requires forall i :: 0 <= i < |nodes| ==> !TagVisible(nodes[i])
    ensures VisibleTexts(nodes) == []
  {
    if nodes != [] {
      HiddenNodesDropped(nodes[..|nodes| - 1]);
    }
  }
}
