/**
 * Worked examples on a small XHTML document:
 *
 *   #document
 *     <!DOCTYPE html>
 *     <html>
 *       <body> <div/> "text" <div/> <svg/> </body>
 *     </html>
 *
 * The doctype is named like the root element, as in a document parsed as XML.
 */
module XPathExamples {
  import opened Optional
  import opened Dom
  import opened Text
  import opened XPath

  const Doc: Tree := [
    /* 0 */ Node(OtherNode, "#document", false, None, None),
    /* 1 */ Node(DocumentType, "html", false, Some(0), None),
    /* 2 */ Node(Element, "html", false, Some(0), Some(1)),
    /* 3 */ Node(Element, "body", false, Some(2), None),
    /* 4 */ Node(Element, "div", false, Some(3), None),
    /* 5 */ Node(OtherNode, "#text", false, Some(3), Some(4)),
    /* 6 */ Node(Element, "div", false, Some(3), Some(5)),
    /* 7 */ Node(Element, "svg", true, Some(3), Some(6))
  ]

  lemma DocIsValid()
    ensures ValidTree(Doc)
  {
  }

  lemma DocPositions()
    ensures ValidTree(Doc)
    ensures Position(Doc, 2) == 1 && Position(Doc, 3) == 1
    ensures Position(Doc, 4) == 1 && Position(Doc, 6) == 2 && Position(Doc, 7) == 1
  {
    DocIsValid();
  }

  lemma DocSteps()
    ensures ValidTree(Doc)
    ensures StepOf(Doc, 2) == Step(false, "html", 1) && StepOf(Doc, 3) == Step(false, "body", 1)
    ensures StepOf(Doc, 6) == Step(false, "div", 2) && StepOf(Doc, 7) == Step(true, "svg", 1)
  {
    DocPositions();
    assert Lower("html") == "html" && Lower("body") == "body";
    assert Lower("div") == "div" && Lower("svg") == "svg";
  }

  lemma DocSegments()
    ensures ValidTree(Doc)
    ensures Segment(Doc, 2) == "html[1]" && Segment(Doc, 3) == "body[1]"
    ensures Segment(Doc, 6) == "div[2]" && Segment(Doc, 7) == "*[local-name()='svg'][1]"
  {
    DocSteps();
    assert Decimal(1) == "1" && Decimal(2) == "2";
  }

  lemma JoinThree(a: string, b: string, c: string)
    ensures Join([a, b, c], '/') == a + "/" + b + "/" + c
  {
    assert [a, b, c][1..] == [b, c];
    assert [b, c][1..] == [c];
    assert Join([c], '/') == c;
    assert Join([b, c], '/') == b + "/" + c;
  }

  lemma DocAbsoluteWalk()
    ensures ValidTree(Doc) && ReachesStop(Doc, 6, None)
    ensures Segments(Doc, Chain(Doc, 6, None)) == ["html[1]", "body[1]", "div[2]"]
  {
    DocSegments();
    assert Chain(Doc, 6, None) == [2, 3, 6];
    SegmentsOne(Doc, 6);
    assert [3, 6] == [3] + [6];
    SegmentsCons(Doc, 3, [6]);
    assert [2, 3, 6] == [2] + [3, 6];
    SegmentsCons(Doc, 2, [3, 6]);
  }


  /** The second div, with no context: an absolute path; the doctype does not count. */
  lemma AbsoluteExample()
    ensures ValidTree(Doc) && ReachesStop(Doc, 6, None)
    ensures Expression(Doc, 6, None) == Some("/html[1]/body[1]/div[2]")
  {
    DocAbsoluteWalk();
    var paths := Segments(Doc, Chain(Doc, 6, None));
    JoinThree("html[1]", "body[1]", "div[2]");
    assert Join(paths, '/') == "html[1]" + "/" + "body[1]" + "/" + "div[2]";
    AbsoluteText();
  }

  lemma AbsoluteText()
    ensures "/" + ("html[1]" + "/" + "body[1]" + "/" + "div[2]") == "/html[1]/body[1]/div[2]"
  {
  }

  /** The second div, relative to body: body's own step is not part of it. */
  lemma RelativeExample()
    ensures ValidTree(Doc) && ReachesStop(Doc, 6, Some(3))
    ensures Expression(Doc, 6, Some(3)) == Some("div[2]")
  {
    DocSegments();
    assert Chain(Doc, 6, Some(3)) == [6];
    SegmentsOne(Doc, 6);
  }

  /** An SVG element gets the wildcard form. */
  lemma SvgExample()
    ensures ValidTree(Doc) && ReachesStop(Doc, 7, Some(3))
    ensures Expression(Doc, 7, Some(3)) == Some("*[local-name()='svg'][1]")
  {
    DocSegments();
    assert Chain(Doc, 7, Some(3)) == [7];
    SegmentsOne(Doc, 7);
  }

  /** A context equal to the starting element, or a text node: null. */
  lemma NullExamples()
    ensures ValidTree(Doc) && ReachesStop(Doc, 3, Some(3)) && ReachesStop(Doc, 5, None)
    ensures Expression(Doc, 3, Some(3)) == None
    ensures Expression(Doc, 5, None) == None
  {
    DocIsValid();
  }

  /**
   * An XML document whose root holds two siblings named `Item` and `item`.
   * The count compares nodeName as it is, so each is the first of its name;
   * the step shows the lower-cased name, so both get the same expression.
   */
  const CaseDoc: Tree := [
    /* 0 */ Node(OtherNode, "#document", false, None, None),
    /* 1 */ Node(Element, "list", false, Some(0), None),
    /* 2 */ Node(Element, "Item", false, Some(1), None),
    /* 3 */ Node(Element, "item", false, Some(1), Some(2))
  ]

  lemma CaseCollisionSteps()
    ensures ValidTree(CaseDoc)
    ensures Position(CaseDoc, 2) == 1 && Position(CaseDoc, 3) == 1
    ensures Segment(CaseDoc, 1) == "list[1]"
    ensures Segment(CaseDoc, 2) == "item[1]" && Segment(CaseDoc, 3) == "item[1]"
  {
    assert Position(CaseDoc, 1) == 1;
    assert Position(CaseDoc, 2) == 1 && Position(CaseDoc, 3) == 1;
    assert Lower("list") == "list";
    assert Lower("Item") == "item" && Lower("item") == "item";
    assert Decimal(1) == "1";
  }

  lemma CaseCollisionWalks()
    ensures ValidTree(CaseDoc) && ReachesStop(CaseDoc, 2, None) && ReachesStop(CaseDoc, 3, None)
    ensures Segments(CaseDoc, Chain(CaseDoc, 2, None)) == ["list[1]", "item[1]"]
    ensures Segments(CaseDoc, Chain(CaseDoc, 3, None)) == ["list[1]", "item[1]"]
  {
    CaseCollisionSteps();
    assert Chain(CaseDoc, 2, None) == [1, 2];
    assert Chain(CaseDoc, 3, None) == [1, 3];
    SegmentsOne(CaseDoc, 2);
    SegmentsOne(CaseDoc, 3);
    assert [1, 2] == [1] + [2] && [1, 3] == [1] + [3];
    SegmentsCons(CaseDoc, 1, [2]);
    SegmentsCons(CaseDoc, 1, [3]);
  }

  /** Two distinct siblings whose names differ only in case get one and the same expression. */
  lemma CaseCollision()
    ensures ValidTree(CaseDoc) && ReachesStop(CaseDoc, 2, None) && ReachesStop(CaseDoc, 3, None)
    ensures CaseDoc[2].name != CaseDoc[3].name
    ensures Position(CaseDoc, 2) == 1 && Position(CaseDoc, 3) == 1
    ensures Expression(CaseDoc, 2, None) == Some("/list[1]/item[1]")
    ensures Expression(CaseDoc, 3, None) == Some("/list[1]/item[1]")
  {
    CaseCollisionSteps();
    CaseCollisionWalks();
    var parts := ["list[1]", "item[1]"];
    assert parts[1..] == ["item[1]"];
    assert Join(parts, '/') == "list[1]" + "/" + "item[1]";
    assert "/" + ("list[1]" + "/" + "item[1]") == "/list[1]/item[1]";
  }
}
