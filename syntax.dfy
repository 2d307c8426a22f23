/**
 * Reading an expression produced by getExpression back into its steps.  For
 * names without '/' or '*', the text keeps whether it is absolute and, for
 * every step, the namespace form, the lower-cased name and the position.
 */
module XPathSyntax {
  import opened Optional
  import opened Dom
  import opened Text
  import opened XPath

  /** An expression taken apart: absolute (leading '/') or relative, and its steps. */
  datatype Path = Path(absolute: bool, steps: seq<Step>)

  /** Names as XML allows them: neither '/' nor '*' occurs in one. */
  predicate Unreserved(name: string)
  {
    '/' !in name && '*' !in name
  }

  predicate NamesUnreserved(t: Tree)
  {
    forall id :: 0 <= id < |t| ==> Unreserved(t[id].name)
  }

  /** Strips the SVG wildcard form off a node test, when it has it. */
  function ParseTag(tag: string): (bool, string)
  {
    if |tag| >= |SvgOpen| + |SvgClose|
       && tag[..|SvgOpen|] == SvgOpen
       && tag[|tag| - |SvgClose|..] == SvgClose
    then (true, tag[|SvgOpen|..|tag| - |SvgClose|])
    else (false, tag)
  }

  /** Reads `tag[k]`: a closing bracket, a numeral, the last opening bracket. */
  function ParseSegment(seg: string): Option<Step>
  {
    if |seg| == 0 || seg[|seg| - 1] != ']' then None
    else
      var body := seg[..|seg| - 1];
      var j := LastIndexOf(body, '[');
      if j < 0 then None
      else
        var digits := body[j + 1..];
        if |digits| == 0 || !AllDigits(digits) then None
        else
          var (svg, tag) := ParseTag(body[..j]);
          Some(Step(svg, tag, ParseDecimal(digits)))
  }

  function ParseSegments(parts: seq<string>): Option<seq<Step>>
    decreases |parts|
  {
    if parts == [] then Some([])
    else
      match (ParseSegment(parts[0]), ParseSegments(parts[1..]))
      case (Some(s), Some(rest)) => Some([s] + rest)
      case _ => None
  }

  function ParseExpression(e: string): Option<Path>
  {
    if |e| > 0 && e[0] == '/' then
      match ParseSegments(Split(e[1..], '/'))
      case Some(steps) => Some(Path(true, steps))
      case None => None
    else
      match ParseSegments(Split(e, '/'))
      case Some(steps) => Some(Path(false, steps))
      case None => None
  }

  lemma ParseTagOfTest(s: Step)
    requires Unreserved(s.tag)
    ensures ParseTag(if s.svg then SvgOpen + s.tag + SvgClose else s.tag) == (s.svg, s.tag)
  {
    var test := if s.svg then SvgOpen + s.tag + SvgClose else s.tag;
    if s.svg {
      assert test[..|SvgOpen|] == SvgOpen;
      assert test[|test| - |SvgClose|..] == SvgClose;
      assert test[|SvgOpen|..|test| - |SvgClose|] == s.tag;
    } else if |test| >= |SvgOpen| + |SvgClose| {
      assert SvgOpen[0] == '*' && test[0] != '*';
      assert test[..|SvgOpen|][0] != SvgOpen[0];
    }
  }

  /** A rendered step reads back as the same step. */
  lemma ParseRender(s: Step)
    requires Unreserved(s.tag)
    ensures ParseSegment(Render(s)) == Some(s)
  {
    var test := if s.svg then SvgOpen + s.tag + SvgClose else s.tag;
    var digits := Decimal(s.position);
    var seg := Render(s);
    assert seg == test + "[" + digits + "]";
    var body := seg[..|seg| - 1];
    assert body == test + "[" + digits;
    assert body[|test|] == '[';
    assert forall j :: |test| < j < |body| ==> body[j] == digits[j - |test| - 1];
    assert LastIndexOf(body, '[') == |test|;
    assert body[|test| + 1..] == digits;
    assert body[..|test|] == test;
    ParseTagOfTest(s);
    ParseDecimalOfDecimal(s.position);
  }

  /** A rendered step has no '/' in it, so '/' separates steps unambiguously. */
  lemma RenderHasNoSlash(s: Step)
    requires Unreserved(s.tag)
    ensures '/' !in Render(s)
  {
    var digits := Decimal(s.position);
    assert forall i :: 0 <= i < |digits| ==> digits[i] != '/';
  }

  lemma ParseSegmentsCons(parts: seq<string>, s: Step, rest: seq<Step>)
    requires |parts| >= 1
    requires ParseSegment(parts[0]) == Some(s) && ParseSegments(parts[1..]) == Some(rest)
    ensures ParseSegments(parts) == Some([s] + rest)
  {
  }

  lemma {:induction false} ParseSegmentsOfRendered(steps: seq<Step>)
    requires forall k :: 0 <= k < |steps| ==> Unreserved(steps[k].tag)
    ensures ParseSegments(RenderAll(steps)) == Some(steps)
    decreases |steps|
  {
    if steps != [] {
      var parts := RenderAll(steps);
      var tail := steps[1..];
      assert parts[0] == Render(steps[0]) && parts[1..] == RenderAll(tail);
      ParseRender(steps[0]);
      ParseSegmentsOfRendered(tail);
      ParseSegmentsCons(parts, steps[0], tail);
      assert steps == [steps[0]] + tail;
    }
  }

  /**
   * Every expression getExpression returns reads back as exactly its steps,
   * absolute precisely when no context was given.
   */
  lemma ExpressionRoundTrip(t: Tree, start: NodeId, context: Option<NodeId>)
    requires ValidTree(t) && start < |t| && ReachesStop(t, start, context)
    requires NamesUnreserved(t)
    ensures Expression(t, start, context).Some? ==>
       ParseExpression(Expression(t, start, context).value)
         == Some(Path(context.None?, Steps(t, start, context)))
  {
    var ids := Chain(t, start, context);
    var steps := Steps(t, start, context);
    var paths := Segments(t, ids);
    if |paths| > 0 {
      forall k | 0 <= k < |steps| ensures Unreserved(steps[k].tag) {
        LowerKeepsPunctuation(t[ids[k]].name, '/');
        LowerKeepsPunctuation(t[ids[k]].name, '*');
      }
      forall k | 0 <= k < |paths| ensures '/' !in paths[k] {
        RenderAllAt(steps, k);
        RenderHasNoSlash(steps[k]);
      }
      SplitJoin(paths, '/');
      ParseSegmentsOfRendered(steps);
      var joined := Join(paths, '/');
      if context.None? {
        assert ("/" + joined)[1..] == joined;
      } else {
        JoinStartsWithFirst(paths, '/');
        RenderStart(steps[0]);
      }
    }
  }

  lemma JoinStartsWithFirst(parts: seq<string>, sep: char)
    requires |parts| >= 1 && |parts[0]| >= 1
    ensures |Join(parts, sep)| >= 1 && Join(parts, sep)[0] == parts[0][0]
  {
  }

  /** A rendered step never starts with '/'. */
  lemma RenderStart(s: Step)
    requires Unreserved(s.tag)
    ensures |Render(s)| >= 1 && Render(s)[0] != '/'
  {
    if !s.svg && |s.tag| > 0 {
      assert Render(s)[0] == s.tag[0];
    }
  }
}
