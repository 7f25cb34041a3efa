/** `EffectSpan`: the diagnostic outline of an effect tree (name, filter,
    area, start and end time, children), its preorder iterator, and the
    text tree drawn from it. Times are whole milliseconds. */
module EffectSpans {
  import opened Wrappers
  import opened Terminal
  import opened CellFilters
  import S = Shaders
  import T = EffectTimers

  datatype Span = Span(name: string, filter: CellFilter, area: Option<Rect>, start: nat, end: nat,
                       children: seq<Span>, isLeaf: bool)

  // ------------------------------------------------------------ construction

  /** The children with the last one marked as a leaf, if it has no
      children of its own. */
  function MarkLast(children: seq<Span>): (r: seq<Span>)
    ensures |r| == |children|
    ensures forall i | 0 <= i < |children| - 1 :: r[i] == children[i]
    ensures |children| > 0 ==>
      var last := children[|children| - 1];
      r[|r| - 1] == if last.children == [] then last.(isLeaf := true) else last
  {
    if |children| > 0 && children[|children| - 1].children == [] then
      children[|children| - 1 := children[|children| - 1].(isLeaf := true)]
    else children
  }

  /** `EffectSpan::new`: the shader's name, filter (All when it has none)
      and area; the span runs from the offset for the length of the
      shader's timer (zero without one). A shader whose filter accessor is
      `todo!()` panics. */
  function New(s: S.Shader, offset: nat, children: seq<Span>): (r: Result<Span, S.Fault>)
    ensures r.Err? <==> S.CellSelection(s).Err?
    ensures r.Ok? ==>
      && r.value.name == S.Name(s)
      && r.value.filter == S.CellSelection(s).value.GetOr(All)
      && r.value.area == S.AreaOf(s)
      && r.value.start == offset
      && r.value.end == offset + (if S.TimerOf(s).Some? then S.TimerOf(s).value.Duration() else 0)
      && r.value.children == MarkLast(children)
      && !r.value.isLeaf
  {
    var filter :- S.CellSelection(s);
    var length := if S.TimerOf(s).Some? then S.TimerOf(s).value.Duration() else 0;
    Ok(Span(S.Name(s), filter.GetOr(All), S.AreaOf(s), offset, offset + length, MarkLast(children), false))
  }

  /** `EffectSpan::new_leaf_node`: `new` with the leaf flag forced on. */
  function NewLeafNode(s: S.Shader, offset: nat, children: seq<Span>): (r: Result<Span, S.Fault>)
    ensures New(s, offset, children).Ok? <==> r.Ok?
    ensures r.Ok? ==> r.value == New(s, offset, children).value.(isLeaf := true)
  {
    var span :- New(s, offset, children);
    Ok(span.(isLeaf := true))
  }

  /** A span never ends before it starts, and its end is the start plus the
      timer's length. */
  lemma SpanTimes(s: S.Shader, offset: nat, children: seq<Span>)
    requires New(s, offset, children).Ok?
    ensures New(s, offset, children).value.start <= New(s, offset, children).value.end
    ensures S.TimerOf(s).None? ==> New(s, offset, children).value.end == offset
  {
  }

  // ------------------------------------------------------------ preorder

  /** Every node of the tree, each before its children, children left to
      right. */
  function Preorder(s: Span): (r: seq<Span>)
    ensures |r| >= 1 && r[0] == s
    decreases s, 1
  {
    [s] + Forest(s.children, 0)
  }

  /** The preorder of the trees cs[i..], one after the other. */
  function Forest(cs: seq<Span>, i: nat): seq<Span>
    requires i <= |cs|
    decreases cs, |cs| - i
  {
    if i == |cs| then [] else Preorder(cs[i]) + Forest(cs, i + 1)
  }

  /** The nodes a stack of pending subtrees still has to hand out: the top
      of the stack (its last element) first. */
  function Pending(stack: seq<Span>): (r: seq<Span>)
    ensures r == [] <==> stack == []
  {
    if stack == [] then [] else Preorder(stack[|stack| - 1]) + Pending(stack[..|stack| - 1])
  }

  /** `children.iter().rev()`. */
  function Reversed(cs: seq<Span>): (r: seq<Span>)
    ensures |r| == |cs| && forall k | 0 <= k < |cs| :: r[k] == cs[|cs| - 1 - k]
  {
    seq(|cs|, k requires 0 <= k < |cs| => cs[|cs| - 1 - k])
  }

  /** Pushing the children in reverse puts their subtrees, first child
      first, in front of what was pending. */
  lemma {:induction false} PushChildren(rest: seq<Span>, cs: seq<Span>, i: nat)
    requires i <= |cs|
    ensures Pending(rest + Reversed(cs[i..])) == Forest(cs, i) + Pending(rest)
    decreases |cs| - i
  {
    var pushed := rest + Reversed(cs[i..]);
    if i == |cs| {
      assert pushed == rest;
    } else {
      PushChildren(rest, cs, i + 1);
      assert pushed[|pushed| - 1] == cs[i];
      assert pushed[..|pushed| - 1] == rest + Reversed(cs[i + 1..]);
    }
  }

  /** `EffectSpanIterator`: a stack of subtrees still to visit. */
  class SpanIterator {
    var stack: seq<Span>

    /** `EffectSpanIterator::new`: the root alone on the stack. */
    constructor (root: Span)
      ensures stack == [root] && Pending(stack) == Preorder(root)
    {
      stack := [root];
    }

    /** `next`: pop the top subtree, push its children in reverse, and hand
        out its root; so the items are the pending preorder, one by one,
        and None once it is exhausted. */
    method Next() returns (r: Option<Span>)
      modifies this
      ensures old(stack) == [] ==> r.None? && stack == []
      ensures old(stack) != [] ==> r == Some(Pending(old(stack))[0]) && Pending(stack) == Pending(old(stack))[1..]
    {
      if stack == [] {
        return None;
      }
      var node := stack[|stack| - 1];
      var rest := stack[..|stack| - 1];
      ghost var before := Pending(stack);
      assert before == [node] + (Forest(node.children, 0) + Pending(rest));
      PushChildren(rest, node.children, 0);
      assert node.children[0..] == node.children;
      stack := rest + Reversed(node.children);
      assert Pending(stack) == before[1..];
      r := Some(node);
    }
  }

  /** `root_span.iter().collect()`: every node exactly once, in preorder. */
  method Collect(root: Span) returns (spans: seq<Span>)
    ensures spans == Preorder(root)
  {
    var it := new SpanIterator(root);
    spans := [];
    while true
      invariant spans + Pending(it.stack) == Preorder(root)
      decreases |Pending(it.stack)|
    {
      var next := it.Next();
      if next.None? {
        return;
      }
      spans := spans + [next.value];
    }
  }

  // ------------------------------------------------------------ the text tree

  /** One styled piece of a line. */
  datatype Piece = Piece(text: string, color: Color)
  datatype Line = Line(pieces: seq<Piece>)

  const LAST_BRANCH := "└ "
  const BRANCH := "├ "
  const PIPE := "│ "
  const BLANK := "  "

  /** The tree prefix of a node at depth |styles|: one piece per ancestor
      level after the first; the last is a corner for a last child and a
      tee otherwise, the earlier ones a pipe where that level's indent bit
      is set. Each piece takes the colour of the level above it. */
  function Prefix(styles: seq<Color>, indent: set<nat>, isLast: bool): (r: seq<Piece>)
    ensures |r| == if |styles| <= 1 then 0 else |styles| - 1
    ensures forall k | 0 <= k < |r| :: r[k].color == styles[k]
    ensures forall k | 0 <= k < |r| ::
      r[k].text == if k + 1 == |styles| - 1 then (if isLast then LAST_BRANCH else BRANCH)
                   else if k + 1 in indent then PIPE else BLANK
  {
    if |styles| <= 1 then []
    else
      seq(|styles| - 1, k requires 0 <= k < |styles| - 1 =>
        Piece(if k + 1 == |styles| - 1 then (if isLast then LAST_BRANCH else BRANCH)
              else if k + 1 in indent then PIPE else BLANK,
              styles[k]))
  }

  /** `build_effect_span_tree`: the node's line (prefix and name in the
      node's colour), then the lines of each child, the indent bit of this
      level set for every child but the last. */
  function BuildTree(s: Span, styles: seq<Color>, indent: set<nat>, isLast: bool, colorOf: string -> Color)
    : (r: seq<Line>)
    ensures |r| >= 1
    ensures r[0] == Line(Prefix(styles + [colorOf(s.name)], indent, isLast) + [Piece(s.name, colorOf(s.name))])
    decreases s, 1
  {
    var st := styles + [colorOf(s.name)];
    [Line(Prefix(st, indent, isLast) + [Piece(s.name, colorOf(s.name))])]
      + ChildLines(s.children, 0, st, indent, colorOf)
  }

  /** The lines of the children cs[i..] under a node whose styles are st. */
  function ChildLines(cs: seq<Span>, i: nat, st: seq<Color>, indent: set<nat>, colorOf: string -> Color)
    : seq<Line>
    requires i <= |cs|
    decreases cs, |cs| - i
  {
    if i == |cs| then []
    else
      var last := i == |cs| - 1;
      BuildTree(cs[i], st, if last then indent else indent + {|st|}, last, colorOf)
        + ChildLines(cs, i + 1, st, indent, colorOf)
  }

  /** `effect_span_tree`: the tree from the root, with no styles and no
      indent bits yet. */
  function SpanTree(root: Span, colorOf: string -> Color): (r: seq<Line>)
    ensures |r| == |Preorder(root)|
    ensures forall k | 0 <= k < |r| :: |r[k].pieces| >= 1 && LastText(r[k]) == Preorder(root)[k].name
  {
    TreeFollowsPreorder(root, [], {}, root.isLeaf, colorOf);
    BuildTree(root, [], {}, root.isLeaf, colorOf)
  }

  function LastText(l: Line): string
    requires |l.pieces| >= 1
  {
    l.pieces[|l.pieces| - 1].text
  }

  /** The lines r are one per node of p, in order, each ending in that
      node's name. */
  predicate Follows(r: seq<Line>, p: seq<Span>) {
    |r| == |p| && forall k | 0 <= k < |r| :: |r[k].pieces| >= 1 && LastText(r[k]) == p[k].name
  }

  lemma FollowsConcat(a: seq<Line>, p: seq<Span>, b: seq<Line>, q: seq<Span>)
    requires Follows(a, p) && Follows(b, q)
    ensures Follows(a + b, p + q)
  {
    forall k | 0 <= k < |a + b|
      ensures |(a + b)[k].pieces| >= 1 && LastText((a + b)[k]) == (p + q)[k].name
    {
      if k < |a| {
        assert (a + b)[k] == a[k] && (p + q)[k] == p[k];
      } else {
        assert (a + b)[k] == b[k - |a|] && (p + q)[k] == q[k - |a|];
      }
    }
  }

  /** The tree has one line per node, in preorder, each ending in that
      node's name. */
  lemma {:induction false} TreeFollowsPreorder(s: Span, styles: seq<Color>, indent: set<nat>, isLast: bool,
                                               colorOf: string -> Color)
    ensures Follows(BuildTree(s, styles, indent, isLast, colorOf), Preorder(s))
    decreases s, 1
  {
    var st := styles + [colorOf(s.name)];
    var head := [Line(Prefix(st, indent, isLast) + [Piece(s.name, colorOf(s.name))])];
    ChildLinesFollowForest(s.children, 0, st, indent, colorOf);
    assert Follows(head, [s]);
    FollowsConcat(head, [s], ChildLines(s.children, 0, st, indent, colorOf), Forest(s.children, 0));
  }

  /** The lines of the children from index i on follow their preorder. */
  lemma {:induction false} ChildLinesFollowForest(cs: seq<Span>, i: nat, st: seq<Color>, indent: set<nat>,
                                                  colorOf: string -> Color)
    requires i <= |cs|
    ensures Follows(ChildLines(cs, i, st, indent, colorOf), Forest(cs, i))
    decreases cs, |cs| - i
  {
    if i < |cs| {
      var last := i == |cs| - 1;
      var bits := if last then indent else indent + {|st|};
      TreeFollowsPreorder(cs[i], st, bits, last, colorOf);
      ChildLinesFollowForest(cs, i + 1, st, indent, colorOf);
      FollowsConcat(BuildTree(cs[i], st, bits, last, colorOf), Preorder(cs[i]),
                    ChildLines(cs, i + 1, st, indent, colorOf), Forest(cs, i + 1));
    }
  }
}
