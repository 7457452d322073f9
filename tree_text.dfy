/**
 * The ASCII "text tree" both trees draw with the same layout: an operator on its
 * own line, two connector lines, the left child after "|___", a spacer line, and
 * the right child after "|___"; the children's lines are indented by "|   " on the
 * left and by four spaces on the right.
 */
module TreeText {
  import opened PostfixTree
  import Text

  predicate EndsWithNewline(s: string) {
    s != [] && s[|s| - 1] == '\n'
  }

  predicate LineFree(s: string) {
    '\n' !in s
  }

  /**
   * textTree(prefix, isLast) of a node (the isLast flag is never read): a leaf is
   * drawn as fmt of its operand, an operator node as the layout above, with a
   * newline after the left child only when that child did not end with one.
   */
  function Render<V>(t: Tree<V>, prefix: string, fmt: V -> string): (r: string)
    ensures Label(t, fmt) <= r
  {
    match t
    case Leaf(v) => fmt(v)
    case Op(op, l, r) =>
      var left := Render(l, prefix + "|   ", fmt);
      op + "\n"
      + prefix + "|\n"
      + prefix + "|\n"
      + prefix + "|___" + left + (if EndsWithNewline(left) then "" else "\n")
      + prefix + "|\n"
      + prefix + "|___" + Render(r, prefix + "    ", fmt)
  }

  /** What a node's first line shows: its operand, printed, or its operator. */
  function Label<V>(t: Tree<V>, fmt: V -> string): string {
    match t
    case Leaf(v) => fmt(v)
    case Op(op, _, _) => op
  }

  /** Puts `head` in front of the first line. */
  function Attach(head: string, ls: seq<string>): (r: seq<string>)
    requires ls != []
    ensures |r| == |ls| && r[0] == head + ls[0] && r[1..] == ls[1..]
  {
    [head + ls[0]] + ls[1..]
  }

  /**
   * The drawing as a list of lines: 5 lines per operator node plus one, the node's
   * label first, and every later line starting with the prefix.
   */
  function Lines<V>(t: Tree<V>, prefix: string, fmt: V -> string): (ls: seq<string>)
    ensures |ls| == 5 * OpCount(t) + 1
    ensures ls[0] == Label(t, fmt)
    ensures forall i :: 1 <= i < |ls| ==> prefix <= ls[i]
  {
    match t
    case Leaf(v) => [fmt(v)]
    case Op(op, l, r) =>
      var ll, rl := Lines(l, prefix + "|   ", fmt), Lines(r, prefix + "    ", fmt);
      PrefixOfLonger(prefix, "|   ", ll);
      PrefixOfLonger(prefix, "    ", rl);
      PrefixOfLonger(prefix, "|___", [ll[0]]);
      PrefixOfLonger(prefix, "|___", [rl[0]]);
      [op, prefix + "|", prefix + "|"] + Attach(prefix + "|___", ll) + [prefix + "|"] + Attach(prefix + "|___", rl)
  }

  lemma PrefixOfLonger(p: string, q: string, ls: seq<string>)
    ensures forall i :: 1 <= i < |ls| && p + q <= ls[i] ==> p <= ls[i]
    ensures ls != [] ==> p <= p + q + ls[0]
  {
    forall i | 1 <= i < |ls| && p + q <= ls[i]
      ensures p <= ls[i]
    {
      assert ls[i][..|p|] == (p + q)[..|p|] == p;
    }
    if ls != [] {
      assert (p + q + ls[0])[..|p|] == p;
    }
  }

  /** No drawing ends in a newline when no operand prints with a trailing newline. */
  lemma {:induction false} RenderNoTrailingNewline<V>(t: Tree<V>, prefix: string, fmt: V -> string)
    requires forall v :: !EndsWithNewline(fmt(v))
    ensures !EndsWithNewline(Render(t, prefix, fmt))
  {
    if t.Op? {
      var right := Render(t.right, prefix + "    ", fmt);
      RenderNoTrailingNewline(t.right, prefix + "    ", fmt);
      var s := Render(t, prefix, fmt);
      var front := s[..|s| - |right|];
      assert s == front + right;
      assert front[|front| - 1] == '_';
    }
  }

  lemma {:induction false} JoinAttach(head: string, ls: seq<string>, sep: string)
    requires ls != []
    ensures Text.Join(Attach(head, ls), sep) == head + Text.Join(ls, sep)
  {
    var a := Attach(head, ls);
    if |ls| > 1 {
      assert a[1..] == ls[1..];
    }
  }

  /**
   * So the newline after the left child is always the one appended, and the drawing is
   * its lines joined by newlines.
   */
  lemma {:induction false} RenderLines<V>(t: Tree<V>, prefix: string, fmt: V -> string)
    requires forall v :: !EndsWithNewline(fmt(v))
    ensures Render(t, prefix, fmt) == Text.Join(Lines(t, prefix, fmt), "\n")
  {
    match t
    case Leaf(v) =>
    case Op(op, l, r) =>
      var pl, pr := prefix + "|   ", prefix + "    ";
      var ll, rl := Lines(l, pl, fmt), Lines(r, pr, fmt);
      var left, right := Render(l, pl, fmt), Render(r, pr, fmt);
      RenderLines(l, pl, fmt);
      RenderLines(r, pr, fmt);
      RenderNoTrailingNewline(l, pl, fmt);
      var bar := prefix + "|";
      var head := [op, bar, bar];
      var la, ra := Attach(prefix + "|___", ll), Attach(prefix + "|___", rl);
      JoinAttach(prefix + "|___", ll, "\n");
      JoinAttach(prefix + "|___", rl, "\n");
      Text.JoinAppend(head, la, "\n");
      Text.JoinAppend(head + la, [bar], "\n");
      Text.JoinAppend(head + la + [bar], ra, "\n");
      assert Text.Join(head, "\n") == op + "\n" + bar + "\n" + bar by {
        assert head[1..] == [bar, bar] && head[1..][1..] == [bar];
      }
      assert Lines(t, prefix, fmt) == head + la + [bar] + ra;
      RenderOp(op, l, r, prefix, fmt);
      Layout(op, prefix, left, right);
  }

  /**
   * A step of RenderLines: when no operand prints with a trailing newline, an operator
   * node is drawn with exactly one newline between its left child and the spacer line.
   */
  lemma RenderOp<V>(op: string, l: Tree<V>, r: Tree<V>, prefix: string, fmt: V -> string)
    requires forall v :: !EndsWithNewline(fmt(v))
    ensures var left, right := Render(l, prefix + "|   ", fmt), Render(r, prefix + "    ", fmt);
      Render(Op(op, l, r), prefix, fmt)
      == op + "\n" + prefix + "|\n" + prefix + "|\n" + prefix + "|___" + left + "\n" + prefix + "|\n" + prefix + "|___" + right
  {
    RenderNoTrailingNewline(l, prefix + "|   ", fmt);
  }

  /** Only regroups: the concatenation RenderOp gives, as the lines RenderLines joins. */
  lemma Layout(op: string, p: string, left: string, right: string)
    ensures op + "\n" + p + "|\n" + p + "|\n" + p + "|___" + left + "\n" + p + "|\n" + p + "|___" + right
      == op + "\n" + (p + "|") + "\n" + (p + "|") + "\n" + (p + "|___" + left) + "\n" + (p + "|") + "\n" + (p + "|___" + right)
  {
  }

  /** No line holds a newline when the prefix, the operators and the printed operands hold none. */
  lemma {:induction false} LinesLineFree<V>(t: Tree<V>, prefix: string, fmt: V -> string)
    requires LineFree(prefix) && OpsSatisfy(t, LineFree)
    requires forall v :: LineFree(fmt(v))
    ensures forall i :: 0 <= i < |Lines(t, prefix, fmt)| ==> LineFree(Lines(t, prefix, fmt)[i])
  {
    match t
    case Leaf(v) =>
    case Op(op, l, r) =>
      var pl, pr := prefix + "|   ", prefix + "    ";
      LinesLineFree(l, pl, fmt);
      LinesLineFree(r, pr, fmt);
      var ls := Lines(t, prefix, fmt);
      var ll, rl := Lines(l, pl, fmt), Lines(r, pr, fmt);
      var la, ra := Attach(prefix + "|___", ll), Attach(prefix + "|___", rl);
      assert ls == [op, prefix + "|", prefix + "|"] + la + [prefix + "|"] + ra;
      forall i | 0 <= i < |la|
        ensures LineFree(la[i])
      {
        if i > 0 {
          assert la[i] == ll[i];
        }
      }
      forall i | 0 <= i < |ra|
        ensures LineFree(ra[i])
      {
        if i > 0 {
          assert ra[i] == rl[i];
        }
      }
  }

  /** Newline-free lines joined by newlines hold exactly one newline fewer than lines. */
  lemma {:induction false} JoinNewlines(ls: seq<string>)
    requires ls != []
    requires forall i :: 0 <= i < |ls| ==> LineFree(ls[i])
    ensures multiset(Text.Join(ls, "\n"))['\n'] == |ls| - 1
  {
    assert LineFree(ls[0]);
    if |ls| > 1 {
      JoinNewlines(ls[1..]);
      assert Text.Join(ls, "\n") == ls[0] + "\n" + Text.Join(ls[1..], "\n");
    }
  }

  /** A tree with k operator nodes is drawn on 5k + 1 lines: it holds exactly 5k newlines. */
  lemma RenderNewlines<V>(t: Tree<V>, prefix: string, fmt: V -> string)
    requires LineFree(prefix) && OpsSatisfy(t, LineFree)
    requires forall v :: LineFree(fmt(v))
    ensures multiset(Render(t, prefix, fmt))['\n'] == 5 * OpCount(t)
    ensures !EndsWithNewline(Render(t, prefix, fmt))
  {
    forall v
      ensures !EndsWithNewline(fmt(v))
    {
      assert LineFree(fmt(v));
    }
    RenderLines(t, prefix, fmt);
    LinesLineFree(t, prefix, fmt);
    JoinNewlines(Lines(t, prefix, fmt));
    RenderNoTrailingNewline(t, prefix, fmt);
  }
}
