/**
 * IntervalTree: postfix expressions over "start,end" literals with the operators
 * U (union) and I (intersection), built into a tree, evaluated, and drawn.
 * The tree is immutable once built, so it is a value of PostfixTree.Tree.
 */
module IntervalTree {
  import opened Wrappers
  import opened Decimal
  import opened Intervals
  import opened PostfixTree
  import Text
  import TreeText

  /** Only "U" and "I" are operators: single characters, visible and on one line. */
  predicate IsOperator(tok: string)
    ensures IsOperator(tok) ==> |tok| == 1 && Text.IsWord(tok) && TreeText.LineFree(tok)
  {
    tok == "U" || tok == "I"
  }

  /** No operator could also be read as an interval, so the two kinds of token never clash. */
  lemma OperatorIsNoInterval(tok: string)
    requires IsOperator(tok)
    ensures ParseInterval(tok) == None
  {
  }

  predicate IsUnion(tok: string) {
    tok == "U"
  }

  predicate IsIntersection(tok: string) {
    tok == "I"
  }

  // ---------------------------------------------------------------------------
  // Interval literals
  // ---------------------------------------------------------------------------

  /** String.indexOf(c, from): the first position at or after `from` holding c, or -1. */
  function IndexOf(s: string, c: char, from: nat): (r: int)
    ensures r == -1 || (from <= r < |s| && s[r] == c)
    ensures forall k :: from <= k < |s| && (r == -1 || k < r) ==> s[k] != c
    decreases |s| - from
  {
    if from >= |s| then -1
    else if s[from] == c then from
    else IndexOf(s, c, from + 1)
  }

  /** Position k holds the only comma of s. */
  predicate SoleComma(s: string, k: int) {
    0 <= k < |s| && s[k] == ',' && forall j :: 0 <= j < |s| && j != k ==> s[j] != ','
  }

  /** The comma indexOf finds first is the only one when no other follows it. */
  lemma SoleCommaFound(s: string)
    requires IndexOf(s, ',', 0) != -1 && IndexOf(s, ',', IndexOf(s, ',', 0) + 1) == -1
    ensures SoleComma(s, IndexOf(s, ',', 0))
  {
  }

  /** s has its only comma at k, and the trimmed parts around it read as start and end. */
  predicate ReadsAs(s: string, k: int, start: Int32, end: Int32) {
    && SoleComma(s, k)
    && ParseInt(Text.Trim(s[..k])) == Some(start)
    && ParseInt(Text.Trim(s[k + 1..])) == Some(end)
  }

  /**
   * parseInterval: exactly one comma; the trimmed text before it and the trimmed text
   * after it must both read as ints, and the first must not exceed the second.
   */
  function ParseInterval(s: string): (r: Option<Interval>)
    ensures r.Some? ==> exists k :: ReadsAs(s, k, r.value.start, r.value.end)
  {
    var comma := IndexOf(s, ',', 0);
    if comma == -1 then None
    else if IndexOf(s, ',', comma + 1) != -1 then None
    else
      SoleCommaFound(s);
      var r := ReadBounds(Text.Trim(s[..comma]), Text.Trim(s[comma + 1..]));
      assert r.Some? ==> ReadsAs(s, comma, r.value.start, r.value.end);
      r
  }

  /** The two trimmed parts: both non-empty, both ints, start <= end. */
  function ReadBounds(startStr: string, endStr: string): (r: Option<Interval>)
    ensures r.Some? ==> ParseInt(startStr) == Some(r.value.start) && ParseInt(endStr) == Some(r.value.end)
  {
    if startStr == [] || endStr == [] then None
    else
      match ParseInt(startStr)
      case None => None
      case Some(start) =>
        match ParseInt(endStr)
        case None => None
        case Some(end) => MakeInterval(start, end)
  }

  lemma ReadBoundsOf(startStr: string, endStr: string, start: Int32, end: Int32)
    requires ParseInt(startStr) == Some(start) && ParseInt(endStr) == Some(end)
    ensures ReadBounds(startStr, endStr) == MakeInterval(start, end)
  {
  }

  /** Conversely, a literal of that shape is accepted exactly when start <= end. */
  lemma ParseIntervalAccepts(s: string, k: int, start: Int32, end: Int32)
    requires ReadsAs(s, k, start, end)
    ensures ParseInterval(s) == MakeInterval(start, end)
  {
    SoleCommaIndex(s, k);
    var comma := IndexOf(s, ',', 0);
    assert ParseInterval(s) == ReadBounds(Text.Trim(s[..comma]), Text.Trim(s[comma + 1..]));
    ReadBoundsOf(Text.Trim(s[..comma]), Text.Trim(s[comma + 1..]), start, end);
  }

  lemma SoleCommaIndex(s: string, k: int)
    requires SoleComma(s, k)
    ensures IndexOf(s, ',', 0) == k && IndexOf(s, ',', k + 1) == -1
  {
    var r := IndexOf(s, ',', 0);
    assert r != -1 ==> r == k;
  }

  /**
   * Two ints printed around a comma read back as those ints, and the literal is accepted
   * exactly when the first does not exceed the second ("5,2" is rejected).
   */
  lemma ParseBoundsText(start: Int32, end: Int32)
    ensures ParseInterval(BoundsText(start, end)) == MakeInterval(start, end)
  {
    var a, b := IntToString(start), IntToString(end);
    var s, k := BoundsText(start, end), |a|;
    CommaTextParts(start, end);
    Text.TrimUnchanged(a);
    Text.TrimUnchanged(b);
    ParseIntToString(start);
    ParseIntToString(end);
    assert ReadsAs(s, k, start, end);
    ParseIntervalAccepts(s, k, start, end);
  }

  /** parseInterval reads back what toString prints. */
  lemma ParseIntervalToString(i: Interval)
    ensures ParseInterval(ToString(i)) == Some(i)
  {
    assert ToString(i) == BoundsText(i.start, i.end);
    ParseBoundsText(i.start, i.end);
  }

  /** Two ints as toString prints an interval's bounds. */
  function BoundsText(start: Int32, end: Int32): string {
    IntToString(start) + "," + IntToString(end)
  }

  /** The only comma sits right after the start's digits. */
  lemma CommaTextParts(start: Int32, end: Int32)
    ensures var a, b, s := IntToString(start), IntToString(end), BoundsText(start, end);
      && IsSignedDigits(a) && IsSignedDigits(b)
      && SoleComma(s, |a|) && s[..|a|] == a && s[|a| + 1..] == b
      && (a == [] || (a[0] > ' ' && a[|a| - 1] > ' '))
      && (b == [] || (b[0] > ' ' && b[|b| - 1] > ' '))
  {
    var a, b := IntToString(start), IntToString(end);
    var s := BoundsText(start, end);
    IntToStringSigned(start);
    IntToStringSigned(end);
    assert s == a + "," + b;
    var k := |a|;
    assert s[..k] == a && s[k + 1..] == b;
    forall j | 0 <= j < |s| && j != k
      ensures s[j] != ','
    {
      if j < k {
        assert s[j] == a[j];
      } else {
        assert s[j] == b[j - k - 1];
      }
    }
  }

  /** No printed interval is an operator: it holds a comma. */
  lemma ToStringIsOperand(i: Interval)
    ensures Text.IsWord(ToString(i)) && !IsOperator(ToString(i))
  {
    assert multiset("U")[','] == 0 && multiset("I")[','] == 0;
  }

  // ---------------------------------------------------------------------------
  // Construction
  // ---------------------------------------------------------------------------

  /**
   * new IntervalTree(text), with None for null. Every tree it builds evaluates
   * without reaching the unknown-operator branch.
   */
  function Parse(text: Option<string>): (r: Result<Tree<Interval>, ParseError>)
    ensures r == Failure(EmptyExpression) <==>
      text.None? || Text.Blank(text.value)
    ensures r.Success? ==> OpsSatisfy(r.value, IsOperator) && Evaluate(r.value).Success?
  {
    Build(text, IsOperator, ParseInterval)
  }

  /** The constructor, running the stack parser. */
  method New(text: Option<string>) returns (r: Result<Tree<Interval>, ParseError>)
    ensures r == Parse(text)
  {
    r := Construct(text, IsOperator, ParseInterval);
  }

  /** A tree printed in postfix and parsed again is the same tree. */
  lemma ParsePrinted(t: Tree<Interval>)
    requires OpsSatisfy(t, IsOperator)
    ensures Parse(Some(Text.Join(PostfixWords(t, ToString), " "))) == Success(t)
  {
    forall op | IsOperator(op)
      ensures Text.IsWord(op)
    {
    }
    forall v: Interval
      ensures Text.IsWord(ToString(v)) && !IsOperator(ToString(v)) && ParseInterval(ToString(v)) == Some(v)
    {
      ToStringIsOperand(v);
      ParseIntervalToString(v);
    }
    PrintParse(t, ToString, IsOperator, ParseInterval);
  }

  // ---------------------------------------------------------------------------
  // Evaluation
  // ---------------------------------------------------------------------------

  /** The IllegalArgumentException of the default branch. */
  datatype EvalError = UnknownOperator(op: string)

  /**
   * evaluate: a leaf gives its interval; an operator node evaluates the left child, then
   * the right child, then applies union for U and intersect for I. It fails exactly
   * when some operator of the tree is neither.
   */
  function Evaluate(t: Tree<Interval>): (r: Result<Interval, EvalError>)
    ensures r.Success? <==> OpsSatisfy(t, IsOperator)
  {
    match t
    case Leaf(i) => Success(i)
    case Op(op, l, rt) =>
      match Evaluate(l)
      case Failure(e) => Failure(e)
      case Success(a) =>
        match Evaluate(rt)
        case Failure(e) => Failure(e)
        case Success(b) =>
          if op == "U" then Success(Union(a, b))
          else if op == "I" then Success(Intersect(a, b))
          else Failure(UnknownOperator(op))
  }

  /** A tree of unions evaluates to the smallest interval covering all of its literals. */
  lemma {:induction false} UnionTree(t: Tree<Interval>)
    requires OpsSatisfy(t, IsUnion)
    ensures OpsSatisfy(t, IsOperator)
    ensures var r, ls := Evaluate(t).value, Leaves(t);
      && (forall k :: 0 <= k < |ls| ==> Within(ls[k], r))
      && (exists k :: 0 <= k < |ls| && ls[k].start == r.start)
      && (exists k :: 0 <= k < |ls| && ls[k].end == r.end)
  {
    OpsSatisfyImplies(t, IsUnion, IsOperator);
    match t
    case Leaf(i) =>
      assert Leaves(t)[0] == i;
    case Op(op, l, rt) =>
      UnionTree(l);
      UnionTree(rt);
      var a, b, r := Evaluate(l).value, Evaluate(rt).value, Evaluate(t).value;
      var la, lb, ls := Leaves(l), Leaves(rt), Leaves(t);
      assert r == Union(a, b);
      assert ls == la + lb;
      forall k | 0 <= k < |ls|
        ensures Within(ls[k], r)
      {
        if k < |la| {
          assert ls[k] == la[k];
        } else {
          assert ls[k] == lb[k - |la|];
        }
      }
      var ka :| 0 <= ka < |la| && la[ka].start == a.start;
      var kb :| 0 <= kb < |lb| && lb[kb].start == b.start;
      assert ls[ka] == la[ka] && ls[|la| + kb] == lb[kb];
      var ea :| 0 <= ea < |la| && la[ea].end == a.end;
      var eb :| 0 <= eb < |lb| && lb[eb].end == b.end;
      assert ls[ea] == la[ea] && ls[|la| + eb] == lb[eb];
  }

  /** x lies in every one of the intervals. */
  ghost predicate CommonPoint(ls: seq<Interval>, x: int) {
    forall k :: 0 <= k < |ls| ==> Contains(ls[k], x)
  }

  lemma CommonPointConcat(la: seq<Interval>, lb: seq<Interval>, x: int)
    ensures CommonPoint(la + lb, x) <==> CommonPoint(la, x) && CommonPoint(lb, x)
  {
    if CommonPoint(la + lb, x) {
      forall k | 0 <= k < |la| ensures Contains(la[k], x) {
        assert (la + lb)[k] == la[k];
      }
      forall k | 0 <= k < |lb| ensures Contains(lb[k], x) {
        assert (la + lb)[|la| + k] == lb[k];
      }
    }
  }

  /** Some point lies in all of the intervals. */
  ghost predicate Shared(ls: seq<Interval>) {
    exists x :: CommonPoint(ls, x)
  }

  /** r holds exactly the points all of the intervals share. */
  ghost predicate HoldsShared(r: Interval, ls: seq<Interval>) {
    forall x :: Contains(r, x) <==> CommonPoint(ls, x)
  }

  /**
   * A tree of intersections evaluates to exactly the points all of its literals share,
   * and to NoOverlap when they share none (even when each pair along the way
   * overlapped, or a literal contains MIN_VALUE).
   */
  lemma {:induction false} IntersectionTree(t: Tree<Interval>)
    requires OpsSatisfy(t, IsIntersection)
    ensures OpsSatisfy(t, IsOperator)
    ensures Shared(Leaves(t)) ==> HoldsShared(Evaluate(t).value, Leaves(t))
    ensures !Shared(Leaves(t)) ==> Evaluate(t).value == NoOverlap
  {
    OpsSatisfyImplies(t, IsIntersection, IsOperator);
    match t
    case Leaf(i) =>
      var ls := Leaves(t);
      assert ls == [i];
      assert CommonPoint(ls, i.start);
      forall x
        ensures Contains(i, x) <==> CommonPoint(ls, x)
      {
        assert ls[0] == i;
      }
    case Op(op, l, rt) =>
      IntersectionTree(l);
      IntersectionTree(rt);
      var a, b, r := Evaluate(l).value, Evaluate(rt).value, Evaluate(t).value;
      var la, lb, ls := Leaves(l), Leaves(rt), Leaves(t);
      assert r == Intersect(a, b);
      assert ls == la + lb;
      if Shared(ls) {
        var x :| CommonPoint(ls, x);
        CommonPointConcat(la, lb, x);
        assert Shared(la) && Shared(lb);
        assert Contains(a, x) && Contains(b, x);
        forall y
          ensures Contains(r, y) <==> CommonPoint(ls, y)
        {
          CommonPointConcat(la, lb, y);
          IntersectPoints(a, b, y);
        }
      } else if !Shared(la) {
        IntersectNoOverlap(b);
      } else if !Shared(lb) {
        IntersectNoOverlap(a);
        IntersectCommutes(a, NoOverlap);
      } else if Overlap(a, b) {
        var y :| Contains(a, y) && Contains(b, y);
        CommonPointConcat(la, lb, y);
        assert false;
      }
  }

  // ---------------------------------------------------------------------------
  // Height and the text tree
  // ---------------------------------------------------------------------------

  /** getHeight: 1 for a leaf, one more than the taller child for an operator node. */
  function Height(t: Tree<Interval>): (h: nat)
    ensures h >= 1 && (h == 1 <==> t.Leaf?)
  {
    match t
    case Leaf(_) => 1
    case Op(_, l, r) => 1 + Max(Height(l), Height(r))
  }

  function Pow2(n: nat): (p: nat)
    ensures p >= 1
  {
    if n == 0 then 1 else 2 * Pow2(n - 1)
  }

  /** A tree is at most one level taller than its operator count, and holds at most 2^(h-1) literals. */
  lemma {:induction false} HeightBounds(t: Tree<Interval>)
    ensures Height(t) <= OpCount(t) + 1
    ensures LeafCount(t) <= Pow2(Height(t) - 1)
  {
    if t.Op? {
      HeightBounds(t.left);
      HeightBounds(t.right);
      var h := Height(t);
      Pow2Monotone(Height(t.left) - 1, h - 2);
      Pow2Monotone(Height(t.right) - 1, h - 2);
    }
  }

  lemma {:induction false} Pow2Monotone(m: nat, n: nat)
    requires m <= n
    ensures Pow2(m) <= Pow2(n)
  {
    if m < n {
      Pow2Monotone(m, n - 1);
    }
  }

  /** textTree: the drawing with an empty prefix, literals printed by toString. */
  function TextTree(t: Tree<Interval>): (r: string)
    ensures TreeText.Label(t, ToString) <= r
  {
    TreeText.Render(t, "", ToString)
  }

  /**
   * The drawing of a tree of U and I nodes is its lines joined by newlines, one line for
   * a literal and five more per operator, and it never ends in a newline.
   */
  lemma TextTreeLayout(t: Tree<Interval>)
    requires OpsSatisfy(t, IsOperator)
    ensures TextTree(t) == Text.Join(TreeText.Lines(t, "", ToString), "\n")
    ensures multiset(TextTree(t))['\n'] == 5 * OpCount(t)
    ensures !TreeText.EndsWithNewline(TextTree(t))
  {
    OperatorsLineFree(t);
    PrintedLineFree();
    TreeText.RenderNewlines(t, "", ToString);
    TreeText.RenderLines(t, "", ToString);
  }

  lemma OperatorsLineFree(t: Tree<Interval>)
    requires OpsSatisfy(t, IsOperator)
    ensures OpsSatisfy(t, TreeText.LineFree)
  {
    OpsSatisfyImplies(t, IsOperator, TreeText.LineFree);
  }

  /** No printed interval holds a newline. */
  lemma PrintedLineFree()
    ensures forall v: Interval :: TreeText.LineFree(ToString(v))
  {
    forall v: Interval
      ensures TreeText.LineFree(ToString(v))
    {
      assert Text.IsWord(ToString(v));
    }
  }
}

/** The behaviour the interval tree's unit tests pin down, on their own inputs. */
module IntervalTreeExamples {
  import opened Wrappers
  import opened Intervals
  import opened PostfixTree
  import opened IntervalTree
  import opened Decimal
  import Text
  import TreeText

  /** An interval with one-digit bounds prints as digit, comma, digit. */
  lemma PrintsAs(a: nat, b: nat, s: string)
    requires a <= b < 10
    requires s == [DigitChar(a), ',', DigitChar(b)]
    ensures ToString(Bounds(a, b)) == s
  {
  }

  /** "1,4 2,5 U" builds U(1,4)(2,5), which evaluates to (1,5). */
  lemma SimpleUnion()
    ensures var t: Tree<Interval> := Op("U", Leaf(Bounds(1, 4)), Leaf(Bounds(2, 5)));
      Parse(Some("1,4 2,5 U")) == Success(t) && Evaluate(t) == Success(Bounds(1, 5))
  {
    var t: Tree<Interval> := Op("U", Leaf(Bounds(1, 4)), Leaf(Bounds(2, 5)));
    PrintedPair("U");
    JoinUnion();
    ParsePrinted(t);
  }

  /** "1,4 2,5 I" builds I(1,4)(2,5), which evaluates to (2,4). */
  lemma SimpleIntersection()
    ensures var t: Tree<Interval> := Op("I", Leaf(Bounds(1, 4)), Leaf(Bounds(2, 5)));
      Parse(Some("1,4 2,5 I")) == Success(t) && Evaluate(t) == Success(Bounds(2, 4))
  {
    var t: Tree<Interval> := Op("I", Leaf(Bounds(1, 4)), Leaf(Bounds(2, 5)));
    PrintedPair("I");
    JoinIntersection();
    ParsePrinted(t);
    OverlapPair();
  }

  lemma OverlapPair()
    ensures Intersect(Bounds(1, 4), Bounds(2, 5)) == Bounds(2, 4)
  {
    assert Contains(Bounds(1, 4), 2) && Contains(Bounds(2, 5), 2);
  }

  lemma PrintedPair(op: string)
    ensures var t: Tree<Interval> := Op(op, Leaf(Bounds(1, 4)), Leaf(Bounds(2, 5)));
      PostfixWords(t, ToString) == ["1,4", "2,5", op]
  {
    PrintsAs(1, 4, "1,4");
    PrintsAs(2, 5, "2,5");
  }

  /** Only regroups literals: the words of "1,4 2,5 U" joined by single spaces. */
  lemma JoinUnion()
    ensures Text.Join(["1,4", "2,5", "U"], " ") == "1,4 2,5 U"
  {
  }

  /** Only regroups literals: the words of "1,4 2,5 I" joined by single spaces. */
  lemma JoinIntersection()
    ensures Text.Join(["1,4", "2,5", "I"], " ") == "1,4 2,5 I"
  {
  }

  /** Extra blanks and tabs around and between the words of "1,4 2,5 U" change nothing. */
  lemma MixedWhitespace()
    ensures Parse(Some("  1,4   2,5   U  ")) == Parse(Some("1,4 2,5 U"))
    ensures Parse(Some("1,4\t2,5\tU")) == Parse(Some("1,4 2,5 U"))
    ensures Parse(Some("  1,4  \t 2,5 \t  U ")) == Parse(Some("1,4 2,5 U"))
  {
    UnionWords();
    WhitespaceTexts();
    assert Text.IsGap("   ") && Text.IsGap("\t") && Text.IsGap("  \t ") && Text.IsGap(" \t  ");
    assert Text.IsGap("  ") && Text.IsGap(" ");
    BuildThreeWords("  ", "1,4", "   ", "2,5", "   ", "U", "  ", IsOperator, ParseInterval);
    BuildThreeWords("", "1,4", "\t", "2,5", "\t", "U", "", IsOperator, ParseInterval);
    BuildThreeWords("  ", "1,4", "  \t ", "2,5", " \t  ", "U", " ", IsOperator, ParseInterval);
  }

  /** Only regroups literals: the three whitespace texts, spelled piece by piece. */
  lemma WhitespaceTexts()
    ensures "  " + "1,4" + "   " + "2,5" + "   " + "U" + "  " == "  1,4   2,5   U  "
    ensures "" + "1,4" + "\t" + "2,5" + "\t" + "U" + "" == "1,4\t2,5\tU"
    ensures "  " + "1,4" + "  \t " + "2,5" + " \t  " + "U" + " " == "  1,4  \t 2,5 \t  U "
  {
  }

  /** Only regroups literals: the words of "1,4 2,5 U" and their single-space text. */
  lemma UnionWords()
    ensures Text.IsWord("1,4") && Text.IsWord("2,5") && Text.IsWord("U")
    ensures "1,4" + " " + "2,5" + " " + "U" == "1,4 2,5 U"
  {
  }

  /** The drawing of "1,4 2,5 U": the operator, two bars, the left literal, a bar, the right literal. */
  lemma SimpleUnionDrawing()
    ensures var t: Tree<Interval> := Op("U", Leaf(Bounds(1, 4)), Leaf(Bounds(2, 5)));
      TextTree(t) == "U\n|\n|\n|___1,4\n|\n|___2,5"
  {
    var l: Tree<Interval>, r: Tree<Interval> := Leaf(Bounds(1, 4)), Leaf(Bounds(2, 5));
    PrintsAs(1, 4, "1,4");
    PrintsAs(2, 5, "2,5");
    assert TreeText.Render(l, "|   ", ToString) == "1,4";
    PrintedLineFree();
    TreeText.RenderOp("U", l, r, "", ToString);
    SpellSimpleUnion(TextTree(Op("U", l, r)));
  }

  /** Only regroups literals: the pieces of the drawing of "1,4 2,5 U" as one text. */
  lemma SpellSimpleUnion(s: string)
    requires s == "U" + "\n" + "" + "|\n" + "" + "|\n" + "" + "|___" + "1,4" + "\n" + "" + "|\n" + "" + "|___" + "2,5"
    ensures s == "U\n|\n|\n|___1,4\n|\n|___2,5"
  {
  }

  /** Adjacent intervals unite but do not intersect; touching ones intersect in one point. */
  lemma AdjacentAndTouching()
    ensures Union(Bounds(1, 3), Bounds(4, 6)) == Bounds(1, 6)
    ensures Intersect(Bounds(1, 3), Bounds(4, 6)) == NoOverlap
    ensures Union(Bounds(1, 4), Bounds(4, 7)) == Bounds(1, 7)
    ensures Intersect(Bounds(1, 4), Bounds(4, 7)) == Bounds(4, 4)
  {
    IntersectAdjacent(Bounds(1, 3), Bounds(4, 6));
    assert Contains(Bounds(1, 4), 4) && Contains(Bounds(4, 7), 4);
  }

  /** "1,2 3,4 5,6 U I": (3,4) U (5,6) is (3,6), which (1,2) does not meet. */
  lemma ComplexExpression()
    ensures var t: Tree<Interval> := Op("I", Leaf(Bounds(1, 2)), Op("U", Leaf(Bounds(3, 4)), Leaf(Bounds(5, 6))));
      Evaluate(t) == Success(NoOverlap)
  {
    IntersectAdjacent(Bounds(1, 2), Bounds(3, 6));
  }

  /** A missing, empty or blank expression is rejected before any token is read. */
  lemma EmptyExpressions()
    ensures Parse(None) == Failure(EmptyExpression)
    ensures Parse(Some("")) == Failure(EmptyExpression)
    ensures Parse(Some("   ")) == Failure(EmptyExpression)
  {
    assert forall k :: 0 <= k < |"   "| ==> "   "[k] <= ' ';
  }

  /** "U": an operator with no operands. */
  lemma OnlyOperator()
    ensures Parse(Some("U")) == Failure(InsufficientOperands("U"))
  {
    assert Text.IsWord("U");
    BuildWords(["U"], IsOperator, ParseInterval);
    assert Text.Join(["U"], " ") == "U";
    assert Run([], ["U"], IsOperator, ParseInterval) == Failure(InsufficientOperands("U"));
  }

  /**
   * "5,2 3,4 U": "5,2" reads as two ints but start exceeds end, so it is not an interval,
   * and the parser rejects it as the first token.
   */
  lemma ReversedBounds()
    ensures Parse(Some("5,2 3,4 U")) == Failure(InvalidOperand("5,2"))
  {
    ReversedBoundsLiteral();
    ReversedWords();
    FirstUnreadable("5,2", "3,4", "U");
  }

  /** A first word that is neither an operator nor an interval is reported before anything else. */
  lemma FirstUnreadable(a: string, b: string, c: string)
    requires Text.IsWord(a) && Text.IsWord(b) && Text.IsWord(c)
    requires !IsOperator(a) && ParseInterval(a) == None
    ensures Parse(Some(a + " " + b + " " + c)) == Failure(InvalidOperand(a))
  {
    BuildThree(a, b, c, IsOperator, ParseInterval);
  }

  /** Only regroups literals: the words of "5,2 3,4 U" and their single-space text. */
  lemma ReversedWords()
    ensures Text.IsWord("5,2") && Text.IsWord("3,4") && Text.IsWord("U") && !IsOperator("5,2")
    ensures "5,2" + " " + "3,4" + " " + "U" == "5,2 3,4 U"
  {
  }

  /** "5,2" reads as two ints but start exceeds end, so it is not an interval. */
  lemma ReversedBoundsLiteral()
    ensures ParseInterval("5,2") == None
  {
    assert BoundsText(5, 2) == "5,2" by {
      assert DigitChar(5) == '5' && DigitChar(2) == '2';
    }
    ParseBoundsText(5, 2);
  }
}
