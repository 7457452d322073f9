/**
 * ExpressionTree: postfix arithmetic over the operators + - * /, built into a tree and
 * printed in infix, in Scheme (prefix) notation and as a text tree. The number type, its
 * parser (Double.parseDouble) and its printer (fmt) are parameters: `parseNumber` and `fmt`.
 */
module ExpressionTree {
  import opened Wrappers
  import opened PostfixTree
  import Text
  import TreeText

  /**
   * The operators are exactly "+", "-", "*" and "/": single printable characters that
   * are neither a parenthesis nor a newline.
   */
  predicate IsOperator(tok: string)
    ensures IsOperator(tok) ==> |tok| == 1 && Text.IsWord(tok) && ParenFree(tok) && TreeText.LineFree(tok)
  {
    tok == "+" || tok == "-" || tok == "*" || tok == "/"
  }

  /**
   * new ExpressionTree(text), with None for null: blank text is rejected before any token
   * is read; otherwise the trimmed text is split into tokens and run through the stack parser,
   * every token that is not an operator being read by parseNumber.
   */
  function Parse<V>(text: Option<string>, parseNumber: string -> Option<V>): (r: Result<Tree<V>, ParseError>)
    ensures r == Failure(EmptyExpression) <==>
      text.None? || Text.Blank(text.value)
    ensures r != Failure(NoResult)
    ensures r.Success? ==> OpsSatisfy(r.value, IsOperator)
  {
    Build(text, IsOperator, parseNumber)
  }

  /** The constructor, running the stack parser. */
  method New<V>(text: Option<string>, parseNumber: string -> Option<V>) returns (r: Result<Tree<V>, ParseError>)
    ensures r == Parse(text, parseNumber)
  {
    r := Construct(text, IsOperator, parseNumber);
  }

  /**
   * A tree printed in postfix and parsed again is the same tree, when every number prints as a
   * single word that is not an operator and that parseNumber reads back as that number.
   */
  lemma ParsePrinted<V>(t: Tree<V>, fmt: V -> string, parseNumber: string -> Option<V>)
    requires OpsSatisfy(t, IsOperator)
    requires forall v :: Text.IsWord(fmt(v)) && !IsOperator(fmt(v)) && parseNumber(fmt(v)) == Some(v)
    ensures Parse(Some(Text.Join(PostfixWords(t, fmt), " ")), parseNumber) == Success(t)
  {
    forall op | IsOperator(op)
      ensures Text.IsWord(op)
    {
    }
    PrintParse(t, fmt, IsOperator, parseNumber);
  }

  // ---------------------------------------------------------------------------
  // Infix and Scheme notation
  // ---------------------------------------------------------------------------

  /** infix: a number prints as fmt of it; an operator node as "( L op R )", fully parenthesised. */
  function Infix<V>(t: Tree<V>, fmt: V -> string): (r: string)
    ensures t.Op? ==> |r| >= 4 && r[..2] == "( " && r[|r| - 2..] == " )"
  {
    match t
    case Leaf(v) => fmt(v)
    case Op(op, l, r) => "( " + Infix(l, fmt) + " " + op + " " + Infix(r, fmt) + " )"
  }

  /** schemeExpression: a number prints as in infix; an operator node as "( op L R )". */
  function Scheme<V>(t: Tree<V>, fmt: V -> string): (r: string)
    ensures t.Op? ==> |r| >= 4 + |t.op| && r[..2] == "( " && r[2..2 + |t.op|] == t.op && r[|r| - 2..] == " )"
  {
    match t
    case Leaf(v) => fmt(v)
    case Op(op, l, r) => "( " + op + " " + Scheme(l, fmt) + " " + Scheme(r, fmt) + " )"
  }

  /** The words of the infix text, in order: parentheses, operands and operators. */
  function InfixWords<V>(t: Tree<V>, fmt: V -> string): (ws: seq<string>)
    ensures |ws| == 3 * OpCount(t) + LeafCount(t)
  {
    match t
    case Leaf(v) => [fmt(v)]
    case Op(op, l, r) => ["("] + InfixWords(l, fmt) + [op] + InfixWords(r, fmt) + [")"]
  }

  /** The words of the Scheme text, in order: the operator first after each "(". */
  function SchemeWords<V>(t: Tree<V>, fmt: V -> string): (ws: seq<string>)
    ensures |ws| == 3 * OpCount(t) + LeafCount(t)
  {
    match t
    case Leaf(v) => [fmt(v)]
    case Op(op, l, r) => ["(", op] + SchemeWords(l, fmt) + SchemeWords(r, fmt) + [")"]
  }

  /** The infix text is its words with one space between neighbours. */
  lemma {:induction false} InfixJoin<V>(t: Tree<V>, fmt: V -> string)
    ensures Infix(t, fmt) == Text.Join(InfixWords(t, fmt), " ")
  {
    if t.Op? {
      var lw, rw := InfixWords(t.left, fmt), InfixWords(t.right, fmt);
      InfixJoin(t.left, fmt);
      InfixJoin(t.right, fmt);
      LeafCountPositive(t.left);
      LeafCountPositive(t.right);
      Text.JoinAppend(["("], lw, " ");
      Text.JoinAppend(["("] + lw, [t.op], " ");
      Text.JoinAppend(["("] + lw + [t.op], rw, " ");
      Text.JoinAppend(["("] + lw + [t.op] + rw, [")"], " ");
    }
  }

  /** The Scheme text is its words with one space between neighbours. */
  lemma {:induction false} SchemeJoin<V>(t: Tree<V>, fmt: V -> string)
    ensures Scheme(t, fmt) == Text.Join(SchemeWords(t, fmt), " ")
  {
    if t.Op? {
      var lw, rw := SchemeWords(t.left, fmt), SchemeWords(t.right, fmt);
      SchemeJoin(t.left, fmt);
      SchemeJoin(t.right, fmt);
      LeafCountPositive(t.left);
      LeafCountPositive(t.right);
      assert Text.Join(["(", t.op], " ") == "( " + t.op by {
        assert ["(", t.op][1..] == [t.op];
      }
      Text.JoinAppend(["(", t.op], lw, " ");
      Text.JoinAppend(["(", t.op] + lw, rw, " ");
      Text.JoinAppend(["(", t.op] + lw + rw, [")"], " ");
    }
  }

  lemma LeafCountPositive<V>(t: Tree<V>)
    ensures LeafCount(t) >= 1
  {
    LeavesAreOpsPlusOne(t);
  }

  /** When operators and printed numbers are single words, splitting the infix text on whitespace gives its words back. */
  lemma InfixTokens<V>(t: Tree<V>, fmt: V -> string)
    requires OpsSatisfy(t, Text.IsWord)
    requires forall v :: Text.IsWord(fmt(v))
    ensures Text.Tokenize(Text.Trim(Infix(t, fmt))) == InfixWords(t, fmt)
  {
    InfixJoin(t, fmt);
    InfixWordsAreWords(t, fmt);
    LeafCountPositive(t);
    Text.JoinedWords(InfixWords(t, fmt));
  }

  /** The same for the Scheme text. */
  lemma SchemeTokens<V>(t: Tree<V>, fmt: V -> string)
    requires OpsSatisfy(t, Text.IsWord)
    requires forall v :: Text.IsWord(fmt(v))
    ensures Text.Tokenize(Text.Trim(Scheme(t, fmt))) == SchemeWords(t, fmt)
  {
    SchemeJoin(t, fmt);
    SchemeWordsAreWords(t, fmt);
    LeafCountPositive(t);
    Text.JoinedWords(SchemeWords(t, fmt));
  }

  lemma {:induction false} InfixWordsAreWords<V>(t: Tree<V>, fmt: V -> string)
    requires OpsSatisfy(t, Text.IsWord)
    requires forall v :: Text.IsWord(fmt(v))
    ensures forall i :: 0 <= i < |InfixWords(t, fmt)| ==> Text.IsWord(InfixWords(t, fmt)[i])
  {
    if t.Op? {
      InfixWordsAreWords(t.left, fmt);
      InfixWordsAreWords(t.right, fmt);
      var lw, rw := InfixWords(t.left, fmt), InfixWords(t.right, fmt);
      var ws := InfixWords(t, fmt);
      assert ws == ["("] + lw + [t.op] + rw + [")"];
      forall i | 0 <= i < |ws|
        ensures Text.IsWord(ws[i])
      {
        if 1 <= i < 1 + |lw| {
          assert ws[i] == lw[i - 1];
        } else if 2 + |lw| <= i < 2 + |lw| + |rw| {
          assert ws[i] == rw[i - 2 - |lw|];
        }
      }
    }
  }

  lemma {:induction false} SchemeWordsAreWords<V>(t: Tree<V>, fmt: V -> string)
    requires OpsSatisfy(t, Text.IsWord)
    requires forall v :: Text.IsWord(fmt(v))
    ensures forall i :: 0 <= i < |SchemeWords(t, fmt)| ==> Text.IsWord(SchemeWords(t, fmt)[i])
  {
    if t.Op? {
      SchemeWordsAreWords(t.left, fmt);
      SchemeWordsAreWords(t.right, fmt);
      var lw, rw := SchemeWords(t.left, fmt), SchemeWords(t.right, fmt);
      var ws := SchemeWords(t, fmt);
      assert ws == ["(", t.op] + lw + rw + [")"];
      forall i | 0 <= i < |ws|
        ensures Text.IsWord(ws[i])
      {
        if 2 <= i < 2 + |lw| {
          assert ws[i] == lw[i - 2];
        } else if 2 + |lw| <= i < 2 + |lw| + |rw| {
          assert ws[i] == rw[i - 2 - |lw|];
        }
      }
    }
  }

  /** Infix and Scheme text are rearrangements of each other: the same characters, as often. */
  lemma {:induction false} SameCharacters<V>(t: Tree<V>, fmt: V -> string)
    ensures multiset(Infix(t, fmt)) == multiset(Scheme(t, fmt))
    ensures |Infix(t, fmt)| == |Scheme(t, fmt)|
  {
    if t.Op? {
      SameCharacters(t.left, fmt);
      SameCharacters(t.right, fmt);
      var il, ir := Infix(t.left, fmt), Infix(t.right, fmt);
      var sl, sr := Scheme(t.left, fmt), Scheme(t.right, fmt);
      SameNodeCharacters(t.op, il, ir, sl, sr);
    }
    assert |Infix(t, fmt)| == |multiset(Infix(t, fmt))|;
  }

  /** An operator node's two renderings rearrange the same characters when its children's do. */
  lemma SameNodeCharacters(op: string, il: string, ir: string, sl: string, sr: string)
    requires multiset(il) == multiset(sl) && multiset(ir) == multiset(sr)
    ensures multiset("( " + il + " " + op + " " + ir + " )") == multiset("( " + op + " " + sl + " " + sr + " )")
  {
    assert multiset("( " + il + " " + op + " " + ir + " )") == multiset("( ") + multiset(il) + multiset(" ") + multiset(op)
      + multiset(" ") + multiset(ir) + multiset(" )");
    assert multiset("( " + op + " " + sl + " " + sr + " )") == multiset("( ") + multiset(op) + multiset(" ") + multiset(sl)
      + multiset(" ") + multiset(sr) + multiset(" )");
  }

  /** No parenthesis in s. */
  predicate ParenFree(s: string) {
    '(' !in s && ')' !in s
  }

  /**
   * When no operator and no printed number holds a parenthesis, the infix text holds exactly one
   * "(" and one ")" per operator node, and so does the Scheme text.
   */
  lemma ParenCounts<V>(t: Tree<V>, fmt: V -> string)
    requires OpsSatisfy(t, ParenFree)
    requires forall v :: ParenFree(fmt(v))
    ensures multiset(Infix(t, fmt))['('] == OpCount(t) == multiset(Infix(t, fmt))[')']
    ensures multiset(Scheme(t, fmt))['('] == OpCount(t) == multiset(Scheme(t, fmt))[')']
  {
    InfixParens(t, fmt, '(');
    InfixParens(t, fmt, ')');
    SameCharacters(t, fmt);
  }

  /** Each parenthesis character occurs in the infix text once per operator node. */
  lemma {:induction false} InfixParens<V>(t: Tree<V>, fmt: V -> string, c: char)
    requires c == '(' || c == ')'
    requires OpsSatisfy(t, ParenFree)
    requires forall v :: ParenFree(fmt(v))
    ensures multiset(Infix(t, fmt))[c] == OpCount(t)
  {
    match t
    case Leaf(v) =>
      NoParenCount(fmt(v));
    case Op(op, l, r) =>
      InfixParens(l, fmt, c);
      InfixParens(r, fmt, c);
      NoParenCount(op);
      OpNodeCounts(Infix(l, fmt), op, Infix(r, fmt));
  }

  lemma NoParenCount(s: string)
    requires ParenFree(s)
    ensures multiset(s)['('] == 0 && multiset(s)[')'] == 0
  {
  }

  /** "( L op R )" holds one more "(" and one more ")" than L, op and R together. */
  lemma OpNodeCounts(l: string, op: string, r: string)
    ensures var s := "( " + l + " " + op + " " + r + " )";
      && multiset(s)['('] == multiset(l)['('] + multiset(op)['('] + multiset(r)['('] + 1
      && multiset(s)[')'] == multiset(l)[')'] + multiset(op)[')'] + multiset(r)[')'] + 1
  {
    var s := "( " + l + " " + op + " " + r + " )";
    assert multiset(s) == multiset("( ") + multiset(l) + multiset(" ") + multiset(op)
      + multiset(" ") + multiset(r) + multiset(" )");
    assert multiset("( ") == multiset{'(', ' '} && multiset(" )") == multiset{' ', ')'};
    assert multiset(" ") == multiset{' '};
  }

  // ---------------------------------------------------------------------------
  // The text tree
  // ---------------------------------------------------------------------------

  /** textTree(): the tree drawn from the root with an empty prefix. */
  function TextTree<V>(t: Tree<V>, fmt: V -> string): (r: string)
    ensures TreeText.Label(t, fmt) <= r
  {
    TreeText.Render(t, "", fmt)
  }

  /**
   * When no printed number holds a newline, the drawing of a parsed tree is its lines joined by
   * newlines: one line per number and five more per operator, and it never ends in a newline.
   */
  lemma TextTreeLayout<V>(t: Tree<V>, fmt: V -> string)
    requires OpsSatisfy(t, IsOperator)
    requires forall v :: TreeText.LineFree(fmt(v))
    ensures TextTree(t, fmt) == Text.Join(TreeText.Lines(t, "", fmt), "\n")
    ensures multiset(TextTree(t, fmt))['\n'] == 5 * OpCount(t)
    ensures !TreeText.EndsWithNewline(TextTree(t, fmt))
  {
    OpsSatisfyImplies(t, IsOperator, TreeText.LineFree);
    TreeText.RenderNewlines(t, "", fmt);
    TreeText.RenderLines(t, "", fmt);
  }
}

/** The behaviour the expression tree's unit tests pin down, for any number type and printer. */
module ExpressionTreeExamples {
  import opened Wrappers
  import opened PostfixTree
  import opened ExpressionTree
  import Text

  /** "a b -" means a - b: the first operand read becomes the left child. */
  lemma PopOrder<V>(x: string, y: string, op: string, a: V, b: V, parseNumber: string -> Option<V>)
    requires IsOperator(op) && !IsOperator(x) && !IsOperator(y)
    requires parseNumber(x) == Some(a) && parseNumber(y) == Some(b)
    ensures PostfixSpec([x, y, op], IsOperator, parseNumber) == Success(Op(op, Leaf(a), Leaf(b)))
  {
    var toks := [x, y, op];
    var t: Tree<V> := Op(op, Leaf(a), Leaf(b));
    assert Run([Leaf(a), Leaf(b)], [op], IsOperator, parseNumber) == Success([t]) by {
      assert [Leaf(a), Leaf(b)][..0] + [t] == [t];
      assert [op][1..] == [];
    }
    assert Run([Leaf(a)], [y, op], IsOperator, parseNumber) == Success([t]) by {
      assert [Leaf(a)] + [Leaf(b)] == [Leaf(a), Leaf(b)];
      assert [y, op][1..] == [op];
    }
    assert Run([], toks, IsOperator, parseNumber) == Success([t]) by {
      assert [] + [Leaf(a)] == [Leaf(a)];
      assert toks[1..] == [y, op];
    }
  }

  /** Words separated by single spaces are parsed word by word. */
  lemma ParseWords<V>(ws: seq<string>, parseNumber: string -> Option<V>)
    requires ws != [] && forall i :: 0 <= i < |ws| ==> Text.IsWord(ws[i])
    ensures Parse(Some(Text.Join(ws, " ")), parseNumber) == PostfixSpec(ws, IsOperator, parseNumber)
  {
    BuildWords(ws, IsOperator, parseNumber);
  }

  /** Only regroups literals: the words of "1 2 +" joined by single spaces. */
  lemma SpellAddition()
    ensures Text.Join(["1", "2", "+"], " ") == "1 2 +"
  {
  }

  /** "1 2 +" builds +(1, 2) whatever number type parses "1" and "2". */
  lemma SimpleAddition<V>(a: V, b: V, parseNumber: string -> Option<V>)
    requires parseNumber("1") == Some(a) && parseNumber("2") == Some(b)
    ensures Parse(Some("1 2 +"), parseNumber) == Success(Op("+", Leaf(a), Leaf(b)))
  {
    AdditionWords(parseNumber);
    AdditionOperators();
    PopOrder("1", "2", "+", a, b, parseNumber);
  }

  lemma AdditionWords<V>(parseNumber: string -> Option<V>)
    ensures Parse(Some("1 2 +"), parseNumber) == PostfixSpec(["1", "2", "+"], IsOperator, parseNumber)
  {
    var ws := ["1", "2", "+"];
    assert Text.IsWord(ws[0]) && Text.IsWord(ws[1]) && Text.IsWord(ws[2]);
    ParseWords(ws, parseNumber);
    SpellAddition();
  }

  lemma AdditionOperators()
    ensures !IsOperator("1") && !IsOperator("2") && IsOperator("+")
  {
  }

  /** Extra blanks and tabs around and between the words of "1 2 +" change nothing. */
  lemma MixedWhitespace<V>(parseNumber: string -> Option<V>)
    ensures Parse(Some("  1   2   +  "), parseNumber) == Parse(Some("1 2 +"), parseNumber)
    ensures Parse(Some("1\t2\t+"), parseNumber) == Parse(Some("1 2 +"), parseNumber)
    ensures Parse(Some("  1  \t 2 \t  + "), parseNumber) == Parse(Some("1 2 +"), parseNumber)
  {
    AdditionTexts();
    assert Text.IsGap("   ") && Text.IsGap("\t") && Text.IsGap("  \t ") && Text.IsGap(" \t  ");
    assert Text.IsGap("  ") && Text.IsGap(" ");
    BuildThreeWords("  ", "1", "   ", "2", "   ", "+", "  ", IsOperator, parseNumber);
    BuildThreeWords("", "1", "\t", "2", "\t", "+", "", IsOperator, parseNumber);
    BuildThreeWords("  ", "1", "  \t ", "2", " \t  ", "+", " ", IsOperator, parseNumber);
  }

  /** Only regroups literals: the words of "1 2 +" and the whitespace texts, spelled piece by piece. */
  lemma AdditionTexts()
    ensures Text.IsWord("1") && Text.IsWord("2") && Text.IsWord("+")
    ensures "1" + " " + "2" + " " + "+" == "1 2 +"
    ensures "  " + "1" + "   " + "2" + "   " + "+" + "  " == "  1   2   +  "
    ensures "" + "1" + "\t" + "2" + "\t" + "+" + "" == "1\t2\t+"
    ensures "  " + "1" + "  \t " + "2" + " \t  " + "+" + " " == "  1  \t 2 \t  + "
  {
  }

  /** With fmt printing 1.0 and 2.0, it prints as "( 1.0 + 2.0 )" and "( + 1.0 2.0 )". */
  lemma SimpleAdditionPrinted<V>(a: V, b: V, fmt: V -> string)
    requires fmt(a) == "1.0" && fmt(b) == "2.0"
    ensures Infix(Op("+", Leaf(a), Leaf(b)), fmt) == "( 1.0 + 2.0 )"
    ensures Scheme(Op("+", Leaf(a), Leaf(b)), fmt) == "( + 1.0 2.0 )"
  {
  }

  /** Only regroups literals: the words of "1 +" joined by a single space. */
  lemma SpellMissing()
    ensures Text.Join(["1", "+"], " ") == "1 +"
  {
  }

  /** "1 +": the operator finds only one operand. */
  lemma MissingOperand<V>(a: V, parseNumber: string -> Option<V>)
    requires parseNumber("1") == Some(a)
    ensures Parse(Some("1 +"), parseNumber) == Failure(InsufficientOperands("+"))
  {
    var ws := ["1", "+"];
    assert Text.IsWord(ws[0]) && Text.IsWord(ws[1]);
    ParseWords(ws, parseNumber);
    SpellMissing();
    LoneOperand("1", "+", a, parseNumber);
  }

  /** A number followed by an operator leaves the operator one operand short. */
  lemma LoneOperand<V>(x: string, op: string, a: V, parseNumber: string -> Option<V>)
    requires IsOperator(op) && !IsOperator(x) && parseNumber(x) == Some(a)
    ensures PostfixSpec([x, op], IsOperator, parseNumber) == Failure(InsufficientOperands(op))
  {
    assert Run([Leaf(a)], [op], IsOperator, parseNumber) == Failure(InsufficientOperands(op));
    assert [x, op][1..] == [op];
    assert [] + [Leaf(a)] == [Leaf(a)];
  }

  /** "1 2 %": two numbers, then a token that is neither an operator nor a number, which is reported. */
  lemma UnreadableThird<V>(x: string, y: string, z: string, a: V, b: V, parseNumber: string -> Option<V>)
    requires !IsOperator(x) && !IsOperator(y) && !IsOperator(z)
    requires parseNumber(x) == Some(a) && parseNumber(y) == Some(b) && parseNumber(z) == None
    ensures PostfixSpec([x, y, z], IsOperator, parseNumber) == Failure(InvalidOperand(z))
  {
    var toks := [x, y, z];
    assert Run([Leaf(a), Leaf(b)], [z], IsOperator, parseNumber) == Failure(InvalidOperand(z));
    assert Run([Leaf(a)], [y, z], IsOperator, parseNumber) == Failure(InvalidOperand(z)) by {
      assert [Leaf(a)] + [Leaf(b)] == [Leaf(a), Leaf(b)];
      assert [y, z][1..] == [z];
    }
    assert Run([], toks, IsOperator, parseNumber) == Failure(InvalidOperand(z)) by {
      assert [] + [Leaf(a)] == [Leaf(a)];
      assert toks[1..] == [y, z];
    }
  }
}
