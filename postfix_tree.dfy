/**
 * The design both trees share: an immutable strict binary tree, built from postfix
 * tokens by a shift-reduce stack machine, on either domain's operand type V.
 *
 * A domain supplies two functions: isOp, which says whether a token is one of its
 * operators, and leaf, which reads any other token as an operand (None when the
 * token is malformed).
 */
module PostfixTree {
  import opened Wrappers
  import Text

  /** A leaf holds an operand; an internal node an operator token and exactly two children. */
  datatype Tree<V> = Leaf(value: V) | Op(op: string, left: Tree<V>, right: Tree<V>)

  /** The ways construction fails; the tokens are the ones the exception messages name. */
  datatype ParseError =
    | EmptyExpression
    | InsufficientOperands(token: string)
    | InvalidOperand(token: string)
    | NoResult
    | TooManyOperands

  function OpCount<V>(t: Tree<V>): nat {
    match t
    case Leaf(_) => 0
    case Op(_, l, r) => 1 + OpCount(l) + OpCount(r)
  }

  function LeafCount<V>(t: Tree<V>): nat {
    match t
    case Leaf(_) => 1
    case Op(_, l, r) => LeafCount(l) + LeafCount(r)
  }

  /** Every operator of the tree satisfies isOp. */
  predicate OpsSatisfy<V>(t: Tree<V>, isOp: string -> bool) {
    match t
    case Leaf(_) => true
    case Op(op, l, r) => isOp(op) && OpsSatisfy(l, isOp) && OpsSatisfy(r, isOp)
  }

  /** A binary tree with k operator nodes has k + 1 leaves. */
  lemma {:induction false} LeavesAreOpsPlusOne<V>(t: Tree<V>)
    ensures LeafCount(t) == OpCount(t) + 1
  {
    if t.Op? {
      LeavesAreOpsPlusOne(t.left);
      LeavesAreOpsPlusOne(t.right);
    }
  }

  /** The operands, left to right. */
  function Leaves<V>(t: Tree<V>): (r: seq<V>)
    ensures |r| == LeafCount(t)
  {
    match t
    case Leaf(v) => [v]
    case Op(_, l, r) => Leaves(l) + Leaves(r)
  }

  /** A property every operator has carries over to a weaker property. */
  lemma {:induction false} OpsSatisfyImplies<V>(t: Tree<V>, p: string -> bool, q: string -> bool)
    requires OpsSatisfy(t, p)
    requires forall op :: p(op) ==> q(op)
    ensures OpsSatisfy(t, q)
  {
    if t.Op? {
      OpsSatisfyImplies(t.left, p, q);
      OpsSatisfyImplies(t.right, p, q);
    }
  }

  // ---------------------------------------------------------------------------
  // Postorder walks and what the tokens stand for
  // ---------------------------------------------------------------------------

  /** One step of a postorder walk: an operator, or an operand. */
  datatype Item<V> = OpItem(op: string) | LeafItem(value: V)

  /** Left subtree, right subtree, then the node itself. */
  function Postorder<V>(t: Tree<V>): (r: seq<Item<V>>)
    ensures |r| == OpCount(t) + LeafCount(t)
  {
    match t
    case Leaf(v) => [LeafItem(v)]
    case Op(op, l, r) => Postorder(l) + Postorder(r) + [OpItem(op)]
  }

  /** The postorder walks of the trees on a stack, bottom of the stack first. */
  function Flatten<V>(stack: seq<Tree<V>>): seq<Item<V>> {
    if stack == [] then [] else Flatten(stack[..|stack| - 1]) + Postorder(stack[|stack| - 1])
  }

  /** An operator token stands for itself; any other token for the operand it reads as. */
  ghost predicate Denotes<V>(tok: string, item: Item<V>, isOp: string -> bool, leaf: string -> Option<V>) {
    if isOp(tok) then item == OpItem(tok) else item.LeafItem? && leaf(tok) == Some(item.value)
  }

  ghost predicate DenotesAll<V>(toks: seq<string>, items: seq<Item<V>>, isOp: string -> bool, leaf: string -> Option<V>) {
    |toks| == |items| && forall i :: 0 <= i < |toks| ==> Denotes(toks[i], items[i], isOp, leaf)
  }

  /** +1 for an operand token, -1 for an operator token. */
  function Weight(tok: string, isOp: string -> bool): int {
    if isOp(tok) then -1 else 1
  }

  /** Operand tokens read minus operator tokens read. */
  function Balance(toks: seq<string>, isOp: string -> bool): int {
    if toks == [] then 0 else Weight(toks[0], isOp) + Balance(toks[1..], isOp)
  }

  /** The number of operator tokens. */
  function OpTokens(toks: seq<string>, isOp: string -> bool): (n: nat)
    ensures n <= |toks|
  {
    if toks == [] then 0 else (if isOp(toks[0]) then 1 else 0) + OpTokens(toks[1..], isOp)
  }

  // ---------------------------------------------------------------------------
  // The stack machine, as functions
  // ---------------------------------------------------------------------------

  /**
   * One token: an operator pops the right operand (the top), then the left one, and
   * pushes the new node; anything else must read as an operand and is pushed as a leaf.
   * The top of the stack is the end of the sequence.
   */
  function Shift<V>(stack: seq<Tree<V>>, tok: string, isOp: string -> bool, leaf: string -> Option<V>)
    : (r: Result<seq<Tree<V>>, ParseError>)
    ensures r.Success? <==> Admissible(|stack|, tok, isOp, leaf)
    ensures r.Failure? ==> r.error == Rejection(tok, isOp)
    ensures r.Success? ==> |r.value| == |stack| + Weight(tok, isOp)
    ensures r.Success? ==> stack[..|stack| - (if isOp(tok) then 2 else 0)] <= r.value
  {
    if isOp(tok) then
      if |stack| < 2 then Failure(InsufficientOperands(tok))
      else
        var right, left := stack[|stack| - 1], stack[|stack| - 2];
        Success(stack[..|stack| - 2] + [Op(tok, left, right)])
    else
      match leaf(tok)
      case None => Failure(InvalidOperand(tok))
      case Some(v) => Success(stack + [Leaf(v)])
  }

  /** The tokens left to right; the first failing token ends the run. */
  function Run<V>(stack: seq<Tree<V>>, toks: seq<string>, isOp: string -> bool, leaf: string -> Option<V>)
    : (r: Result<seq<Tree<V>>, ParseError>)
    ensures r.Success? ==> |r.value| == |stack| + Balance(toks, isOp)
    ensures r.Failure? ==> r.error.InsufficientOperands? || r.error.InvalidOperand?
    decreases |toks|
  {
    if toks == [] then Success(stack)
    else
      match Shift(stack, toks[0], isOp, leaf)
      case Failure(e) => Failure(e)
      case Success(next) => Run(next, toks[1..], isOp, leaf)
  }

  /** After the last token exactly one tree must remain. */
  function Finish<V>(stack: seq<Tree<V>>): (r: Result<Tree<V>, ParseError>)
    ensures r.Success? <==> |stack| == 1
    ensures r.Success? ==> stack == [r.value]
    ensures r == Failure(NoResult) <==> stack == []
    ensures r.Failure? ==> r.error == NoResult || r.error == TooManyOperands
  {
    if |stack| == 1 then Success(stack[0])
    else if |stack| == 0 then Failure(NoResult)
    else Failure(TooManyOperands)
  }

  /** parsePostfix of a token sequence, as a function of the tokens. */
  function PostfixSpec<V>(toks: seq<string>, isOp: string -> bool, leaf: string -> Option<V>)
    : (r: Result<Tree<V>, ParseError>)
    ensures r.Success? ==> Balance(toks, isOp) == 1
    ensures r == Failure(NoResult) ==> Balance(toks, isOp) == 0
    ensures r == Failure(TooManyOperands) ==> Balance(toks, isOp) > 1
    ensures r != Failure(EmptyExpression)
  {
    match Run([], toks, isOp, leaf)
    case Failure(e) => Failure(e)
    case Success(stack) => Finish(stack)
  }

  // ---------------------------------------------------------------------------
  // The stack machine, as the source runs it
  // ---------------------------------------------------------------------------

  /** parsePostfix: one pass over the tokens with an explicit stack. */
  method ParsePostfix<V>(tokens: seq<string>, isOp: string -> bool, leaf: string -> Option<V>)
    returns (r: Result<Tree<V>, ParseError>)
    ensures r == PostfixSpec(tokens, isOp, leaf)
  {
    var stack: seq<Tree<V>> := [];
    for i := 0 to |tokens|
      invariant |stack| == Balance(tokens[..i], isOp)
      invariant Run([], tokens, isOp, leaf) == Run(stack, tokens[i..], isOp, leaf)
    {
      var token := tokens[i];
      assert tokens[i..][0] == token && tokens[i..][1..] == tokens[i + 1..];
      BalanceSnoc(tokens[..i], token, isOp);
      assert tokens[..i + 1] == tokens[..i] + [token];
      if isOp(token) {
        if |stack| < 2 {
          return Failure(InsufficientOperands(token));
        }
        var right := stack[|stack| - 1];
        var left := stack[|stack| - 2];
        stack := stack[..|stack| - 2] + [Op(token, left, right)];
      } else {
        match leaf(token)
        case None =>
          return Failure(InvalidOperand(token));
        case Some(v) =>
          stack := stack + [Leaf(v)];
      }
    }
    assert tokens[|tokens|..] == [];
    if |stack| != 1 {
      if |stack| == 0 {
        return Failure(NoResult);
      }
      return Failure(TooManyOperands);
    }
    return Success(stack[0]);
  }

  // ---------------------------------------------------------------------------
  // The constructors: reject empty input, trim, split, parse
  // ---------------------------------------------------------------------------

  /**
   * new IntervalTree(text) / new ExpressionTree(text), with None for Java's null:
   * a null, empty or whitespace-only text fails before any token is read.
   * EmptyExpression is reported exactly for those texts, and the "no result"
   * branch of the parser can never be reached from here.
   */
  function Build<V>(text: Option<string>, isOp: string -> bool, leaf: string -> Option<V>)
    : (r: Result<Tree<V>, ParseError>)
    ensures r == Failure(EmptyExpression) <==>
      text.None? || Text.Blank(text.value)
    ensures r != Failure(NoResult)
    ensures r.Success? ==> OpsSatisfy(r.value, isOp)
  {
    if text.None? || Text.Trim(text.value) == [] then Failure(EmptyExpression)
    else
      var toks := Text.Tokenize(Text.Trim(text.value));
      Text.TokenizeTrimmed(text.value);
      ParseOutcome(toks, isOp, leaf);
      ParsedCounts(toks, isOp, leaf);
      PostfixSpec(toks, isOp, leaf)
  }

  /** Words separated by single spaces reach the parser as exactly those words. */
  lemma BuildWords<V>(ws: seq<string>, isOp: string -> bool, leaf: string -> Option<V>)
    requires ws != [] && forall i :: 0 <= i < |ws| ==> Text.IsWord(ws[i])
    ensures Build(Some(Text.Join(ws, " ")), isOp, leaf) == PostfixSpec(ws, isOp, leaf)
  {
    Text.JoinedWords(ws);
  }

  /**
   * Words separated by any runs of \s characters, with any blank padding around them,
   * are parsed as exactly those words: tabs and repeated blanks separate as one space does.
   */
  lemma BuildSpaced<V>(lead: string, ws: seq<string>, seps: seq<string>, trail: string,
                       isOp: string -> bool, leaf: string -> Option<V>)
    requires |ws| == |seps| + 1 && forall i :: 0 <= i < |ws| ==> Text.IsWord(ws[i])
    requires forall i :: 0 <= i < |seps| ==> Text.IsGap(seps[i])
    requires Text.Blank(lead) && Text.Blank(trail)
    ensures Build(Some(lead + Text.JoinWith(ws, seps) + trail), isOp, leaf) == PostfixSpec(ws, isOp, leaf)
  {
    var body := Text.JoinWith(ws, seps);
    Text.JoinWithEnds(ws, seps);
    Text.TrimPadded(lead, body, trail);
    forall i | 0 <= i < |ws|
      ensures Text.IsToken(ws[i])
    {
      Text.WordIsToken(ws[i]);
    }
    Text.TokenizeJoinWith(ws, seps);
  }

  /** The three-word case: gaps and padding around a, b and c parse as "a b c" does. */
  lemma BuildThreeWords<V>(lead: string, a: string, s1: string, b: string, s2: string, c: string, trail: string,
                           isOp: string -> bool, leaf: string -> Option<V>)
    requires Text.IsWord(a) && Text.IsWord(b) && Text.IsWord(c) && Text.IsGap(s1) && Text.IsGap(s2)
    requires Text.Blank(lead) && Text.Blank(trail)
    ensures Build(Some(lead + a + s1 + b + s2 + c + trail), isOp, leaf) == Build(Some(a + " " + b + " " + c), isOp, leaf)
  {
    var ws := [a, b, c];
    BuildSpaced(lead, ws, [s1, s2], trail, isOp, leaf);
    Text.JoinThree(lead, a, s1, b, s2, c, trail);
    BuildThree(a, b, c, isOp, leaf);
  }

  /** Three words separated by single spaces reach the parser as exactly those words. */
  lemma BuildThree<V>(a: string, b: string, c: string, isOp: string -> bool, leaf: string -> Option<V>)
    requires Text.IsWord(a) && Text.IsWord(b) && Text.IsWord(c)
    ensures Build(Some(a + " " + b + " " + c), isOp, leaf) == PostfixSpec([a, b, c], isOp, leaf)
  {
    BuildWords([a, b, c], isOp, leaf);
    Text.JoinThree("", a, " ", b, " ", c, "");
  }

  method Construct<V>(text: Option<string>, isOp: string -> bool, leaf: string -> Option<V>)
    returns (r: Result<Tree<V>, ParseError>)
    ensures r == Build(text, isOp, leaf)
  {
    if text.None? || Text.Trim(text.value) == [] {
      return Failure(EmptyExpression);
    }
    r := ParsePostfix(Text.Tokenize(Text.Trim(text.value)), isOp, leaf);
  }

  // ---------------------------------------------------------------------------
  // Counting
  // ---------------------------------------------------------------------------

  lemma {:induction false} BalanceSnoc(toks: seq<string>, tok: string, isOp: string -> bool)
    ensures Balance(toks + [tok], isOp) == Balance(toks, isOp) + Weight(tok, isOp)
    ensures OpTokens(toks + [tok], isOp) == OpTokens(toks, isOp) + (if isOp(tok) then 1 else 0)
  {
    if toks != [] {
      assert (toks + [tok])[1..] == toks[1..] + [tok];
      BalanceSnoc(toks[1..], tok, isOp);
    }
  }

  lemma {:induction false} BalanceCounts(toks: seq<string>, isOp: string -> bool)
    ensures Balance(toks, isOp) == |toks| - 2 * OpTokens(toks, isOp)
  {
    if toks != [] {
      BalanceCounts(toks[1..], isOp);
    }
  }

  // ---------------------------------------------------------------------------
  // What a successful parse means: the tokens are the tree's postorder walk
  // ---------------------------------------------------------------------------

  lemma DenotesSnoc<V>(toks: seq<string>, items: seq<Item<V>>, tok: string, item: Item<V>,
                       isOp: string -> bool, leaf: string -> Option<V>)
    requires DenotesAll(toks, items, isOp, leaf) && Denotes(tok, item, isOp, leaf)
    ensures DenotesAll(toks + [tok], items + [item], isOp, leaf)
  {
    var ts, its := toks + [tok], items + [item];
    forall i | 0 <= i < |ts|
      ensures Denotes(ts[i], its[i], isOp, leaf)
    {
      if i < |toks| {
        assert ts[i] == toks[i] && its[i] == items[i];
      }
    }
  }

  lemma DenotesSplit<V>(toks: seq<string>, a: seq<Item<V>>, b: seq<Item<V>>,
                        isOp: string -> bool, leaf: string -> Option<V>)
    requires DenotesAll(toks, a + b, isOp, leaf)
    ensures DenotesAll(toks[..|a|], a, isOp, leaf)
    ensures DenotesAll(toks[|a|..], b, isOp, leaf)
  {
    forall i | 0 <= i < |a|
      ensures Denotes(toks[..|a|][i], a[i], isOp, leaf)
    {
      assert (a + b)[i] == a[i];
    }
    forall i | 0 <= i < |b|
      ensures Denotes(toks[|a|..][i], b[i], isOp, leaf)
    {
      assert (a + b)[|a| + i] == b[i];
    }
  }

  lemma FlattenSingle<V>(t: Tree<V>)
    ensures Flatten([t]) == Postorder(t)
  {
    assert [t][..0] == [];
  }

  lemma FlattenPush<V>(stack: seq<Tree<V>>, t: Tree<V>)
    ensures Flatten(stack + [t]) == Flatten(stack) + Postorder(t)
  {
    assert (stack + [t])[..|stack|] == stack;
  }

  /** Replacing the top two trees by an operator node over them appends the operator to the walk. */
  lemma FlattenReduce<V>(rest: seq<Tree<V>>, op: string, left: Tree<V>, right: Tree<V>)
    ensures Flatten(rest + [Op(op, left, right)]) == Flatten(rest + [left, right]) + [OpItem(op)]
  {
    var fr, pl, pr := Flatten(rest), Postorder(left), Postorder(right);
    FlattenPush(rest, Op(op, left, right));
    FlattenPush(rest, left);
    assert rest + [left, right] == (rest + [left]) + [right];
    FlattenPush(rest + [left], right);
    assert fr + (pl + pr + [OpItem(op)]) == fr + pl + pr + [OpItem(op)];
  }

  /** One successful step keeps both invariants: stack size and postorder walk. */
  lemma ShiftKeepsInvariant<V>(stack: seq<Tree<V>>, done: seq<string>, tok: string,
                               isOp: string -> bool, leaf: string -> Option<V>)
    requires |stack| == Balance(done, isOp) && DenotesAll(done, Flatten(stack), isOp, leaf)
    requires Shift(stack, tok, isOp, leaf).Success?
    ensures var next := Shift(stack, tok, isOp, leaf).value;
      |next| == Balance(done + [tok], isOp) && DenotesAll(done + [tok], Flatten(next), isOp, leaf)
  {
    BalanceSnoc(done, tok, isOp);
    var next := Shift(stack, tok, isOp, leaf).value;
    var n := |stack|;
    if isOp(tok) {
      assert stack == stack[..n - 2] + [stack[n - 2], stack[n - 1]];
      FlattenReduce(stack[..n - 2], tok, stack[n - 2], stack[n - 1]);
      DenotesSnoc(done, Flatten(stack), tok, OpItem(tok), isOp, leaf);
    } else {
      var v := leaf(tok).value;
      FlattenPush(stack, Leaf(v));
      DenotesSnoc(done, Flatten(stack), tok, LeafItem(v), isOp, leaf);
    }
  }

  lemma {:induction false} RunKeepsInvariant<V>(stack: seq<Tree<V>>, done: seq<string>, rest: seq<string>,
                                                isOp: string -> bool, leaf: string -> Option<V>)
    requires |stack| == Balance(done, isOp) && DenotesAll(done, Flatten(stack), isOp, leaf)
    requires Run(stack, rest, isOp, leaf).Success?
    ensures var final := Run(stack, rest, isOp, leaf).value;
      |final| == Balance(done + rest, isOp) && DenotesAll(done + rest, Flatten(final), isOp, leaf)
    decreases |rest|
  {
    if rest == [] {
      assert done + rest == done;
    } else {
      var tok := rest[0];
      var next := Shift(stack, tok, isOp, leaf).value;
      ShiftKeepsInvariant(stack, done, tok, isOp, leaf);
      assert done + rest == (done + [tok]) + rest[1..];
      RunKeepsInvariant(next, done + [tok], rest[1..], isOp, leaf);
    }
  }

  /** Tokens that spell out a tree's postorder walk push exactly that tree. */
  lemma {:induction false} RunPostorder<V>(stack: seq<Tree<V>>, t: Tree<V>, toks: seq<string>, rest: seq<string>,
                                           isOp: string -> bool, leaf: string -> Option<V>)
    requires DenotesAll(toks, Postorder(t), isOp, leaf)
    ensures Run(stack, toks + rest, isOp, leaf) == Run(stack + [t], rest, isOp, leaf)
    decreases t
  {
    match t
    case Leaf(v) =>
      assert Denotes(toks[0], LeafItem(v), isOp, leaf);
      assert (toks + rest)[0] == toks[0] && (toks + rest)[1..] == rest;
    case Op(op, l, r) =>
      SplitOpWalk(toks, op, l, r, isOp, leaf);
      var n, m := |Postorder(l)|, |Postorder(r)|;
      var tl, tr := toks[..n], toks[n..n + m];
      SplitThree(toks, n, m, rest);
      RunPostorder(stack, l, tl, tr + ([op] + rest), isOp, leaf);
      RunPostorder(stack + [l], r, tr, [op] + rest, isOp, leaf);
      RunReduce(stack, op, l, r, rest, isOp, leaf);
  }

  lemma SplitThree<T>(s: seq<T>, n: nat, m: nat, rest: seq<T>)
    requires |s| == n + m + 1
    ensures s + rest == s[..n] + (s[n..n + m] + ([s[n + m]] + rest))
  {
    assert s == s[..n] + s[n..n + m] + [s[n + m]];
  }

  /** The walk of an operator node's tokens: the left walk, the right walk, then the operator. */
  lemma SplitOpWalk<V>(toks: seq<string>, op: string, l: Tree<V>, r: Tree<V>,
                       isOp: string -> bool, leaf: string -> Option<V>)
    requires DenotesAll(toks, Postorder(Op(op, l, r)), isOp, leaf)
    ensures var n, m := |Postorder(l)|, |Postorder(r)|;
      && |toks| == n + m + 1 && isOp(op) && toks[n + m] == op
      && DenotesAll(toks[..n], Postorder(l), isOp, leaf)
      && DenotesAll(toks[n..n + m], Postorder(r), isOp, leaf)
  {
    var pl, pr := Postorder(l), Postorder(r);
    DenotesSplit(toks, pl + pr, [OpItem(op)], isOp, leaf);
    DenotesSplit(toks[..|pl + pr|], pl, pr, isOp, leaf);
    var tl, tr := toks[..|pl|], toks[|pl|..|pl| + |pr|];
    var last := toks[|pl| + |pr|];
    assert toks[..|pl + pr|][|pl|..] == tr;
    assert Denotes(last, OpItem(op), isOp, leaf) by {
      assert toks[|pl + pr|..][0] == last;
    }
  }

  /** An operator token on a stack whose top two trees are l and r replaces them by Op(op, l, r). */
  lemma RunReduce<V>(stack: seq<Tree<V>>, op: string, l: Tree<V>, r: Tree<V>, rest: seq<string>,
                     isOp: string -> bool, leaf: string -> Option<V>)
    requires isOp(op)
    ensures Run(stack + [l] + [r], [op] + rest, isOp, leaf) == Run(stack + [Op(op, l, r)], rest, isOp, leaf)
  {
    assert ([op] + rest)[0] == op && ([op] + rest)[1..] == rest;
    var s2 := stack + [l] + [r];
    assert s2[|s2| - 1] == r && s2[|s2| - 2] == l && s2[..|s2| - 2] == stack;
  }

  /**
   * The parse succeeds with tree t exactly when the tokens spell out t's postorder
   * walk: every operator token of t in its place, every other token reading as the
   * operand at that place. So, as `a b op` builds Op(op, a, b), pop order is right
   * then left.
   */
  lemma ParsePostorder<V>(toks: seq<string>, t: Tree<V>, isOp: string -> bool, leaf: string -> Option<V>)
    ensures PostfixSpec(toks, isOp, leaf) == Success(t) <==> DenotesAll(toks, Postorder(t), isOp, leaf)
  {
    if PostfixSpec(toks, isOp, leaf) == Success(t) {
      RunKeepsInvariant([], [], toks, isOp, leaf);
      assert [] + toks == toks;
      FlattenSingle(t);
    }
    if DenotesAll(toks, Postorder(t), isOp, leaf) {
      RunPostorder([], t, toks, [], isOp, leaf);
      assert toks + [] == toks;
      assert [] + [t] == [t];
    }
  }

  /** A parsed tree with k operator nodes came from k operator tokens and k + 1 operand tokens. */
  lemma ParsedCounts<V>(toks: seq<string>, isOp: string -> bool, leaf: string -> Option<V>)
    ensures PostfixSpec(toks, isOp, leaf).Success? ==>
      var t := PostfixSpec(toks, isOp, leaf).value;
      && OpTokens(toks, isOp) == OpCount(t)
      && |toks| - OpTokens(toks, isOp) == LeafCount(t) == OpCount(t) + 1
      && OpsSatisfy(t, isOp)
  {
    if PostfixSpec(toks, isOp, leaf).Success? {
      var t := PostfixSpec(toks, isOp, leaf).value;
      RunKeepsInvariant([], [], toks, isOp, leaf);
      assert [] + toks == toks;
      ParsePostorder(toks, t, isOp, leaf);
      BalanceCounts(toks, isOp);
      LeavesAreOpsPlusOne(t);
      PostorderOps(toks, t, isOp, leaf);
    }
  }

  /** Operator nodes of a tree spelled out by tokens are operator tokens. */
  lemma {:induction false} PostorderOps<V>(toks: seq<string>, t: Tree<V>, isOp: string -> bool, leaf: string -> Option<V>)
    requires DenotesAll(toks, Postorder(t), isOp, leaf)
    ensures OpsSatisfy(t, isOp)
    decreases t
  {
    if t.Op? {
      var pl, pr := Postorder(t.left), Postorder(t.right);
      DenotesSplit(toks, pl + pr, [OpItem(t.op)], isOp, leaf);
      DenotesSplit(toks[..|pl + pr|], pl, pr, isOp, leaf);
      assert toks[..|pl + pr|][|pl|..] == toks[|pl|..|pl| + |pr|];
      assert Denotes(toks[|pl| + |pr|], OpItem(t.op), isOp, leaf) by {
        assert toks[|pl + pr|..][0] == toks[|pl| + |pr|];
      }
      PostorderOps(toks[..|pl|], t.left, isOp, leaf);
      PostorderOps(toks[|pl|..|pl| + |pr|], t.right, isOp, leaf);
    }
  }

  // ---------------------------------------------------------------------------
  // Printing a tree back in postfix
  // ---------------------------------------------------------------------------

  /** The postorder walk as words: fmt of each operand, each operator token as it is. */
  function PostfixWords<V>(t: Tree<V>, fmt: V -> string): (ws: seq<string>)
    ensures |ws| == |Postorder(t)|
  {
    match t
    case Leaf(v) => [fmt(v)]
    case Op(op, l, r) => PostfixWords(l, fmt) + PostfixWords(r, fmt) + [op]
  }

  lemma DenotesConcat<V>(ts: seq<string>, its: seq<Item<V>>, us: seq<string>, jts: seq<Item<V>>,
                         isOp: string -> bool, leaf: string -> Option<V>)
    requires DenotesAll(ts, its, isOp, leaf) && DenotesAll(us, jts, isOp, leaf)
    ensures DenotesAll(ts + us, its + jts, isOp, leaf)
  {
    forall i | 0 <= i < |ts| + |us|
      ensures Denotes((ts + us)[i], (its + jts)[i], isOp, leaf)
    {
      if i < |ts| {
        assert (ts + us)[i] == ts[i] && (its + jts)[i] == its[i];
      } else {
        assert (ts + us)[i] == us[i - |ts|] && (its + jts)[i] == jts[i - |ts|];
      }
    }
  }

  /** When fmt prints every operand as a word that reads back as that operand, the words denote the walk. */
  lemma {:induction false} PostfixWordsDenote<V>(t: Tree<V>, fmt: V -> string, isOp: string -> bool, leaf: string -> Option<V>)
    requires OpsSatisfy(t, isOp)
    requires forall v :: !isOp(fmt(v)) && leaf(fmt(v)) == Some(v)
    ensures DenotesAll(PostfixWords(t, fmt), Postorder(t), isOp, leaf)
  {
    match t
    case Leaf(v) =>
      assert Denotes(fmt(v), LeafItem(v), isOp, leaf);
    case Op(op, l, r) =>
      PostfixWordsDenote(l, fmt, isOp, leaf);
      PostfixWordsDenote(r, fmt, isOp, leaf);
      DenotesConcat(PostfixWords(l, fmt), Postorder(l), PostfixWords(r, fmt), Postorder(r), isOp, leaf);
      assert Denotes(op, OpItem(op), isOp, leaf);
      DenotesSnoc(PostfixWords(l, fmt) + PostfixWords(r, fmt), Postorder(l) + Postorder(r), op, OpItem(op), isOp, leaf);
  }

  lemma {:induction false} PostfixWordsAreWords<V>(t: Tree<V>, fmt: V -> string, isOp: string -> bool)
    requires OpsSatisfy(t, isOp)
    requires forall op :: isOp(op) ==> Text.IsWord(op)
    requires forall v :: Text.IsWord(fmt(v))
    ensures forall i :: 0 <= i < |PostfixWords(t, fmt)| ==> Text.IsWord(PostfixWords(t, fmt)[i])
  {
    if t.Op? {
      PostfixWordsAreWords(t.left, fmt, isOp);
      PostfixWordsAreWords(t.right, fmt, isOp);
    }
  }

  /**
   * Printing a tree in postfix, words separated by single spaces, and constructing a
   * tree from that text gives the same tree back, provided every operator token is a
   * word and every operand prints as a word that is no operator and reads back as itself.
   */
  lemma PrintParse<V>(t: Tree<V>, fmt: V -> string, isOp: string -> bool, leaf: string -> Option<V>)
    requires OpsSatisfy(t, isOp)
    requires forall op :: isOp(op) ==> Text.IsWord(op)
    requires forall v :: Text.IsWord(fmt(v)) && !isOp(fmt(v)) && leaf(fmt(v)) == Some(v)
    ensures Build(Some(Text.Join(PostfixWords(t, fmt), " ")), isOp, leaf) == Success(t)
  {
    var ws := PostfixWords(t, fmt);
    PostfixWordsAreWords(t, fmt, isOp);
    BuildWords(ws, isOp, leaf);
    PostfixWordsDenote(t, fmt, isOp, leaf);
    ParsePostorder(ws, t, isOp, leaf);
  }

  // ---------------------------------------------------------------------------
  // Exactly when each error is reported
  // ---------------------------------------------------------------------------

  /** With `depth` trees on the stack the token can be processed. */
  predicate Admissible<V>(depth: int, tok: string, isOp: string -> bool, leaf: string -> Option<V>) {
    if isOp(tok) then depth >= 2 else leaf(tok).Some?
  }

  /** Starting from `depth` trees, every token finds enough operands, and every operand token reads. */
  predicate AllAdmissible<V>(depth: int, toks: seq<string>, isOp: string -> bool, leaf: string -> Option<V>) {
    forall i :: 0 <= i < |toks| ==> Admissible(depth + Balance(toks[..i], isOp), toks[i], isOp, leaf)
  }

  /** Token j is the first one that cannot be processed. */
  predicate FirstInadmissible<V>(depth: int, toks: seq<string>, j: int, isOp: string -> bool, leaf: string -> Option<V>) {
    && 0 <= j < |toks|
    && AllAdmissible(depth, toks[..j], isOp, leaf)
    && !Admissible(depth + Balance(toks[..j], isOp), toks[j], isOp, leaf)
  }

  /** The error a token that cannot be processed raises. */
  function Rejection(tok: string, isOp: string -> bool): ParseError {
    if isOp(tok) then InsufficientOperands(tok) else InvalidOperand(tok)
  }

  /** Balance of a prefix of x :: rest, in terms of the prefix of rest. */
  lemma BalancePrefixCons(toks: seq<string>, i: int, isOp: string -> bool)
    requires 0 < i <= |toks|
    ensures Balance(toks[..i], isOp) == Weight(toks[0], isOp) + Balance(toks[1..][..i - 1], isOp)
  {
    assert toks[..i][0] == toks[0] && toks[..i][1..] == toks[1..][..i - 1];
  }

  lemma AdmissibleCons<V>(depth: int, toks: seq<string>, isOp: string -> bool, leaf: string -> Option<V>)
    requires toks != []
    ensures AllAdmissible(depth, toks, isOp, leaf) <==>
      Admissible(depth, toks[0], isOp, leaf) && AllAdmissible(depth + Weight(toks[0], isOp), toks[1..], isOp, leaf)
  {
    var d1, rest := depth + Weight(toks[0], isOp), toks[1..];
    assert toks[..0] == [];
    if AllAdmissible(depth, toks, isOp, leaf) {
      forall i | 0 <= i < |rest|
        ensures Admissible(d1 + Balance(rest[..i], isOp), rest[i], isOp, leaf)
      {
        BalancePrefixCons(toks, i + 1, isOp);
        assert Admissible(depth + Balance(toks[..i + 1], isOp), toks[i + 1], isOp, leaf);
      }
    }
    if Admissible(depth, toks[0], isOp, leaf) && AllAdmissible(d1, rest, isOp, leaf) {
      forall i | 0 <= i < |toks|
        ensures Admissible(depth + Balance(toks[..i], isOp), toks[i], isOp, leaf)
      {
        if i > 0 {
          BalancePrefixCons(toks, i, isOp);
          assert toks[i] == rest[i - 1];
        }
      }
    }
  }

  /** The first token of an admissible prefix is admissible. */
  lemma AllAdmissibleHead<V>(depth: int, toks: seq<string>, n: int, isOp: string -> bool, leaf: string -> Option<V>)
    requires 0 < n <= |toks| && AllAdmissible(depth, toks[..n], isOp, leaf)
    ensures Admissible(depth, toks[0], isOp, leaf)
  {
    assert toks[..n][..0] == [] && toks[..n][0] == toks[0];
  }

  lemma FirstInadmissibleCons<V>(depth: int, toks: seq<string>, j: int, isOp: string -> bool, leaf: string -> Option<V>)
    requires 0 < j < |toks|
    ensures FirstInadmissible(depth, toks, j, isOp, leaf) <==>
      Admissible(depth, toks[0], isOp, leaf) && FirstInadmissible(depth + Weight(toks[0], isOp), toks[1..], j - 1, isOp, leaf)
  {
    AdmissibleCons(depth, toks[..j], isOp, leaf);
    assert toks[..j][0] == toks[0] && toks[..j][1..] == toks[1..][..j - 1];
    BalancePrefixCons(toks, j, isOp);
    assert toks[j] == toks[1..][j - 1];
  }

  /**
   * The run from `stack` succeeds, with |stack| + Balance(toks) trees, when every
   * token is admissible; otherwise it fails with the rejection of the first
   * inadmissible token, and such a token exists.
   */
  lemma {:induction false} RunOutcome<V>(stack: seq<Tree<V>>, toks: seq<string>, isOp: string -> bool, leaf: string -> Option<V>)
    ensures AllAdmissible(|stack|, toks, isOp, leaf) ==>
      Run(stack, toks, isOp, leaf).Success? && |Run(stack, toks, isOp, leaf).value| == |stack| + Balance(toks, isOp)
    ensures !AllAdmissible(|stack|, toks, isOp, leaf) ==>
      exists j :: FirstInadmissible(|stack|, toks, j, isOp, leaf)
    ensures forall j :: FirstInadmissible(|stack|, toks, j, isOp, leaf) ==>
      Run(stack, toks, isOp, leaf) == Failure(Rejection(toks[j], isOp))
    decreases |toks|
  {
    if toks != [] {
      var tok := toks[0];
      AdmissibleCons(|stack|, toks, isOp, leaf);
      assert toks[..0] == [];
      if Admissible(|stack|, tok, isOp, leaf) {
        var next := Shift(stack, tok, isOp, leaf).value;
        assert |next| == |stack| + Weight(tok, isOp);
        RunOutcome(next, toks[1..], isOp, leaf);
        if !AllAdmissible(|stack|, toks, isOp, leaf) {
          var j :| FirstInadmissible(|next|, toks[1..], j, isOp, leaf);
          FirstInadmissibleCons(|stack|, toks, j + 1, isOp, leaf);
        }
        forall j | FirstInadmissible(|stack|, toks, j, isOp, leaf)
          ensures Run(stack, toks, isOp, leaf) == Failure(Rejection(toks[j], isOp))
        {
          FirstInadmissibleCons(|stack|, toks, j, isOp, leaf);
          assert toks[1..][j - 1] == toks[j];
        }
      } else {
        assert FirstInadmissible(|stack|, toks, 0, isOp, leaf);
        forall j | FirstInadmissible(|stack|, toks, j, isOp, leaf)
          ensures j == 0
        {
          if j > 0 {
            AllAdmissibleHead(|stack|, toks, j, isOp, leaf);
            assert false;
          }
        }
      }
    }
  }

  lemma {:induction false} RunNonEmpty<V>(stack: seq<Tree<V>>, toks: seq<string>, isOp: string -> bool, leaf: string -> Option<V>)
    requires Run(stack, toks, isOp, leaf).Success? && (stack != [] || toks != [])
    ensures Run(stack, toks, isOp, leaf).value != []
    decreases |toks|
  {
    if toks != [] {
      RunNonEmpty(Shift(stack, toks[0], isOp, leaf).value, toks[1..], isOp, leaf);
    }
  }

  /**
   * The outcome of parsing in terms of the tokens alone. It succeeds exactly when every
   * operator meets two pending operands, every other token reads as an operand, and
   * the operands outnumber the operators by one. Otherwise the first token that
   * cannot be processed decides the error: InsufficientOperands for an operator,
   * InvalidOperand for anything else. Failing that, more than one pending tree gives
   * TooManyOperands and none (only for no tokens at all) gives NoResult.
   */
  lemma ParseOutcome<V>(toks: seq<string>, isOp: string -> bool, leaf: string -> Option<V>)
    ensures PostfixSpec(toks, isOp, leaf).Success? <==>
      AllAdmissible(0, toks, isOp, leaf) && Balance(toks, isOp) == 1
    ensures PostfixSpec(toks, isOp, leaf) == Failure(TooManyOperands) <==>
      AllAdmissible(0, toks, isOp, leaf) && Balance(toks, isOp) > 1
    ensures PostfixSpec(toks, isOp, leaf) == Failure(NoResult) <==> toks == []
    ensures forall j :: FirstInadmissible(0, toks, j, isOp, leaf) ==>
      PostfixSpec(toks, isOp, leaf) == Failure(Rejection(toks[j], isOp))
    ensures PostfixSpec(toks, isOp, leaf) != Failure(EmptyExpression)
  {
    RunOutcome([], toks, isOp, leaf);
    if Run([], toks, isOp, leaf).Success? && toks != [] {
      RunNonEmpty([], toks, isOp, leaf);
    }
    if !AllAdmissible(0, toks, isOp, leaf) {
      var j :| FirstInadmissible(0, toks, j, isOp, leaf);
    }
  }
}
