# Postfix expression trees, modelled in Dafny

The repository builds expression trees from postfix (reverse-Polish) text in two
domains that share one design:

- **Intervals.** Literals are `start,end` pairs of Java ints. The operators are
  `U` (union) and `I` (intersection).
- **Arithmetic.** Literals are numbers. The operators are `+ - * /`.

Each domain has the same parts:

- The constructor rejects null, empty and blank text.
- The rest of the text is trimmed and split on runs of whitespace.
- A stack parser builds the tree. An operator pops the right operand, then the
  left, and pushes an operator node. Any other token is read as a literal. At the
  end exactly one tree must remain.
- The interval tree is then evaluated and drawn as an ASCII text tree. The
  arithmetic tree is printed in infix, in Scheme notation and as the same kind of
  text tree.

The model has these modules:

- `PostfixTree` holds the shared part, generic in the literal type `V`:
  - the tree datatype;
  - the parser, once as a function (`PostfixSpec`) and once as the loop the source
    runs (`ParsePostfix`, with the stack as a `seq`, top at the end);
  - the constructors' front end (`Build`, `Construct`).
- Each domain supplies `isOp` and a literal reader as function values.
- `Text` models `String.trim()` and `split("\\s+")`.
- `Decimal` models `Integer.toString` and `Integer.parseInt`.
- `Intervals` models the `Interval` class.
- `TreeText` models the text-tree layout both domains share.
- `IntervalTree` and `ExpressionTree` instantiate the parser for each domain.
- `IntervalTreeExamples` and `ExpressionTreeExamples` restate the unit tests'
  concrete cases as lemmas. Most start from the test's own text and go through
  `Parse`; the few that do not are listed under "Left out".

The trees are never mutated after construction, so they are datatype values. A
constructor or operation that throws `IllegalArgumentException` returns `None`
(the `Interval` constructor, `parseInterval`, `Integer.parseInt`) or `Failure` of
an error enum (the tree constructors, `evaluate`). Java's `null` is `None`.

In the arithmetic domain the number type is a type parameter `V`:

- `parseNumber: string -> Option<V>` stands for `Double.parseDouble`;
- `fmt: V -> string` stands for the private `fmt` printer.

Properties that depend on what those two functions do are stated under explicit
assumptions about them. An example is "every number prints as one word that
parses back to itself".

## Model

| member | source | states |
|---|---|---|
| Text.Trim | src/intervals/IntervalTree.java:154-158 | `trim()` is empty exactly when every character is at or below U+0020; otherwise it starts and ends above U+0020; it is a slice s[i..j] of its input such that everything before i and from j on is at or below U+0020 |
| Text.TrimPadded | src/intervals/IntervalTree.java:154-158 | blank padding on either side of a string that starts and ends above U+0020 is exactly what `trim()` removes |
| Text.Tokenize | src/intervals/IntervalTree.java:169 | `split("\\s+")` of trimmed text yields non-empty tokens holding no `\s` character, which together hold exactly the input's non-`\s` characters, in order |
| Text.SkipSpaces | src/intervals/IntervalTree.java:169 | a run of `\s` characters in front of the text adds no token |
| Text.TokenizeRun | src/intervals/IntervalTree.java:169 | a token followed by any non-empty run of `\s` characters (tabs, several blanks) splits off as that one token |
| Text.TokenizeJoinWith | src/intervals/IntervalTree.java:169 | tokens separated by arbitrary runs of `\s` characters split back into exactly those tokens |
| Text.TokenizeTrimmed | src/intervals/IntervalTree.java:154-169 | text that is not blank splits into at least one token, so the parser never sees an empty token list |
| Text.TokenizeEmpty | src/intervals/IntervalTree.java:169 | a string yields no token exactly when all of it is `\s` |
| Text.TokenizeJoin | src/expression/ExpressionTree.java:140 | splitting tokens joined by single spaces gives the same tokens back |
| Text.JoinedWords | src/expression/ExpressionTree.java:133-140 | words joined by single spaces are unchanged by `trim()` and split back into the words |
| Decimal.IntToString | src/intervals/Interval.java:65 | decimal text of an int: a leading `-` exactly for negative values, digits otherwise |
| Decimal.ParseInt | src/intervals/IntervalTree.java:237-238 | `Integer.parseInt` accepts only an optional sign followed by at least one ASCII digit |
| Decimal.ParseIntToString | src/intervals/IntervalTree.java:237-238 | `parseInt` reads back every int that `toString` prints |
| Decimal.ParseIntRange | src/intervals/IntervalTree.java:236-242 | digit strings above 2147483647, or above 2147483648 after `-`, are rejected rather than wrapped |
| Decimal.ParseIntIgnoresPlusAndZeros | src/intervals/IntervalTree.java:237-238 | a leading `+` or a leading zero leaves the value unchanged |
| Intervals.MakeInterval | src/intervals/Interval.java:19-25 | construction fails exactly when start > end; otherwise the interval holds the given bounds (so `5,5` is accepted) |
| Intervals.Intersect | src/intervals/Interval.java:34-43 | overlapping operands give (max start, min end); disjoint or adjacent ones give exactly (MIN_VALUE, MIN_VALUE) |
| Intervals.Union | src/intervals/Interval.java:51-56 | the result covers both operands and lies within every interval that covers both (the least bounding interval) |
| Intervals.IntersectPoints | src/intervals/Interval.java:34-43 | on overlapping operands the intersection holds exactly the points both hold |
| Intervals.IntersectAdjacent | src/intervals/Interval.java:38-41 | intervals such as 1,3 and 4,6 do not overlap: both orders give the sentinel |
| Intervals.UnionCommutes | src/intervals/Interval.java:52-55 | union is commutative |
| Intervals.IntersectCommutes | src/intervals/Interval.java:35-36 | intersect is commutative |
| Intervals.UnionIdempotent | src/intervals/Interval.java:52-55 | a U a = a |
| Intervals.IntersectIdempotent | src/intervals/Interval.java:35-42 | a I a = a |
| Intervals.UnionAssociates | src/intervals/Interval.java:51-56 | union is associative |
| Intervals.IntersectAssociates | src/intervals/Interval.java:34-43 | intersect is associative, sentinel included |
| Intervals.IntersectNoOverlap | src/intervals/Interval.java:38-41 | the sentinel absorbs any further intersection |
| Intervals.ToString | src/intervals/Interval.java:64-66 | `toString` is one word above U+0020 with exactly one comma |
| Intervals.Equals | src/intervals/Interval.java:75-85 | `equals` holds exactly when both starts and both ends agree |
| PostfixTree.Shift | src/intervals/IntervalTree.java:172-191 | one token is accepted exactly when it is an operator with two trees on the stack or a readable literal; a rejected token gives "insufficient operands" for an operator and "invalid literal" otherwise; an accepted one leaves the stack one shorter (operator) or one longer (literal), with the untouched part of the stack kept below |
| PostfixTree.Run | src/intervals/IntervalTree.java:172-192 | after all tokens the stack has grown by operands read − operators read; a run can only fail on a token |
| PostfixTree.Finish | src/intervals/IntervalTree.java:194-204 | exactly one tree left is the result; an empty stack is "no result"; more than one is "too many operands" |
| PostfixTree.PostfixSpec | src/intervals/IntervalTree.java:168-205 | a result means operands outnumber operators by exactly one; "no result" means they balance; "too many operands" means a surplus above one; the parser never reports an empty expression |
| PostfixTree.LeavesAreOpsPlusOne | src/intervals/IntervalTree.java:179-182 | every tree built from binary operator nodes has one more leaf than operators |
| PostfixTree.ParsePostfix | src/intervals/IntervalTree.java:168-205 | the loop with its explicit stack returns what `PostfixSpec` specifies, with the invariant stack size = operands read − operators read |
| PostfixTree.ShiftKeepsInvariant | src/intervals/IntervalTree.java:172-191 | one accepted token keeps two facts: the stack size equals the token balance, and the stack's postorder walk is what the tokens read so far stand for |
| PostfixTree.RunKeepsInvariant | src/intervals/IntervalTree.java:172-192 | the same two facts hold after any run of accepted tokens |
| PostfixTree.RunPostorder | src/intervals/IntervalTree.java:179-182 | tokens that spell out a tree's postorder walk push exactly that tree, left child first and right child second |
| PostfixTree.ParsePostorder | src/intervals/IntervalTree.java:168-205 | parsing yields tree t if and only if the tokens spell out t's postorder walk |
| PostfixTree.ParsedCounts | src/intervals/IntervalTree.java:172-204 | a parsed tree with k operator nodes came from k operator tokens and k + 1 literal tokens, and all its operators are operator tokens |
| PostfixTree.PostorderOps | src/intervals/IntervalTree.java:173-182 | every operator node of a tree spelled out by the tokens holds an operator token |
| PostfixTree.RunOutcome | src/intervals/IntervalTree.java:172-192 | the token loop succeeds exactly when every token is processable; otherwise the first unprocessable token decides the error |
| PostfixTree.ParseOutcome | src/intervals/IntervalTree.java:172-204 | success iff all tokens are processable and literals outnumber operators by one; "too many operands" iff processable with a larger surplus; "no result" iff there are no tokens; otherwise the first bad token gives "insufficient operands" or "invalid literal" |
| PostfixTree.Build | src/intervals/IntervalTree.java:153-159 | null or blank text is rejected before tokenizing, and exactly that text is; "no result" is never reported; every tree built holds only operator tokens |
| PostfixTree.BuildWords | src/intervals/IntervalTree.java:158-169 | text made of words separated by single spaces is parsed as exactly those words |
| PostfixTree.BuildSpaced | src/intervals/IntervalTree.java:153-169 | words separated by any runs of `\s` characters, with blank padding around them, are parsed as exactly those words |
| PostfixTree.BuildThreeWords | src/intervals/IntervalTree.java:153-169 | three words with any `\s` gaps and any blank padding parse as the same three words separated by single spaces |
| PostfixTree.BuildThree | src/intervals/IntervalTree.java:153-169 | three words separated by single spaces reach the parser as exactly those three tokens |
| PostfixTree.Construct | src/intervals/IntervalTree.java:153-159 | the constructor, running the loop parser, returns what `Build` specifies |
| PostfixTree.PostfixWordsDenote | src/intervals/IntervalTree.java:172-191 | a tree's literals printed by a reader-compatible printer, with its operators, spell out its postorder walk |
| PostfixTree.PrintParse | src/intervals/IntervalTree.java:153-205 | printing a tree in postfix and constructing from that text gives the same tree back |
| TreeText.Render | src/intervals/IntervalTree.java:108-137 | every drawing begins with its node's label: the printed operand of a leaf, the operator of an operator node |
| TreeText.Lines | src/intervals/IntervalTree.java:108-137 | a tree with k operator nodes is drawn on 5k + 1 lines; the first shows the node's label and every later one starts with the prefix |
| TreeText.RenderNoTrailingNewline | src/intervals/IntervalTree.java:123-136 | when no operand prints with a trailing newline, no drawing ends in a newline, so the conditional newline after the left child is always appended |
| TreeText.RenderLines | src/intervals/IntervalTree.java:108-137 | the drawing is exactly its lines joined by newlines |
| TreeText.RenderNewlines | src/intervals/IntervalTree.java:108-137 | a drawing with k operator nodes holds exactly 5k newlines and none at the end |
| IntervalTree.IsOperator | src/intervals/IntervalTree.java:251-253 | the operators `U` and `I` are single visible characters on one line |
| IntervalTree.OperatorIsNoInterval | src/intervals/IntervalTree.java:173-190 | no operator token could also be read as an interval, so checking for operators first loses no literal |
| IntervalTree.IndexOf | src/intervals/IntervalTree.java:217-223 | `indexOf(c, from)` is −1 or the first position at or after `from` holding c |
| IntervalTree.ParseInterval | src/intervals/IntervalTree.java:215-243 | an accepted literal has exactly one comma, and the trimmed parts before and after it read as its start and end |
| IntervalTree.ReadBounds | src/intervals/IntervalTree.java:228-242 | both trimmed parts must be non-empty ints, and the interval has those bounds |
| IntervalTree.ParseIntervalAccepts | src/intervals/IntervalTree.java:215-243 | conversely, a literal with one comma and int parts is accepted exactly when start <= end |
| IntervalTree.ParseBoundsText | src/intervals/IntervalTree.java:215-243 | two printed ints around a comma read back as those ints and are rejected exactly when start > end (as `5,2` is) |
| IntervalTree.ParseIntervalToString | src/intervals/IntervalTree.java:215-243 | `parseInterval` reads back every interval `toString` prints |
| IntervalTree.ToStringIsOperand | src/intervals/IntervalTree.java:251-253 | no printed interval is `U` or `I`, so it is never taken for an operator |
| IntervalTree.Parse | src/intervals/IntervalTree.java:153-159 | blank or null text is rejected exactly; every tree built has only U and I nodes and evaluates without error |
| IntervalTree.New | src/intervals/IntervalTree.java:153-159 | the constructor with the loop parser agrees with `Parse` |
| IntervalTree.ParsePrinted | src/intervals/IntervalTree.java:168-205 | every tree of U and I nodes, printed in postfix with `toString` literals, parses back to itself |
| IntervalTree.Evaluate | src/intervals/IntervalTree.java:91-105 | evaluation fails (the default branch) exactly when some operator node is neither U nor I |
| IntervalTree.UnionTree | src/intervals/IntervalTree.java:96-98 | a tree of unions evaluates to an interval covering every literal, whose start and end are a literal's start and a literal's end |
| IntervalTree.IntersectionTree | src/intervals/IntervalTree.java:99-100 | a tree of intersections evaluates to exactly the points all literals share, or to the sentinel when they share none |
| IntervalTree.Height | src/intervals/IntervalTree.java:139-142 | the height is at least 1, and exactly 1 for a leaf |
| IntervalTree.HeightBounds | src/intervals/IntervalTree.java:139-142 | height <= operators + 1, and leaves <= 2^(height − 1) |
| IntervalTree.TextTree | src/intervals/IntervalTree.java:260-263 | `textTree()` draws from the root with an empty prefix and begins with the root's label |
| IntervalTree.TextTreeLayout | src/intervals/IntervalTree.java:107-137 | a parsed tree's drawing is its 5k + 1 lines joined by newlines, with 5k newlines and none at the end |
| IntervalTreeExamples.SimpleUnion | test/IntervalTreeTest.java:23-26 | `1,4 2,5 U` builds U(1,4)(2,5), which evaluates to 1,5 |
| IntervalTreeExamples.SimpleUnionDrawing | test/IntervalTreeTest.java:27-28 | that tree draws as the six lines of the test: U, a bar, a bar, a bar and underscores before 1,4, a bar, a bar and underscores before 2,5 |
| IntervalTreeExamples.SimpleIntersection | test/IntervalTreeTest.java:32-35 | `1,4 2,5 I` builds I(1,4)(2,5), which evaluates to 2,4 |
| IntervalTreeExamples.MixedWhitespace | test/IntervalTreeTest.java:197-209 | `  1,4   2,5   U  `, `1,4<tab>2,5<tab>U` and the mixed blanks-and-tabs text build what `1,4 2,5 U` builds |
| IntervalTreeExamples.AdjacentAndTouching | test/IntervalTreeTest.java:57-74 | 1,3 / 4,6 unite to 1,6 and intersect to the sentinel; 1,4 / 4,7 unite to 1,7 and intersect to 4,4 |
| IntervalTreeExamples.ComplexExpression | test/IntervalTreeTest.java:154-159 | I(1,2)(U(3,4)(5,6)) evaluates to the sentinel |
| IntervalTreeExamples.EmptyExpressions | test/IntervalTreeTest.java:260-272 | null, empty and blank text are rejected as empty |
| IntervalTreeExamples.OnlyOperator | test/IntervalTreeTest.java:330-332 | `U` alone fails with insufficient operands for `U` |
| IntervalTreeExamples.FirstUnreadable | src/intervals/IntervalTree.java:184-190 | three words whose first is neither an operator nor a readable interval fail on that first word, as an invalid literal |
| IntervalTreeExamples.ReversedBounds | test/IntervalTreeTest.java:340-342 | `5,2 3,4 U` is rejected: construction fails with an invalid literal naming `5,2` |
| ExpressionTree.IsOperator | src/expression/ExpressionTree.java:168-170 | the four operators are single visible characters, free of parentheses and newlines |
| ExpressionTree.Parse | src/expression/ExpressionTree.java:132-137 | blank or null text is rejected exactly; "no result" never occurs; every tree built has only `+ - * /` nodes |
| ExpressionTree.New | src/expression/ExpressionTree.java:132-166 | the constructor with the loop parser agrees with `Parse` |
| ExpressionTree.ParsePrinted | src/expression/ExpressionTree.java:139-166 | a tree printed in postfix parses back to itself, when every number prints as one non-operator word that reads back as that number |
| ExpressionTree.Infix | src/expression/ExpressionTree.java:87-89 | the infix text of an operator node is wrapped in `( ` and ` )` |
| ExpressionTree.Scheme | src/expression/ExpressionTree.java:92-94 | the Scheme text of an operator node is wrapped in `( ` and ` )` and names its operator first |
| ExpressionTree.InfixWords | src/expression/ExpressionTree.java:87-89 | the infix text has 3 words per operator node plus one per number |
| ExpressionTree.SchemeWords | src/expression/ExpressionTree.java:92-94 | the Scheme text has 3 words per operator node plus one per number |
| ExpressionTree.InfixJoin | src/expression/ExpressionTree.java:87-89 | the infix text is its words (`(`, left, op, right, `)`) separated by single spaces |
| ExpressionTree.SchemeJoin | src/expression/ExpressionTree.java:92-94 | the Scheme text is its words (`(`, op, left, right, `)`) separated by single spaces |
| ExpressionTree.InfixTokens | src/expression/ExpressionTree.java:87-89 | when operators and printed numbers are single words, splitting the infix text on whitespace gives its words |
| ExpressionTree.SchemeTokens | src/expression/ExpressionTree.java:92-94 | the same for the Scheme text |
| ExpressionTree.SameCharacters | src/expression/ExpressionTree.java:87-94 | infix and Scheme text hold the same characters, each as often |
| ExpressionTree.InfixParens | src/expression/ExpressionTree.java:87-89 | with parenthesis-free operators and numbers, `(` and `)` each occur once per operator node in the infix text |
| ExpressionTree.ParenCounts | src/expression/ExpressionTree.java:87-94 | both renderings hold exactly one `(` and one `)` per operator node |
| ExpressionTree.TextTree | src/expression/ExpressionTree.java:198-201 | `textTree()` draws from the root with an empty prefix and begins with the root's label |
| ExpressionTree.TextTreeLayout | src/expression/ExpressionTree.java:97-121 | with newline-free numbers, the drawing is its 5k + 1 lines joined by newlines, with 5k newlines and none at the end |
| ExpressionTreeExamples.PopOrder | src/expression/ExpressionTree.java:148-150 | `a b op` builds Op(op, a, b): the first literal read is the left child |
| ExpressionTreeExamples.SimpleAddition | test/ExpressionTreeTest.java:34-35 | `1 2 +` builds +(1, 2) whatever numbers `1` and `2` read as |
| ExpressionTreeExamples.SimpleAdditionPrinted | test/ExpressionTreeTest.java:37-38 | with numbers printing as `1.0` and `2.0`, the tree prints as `( 1.0 + 2.0 )` and `( + 1.0 2.0 )` |
| ExpressionTreeExamples.MixedWhitespace | test/ExpressionTreeTest.java:160-172 | `  1   2   +  `, `1<tab>2<tab>+` and the mixed blanks-and-tabs text build what `1 2 +` builds |
| ExpressionTreeExamples.MissingOperand | test/ExpressionTreeTest.java:243-245 | `1 +` fails with insufficient operands for `+` |
| ExpressionTreeExamples.UnreadableThird | test/ExpressionTreeTest.java:238-240 | two numbers then a token that is no operator and no number (`%`) fail with an invalid token naming it |

## Left out

- `ExpressionTree.evaluate` (src/expression/ExpressionTree.java:66-84): IEEE double arithmetic and its division-by-zero check are floating-point numerics and are not modelled.
- `Double.parseDouble` and the private `fmt` printer are parameters (`parseNumber`, `fmt`). Their behaviour on `1e2`, `NaN`, `Infinity` and the `%.1f` formatting is not modelled. Properties that need them to behave state that as a precondition.
- ExpressionTree.ParsePrinted, ExpressionTree.InfixTokens, ExpressionTree.SchemeTokens, ExpressionTree.ParenCounts, ExpressionTree.TextTreeLayout: hold only under assumptions on `fmt` (one word; no parenthesis; no newline), because `fmt` is not modelled.
- `Interval.hashCode`: a call into `Objects.hash`.
- Intervals.Equals: models the same-start, same-end test only. The identity shortcut and the `instanceof` check on arbitrary objects have no counterpart, because the model compares only intervals.
- Exception message texts: errors are the enum `ParseError`. Every literal failure, including start > end, is the one kind `InvalidOperand`, as the source rethrows them all as "Invalid interval".
- Decimal.ParseInt: accepts only ASCII digits; Java's `parseInt` also accepts other Unicode decimal digits.
- The unused `isLast` parameter of both `textTree` methods is dropped.
- `StringBuilder` appends in `textTree` are modelled as one concatenation.
- The Java stack classes (`Stack`, `ArrayDeque`) are a `seq` with the top at the end.
- The interfaces src/expression/Expression.java and src/intervals/Intervals.java have no behaviour. Their doc diagrams show a single `|` line and a trailing blank line. The model follows the code and the tests instead.
- test/SimpleTestRunner.java is a console harness and is not part of this model.
- The multi-level drawings of test/IntervalTreeTest.java:224-237 and test/ExpressionTreeTest.java:175-194 are not restated as concrete lemmas. `TreeText.RenderLines` and the layout lemmas state their shape for every tree.
- IntervalTreeExamples.AdjacentAndTouching, IntervalTreeExamples.ComplexExpression: state the evaluation of the trees the tests build, not the parse of the tests' text. The parse of such text is covered for all inputs by `IntervalTree.ParsePrinted`.
- IntervalTreeExamples.SimpleUnionDrawing, ExpressionTreeExamples.SimpleAdditionPrinted: state the printing of the tree the test builds, given as a value, not of the test's text. That the text builds exactly this tree is the separate lemma `IntervalTreeExamples.SimpleUnion` or `ExpressionTreeExamples.SimpleAddition`.
- ExpressionTreeExamples.UnreadableThird: states the token sequence of `1 2 %`, for any three tokens of that kind, not the text itself, because what `1` and `2` read as depends on the unmodelled `parseNumber`.
- The invalid-token case `1 a +` (test/ExpressionTreeTest.java:233-235) is covered by `PostfixTree.ParseOutcome` for all inputs but is not restated as its own concrete lemma.
