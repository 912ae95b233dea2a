# Verified model of the 6.031 problem-set cores

This project is a Dafny model of three problem sets: an expression engine
(ps3, `expressivo`), two implementations of a weighted directed graph plus a
poet that uses one of them (ps2, `graph` and `poet`), and tweet analysis
(ps1, `twitter`). Every operation of those cores is written in the form the
Java gives it:

- pure tree code becomes datatypes, functions and lemmas;
- classes whose methods update their fields become Dafny classes;
- loops become methods with invariants, proved against specification
  functions.

Modules, in dependency order:

| file | module | models |
|---|---|---|
| `wrappers.dfy` | `Wrappers` | `Option` and `Result` |
| `text.dfy` | `Text` | ASCII `toLowerCase`, `indexOf`, `String.split(" ")` (trailing empty strings dropped), `trim`, joining with single spaces |
| `case_blind.dfy` | `CaseBlind` | the case-insensitive `contains` helper shared by `GraphPoet` and `SocialNetwork` |
| `expr.dfy` | `Expressions` | `Expression` and its variants `Number`, `Variable`, `Plus` and `Multiply`: factories, `equals`, `hashCode`, `toString`, `getValue`, `differentiate`, `simplify` |
| `expr_parser.dfy` | `ExpressionGrammar` | the `ExpressionParser` grammar (`root`, `sum`, `mul`, `primitive`) as recursive descent over lexer tokens; its parse-tree contexts |
| `expr_builder.dfy` | `ExpressionBuilder` | the `MakeExpression` listener (a class whose field is the stack) and `Expression.parse` |
| `edges_graph.dfy` | `EdgesGraph` | `Edge` and `ConcreteEdgesGraph` (a vertex set and an edge list) |
| `vertices_graph.dfy` | `VerticesGraph` | `Vertex` and `ConcreteVerticesGraph` (a list of mutable vertices) |
| `graph_poet.dfy` | `Poet` | `GraphPoet`: corpus counting, `checkRep`, `poem` and its helpers |
| `tweets.dfy` | `Tweets` | `Tweet` and `Timespan` values |
| `extract.dfy` | `Extract` | `getTimespan`, `getMentionedUsers` |
| `filter.dfy` | `Filter` | `writtenBy`, `inTimespan`, `containing` |
| `social_network.dfy` | `SocialNetwork` | `guessFollowsGraph`, `influencers` and the helpers `contains`, `getValue`, `replaceValue`, `increment` |

Java `assert` statements (the course runs with assertions enabled) are
demands on the caller, so they become `requires` clauses. Iteration over a
`HashSet` or `HashMap` visits entries in an order the program does not
control. Loops over such collections are modelled as picking an arbitrary
remaining element (`:|`), so every proved property holds for every
iteration order.

The proof structure, module by module:

- **Expressions.** The tree is a datatype with a validity predicate (the
  constructors' `checkRep`). `differentiate` is proved correct against
  forward-mode automatic differentiation (dual numbers). `simplify` is
  proved to preserve meaning, to fold a fully known expression to one
  Number, and to be idempotent.
- **Parsing.** The parser is proved to invert `toString`. The proofs also
  cover precedence and associativity, and the rejection of empty,
  trailing-token and unclosed input.
- **Edge list graph.** Each mutator is specified by a function on the edge
  list. Its effect is then stated on the abstract weight function: the
  weight of the pair that was set, the weights left unchanged, and the
  representation invariant.
- **Vertex list graph.** Each object is read as a `VertexState` value. The
  graph is the sequence of those values. Every mutator is proved to change
  the objects exactly as a function on that sequence says, and to keep the
  mirrored-records invariant.
- **Poet.** The graph counted from a corpus is proved to weigh each edge
  by the number of times its pair of words is adjacent. `poem` is proved
  to keep the input words in place and to insert, between adjacent words,
  a heaviest bridge exactly when the code finds one. Both words must be
  vertices ignoring case. The path search, however, looks up the first
  word as spelt: a case variant of a corpus word never gets a bridge (see
  Left out).
- **Tweet analysis.** Filtering is proved to keep exactly the tweets that
  match, in their original order. `guessFollowsGraph` is proved to record
  exactly who mentions whom. `influencers` is proved to rank every
  followed user once, by follower count, using a corrected insertion step
  (see Findings).

## Model

| member | source | states |
|---|---|---|
| `Text.Split` | ps2/src/poet/GraphPoet.java:193 | `split(" ")`: the pieces hold no space; a string without a space is one piece; otherwise the result is the space-separated pieces with the trailing empty ones dropped, and its last piece is not empty |
| `Text.SplitJoin` | ps1/src/twitter/Filter.java:95 | splitting the single-spaced join of non-empty, space-free words gives back those words |
| `Text.PiecesOfJoin` | ps2/src/poet/GraphPoet.java:88 | cutting a single-spaced join at every space gives back the joined words |
| `Text.JoinPieces` | ps2/src/poet/GraphPoet.java:88 | joining the pieces of a string with single spaces gives back the string |
| `Text.TrimAppendedBlanks` | ps2/src/poet/GraphPoet.java:213 | `trim` removes exactly the blanks appended after a string that starts and ends with a non-blank |
| `Text.IndexOfFrom` | ps1/src/twitter/Extract.java:93 | `indexOf(' ', from)`: -1 exactly when no such character follows `from`; otherwise the first position at or after `from` that holds it |
| `CaseBlind.Contains` | ps1/src/twitter/SocialNetwork.java:95-102 | true exactly when some element equals the target ignoring case (GraphPoet.java's `contains`, lines 161-168, is the same helper) |
| `CaseBlind.ContainsIgnoresCase` | ps1/src/twitter/SocialNetwork.java:97 | case-blind membership gives the same answer for two targets that differ only in case, and holds for an exact member |
| `CaseBlind.ContainsExactly` | ps2/src/poet/GraphPoet.java:101-103 | within a set whose words never differ only in case, case-blind membership is exact membership |
| `CaseBlind.LowerAllSize` | ps2/src/poet/GraphPoet.java:172-184 | lower-casing a set never enlarges it, and keeps its size exactly when no two of its words differ only in case |
| `Expressions.MakeNumber` | ps3/src/expressivo/Expression.java:44-47 | a Number node holding the given value, satisfying the rep invariant (value not negative) |
| `Expressions.MakeVariable` | ps3/src/expressivo/Expression.java:49-52 | a Variable node with the given non-empty name, satisfying the rep invariant |
| `Expressions.MakePlus` | ps3/src/expressivo/Expression.java:54-57 | a Plus node with those operands, valid exactly when both operands are |
| `Expressions.MakeMultiply` | ps3/src/expressivo/Expression.java:59-62 | a Multiply node with those operands, valid exactly when both operands are |
| `Expressions.EqualIsIdentity` | ps3/src/expressivo/Plus.java:32-38 | `Expressions.Equal` (the four classes' `equals`: same class, equal value or name, left with left and right with right) holds exactly for identical trees: it is an equivalence, and operand order matters |
| `Expressions.HashConsistent` | ps3/src/expressivo/Multiply.java:41-43 | `Expressions.Hash` (the four classes' `hashCode`: a leaf's own hash, or the children's hashes combined with the operator) gives equal expressions equal hashes, whatever the leaf hashes and the combining function |
| `Expressions.GetValue` | ps3/src/expressivo/Number.java:60-62 | a value is returned exactly for a Number, and it is that Number's value; the other variants fail |
| `Expressions.Derive` | ps3/src/expressivo/Plus.java:46-48 | the derivative of a valid expression is valid and mentions no variable the expression lacks |
| `Expressions.DeriveAgreesWithDual` | ps3/src/expressivo/Multiply.java:46-49 | at every point, the symbolic derivative evaluates to the derivative that forward-mode differentiation computes (sum and product rules) |
| `Expressions.DualValueIsEval` | ps3/src/expressivo/Plus.java:60-62 | the value half of forward-mode differentiation is the expression's value |
| `Expressions.DeriveOfConstantIsZero` | ps3/src/expressivo/Variable.java:48-53 | an expression that does not mention `x` has derivative 0 with respect to `x` everywhere |
| `Expressions.Simplify` | ps3/src/expressivo/Number.java:55-57 | simplification of a valid expression is valid, and a Number simplifies to itself |
| `Expressions.SimplifyPreservesValue` | ps3/src/expressivo/Plus.java:51-57 | if each variable's replacement has that variable's value, simplifying does not change the expression's value |
| `Expressions.SimplifyFullyKnown` | ps3/src/expressivo/Multiply.java:52-58 | when every variable is given a number, simplification folds the whole expression to the single Number of its value |
| `Expressions.SimplifyIsSimplified` | ps3/src/expressivo/Plus.java:51-57 | under an environment lookup, no operator node of the result has two Number operands, every variable left is one the rule keeps as itself, and no variable is new |
| `Expressions.SimplifiedIsFixpoint` | ps3/src/expressivo/Multiply.java:52-58 | an already simplified expression is left unchanged by simplification |
| `Expressions.SimplifyIdempotent` | ps3/src/expressivo/Plus.java:51-57 | simplifying twice under an environment lookup is the same as simplifying once |
| `ExpressionGrammar.SumChildCount` | ps3/src/expressivo/parser/ExpressionParser.java:165-220 | a sum node has one child or three, and three exactly when it is `sum '+' mul` |
| `ExpressionGrammar.MulChildCount` | ps3/src/expressivo/parser/ExpressionParser.java:243-298 | a mul node has one child or three, and three exactly when it is `mul '*' primitive` |
| `ExpressionGrammar.ParsePrimitive` | ps3/src/expressivo/parser/ExpressionParser.java:320-364 | a successful `primitive` consumes at least one token |
| `ExpressionGrammar.ParseMul` | ps3/src/expressivo/parser/ExpressionParser.java:243-298 | a successful `mul` consumes at least one token |
| `ExpressionGrammar.ParseSum` | ps3/src/expressivo/parser/ExpressionParser.java:165-220 | a successful `sum` consumes at least one token |
| `ExpressionGrammar.ParseRoot` | ps3/src/expressivo/parser/ExpressionParser.java:121-142 | `root` succeeds only when a sum consumes the whole input (EOF follows) |
| `ExpressionGrammar.ParseTokens` | ps3/src/expressivo/parser/ExpressionParser.java:84-96 | parsing succeeds exactly when `root` does (every syntax error is a failure), and lexer tokens then give a valid expression |
| `ExpressionGrammar.RootWellFormed` | ps3/src/expressivo/parser/ExpressionParser.java:121-142 | every tree parsed from lexer tokens carries only well-formed leaves |
| `ExpressionGrammar.SumSuffix` | ps3/src/expressivo/parser/ExpressionParser.java:165-220 | what `sum` leaves unread is a suffix of its input |
| `ExpressionGrammar.TokensWellFormed` | ps3/src/expressivo/Plus.java:27-29 | every token of a valid expression's rendering is well formed: a non-negative NUMBER or a VARIABLE with a non-empty name (whether that name is a run of letters is not checked; see Left out) |
| `ExpressionGrammar.RenderIsSpelled` | ps3/src/expressivo/Plus.java:27-29 | `Expressions.Render` (the four classes' `toString`: a leaf's text, or "(left + right)" and "(left * right)") is exactly the spelling of the expression's token rendering |
| `ExpressionGrammar.TreeOfMeansExpr` | ps3/src/expressivo/Multiply.java:27-29 | the parse tree of a rendering stands for the rendered expression |
| `ExpressionGrammar.RoundTrip` | ps3/src/expressivo/Expression.java:69-95 | parsing the rendering of any expression gives that expression back |
| `ExpressionGrammar.PlusIsLeftAssociative` | ps3/src/expressivo/parser/ExpressionParser.java:165-220 | `a + b + c` parses as `(a + b) + c` |
| `ExpressionGrammar.TimesIsLeftAssociative` | ps3/src/expressivo/parser/ExpressionParser.java:243-298 | `a * b * c` parses as `(a * b) * c` |
| `ExpressionGrammar.TimesBindsTighterOnTheRight` | ps3/src/expressivo/parser/ExpressionParser.java:165-220 | `a + b * c` parses as `a + (b * c)` |
| `ExpressionGrammar.TimesBindsTighterOnTheLeft` | ps3/src/expressivo/parser/ExpressionParser.java:243-298 | `a * b + c` parses as `(a * b) + c` |
| `ExpressionGrammar.EmptyInputFails` | ps3/src/expressivo/parser/ExpressionParser.java:320-364 | the empty input is rejected |
| `ExpressionGrammar.BadLookaheadFails` | ps3/src/expressivo/parser/ExpressionParser.java:320-364 | `primitive` has no alternative for '+', '*' or ')': an input starting with one of them is rejected |
| `ExpressionGrammar.TrailingTokenFails` | ps3/src/expressivo/parser/ExpressionParser.java:121-142 | a complete expression followed by any further token is rejected (EOF is required) |
| `ExpressionGrammar.UnclosedParenthesisFails` | ps3/src/expressivo/parser/ExpressionParser.java:320-364 | an opening parenthesis that is never closed is rejected |
| `ExpressionBuilder.MakeExpression.constructor` | ps3/src/expressivo/Expression.java:127 | a listener starts with an empty stack |
| `ExpressionBuilder.MakeExpression.GetExpression` | ps3/src/expressivo/Expression.java:149-151 | returns the bottom of the stack |
| `ExpressionBuilder.MakeExpression.ExitSum` | ps3/src/expressivo/Expression.java:154-162 | a three-child sum replaces the top two values by their Plus, left operand first; a one-child sum leaves the stack alone |
| `ExpressionBuilder.MakeExpression.ExitMul` | ps3/src/expressivo/Expression.java:164-172 | the same with Multiply |
| `ExpressionBuilder.MakeExpression.ExitPrimitive` | ps3/src/expressivo/Expression.java:174-190 | a NUMBER pushes its Number, a VARIABLE pushes its Variable, and a parenthesised sum pushes nothing |
| `ExpressionBuilder.MakeExpression.WalkSum` | ps3/src/expressivo/Expression.java:128-142 | walking a sum subtree pushes exactly its value and leaves the stack below untouched (the stack invariant) |
| `ExpressionBuilder.MakeExpression.WalkMul` | ps3/src/expressivo/Expression.java:128-142 | walking a mul subtree pushes exactly its value |
| `ExpressionBuilder.MakeExpression.WalkPrimitive` | ps3/src/expressivo/Expression.java:174-190 | walking a primitive subtree pushes exactly its value |
| `ExpressionBuilder.MakeExpression.WalkRoot` | ps3/src/expressivo/Expression.java:193-194 | after the walk of a whole tree, the tree's value is on top of the stack |
| `ExpressionBuilder.Parse` | ps3/src/expressivo/Expression.java:69-95 | a lexer error fails; otherwise the result is what the grammar means by the tokens (failure on any syntax error), and a success is a valid expression |
| `ExpressionBuilder.ParseRendering` | ps3/src/expressivo/Expression.java:69-95 | parsing, through the listener, the rendering of a valid expression gives that expression back |
| `EdgesGraph.MakeEdge` | ps2/src/graph/ConcreteEdgesGraph.java:218-234 | an Edge carries the given endpoints and weight, and meets its invariant (non-empty, distinct endpoints, positive weight) |
| `EdgesGraph.FindEdge` | ps2/src/graph/ConcreteEdgesGraph.java:72-90 | the position of the first edge joining the pair, or -1 when no edge does |
| `EdgesGraph.WeightPositive` | ps2/src/graph/ConcreteEdgesGraph.java:43-48 | in a valid graph a weight is never negative, and it is positive exactly when an edge joins the pair, whose endpoints are then distinct vertices |
| `EdgesGraph.SetWeightOfPair` | ps2/src/graph/ConcreteEdgesGraph.java:66-105 | after `set(s, t, w)` the weight from `s` to `t` is `w` |
| `EdgesGraph.SetWeightOfOthers` | ps2/src/graph/ConcreteEdgesGraph.java:66-105 | `set` changes no other pair's weight |
| `EdgesGraph.SetZeroLeavesNone` | ps2/src/graph/ConcreteEdgesGraph.java:66-105 | weight 0 leaves no edge between the pair |
| `EdgesGraph.SetOnePerPair` | ps2/src/graph/ConcreteEdgesGraph.java:66-105 | `set` never creates a second edge for a pair |
| `EdgesGraph.SetKeepsRep` | ps2/src/graph/ConcreteEdgesGraph.java:43-48 | `set` keeps the representation invariant |
| `EdgesGraph.SetMeaning` | ps2/src/graph/ConcreteEdgesGraph.java:66-105 | `EdgesGraph.SetEdges` and `EdgesGraph.SetVertices` (the edge list and vertex set after `set`: an existing edge removed and, for a positive weight, the new one appended; vertices added only with a new edge) give everything `set` promises of the abstract graph: the invariant, the new weight of the pair, every other weight unchanged |
| `EdgesGraph.WithoutVertex` | ps2/src/graph/ConcreteEdgesGraph.java:115 | the edges kept are exactly the old ones touching neither endpoint `v` |
| `EdgesGraph.RemoveKeepsRep` | ps2/src/graph/ConcreteEdgesGraph.java:43-48 | removing a vertex and its edges keeps the invariant for the smaller vertex set |
| `EdgesGraph.RemoveWeights` | ps2/src/graph/ConcreteEdgesGraph.java:108-122 | after `remove(v)` every pair involving `v` weighs 0 and every other pair weighs what it did |
| `EdgesGraph.SourcesMeaning` | ps2/src/graph/ConcreteEdgesGraph.java:130-141 | the map `sources(t)` builds holds exactly the sources of edges into `t`, each with its weight |
| `EdgesGraph.TargetsMeaning` | ps2/src/graph/ConcreteEdgesGraph.java:143-155 | the map `targets(s)` builds holds exactly the targets of edges out of `s`, each with its weight |
| `EdgesGraph.ConcreteEdgesGraph.constructor` | ps2/src/graph/ConcreteEdgesGraph.java:37-38 | the empty graph, satisfying the invariant |
| `EdgesGraph.ConcreteEdgesGraph.Add` | ps2/src/graph/ConcreteEdgesGraph.java:51-63 | true exactly for a new vertex; the vertex set gains the vertex, the edges do not change, and the invariant holds |
| `EdgesGraph.ConcreteEdgesGraph.Set` | ps2/src/graph/ConcreteEdgesGraph.java:66-105 | returns the previous weight (0 for none); afterwards the pair weighs `w`, no other weight changes, and the invariant holds |
| `EdgesGraph.ConcreteEdgesGraph.Remove` | ps2/src/graph/ConcreteEdgesGraph.java:108-122 | true exactly for a present vertex; it leaves the vertex set and every edge touching it goes, and the other weights stay |
| `EdgesGraph.ConcreteEdgesGraph.Vertices` | ps2/src/graph/ConcreteEdgesGraph.java:125-128 | the vertex set, which holds both endpoints of every edge |
| `EdgesGraph.ConcreteEdgesGraph.Sources` | ps2/src/graph/ConcreteEdgesGraph.java:130-141 | exactly the sources with a positive weight into the target, each mapped to that weight |
| `EdgesGraph.ConcreteEdgesGraph.Targets` | ps2/src/graph/ConcreteEdgesGraph.java:143-155 | exactly the targets with a positive weight from the source, each mapped to that weight |
| `VerticesGraph.ConnectMeaning` | ps2/src/graph/ConcreteVerticesGraph.java:341-358 | `connectEdge` records the edge exactly when that direction has none to `other`, leaves the other direction alone, and keeps the vertex invariant |
| `VerticesGraph.DisconnectMeaning` | ps2/src/graph/ConcreteVerticesGraph.java:369-384 | `removeEdge` forgets exactly the edge with `other` in that direction and keeps the vertex invariant |
| `VerticesGraph.Find` | ps2/src/graph/ConcreteVerticesGraph.java:91-105 | the position of the first vertex with that label, or -1 when none has it |
| `VerticesGraph.Labels` | ps2/src/graph/ConcreteVerticesGraph.java:213-224 | a label is in the vertex set exactly when some vertex carries it |
| `VerticesGraph.AddMeaning` | ps2/src/graph/ConcreteVerticesGraph.java:91-105 | `add` keeps the invariant, adds exactly the label to the vertex set and changes no weight |
| `VerticesGraph.SetMeaning` | ps2/src/graph/ConcreteVerticesGraph.java:108-174 | `set` keeps the invariant (edges recorded on both endpoints with equal weights, unique labels), gives the pair weight `w`, changes no other weight, and adds the endpoints exactly for a positive weight |
| `VerticesGraph.RemoveMeaning` | ps2/src/graph/ConcreteVerticesGraph.java:177-210 | `remove` keeps the invariant, removes exactly the label, and deletes exactly the edges into and out of it |
| `VerticesGraph.SourcesTargetsMeaning` | ps2/src/graph/ConcreteVerticesGraph.java:226-256 | `sources(t)` holds exactly the sources of edges into `t` with their weights, and `targets(s)` exactly the targets of edges out of `s` |
| `VerticesGraph.Mirrored` | ps2/src/graph/ConcreteVerticesGraph.java:39-59 | the invariant implies the checkRep clause: an edge recorded at one endpoint is recorded at the other |
| `VerticesGraph.Vertex.constructor` | ps2/src/graph/ConcreteVerticesGraph.java:303-311 | a new vertex has the label and no edges |
| `VerticesGraph.Vertex.ConnectEdge` | ps2/src/graph/ConcreteVerticesGraph.java:341-358 | true exactly when that direction had no edge to `other`; the object then changes as `connectEdge` says and keeps its invariant |
| `VerticesGraph.Vertex.RemoveEdge` | ps2/src/graph/ConcreteVerticesGraph.java:369-384 | true exactly when that direction had an edge to `other`; the object then changes as `removeEdge` says and keeps its invariant |
| `VerticesGraph.ConcreteVerticesGraph.constructor` | ps2/src/graph/ConcreteVerticesGraph.java:36-37 | the empty graph, satisfying the invariant |
| `VerticesGraph.ConcreteVerticesGraph.Add` | ps2/src/graph/ConcreteVerticesGraph.java:91-105 | true exactly for a new label; the objects end in the state `add` specifies, with the invariant kept |
| `VerticesGraph.ConcreteVerticesGraph.Set` | ps2/src/graph/ConcreteVerticesGraph.java:108-174 | returns the previous weight; the objects end in the state `set` specifies, with the invariant kept |
| `VerticesGraph.ConcreteVerticesGraph.Remove` | ps2/src/graph/ConcreteVerticesGraph.java:177-210 | true exactly for a present label; the objects end in the state `remove` specifies, with the invariant kept |
| `VerticesGraph.ConcreteVerticesGraph.SearchEdge` | ps2/src/graph/ConcreteVerticesGraph.java:115-118 | the nested loop finds a pair exactly when the edge exists, and then at the positions of the two labels |
| `VerticesGraph.ConcreteVerticesGraph.RewriteEdge` | ps2/src/graph/ConcreteVerticesGraph.java:119-132 | the found-edge branch: both endpoints drop the old record and, for a non-zero weight, record the new one (`ReconnectAt`, lines 122-129 for one endpoint); the list of objects is unchanged |
| `VerticesGraph.ConcreteVerticesGraph.AddEdge` | ps2/src/graph/ConcreteVerticesGraph.java:138-170 | the new-edge branch: existing endpoints record the edge, and each missing endpoint is appended as a new vertex carrying it (`AppendVertex`, lines 158-169); labels stay unique |
| `VerticesGraph.ConcreteVerticesGraph.LinkEndpoints` | ps2/src/graph/ConcreteVerticesGraph.java:143-155 | every vertex labelled with the source records the edge in `starts`, every one labelled with the target in `ends` (one vertex per turn: `LinkAt`); each flag is true exactly when such a vertex exists |
| `VerticesGraph.ConcreteVerticesGraph.DetachAll` | ps2/src/graph/ConcreteVerticesGraph.java:190-198 | every vertex that the removed vertex points to, or is pointed to by, forgets its record of the removed label (one vertex per turn: `DetachAt`, lines 191-197); nothing else changes |
| `VerticesGraph.ConcreteVerticesGraph.CutVertex` | ps2/src/graph/ConcreteVerticesGraph.java:200 | `vertices.remove(v)`: the object at that position leaves the list and the others keep their order and state |
| `VerticesGraph.ConcreteVerticesGraph.Vertices` | ps2/src/graph/ConcreteVerticesGraph.java:213-224 | the set of the vertices' labels |
| `VerticesGraph.ConcreteVerticesGraph.Sources` | ps2/src/graph/ConcreteVerticesGraph.java:226-240 | the `ends` map of the first vertex with the target label, or an empty map |
| `VerticesGraph.ConcreteVerticesGraph.Targets` | ps2/src/graph/ConcreteVerticesGraph.java:242-256 | the `starts` map of the first vertex with the source label, or an empty map |
| `Poet.Targets` | ps2/src/poet/GraphPoet.java:226 | `targets(source)` holds exactly the targets of edges out of `source`, with their weights |
| `Poet.Link` | ps2/src/poet/GraphPoet.java:105-112 | `set` with a positive weight: both endpoints become vertices, the pair gets that weight, no other weight changes |
| `Poet.WordsAppend` | ps2/src/poet/GraphPoet.java:87-92 | the corpus words of two runs of lines are the first run's words followed by the second's |
| `Poet.CorpusWords` | ps2/src/poet/GraphPoet.java:87-92 | the word list is every line's `split(" ")`, in order |
| `Poet.AddAll` | ps2/src/poet/GraphPoet.java:89-91 | a line's words are appended after the words so far, in order |
| `Poet.AdjacencyWeight` | ps2/src/poet/GraphPoet.java:94-114 | the weight from `a` to `b` is the number of times `a` is immediately followed by `b` in the corpus, and the edge exists exactly when that number is positive |
| `Poet.AdjacenciesShaped` | ps2/src/poet/GraphPoet.java:94-114 | the counted graph only has edges between its vertices, with positive weights |
| `Poet.AdjacencyVertices` | ps2/src/poet/GraphPoet.java:94-114 | the vertices are exactly the corpus words once there are two words, and none otherwise |
| `Poet.RepOkMeans` | ps2/src/poet/GraphPoet.java:172-184 | `checkRep` holds exactly when every vertex is non-empty and no two vertices differ only in case |
| `Poet.CorpusRep` | ps2/src/poet/GraphPoet.java:116 | `checkRep` passes on the counted graph exactly for a corpus whose words (once there is a pair) are non-empty and never differ only in case |
| `Poet.GetWeight` | ps2/src/poet/GraphPoet.java:240-248 | -1 when no key matches ignoring case; otherwise the weight of a matching key, which is the only one when keys never differ only in case |
| `Poet.WeightOfKey` | ps2/src/poet/GraphPoet.java:240-248 | with keys that never differ only in case, the weight found for a key is that key's own weight |
| `Poet.ScorePositive` | ps2/src/poet/GraphPoet.java:269-276 | every candidate path weighs at least 2, so it beats the initial -1 |
| `Poet.CandidateMeans` | ps2/src/poet/GraphPoet.java:262-265 | under the invariant, a bridge candidate is a word with an edge from `first` and an edge to `second`, and its score is the sum of those two weights |
| `Poet.TargetKeysDistinct` | ps2/src/poet/GraphPoet.java:172-184 | under the invariant, no two keys of a targets map differ only in case |
| `Poet.GraphPoet.constructor` | ps2/src/poet/GraphPoet.java:80-117 | the poet's graph is the adjacency count of the corpus words, and satisfies the invariant |
| `Poet.GraphPoet.CountWords` | ps2/src/poet/GraphPoet.java:95-114 | the counting loop ends with the adjacency count of the whole word list |
| `Poet.GraphPoet.CountNext` | ps2/src/poet/GraphPoet.java:96-113 | one turn counts the next adjacent pair |
| `Poet.CountPair` | ps2/src/poet/GraphPoet.java:101-113 | for words spelt as in the graph, the three branches together add one to the pair's count |
| `Poet.CountStep` | ps2/src/poet/GraphPoet.java:101-103 | under a good corpus, counting one more pair is one more Bump, and the case-blind lookups agree with exact ones |
| `Poet.CountedValid` | ps2/src/poet/GraphPoet.java:116 | the counted graph of a good, space-free corpus satisfies the poet's invariant |
| `Poet.GraphPoet.TwoEdgePathExists` | ps2/src/poet/GraphPoet.java:224-232 | true exactly when some target of `first` has an edge to `second` (ignoring case) |
| `Poet.GraphPoet.CollectCandidates` | ps2/src/poet/GraphPoet.java:259-266 | the map holds exactly the bridge candidates, each with its path weight |
| `Poet.GraphPoet.PathThrough` | ps2/src/poet/GraphPoet.java:263-264 | whether `mid` leads to `second`, and then the weight of the path through it |
| `Poet.HeaviestKey` | ps2/src/poet/GraphPoet.java:268-278 | "" when no entry beats -1; otherwise a key of maximum value |
| `Poet.GraphPoet.FindMaxWeightMidWord` | ps2/src/poet/GraphPoet.java:257-279 | with a two-edge path, a candidate of maximum path weight; without one, "" |
| `Poet.GraphPoet.Bridge` | ps2/src/poet/GraphPoet.java:203-209 | a bridge exactly when both words are vertices ignoring case and a two-edge path leads from the first word, spelt exactly, to a word equal to the second ignoring case; the bridge is then a heaviest such middle word |
| `Poet.FirstWordExactCase` | ps2/src/poet/GraphPoet.java:226 | `targets(first)` uses the input spelling: a first word that is not itself a corpus word (a case variant of one, say) gets no bridge, although `contains` accepts it |
| `Poet.GraphPoet.NextPair` | ps2/src/poet/GraphPoet.java:196-212 | one loop turn adds the right bridge, if any, and the next word to the text |
| `Poet.GraphPoet.Poem` | ps2/src/poet/GraphPoet.java:192-214 | the poem is the input words with, after each word, the bridge chosen for it and the next word: each bridge present exactly when `Bridge` finds one (first word matched by exact spelling) and then a heaviest; single spaces; trimmed |
| `Poet.AssembleJoin` | ps2/src/poet/GraphPoet.java:194-211 | the accumulated text is the single-spaced join of its words plus one final space |
| `Poet.PoemText` | ps2/src/poet/GraphPoet.java:213 | for plain words the trimmed text is their single-spaced join, and splitting it gives the words back |
| `Poet.PoemWordsLength` | ps2/src/poet/GraphPoet.java:196-212 | the poem has the input words plus one word per inserted bridge |
| `Poet.PoemWordAt` | ps2/src/poet/GraphPoet.java:211 | input word `k` stands in the poem after the `k` earlier words and the bridges inserted before it: no input word is lost or moved out of order |
| `Poet.PoemBridgeAt` | ps2/src/poet/GraphPoet.java:208 | an inserted bridge stands right after the first word of its pair |
| `Extract.FirstTweetEarliest` | ps1/src/twitter/Extract.java:36-42 | the first tweet found is in the list, and no tweet is earlier |
| `Extract.LastTweetLatest` | ps1/src/twitter/Extract.java:43-47 | the last tweet found is in the list, and no tweet is later |
| `Extract.GetTimespan` | ps1/src/twitter/Extract.java:27-53 | the smallest span containing every tweet's instant: both ends are instants of tweets |
| `Extract.SameInstantSpan` | ps1/src/twitter/Extract.java:27-53 | tweets that share one instant give a span that starts and ends at it |
| `Extract.GetMentionedUsers` | ps1/src/twitter/Extract.java:70-114 | the set of names the scan finds: each '@' up to the next space, across all tweets |
| `Extract.NoAtNoMentions` | ps1/src/twitter/Extract.java:87 | a text has no mention exactly when it has no '@' |
| `Extract.MentionsTagged` | ps1/src/twitter/Extract.java:87-110 | every mention has no space and stands in the text right after an '@', up to a space or the end |
| `Extract.MentionAtWordStart` | ps1/src/twitter/Extract.java:87-110 | the converse: an '@' at the start of the text or right after a space is never skipped, and the run of non-space characters after it is a mention |
| `Extract.MentionSetStep` | ps1/src/twitter/Extract.java:88-108 | one scan step: the name after the first '@', then the mentions of the text after the following space |
| `Filter.KeepExactly` | ps1/src/twitter/Filter.java:30-124 | a tweet is kept exactly when it is in the list and meets the condition |
| `Filter.KeepInOrder` | ps1/src/twitter/Filter.java:30-124 | the kept tweets are the matching tweets at strictly increasing positions of the list, and every matching position is among them |
| `Filter.WrittenBy` | ps1/src/twitter/Filter.java:30-43 | exactly the tweets whose author equals the username ignoring case, in order |
| `Filter.InTimespan` | ps1/src/twitter/Filter.java:55-68 | exactly the tweets strictly after the start and strictly before the end, in order |
| `Filter.Containing` | ps1/src/twitter/Filter.java:85-124 | exactly the tweets with a `split(" ")` word equal to a given word ignoring case, in order |
| `Filter.NoWordsNothing` | ps1/src/twitter/Filter.java:85-124 | with no words, no tweet is kept |
| `Filter.WordOfTextFound` | ps1/src/twitter/Filter.java:95-111 | a text made of single-spaced words is selected whenever one of its words matches a given word ignoring case |
| `Filter.WrittenByIgnoresCase` | ps1/src/twitter/Filter.java:37 | two usernames that differ only in case select the same tweets |
| `SocialNetwork.FollowSet.constructor` | ps1/src/twitter/SocialNetwork.java:78 | a new set is empty |
| `SocialNetwork.GetValue` | ps1/src/twitter/SocialNetwork.java:105-112 | the stored set of a key matching ignoring case, or a fresh empty set when none matches |
| `SocialNetwork.ReplaceValue` | ps1/src/twitter/SocialNetwork.java:115-122 | the exact key gets the new value; when the key is absent in that exact spelling, nothing changes |
| `SocialNetwork.ReplaceStoredValue` | ps1/src/twitter/SocialNetwork.java:66-74 | putting back the set `getValue` returned changes nothing |
| `SocialNetwork.Increment` | ps1/src/twitter/SocialNetwork.java:125-132 | the count of a key matching ignoring case goes up by one; with no match, nothing changes |
| `SocialNetwork.AddUsers` | ps1/src/twitter/SocialNetwork.java:68-72 | the set gains each new name unless a case variant is already in it: it stays between its old contents and those plus the names, covers them ignoring case, and stays free of case variants |
| `SocialNetwork.AddEvidence` | ps1/src/twitter/SocialNetwork.java:52-89 | one turn of the loop keeps the guessed graph exact for the tweets seen so far plus this one, and the follow sets unshared |
| `SocialNetwork.ExtendKnown` | ps1/src/twitter/SocialNetwork.java:63-74 | for an author already a key ignoring case, the stored set gains the new names and the map itself is unchanged; the guessed graph covers this tweet |
| `SocialNetwork.AddNew` | ps1/src/twitter/SocialNetwork.java:76-88 | for a new author, a fresh set with the names is stored under the author; the other entries stay, and the guessed graph covers this tweet |
| `SocialNetwork.GuessFollowsGraph` | ps1/src/twitter/SocialNetwork.java:47-92 | the sets are distinct objects; one key per author who mentions somebody (authors equal ignoring case share one), under it that author's mentions, one spelling each ignoring case |
| `SocialNetwork.NoTweetsNoFollows` | ps1/src/twitter/SocialNetwork.java:47-92 | no tweets give the empty graph |
| `SocialNetwork.FollowSetsNonEmpty` | ps1/src/twitter/SocialNetwork.java:85-88 | no key maps to an empty set |
| `SocialNetwork.FollowsIffMentions` | ps1/src/twitter/SocialNetwork.java:47-92 | in the guessed graph `a` follows `b` (ignoring case) exactly when `a` wrote a tweet mentioning `b` (ignoring case) |
| `SocialNetwork.MentionedByHas` | ps1/src/twitter/SocialNetwork.java:54 | the mentions of each tweet are among its author's mentions |
| `SocialNetwork.NamesFromTweets` | ps1/src/twitter/SocialNetwork.java:47-92 | every key is the author of a tweet and every followed name is mentioned in a tweet |
| `SocialNetwork.CountFollowers` | ps1/src/twitter/SocialNetwork.java:150-166 | one key per followed user ignoring case, spelt as in the graph, counting the follow pairs that name that user |
| `SocialNetwork.TallyPair` | ps1/src/twitter/SocialNetwork.java:157-164 | one more follow pair is tallied |
| `SocialNetwork.InsertKeepsDescending` | ps1/src/twitter/SocialNetwork.java:198-206 | a name placed between a neighbour counted at least as high and one counted at most as high keeps the list descending |
| `SocialNetwork.InsertRanked` | ps1/src/twitter/SocialNetwork.java:172-206 | the name is inserted at one position, and the list stays in descending order of count |
| `SocialNetwork.Rank` | ps1/src/twitter/SocialNetwork.java:169-209 | every counted name exactly once, in descending order of count |
| `SocialNetwork.RankingMeaning` | ps1/src/twitter/SocialNetwork.java:140-141 | such a ranking of the tally names every followed user once ignoring case, by follower count |
| `SocialNetwork.Influencers` | ps1/src/twitter/SocialNetwork.java:143-210 | an empty graph gives []; otherwise every followed user once ignoring case, spelt as in the graph, in descending order of follower count |
| `SocialNetwork.MiddleSlotAsWritten` | ps1/src/twitter/SocialNetwork.java:201-206 | the middle search as written only ever picks a slot from 1 to size - 2 |
| `SocialNetwork.AsWrittenDropsName` | ps1/src/twitter/SocialNetwork.java:201-206 | `SocialNetwork.InsertAsWritten` (one insertion step of lines 172-206 as written) applied to counts 5 and 1 and a name counted 3 loses that name |
| `SocialNetwork.AsWrittenMisorders` | ps1/src/twitter/SocialNetwork.java:201-206 | `SocialNetwork.InsertAsWritten` applied to counts 5, 3, 1 and a name counted 2 gives a list that is not descending |
| `SocialNetwork.AsWrittenKeepsNames` | ps1/src/twitter/SocialNetwork.java:172-206 | as written, one step adds the new name at most once and loses no ranked name |

## Left out

- Reading the corpus file (`Files.readAllLines`) is left out: the constructor takes the lines.
- The ANTLR lexer is left out. The grammar's input is its token list, and a lexer error is the `None` input of `ExpressionBuilder.Parse`.
- A NUMBER token's text is left out: the token carries its value.
- ANTLR's parse tree walker is modelled by `WalkSum`, `WalkMul` and `WalkPrimitive`, which follow the order it uses. Error recovery is left out: `reportErrorsAsExceptions` turns every syntax error into the one failure.
- `double` is modelled as a non-negative real. Rounding is left out, and so is how `toString` prints a number, which is a parameter.
- `Expressions.HashConsistent` is stronger than the Java in one case: signed zero. `make(-0.0)` passes `assert value >= 0` (Number.java:27) and equals `make(0.0)`, because `equals` compares with `==` (line 41). But `Double.hashCode` gives the two zeros different hashes (line 46). With reals the two zeros are one value, so the model cannot show this.
- `ExpressionGrammar.TokensWellFormed` checks only that a variable name is non-empty, which is all Variable's `checkRep` asserts. The interface documents names as non-empty runs of letters (Expression.java:27), but `make` accepts any non-empty string. So `ExpressionGrammar.RoundTrip` and `ExpressionBuilder.ParseRendering` hold at the level of tokens. At the level of text they fail for a name that is not a run of letters: `make("x+y")` renders as `x+y`, which parses as the sum of `x` and `y`.
- Case folding is ASCII only (`Text.Lower`). Java's `toLowerCase` also maps non-ASCII letters, so 'É' and 'é' match ignoring case in Java but not here. This affects `CaseBlind.Contains`, `Filter.WrittenBy`, `Filter.Containing`, `SocialNetwork.GetValue`, `SocialNetwork.Increment` and the poet's `checkRep`.
- `Expressions.Hash`: concrete hash values are left out. The leaf hashes and the combining function are parameters.
- `Variable.simplify` is not part of this model. What it does with the environment is the parameter `varRule`.
- `toString` of `ConcreteEdgesGraph`, `ConcreteVerticesGraph`, `Edge` and `GraphPoet` is left out: it is display only.
- The getters (`getSource`, `getTarget`, `getWeight`, `getValue`, `getStarts`, `getEnds`, `getVertices`, `getSources`, `getTargets`) are left out: each returns a field or forwards one call.
- `Graph.empty()` is not part of this model. The poet's graph is modelled as the value the Graph interface exposes: a vertex set and the positive weight of each ordered pair, self loops included.
- Live views are left out. `vertices()`, `sources()` and `targets()` return values in the model; the Java returns maps and sets that later changes may show through.
- `Poet.GraphPoet.constructor` requires a corpus whose words never differ only in case and, once there are two words, are non-empty. Otherwise the Java fails: either `targets(first).get(second)` meets a case variant, or `checkRep`'s assertion fails.
- `Poet.GraphPoet.Poem` and `Poet.GraphPoet.Bridge` follow the code, not the class's documented example. The path search looks up the first word by its exact spelling (`graph.targets(first)`, GraphPoet.java lines 226 and 262). So "Test the system." on the documented corpus stays unchanged, where the documentation promises "Test of the system.". `Poet.FirstWordExactCase` states this.
- `Poet.GraphPoet.Poem` follows the code, not two promises of the class documentation (GraphPoet.java:43-45). Bridge words are inserted as the corpus spells them, not in lower case: the corpus word "Mugar" is inserted as "Mugar". And words are not always separated by a single space: `split(" ")` of "a  b" gives "a", "" and "b", so the poem keeps the two spaces. `Poet.PoemText` speaks only of plain, non-empty words.
- `Poet.GraphPoet.Poem` requires at least one word in `split(" ")` of the input, because `words[0]` is read unchecked.
- `VerticesGraph.GraphOk` is stronger than the Java `checkRep`: it also says each edge has the same weight on both endpoints. `VerticesGraph.Mirrored` derives the checkRep clause from it.
- `Extract.GetMentionedUsers` follows the code, not the documentation. Names are not lower-cased or de-duplicated ignoring case. A name ends only at a space, so `bitdiddle@mit.edu` yields `mit.edu`. A lone `@` yields the empty name.
- Instants (`Instant`) are modelled as integers.
- `Timespan`'s own invariant (start not after end) is not part of this model. Nothing here relies on it.
- `SocialNetwork.CountFollowers` does not model 32-bit overflow of a count. That would need more than 2^31 follow pairs.
- `SocialNetwork.GuessFollowsGraph` follows the code, not the documented "users can't follow themselves" (SocialNetwork.java:19). A tweet by alice that mentions "@alice" puts alice in her own follow set. `SocialNetwork.FollowsIffMentions` states this too: it holds with `a == b`.
- `SocialNetwork.Influencers` follows the code, not the documentation. Only users somebody follows are ranked; a key that nobody follows does not appear.
- The Java maps that `guessFollowsGraph` and `influencers` fill in place are modelled as values that the helper methods return. The follow sets are objects, so that `getValue`'s aliasing of the stored set is modelled.
- Input lists are values, so the model cannot modify them. The Java does not modify them either.

## Findings

| source | as written | input that shows it | evidently intended | confidence | as-written member | corrected member |
|---|---|---|---|---|---|---|
| ps1/src/twitter/SocialNetwork.java:201-206 | the middle search of `influencers` compares the new count with the names at `i - 1` and `i + 1`, for `i` from 1 while `i < size - 1` | ranked counts 5, 1 and a name counted 3: no slot is tried and the name is lost; ranked counts 5, 3, 1 and a name counted 2: it lands before the 3 | compare with the names at `i - 1` and `i`, for `i` from 1 while `i < size`, so the name goes between a higher and a lower count | high (not executed) | `SocialNetwork.AsWrittenDropsName`, `SocialNetwork.AsWrittenMisorders` | `SocialNetwork.InsertRanked` |
