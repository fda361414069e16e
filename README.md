# A verified model of `analyze_code`

`analyze_code` (in `final_project/FinalProject_App/views.py`) is the engine
behind the project's upload-and-analyse page. It takes the text of a Python
source file and returns three lists of messages:

- **code smells.** `ast.walk` visits every node of the parsed tree. A plain
  function definition whose body has more than 10 statements is reported
  as too long. A class with more than 20 direct plain methods is reported
  as too large. A `for` or `while` loop with a loop directly in its body is
  reported as nested, with the outer loop's line.
- **anti-patterns.** Each assignment target of the form `<expr>._instance`
  adds one singleton hint.
- **lexical issues.** The text is split into lines, numbered from 1. Every
  line gets three checks, in this order:
  - a length over 80 characters;
  - more than three `(`;
  - a line that starts with `def`, whitespace, a single letter and `(`.

  Each hit is reported as `Line <i>: <text>`.

The model has five modules:

- `SyntaxTree` (`syntax_tree.dfy`) holds:
  - the syntax tree, as a closed datatype of the node kinds the rules look at;
  - `ast.walk`, as the breadth-first walk CPython performs with a queue (`Walk`), specified by `BfsOrder`;
  - a pre-order enumeration of all nodes (`Subtrees`), used as a reference;
  - a proof that the walk visits every node exactly once, in some order.
- `Structural` (`structural.dfy`) holds the four rules, their messages and the loop over the walked nodes (`AnalyzeTree`).
- `Decimal` (`decimal.dfy`) holds the decimal notation f-strings use for line numbers, and its round trip.
- `Lexical` (`lexical.dfy`) holds line splitting, the three line checks, their messages and the loop over the lines (`AnalyzeLines`).
- `Analyzer` (`analyzer.dfy`) holds `AnalyzeCode`, the whole function.

`ast.walk` has no documented order. So the structural results are stated as:
- multisets;
- counts of messages;
- the exact sequence the breadth-first walk yields.

The lexical results are stated as an exact sequence, ascending by line.

## Model

| member | source | states |
|---|---|---|
| SyntaxTree.ChildrenSize | final_project/FinalProject_App/views.py:19 | the child nodes the walk queues after a node together make up the whole tree below it, one node fewer than the node's subtree |
| SyntaxTree.Subtrees | final_project/FinalProject_App/views.py:19 | the reference enumeration of a tree has exactly as many entries as the tree has nodes, and starts at the root |
| SyntaxTree.BfsVisitsEachNodeOnce | final_project/FinalProject_App/views.py:19 | the breadth-first walk yields every node of the tree exactly as often as it occurs in the tree: a permutation of the pre-order enumeration |
| SyntaxTree.BfsPermutesSubtrees | final_project/FinalProject_App/views.py:19 | whatever a per-node rule produces, collecting it along the breadth-first walk gives the same multiset as along the pre-order enumeration |
| SyntaxTree.BfsPreservesTotals | final_project/FinalProject_App/views.py:19 | a per-node count summed along the breadth-first walk equals the same count summed over all nodes of the tree |
| SyntaxTree.BfsStep | final_project/FinalProject_App/views.py:19 | one step of the walk takes the front of the queue and queues its children behind the rest, and the queued trees get smaller |
| SyntaxTree.BfsShape | final_project/FinalProject_App/views.py:19 | the breadth-first order of a tree has as many entries as the tree has nodes, and starts at the root |
| SyntaxTree.Walk | final_project/FinalProject_App/views.py:19 | the queue-driven walk yields exactly the breadth-first order: the root first, then each node's children in field order after everything queued before them, and as many nodes as the tree has |
| SyntaxTree.CountBounds | final_project/FinalProject_App/views.py:26 | a count of matching nodes, as `sum(isinstance(...) for n in ...)` takes it, is at most the number of nodes; it equals that number exactly when all match and is zero exactly when none does |
| Structural.NodeSmellsAtMostOne | final_project/FinalProject_App/views.py:21-33 | one node gives at most one code smell, because the three rules apply to different node kinds |
| Structural.NodeSmellsCases | final_project/FinalProject_App/views.py:21-33 | a node's smells are the too-long message, the too-large message, the nested-loop message or nothing, because the rules apply to different node kinds |
| Structural.LongFunctionAtNode | final_project/FinalProject_App/views.py:21-22 | a node gives the message "Function 'name' is too long (more than 10 lines)." once when it is a plain `def` called `name` whose body has 11 or more statements, and otherwise never (an `async def` never does) |
| Structural.LargeClassAtNode | final_project/FinalProject_App/views.py:25-28 | a node gives "Class 'name' is too large (more than 20 methods)." once when it is a class called `name` with more than 20 direct plain methods, and otherwise never |
| Structural.NestedLoopAtNode | final_project/FinalProject_App/views.py:31-33 | a node gives "Nested loops detected at line l." once when it is a `for`/`while` on line `l` with a `for`/`while` directly in its body, and otherwise never |
| Structural.MethodCountIgnoresOthers | final_project/FinalProject_App/views.py:26 | class members that are not plain `def`s do not change the method count |
| Structural.LargeClassOfMethods | final_project/FinalProject_App/views.py:26-27 | a class whose members are all plain `def`s is too large exactly when it has more than 20 of them |
| Structural.LoopUnderIfIsNotNested | final_project/FinalProject_App/views.py:31-32 | a loop reached only through an `if` or only through the `else` part does not make the outer loop nested, while a loop directly in the body does |
| Structural.SingletonHitsBounds | final_project/FinalProject_App/views.py:36-39 | an assignment gives at most one hint per target: one per target exactly when every target is `<expr>._instance`, and none exactly when no target is; other nodes give none |
| Structural.MessagesInjective | final_project/FinalProject_App/views.py:22-33 | each message determines the function name, class name or line it reports |
| Structural.MessagesSeparate | final_project/FinalProject_App/views.py:22-33 | messages of different rules never coincide |
| Structural.LongFunctionFindings | final_project/FinalProject_App/views.py:19-22 | over the whole tree, a function name is reported as too long once for each too-long plain `def` of that name |
| Structural.LargeClassFindings | final_project/FinalProject_App/views.py:19-28 | over the whole tree, a class name is reported as too large once for each too-large class of that name |
| Structural.NestedLoopFindings | final_project/FinalProject_App/views.py:19-33 | over the whole tree, line `l` is reported as nested once for each nested loop on line `l` |
| Structural.SmellCount | final_project/FinalProject_App/views.py:19-33 | the number of code smells is the number of too-long functions plus too-large classes plus nested loops in the tree |
| Structural.WalkFindsTreeFindings | final_project/FinalProject_App/views.py:19-39 | collecting the rules along the walk gives the same code smells, as a multiset, and the same number of singleton hints as over all nodes of the tree |
| Structural.Visit | final_project/FinalProject_App/views.py:20-39 | one round of the walk loop appends this node's code smells in rule order, and one singleton hint per `_instance` target of an assignment; the hint list holds nothing but the singleton message |
| Structural.AddSingletonHints | final_project/FinalProject_App/views.py:37-39 | the loop over an assignment's targets adds one singleton hint per `<expr>._instance` target and nothing else |
| Structural.AnalyzeTree | final_project/FinalProject_App/views.py:14-39 | the code smells are the rule hits along the breadth-first walk; as a multiset they are the rule hits over every node of the tree; the anti-patterns are the singleton message, once per `_instance` target in the tree |
| Decimal.Format | final_project/FinalProject_App/views.py:33 | a line number is written as decimal digits without a leading zero |
| Decimal.ParseFormat | final_project/FinalProject_App/views.py:46 | reading back the written line number gives the number |
| Decimal.FormatInjective | final_project/FinalProject_App/views.py:33 | different line numbers are written differently |
| Decimal.LeadingDigitsOf | final_project/FinalProject_App/views.py:46-54 | the digits of a line number followed by `:` are picked out exactly |
| Lexical.LineEndFacts | final_project/FinalProject_App/views.py:42 | the first line ends at the first line feed, or at the end of the text when there is none, and holds no line feed |
| Lexical.LineEndOf | final_project/FinalProject_App/views.py:42 | a line without a line feed, followed by a line feed, ends exactly there |
| Lexical.SplitLinesHaveNoLineFeed | final_project/FinalProject_App/views.py:42 | no line holds a line feed |
| Lexical.JoinSplitLines | final_project/FinalProject_App/views.py:42 | writing the lines back, each followed by a line feed, gives the text again, plus a final line feed when the text did not end with one |
| Lexical.SplitJoinLines | final_project/FinalProject_App/views.py:42 | splitting lines written that way gives the same lines back |
| Lexical.OpenParensOccurrences | final_project/FinalProject_App/views.py:49 | the count of `(` matches is the number of occurrences of `(` in the line |
| Lexical.SkipWhitespaceSkipsRun | final_project/FinalProject_App/views.py:53 | skips exactly the leading run of whitespace: all of what is skipped is whitespace, and what remains does not start with whitespace |
| Lexical.StartsWithDefPrefix | final_project/FinalProject_App/views.py:53 | the character test for a leading `def` holds exactly when the first three characters are `def` |
| Lexical.ScanMatchesPattern | final_project/FinalProject_App/views.py:53 | a line the naming check reports has a place after `def` and its whitespace where a one-letter name and `(` stand |
| Lexical.PatternMatchesScan | final_project/FinalProject_App/views.py:53 | a line starting with `def` that has such a place is reported by the naming check |
| Lexical.SkipWhitespaceOf | final_project/FinalProject_App/views.py:53 | skipping whitespace in a run of whitespace followed by text that does not start with whitespace leaves exactly that text |
| Lexical.PoorlyNamedDefMatchesPattern | final_project/FinalProject_App/views.py:53 | the naming check holds exactly when the line starts with `def`, then one or more whitespace characters, then one ASCII letter, then `(` |
| Lexical.IndentedDefNotReported | final_project/FinalProject_App/views.py:53 | a line that starts with whitespace is never reported as poorly named |
| Lexical.DefWithoutSpaceNotReported | final_project/FinalProject_App/views.py:53 | `def` directly followed by the letter is not reported |
| Lexical.LongerNameNotReported | final_project/FinalProject_App/views.py:53 | a name of two or more letters is not reported |
| Lexical.OneLetterDefReported | final_project/FinalProject_App/views.py:53 | `def`, a space, one letter and `(` is reported, whatever follows |
| Lexical.IssueLineOf | final_project/FinalProject_App/views.py:46-54 | the line number can be read back from every lexical message |
| Lexical.LineMessageInjective | final_project/FinalProject_App/views.py:46-54 | two lexical messages are equal only for the same line and the same check |
| Lexical.LineIssuesExactly | final_project/FinalProject_App/views.py:44-54 | line `i` gets "Line j: text" exactly when `j` is `i` and the check reporting `text` fires on it |
| Lexical.LineIssuesName | final_project/FinalProject_App/views.py:44-54 | a line gets at most three entries, and every one names that line |
| Lexical.FiresFor | final_project/FinalProject_App/views.py:45-54 | each of the three message texts is reported exactly when its own check holds on the line |
| Lexical.MessageIs | final_project/FinalProject_App/views.py:46-54 | two lexical messages are equal exactly when they name the same line and the same text |
| Lexical.LexicalThresholds | final_project/FinalProject_App/views.py:45-50 | a line of 81 characters is reported as too long and one of 80 is not; four `(` are reported as complex and three are not |
| Lexical.IssuesAscending | final_project/FinalProject_App/views.py:43-54 | every entry names a line within the text's range, and entries are in ascending line order |
| Lexical.IssueReported | final_project/FinalProject_App/views.py:43-54 | "Line i: text" is reported exactly when `i` is a line number of the text and the check reporting `text` fires on line `i` |
| Lexical.IssuesBound | final_project/FinalProject_App/views.py:43-54 | there are at most three entries per line |
| Lexical.NumberedAppend | final_project/FinalProject_App/views.py:43 | one more line adds exactly that line's entries, under the next line number, at the end |
| Lexical.NumberedAscending | final_project/FinalProject_App/views.py:43-54 | when every entry a line gets names that line, the entries of numbered lines name lines within range, in ascending order |
| Lexical.CheckLine | final_project/FinalProject_App/views.py:44-54 | one round of the line loop appends that line's entries, in the order length, complexity, naming |
| Lexical.AnalyzeLines | final_project/FinalProject_App/views.py:42-54 | the lexical issues are the entries of the lines in order, numbered from 1 |
| Analyzer.AnalyzeCode | final_project/FinalProject_App/views.py:10-56 | a syntax error ends the call with that error and no report. Otherwise, three things hold. First, the code smells are the rule hits over every node, as a multiset, and their number is the number of too-long functions, too-large classes and nested loops. Second, the anti-patterns are the singleton message, once per `_instance` target. Third, the lexical issues are the lines' entries in line order, and empty text has none |

## Left out

- `ast.parse` (views.py:11) is a parameter of `AnalyzeCode`. It is either the tree of the module or the syntax error the parse raises. Parsing itself is not modelled, so neither is the relation between the text and its tree.
- The syntax tree keeps only the node kinds and fields the rules read. Every other node is `Other` with its children. The position of a definition's other child nodes in `rest`, and of the other children of `Other`, is not tied to CPython's exact field order. Expression-context nodes (`Load`, `Store`) are not represented.
- `SyntaxTree.Walk` models the queue as a sequence value, not a `collections.deque`. Only its order of visits is modelled.
- The walk has no node-count or depth ceiling. Neither has `ast.walk`, whose work queue is not recursive.
- `str.splitlines` (views.py:42) is modelled with the line feed as the only line boundary. Carriage returns, `\r\n` and the other Unicode line boundaries split lines in Python but not here.
- `\s` (views.py:53) is the fixed set of characters for which `str.isspace()` holds. The `re` module itself is not modelled: both patterns are written as character predicates.
- `index`, `analyze_code_view` and the URL patterns (views.py:60-97) are Django rendering, file upload and storage, JSON responses and routing. They are not part of this model.
- Some descriptions of the analyser say its traversal is pre-order, parent before children. The code calls `ast.walk`, which is breadth-first. The model follows the code. Every property about the code smells that does not mention `BfsOrder` is stated order-free, as multisets and counts.
