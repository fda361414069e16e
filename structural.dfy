/** The structural pass of `analyze_code`: four fixed rules applied to
    every node the walk yields, collecting code smells and anti-patterns. */
module Structural {
  import opened SyntaxTree
  import Decimal

  /** A function whose body has more statements than this is too long. */
  const MaxFunctionStatements: nat := 10
  /** A class with more direct methods than this is too large. */
  const MaxClassMethods: nat := 20
  /** The attribute name that hints at a hand-written singleton. */
  const InstanceAttribute: string := "_instance"

  // ---------------------------------------------------------------------
  // The rules, one per node

  predicate IsLoop(n: Node)
  {
    n.For? || n.While?
  }

  /** Only plain `def` counts as a method; `async def` does not. */
  predicate IsMethod(n: Node)
  {
    n.FunctionDef?
  }

  /** Number of direct members of a class body that are methods. */
  function MethodCount(body: seq<Node>): nat
  {
    Count(body, IsMethod)
  }

  predicate IsLongFunction(n: Node)
  {
    n.FunctionDef? && |n.body| > MaxFunctionStatements
  }

  predicate IsLargeClass(n: Node)
  {
    n.ClassDef? && MethodCount(n.body) > MaxClassMethods
  }

  /** A loop with another loop directly in its body (not in its `else`
      part, and not further down). */
  predicate HasNestedLoop(n: Node)
  {
    IsLoop(n) && exists c :: c in n.body && IsLoop(c)
  }

  /** An assignment target `<expr>._instance`. */
  predicate IsInstanceTarget(t: Node)
  {
    t.Attribute? && t.attr == InstanceAttribute
  }

  /** Number of singleton hints an assignment node gives: one per target. */
  function SingletonHits(n: Node): nat
  {
    if n.Assign? then Count(n.targets, IsInstanceTarget) else 0
  }

  // ---------------------------------------------------------------------
  // Messages

  function LongFunctionMessage(name: string): string
  {
    "Function '" + name + "' is too long (more than 10 lines)."
  }

  function LargeClassMessage(name: string): string
  {
    "Class '" + name + "' is too large (more than 20 methods)."
  }

  function NestedLoopMessage(line: nat): string
  {
    "Nested loops detected at line " + Decimal.Format(line) + "."
  }

  const SingletonMessage: string :=
    "Potential Singleton pattern detected with '_instance' attribute."

  /** The code smells one node gives, in the order the rules are tried. */
  function NodeSmells(n: Node): seq<string>
  {
    (if IsLongFunction(n) then [LongFunctionMessage(n.name)] else [])
    + (if IsLargeClass(n) then [LargeClassMessage(n.name)] else [])
    + (if HasNestedLoop(n) then [NestedLoopMessage(n.line)] else [])
  }

  /** All code smells of the tree, taken over its nodes in pre-order. The
      walk reports the same entries in its own order. */
  function TreeSmells(t: Node): seq<string>
  {
    FlatMap(Subtrees(t), NodeSmells)
  }

  /** Number of singleton hints in the whole tree. */
  function SingletonTotal(t: Node): nat
  {
    Total(Subtrees(t), SingletonHits)
  }

  // ---------------------------------------------------------------------
  // Messages tell their findings apart

  lemma MiddleDetermined(p: string, x: string, y: string, q: string)
    requires p + x + q == p + y + q
    ensures x == y
  {
    var m := p + x + q;
    assert |x| == |y|;
    assert x == m[|p|..|p| + |x|];
    assert y == (p + y + q)[|p|..|p| + |y|];
  }

  /** Each message names its function, class or line unambiguously. */
  lemma MessagesInjective(a: string, b: string, i: nat, j: nat)
    ensures LongFunctionMessage(a) == LongFunctionMessage(b) <==> a == b
    ensures LargeClassMessage(a) == LargeClassMessage(b) <==> a == b
    ensures NestedLoopMessage(i) == NestedLoopMessage(j) <==> i == j
  {
    if LongFunctionMessage(a) == LongFunctionMessage(b) {
      MiddleDetermined("Function '", a, b, "' is too long (more than 10 lines).");
    }
    if LargeClassMessage(a) == LargeClassMessage(b) {
      MiddleDetermined("Class '", a, b, "' is too large (more than 20 methods).");
    }
    if NestedLoopMessage(i) == NestedLoopMessage(j) {
      MiddleDetermined("Nested loops detected at line ", Decimal.Format(i), Decimal.Format(j), ".");
      Decimal.FormatInjective(i, j);
    }
  }

  /** Messages of different rules never coincide. */
  lemma MessagesSeparate(a: string, b: string, i: nat)
    ensures LongFunctionMessage(a) != LargeClassMessage(b)
    ensures LongFunctionMessage(a) != NestedLoopMessage(i)
    ensures LargeClassMessage(b) != NestedLoopMessage(i)
  {
    assert LongFunctionMessage(a)[0] == 'F';
    assert LargeClassMessage(b)[0] == 'C';
    assert NestedLoopMessage(i)[0] == 'N';
  }

  // ---------------------------------------------------------------------
  // One node

  /** A node gives at most one code smell: the rules apply to different
      kinds of node. */
  lemma NodeSmellsAtMostOne(n: Node)
    ensures |NodeSmells(n)| == (if IsLongFunction(n) || IsLargeClass(n) || HasNestedLoop(n) then 1 else 0)
  {
  }

  /** The rules exclude each other, so a node's smells are one message or
      none. */
  lemma NodeSmellsCases(n: Node)
    ensures NodeSmells(n) == if IsLongFunction(n) then [LongFunctionMessage(n.name)]
      else if IsLargeClass(n) then [LargeClassMessage(n.name)]
      else if HasNestedLoop(n) then [NestedLoopMessage(n.line)]
      else []
  {
  }

  /** A node reports "Function 'name' is too long" exactly once when it is a
      plain function definition called `name` with more than ten direct
      body statements, and never otherwise (an `async def` never does). */
  lemma LongFunctionAtNode(n: Node, name: string)
    ensures multiset(NodeSmells(n))[LongFunctionMessage(name)]
            == if IsLongFunction(n) && n.name == name then 1 else 0
  {
    if IsLongFunction(n) {
      MessagesInjective(n.name, name, 0, 0);
    } else if IsLargeClass(n) {
      MessagesSeparate(name, n.name, 0);
    } else if HasNestedLoop(n) {
      MessagesSeparate(name, name, n.line);
    }
    NodeSmellsCases(n);
  }

  /** A node reports "Class 'name' is too large" exactly once when it is a
      class called `name` with more than twenty direct methods. */
  lemma LargeClassAtNode(n: Node, name: string)
    ensures multiset(NodeSmells(n))[LargeClassMessage(name)]
            == if IsLargeClass(n) && n.name == name then 1 else 0
  {
    if IsLongFunction(n) {
      MessagesSeparate(n.name, name, 0);
    } else if IsLargeClass(n) {
      MessagesInjective(n.name, name, 0, 0);
    } else if HasNestedLoop(n) {
      MessagesSeparate(name, name, n.line);
    }
    NodeSmellsCases(n);
  }

  /** A node reports "Nested loops detected at line l" exactly once when it
      is a loop on line `l` with a loop directly in its body. */
  lemma NestedLoopAtNode(n: Node, line: nat)
    ensures multiset(NodeSmells(n))[NestedLoopMessage(line)]
            == if HasNestedLoop(n) && n.line == line then 1 else 0
  {
    if IsLongFunction(n) {
      MessagesSeparate(n.name, n.name, line);
    } else if IsLargeClass(n) {
      MessagesSeparate(n.name, n.name, line);
    } else if HasNestedLoop(n) {
      MessagesInjective("", "", n.line, line);
    }
    NodeSmellsCases(n);
  }

  /** Members of a class body that are not plain function definitions
      (attributes, nested classes, `async def`) never add to its method
      count. */
  lemma MethodCountIgnoresOthers(body: seq<Node>, others: seq<Node>)
    requires forall k :: 0 <= k < |others| ==> !IsMethod(others[k])
    ensures MethodCount(body + others) == MethodCount(body)
  {
    CountAppend(body, others, IsMethod);
    CountBounds(others, IsMethod);
  }

  /** A class made only of methods is too large exactly when it has more
      than twenty of them. */
  lemma LargeClassOfMethods(name: string, rest: seq<Node>, body: seq<Node>)
    requires forall k :: 0 <= k < |body| ==> IsMethod(body[k])
    ensures IsLargeClass(ClassDef(name, rest, body)) <==> |body| > MaxClassMethods
  {
    CountBounds(body, IsMethod);
  }

  /** A loop reached from another loop only through an `if`, or only
      through the `else` part, does not make the outer loop nested. */
  lemma LoopUnderIfIsNotNested(line: nat, target: Node, iter: Node, test: Node, inner: Node)
    requires IsLoop(inner)
    ensures !HasNestedLoop(For(line, target, iter, [If(test, [inner], [])], [inner]))
    ensures !HasNestedLoop(While(line, test, [If(test, [inner], [])], [inner]))
    ensures HasNestedLoop(For(line, target, iter, [inner], []))
  {
    assert inner in [inner];
  }

  /** An assignment gives at most one hint per target, one for each target
      when all of them are `<expr>._instance`, and none when no target is;
      other nodes give none. */
  lemma SingletonHitsBounds(n: Node)
    ensures n.Assign? ==> SingletonHits(n) <= |n.targets|
    ensures n.Assign? ==> (SingletonHits(n) == |n.targets| <==>
              forall k :: 0 <= k < |n.targets| ==> IsInstanceTarget(n.targets[k]))
    ensures n.Assign? ==> (SingletonHits(n) == 0 <==>
              forall k :: 0 <= k < |n.targets| ==> !IsInstanceTarget(n.targets[k]))
    ensures !n.Assign? ==> SingletonHits(n) == 0
  {
    if n.Assign? {
      CountBounds(n.targets, IsInstanceTarget);
    }
  }

  // ---------------------------------------------------------------------
  // The whole tree

  /** Plain function definitions called `name` with too long a body. */
  function LongFunctionNamed(name: string): Node -> bool
  {
    n => IsLongFunction(n) && n.name == name
  }

  /** Classes called `name` with too many methods. */
  function LargeClassNamed(name: string): Node -> bool
  {
    n => IsLargeClass(n) && n.name == name
  }

  /** Loops on line `line` with a loop directly in their body. */
  function NestedLoopAt(line: nat): Node -> bool
  {
    n => HasNestedLoop(n) && n.line == line
  }

  lemma {:induction false} LongFunctionsAlong(s: seq<Node>, name: string)
    ensures multiset(FlatMap(s, NodeSmells))[LongFunctionMessage(name)]
            == Count(s, LongFunctionNamed(name))
  {
    if s != [] {
      LongFunctionsAlong(s[1..], name);
      LongFunctionAtNode(s[0], name);
      assert multiset(FlatMap(s, NodeSmells))
             == multiset(NodeSmells(s[0])) + multiset(FlatMap(s[1..], NodeSmells));
    }
  }

  lemma {:induction false} LargeClassesAlong(s: seq<Node>, name: string)
    ensures multiset(FlatMap(s, NodeSmells))[LargeClassMessage(name)]
            == Count(s, LargeClassNamed(name))
  {
    if s != [] {
      LargeClassesAlong(s[1..], name);
      LargeClassAtNode(s[0], name);
      assert multiset(FlatMap(s, NodeSmells))
             == multiset(NodeSmells(s[0])) + multiset(FlatMap(s[1..], NodeSmells));
    }
  }

  lemma {:induction false} NestedLoopsAlong(s: seq<Node>, line: nat)
    ensures multiset(FlatMap(s, NodeSmells))[NestedLoopMessage(line)]
            == Count(s, NestedLoopAt(line))
  {
    if s != [] {
      NestedLoopsAlong(s[1..], line);
      NestedLoopAtNode(s[0], line);
      assert multiset(FlatMap(s, NodeSmells))
             == multiset(NodeSmells(s[0])) + multiset(FlatMap(s[1..], NodeSmells));
    }
  }

  /** The report names function `name` as too long once for every plain
      function definition of that name with more than ten body statements,
      wherever it sits in the tree. */
  lemma LongFunctionFindings(t: Node, name: string)
    ensures multiset(TreeSmells(t))[LongFunctionMessage(name)]
            == Count(Subtrees(t), LongFunctionNamed(name))
  {
    LongFunctionsAlong(Subtrees(t), name);
  }

  /** The report names class `name` as too large once for every class of
      that name with more than twenty direct methods. */
  lemma LargeClassFindings(t: Node, name: string)
    ensures multiset(TreeSmells(t))[LargeClassMessage(name)]
            == Count(Subtrees(t), LargeClassNamed(name))
  {
    LargeClassesAlong(Subtrees(t), name);
  }

  /** The report mentions nested loops at line `l` once for every loop on
      line `l` that has a loop directly in its body. */
  lemma NestedLoopFindings(t: Node, line: nat)
    ensures multiset(TreeSmells(t))[NestedLoopMessage(line)]
            == Count(Subtrees(t), NestedLoopAt(line))
  {
    NestedLoopsAlong(Subtrees(t), line);
  }

  lemma {:induction false} SmellsAlongLength(s: seq<Node>)
    ensures |FlatMap(s, NodeSmells)|
            == Count(s, IsLongFunction) + Count(s, IsLargeClass) + Count(s, HasNestedLoop)
  {
    if s != [] {
      SmellsAlongLength(s[1..]);
      NodeSmellsAtMostOne(s[0]);
    }
  }

  /** There are as many code smells as there are (node, rule) pairs where
      the node satisfies the rule: every node is examined exactly once. */
  lemma SmellCount(t: Node)
    ensures |TreeSmells(t)|
            == Count(Subtrees(t), IsLongFunction) + Count(Subtrees(t), IsLargeClass)
               + Count(Subtrees(t), HasNestedLoop)
  {
    SmellsAlongLength(Subtrees(t));
  }

  // ---------------------------------------------------------------------
  // The pass itself

  /** Collecting findings along the walk gives the tree's findings: the
      same code smells (in the walk's order) and as many singleton hints. */
  lemma WalkFindsTreeFindings(tree: Node)
    ensures multiset(FlatMap(BfsOrder([tree]), NodeSmells)) == multiset(TreeSmells(tree))
    ensures Total(BfsOrder([tree]), SingletonHits) == SingletonTotal(tree)
  {
    assert ForestSubtrees([tree]) == Subtrees(tree);
    BfsPermutesSubtrees([tree], NodeSmells);
    BfsPreservesTotals([tree], SingletonHits);
  }

  /** One round of the structural loop of `analyze_code`: try the four
      rules on `node`, appending what they report to the two lists. */
  method Visit(node: Node, codeSmells: seq<string>, antiPatterns: seq<string>)
    returns (codeSmells': seq<string>, antiPatterns': seq<string>)
    requires forall k :: 0 <= k < |antiPatterns| ==> antiPatterns[k] == SingletonMessage
    ensures codeSmells' == codeSmells + NodeSmells(node)
    ensures |antiPatterns'| == |antiPatterns| + SingletonHits(node)
    ensures forall k :: 0 <= k < |antiPatterns'| ==> antiPatterns'[k] == SingletonMessage
  {
    codeSmells', antiPatterns' := codeSmells, antiPatterns;
    if node.FunctionDef? && |node.body| > MaxFunctionStatements {
      codeSmells' := codeSmells' + [LongFunctionMessage(node.name)];
    }
    assert codeSmells' == codeSmells
      + (if IsLongFunction(node) then [LongFunctionMessage(node.name)] else []);
    ghost var afterLong := codeSmells';
    if node.ClassDef? {
      var methodCount := MethodCount(node.body);
      if methodCount > MaxClassMethods {
        codeSmells' := codeSmells' + [LargeClassMessage(node.name)];
      }
    }
    assert codeSmells' == afterLong
      + (if IsLargeClass(node) then [LargeClassMessage(node.name)] else []);
    ghost var afterLarge := codeSmells';
    if (node.For? || node.While?) && exists child :: child in node.body && IsLoop(child) {
      codeSmells' := codeSmells' + [NestedLoopMessage(node.line)];
    }
    assert codeSmells' == afterLarge
      + (if HasNestedLoop(node) then [NestedLoopMessage(node.line)] else []);
    if node.Assign? {
      antiPatterns' := AddSingletonHints(node.targets, antiPatterns');
    }
  }

  /** The inner loop of the singleton rule: one hint per assignment target
      of the form `<expr>._instance`. */
  method AddSingletonHints(targets: seq<Node>, antiPatterns: seq<string>) returns (antiPatterns': seq<string>)
    requires forall k :: 0 <= k < |antiPatterns| ==> antiPatterns[k] == SingletonMessage
    ensures |antiPatterns'| == |antiPatterns| + Count(targets, IsInstanceTarget)
    ensures forall k :: 0 <= k < |antiPatterns'| ==> antiPatterns'[k] == SingletonMessage
  {
    antiPatterns' := antiPatterns;
    for j := 0 to |targets|
      invariant |antiPatterns'| == |antiPatterns| + Count(targets[..j], IsInstanceTarget)
      invariant forall k :: 0 <= k < |antiPatterns'| ==> antiPatterns'[k] == SingletonMessage
    {
      var target := targets[j];
      if target.Attribute? && target.attr == InstanceAttribute {
        antiPatterns' := antiPatterns' + [SingletonMessage];
      }
      CountAppend(targets[..j], [target], IsInstanceTarget);
      assert targets[..j + 1] == targets[..j] + [target];
    }
    assert targets[..|targets|] == targets;
  }

  /** The structural half of `analyze_code`: for every node `ast.walk`
      yields, try the four rules and append what they report. */
  method AnalyzeTree(tree: Node) returns (codeSmells: seq<string>, antiPatterns: seq<string>)
    ensures codeSmells == FlatMap(BfsOrder([tree]), NodeSmells)
    ensures multiset(codeSmells) == multiset(TreeSmells(tree))
    ensures |antiPatterns| == SingletonTotal(tree)
    ensures forall k :: 0 <= k < |antiPatterns| ==> antiPatterns[k] == SingletonMessage
  {
    var nodes := Walk(tree);
    codeSmells, antiPatterns := [], [];
    for i := 0 to |nodes|
      invariant codeSmells == FlatMap(nodes[..i], NodeSmells)
      invariant |antiPatterns| == Total(nodes[..i], SingletonHits)
      invariant forall k :: 0 <= k < |antiPatterns| ==> antiPatterns[k] == SingletonMessage
    {
      var node := nodes[i];
      FlatMapPrefix(nodes, i, NodeSmells);
      TotalPrefix(nodes, i, SingletonHits);
      codeSmells, antiPatterns := Visit(node, codeSmells, antiPatterns);
    }
    assert nodes[..|nodes|] == nodes;
    WalkFindsTreeFindings(tree);
  }
}
