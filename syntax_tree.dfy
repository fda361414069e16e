/** Python syntax trees, as far as the analyzer inspects them, and the
    breadth-first walk over them that the analyzer's structural pass uses. */
module SyntaxTree {

  /** One node of a Python syntax tree. The node kinds and fields the
      analyzer's rules look at are spelled out; every other kind of node
      (names, calls, tuples, returns, `async for`, ...) is `Other`, which
      keeps its child nodes so that a walk still reaches everything below.
      `rest` holds the child nodes of a definition that are not its body:
      the argument list, decorators and return annotation of a function,
      the bases, keywords and decorators of a class. */
  datatype Node =
    | Module(body: seq<Node>)
    | FunctionDef(name: string, rest: seq<Node>, body: seq<Node>)
    | AsyncFunctionDef(name: string, rest: seq<Node>, body: seq<Node>)
    | ClassDef(name: string, rest: seq<Node>, body: seq<Node>)
    | For(line: nat, target: Node, iter: Node, body: seq<Node>, orelse: seq<Node>)
    | While(line: nat, test: Node, body: seq<Node>, orelse: seq<Node>)
    | If(test: Node, body: seq<Node>, orelse: seq<Node>)
    | Assign(targets: seq<Node>, value: Node)
    | Attribute(value: Node, attr: string)
    | Other(children: seq<Node>)

  /** Number of nodes in the tree rooted at `n`. */
  function Size(n: Node): nat
  {
    match n
    case Module(b) => 1 + ForestSize(b)
    case FunctionDef(_, r, b) => 1 + ForestSize(r) + ForestSize(b)
    case AsyncFunctionDef(_, r, b) => 1 + ForestSize(r) + ForestSize(b)
    case ClassDef(_, r, b) => 1 + ForestSize(r) + ForestSize(b)
    case For(_, t, i, b, o) => 1 + Size(t) + Size(i) + ForestSize(b) + ForestSize(o)
    case While(_, t, b, o) => 1 + Size(t) + ForestSize(b) + ForestSize(o)
    case If(t, b, o) => 1 + Size(t) + ForestSize(b) + ForestSize(o)
    case Assign(ts, v) => 1 + ForestSize(ts) + Size(v)
    case Attribute(v, _) => 1 + Size(v)
    case Other(cs) => 1 + ForestSize(cs)
  }

  /** Number of nodes in all the trees of `s` together. */
  function ForestSize(s: seq<Node>): nat
  {
    if s == [] then 0 else Size(s[0]) + ForestSize(s[1..])
  }

  lemma {:induction false} ForestSizeAppend(a: seq<Node>, b: seq<Node>)
    ensures ForestSize(a + b) == ForestSize(a) + ForestSize(b)
  {
    if a == [] {
      assert a + b == b;
    } else {
      assert (a + b)[1..] == a[1..] + b;
      ForestSizeAppend(a[1..], b);
    }
  }

  lemma ForestSizeJoin(a: seq<Node>, b: seq<Node>, c: seq<Node>)
    ensures ForestSize(a + b + c) == ForestSize(a) + ForestSize(b) + ForestSize(c)
    ensures |a| == 1 ==> ForestSize(a) == Size(a[0])
    ensures |a| == 2 ==> ForestSize(a) == Size(a[0]) + Size(a[1])
  {
    ForestSizeAppend(a, b);
    ForestSizeAppend(a + b, c);
    if |a| == 2 {
      assert a[1..][1..] == [];
    }
  }

  lemma ForestSizeOne(n: Node)
    ensures ForestSize([n]) == Size(n)
  {
    assert [n][1..] == [];
  }

  /** The direct child nodes of `n`, field by field, as Python's
      `ast.iter_child_nodes` yields them. Together they hold every node of
      the tree but `n` itself. */
  function Children(n: Node): seq<Node>
  {
    match n
    case Module(b) => b
    case FunctionDef(_, r, b) => r + b
    case AsyncFunctionDef(_, r, b) => r + b
    case ClassDef(_, r, b) => r + b
    case For(_, t, i, b, o) => [t, i] + b + o
    case While(_, t, b, o) => [t] + b + o
    case If(t, b, o) => [t] + b + o
    case Assign(ts, v) => ts + [v]
    case Attribute(v, _) => [v]
    case Other(cs) => cs
  }

  /** The children of `n` together hold every node of its tree but `n`. */
  lemma ChildrenSize(n: Node)
    ensures ForestSize(Children(n)) + 1 == Size(n)
  {
    match n
    case Module(b) =>
    case FunctionDef(_, r, b) => ForestSizeAppend(r, b);
    case AsyncFunctionDef(_, r, b) => ForestSizeAppend(r, b);
    case ClassDef(_, r, b) => ForestSizeAppend(r, b);
    case For(_, t, i, b, o) => ForestSizeJoin([t, i], b, o);
    case While(_, t, b, o) => ForestSizeJoin([t], b, o);
    case If(t, b, o) => ForestSizeJoin([t], b, o);
    case Assign(ts, v) => ForestSizeAppend(ts, [v]); ForestSizeOne(v);
    case Attribute(v, _) => ForestSizeOne(v);
    case Other(cs) =>
  }

  /** Every node of the tree rooted at `n`, each once, parent before its
      children (pre-order). This is the reference enumeration that the
      walk is measured against. */
  function Subtrees(n: Node): (r: seq<Node>)
    decreases Size(n), 0
    ensures |r| == Size(n) && r[0] == n
  {
    ChildrenSize(n);
    [n] + ForestSubtrees(Children(n))
  }

  /** Every node of every tree of `s`, tree after tree. */
  function ForestSubtrees(s: seq<Node>): (r: seq<Node>)
    decreases ForestSize(s), 1
    ensures |r| == ForestSize(s)
  {
    if s == [] then [] else Subtrees(s[0]) + ForestSubtrees(s[1..])
  }

  lemma {:induction false} ForestSubtreesAppend(a: seq<Node>, b: seq<Node>)
    ensures ForestSubtrees(a + b) == ForestSubtrees(a) + ForestSubtrees(b)
  {
    if a == [] {
      assert a + b == b;
    } else {
      assert (a + b)[0] == a[0];
      assert (a + b)[1..] == a[1..] + b;
      ForestSubtreesAppend(a[1..], b);
    }
  }

  /** The order in which a breadth-first walk starting from the queue `q`
      yields nodes: take the front node, put its children at the back. */
  function BfsOrder(q: seq<Node>): seq<Node>
    decreases ForestSize(q)
  {
    if q == [] then []
    else
      ChildrenSize(q[0]);
      ForestSizeAppend(q[1..], Children(q[0]));
      [q[0]] + BfsOrder(q[1..] + Children(q[0]))
  }

  /** The concatenation of `f(n)` over the nodes `n` of `s`, in order. */
  function FlatMap<T>(s: seq<Node>, f: Node -> seq<T>): seq<T>
  {
    if s == [] then [] else f(s[0]) + FlatMap(s[1..], f)
  }

  /** The sum of `g(n)` over the nodes `n` of `s`. */
  function Total(s: seq<Node>, g: Node -> nat): nat
  {
    if s == [] then 0 else g(s[0]) + Total(s[1..], g)
  }

  /** How many nodes of `s` satisfy `p`. */
  function Count(s: seq<Node>, p: Node -> bool): nat
  {
    if s == [] then 0 else (if p(s[0]) then 1 else 0) + Count(s[1..], p)
  }

  lemma {:induction false} FlatMapAppend<T>(a: seq<Node>, b: seq<Node>, f: Node -> seq<T>)
    ensures FlatMap(a + b, f) == FlatMap(a, f) + FlatMap(b, f)
  {
    if a == [] {
      assert a + b == b;
    } else {
      assert (a + b)[0] == a[0];
      assert (a + b)[1..] == a[1..] + b;
      FlatMapAppend(a[1..], b, f);
    }
  }

  lemma {:induction false} TotalAppend(a: seq<Node>, b: seq<Node>, g: Node -> nat)
    ensures Total(a + b, g) == Total(a, g) + Total(b, g)
  {
    if a == [] {
      assert a + b == b;
    } else {
      assert (a + b)[0] == a[0];
      assert (a + b)[1..] == a[1..] + b;
      TotalAppend(a[1..], b, g);
    }
  }

  lemma {:induction false} CountAppend(a: seq<Node>, b: seq<Node>, p: Node -> bool)
    ensures Count(a + b, p) == Count(a, p) + Count(b, p)
  {
    if a == [] {
      assert a + b == b;
    } else {
      assert (a + b)[0] == a[0];
      assert (a + b)[1..] == a[1..] + b;
      CountAppend(a[1..], b, p);
    }
  }

  /** The number of elements `FlatMap` produces is the sum of the parts. */
  /** Extending a prefix of `s` by one node adds that node's part. */
  lemma FlatMapPrefix<T>(s: seq<Node>, i: nat, f: Node -> seq<T>)
    requires i < |s|
    ensures FlatMap(s[..i + 1], f) == FlatMap(s[..i], f) + f(s[i])
  {
    assert s[..i + 1] == s[..i] + [s[i]];
    FlatMapAppend(s[..i], [s[i]], f);
    assert FlatMap([s[i]], f) == f(s[i]) + FlatMap([], f);
  }

  lemma TotalPrefix(s: seq<Node>, i: nat, g: Node -> nat)
    requires i < |s|
    ensures Total(s[..i + 1], g) == Total(s[..i], g) + g(s[i])
  {
    assert s[..i + 1] == s[..i] + [s[i]];
    TotalAppend(s[..i], [s[i]], g);
    assert Total([s[i]], g) == g(s[i]) + Total([], g);
  }

  /** When `f` yields `g(n)` values for every node `n`, the flat map has
      as many values as `g` sums to. */
  lemma {:induction false} FlatMapLength<T>(s: seq<Node>, f: Node -> seq<T>, g: Node -> nat)
    requires forall n :: |f(n)| == g(n)
    ensures |FlatMap(s, f)| == Total(s, g)
  {
    if s != [] {
      FlatMapLength(s[1..], f, g);
    }
  }

  /** A count never exceeds the number of nodes, reaches it exactly when
      every node qualifies, and is zero exactly when none does. */
  lemma {:induction false} CountBounds(s: seq<Node>, p: Node -> bool)
    ensures Count(s, p) <= |s|
    ensures Count(s, p) == |s| <==> forall i :: 0 <= i < |s| ==> p(s[i])
    ensures Count(s, p) == 0 <==> forall i :: 0 <= i < |s| ==> !p(s[i])
  {
    if s != [] {
      CountBounds(s[1..], p);
      assert forall i :: 1 <= i < |s| ==> s[i] == s[1..][i - 1];
      assert (forall i :: 0 <= i < |s| ==> p(s[i])) <==>
             p(s[0]) && (forall i :: 0 <= i < |s[1..]| ==> p(s[1..][i]));
      assert (forall i :: 0 <= i < |s| ==> !p(s[i])) <==>
             !p(s[0]) && (forall i :: 0 <= i < |s[1..]| ==> !p(s[1..][i]));
    }
  }

  /** A breadth-first walk from `q` yields the same values, as often, as
      the pre-order enumeration of the trees of `q` — only the order
      differs. Stated for any `f` applied to each yielded node, so that it
      carries over to whatever is collected along the walk. */
  lemma {:induction false} BfsPermutesSubtrees<T>(q: seq<Node>, f: Node -> seq<T>)
    ensures multiset(FlatMap(BfsOrder(q), f)) == multiset(FlatMap(ForestSubtrees(q), f))
    decreases ForestSize(q)
  {
    if q != [] {
      var head, tail, kids := q[0], q[1..], Children(q[0]);
      ChildrenSize(head);
      ForestSizeAppend(tail, kids);
      BfsPermutesSubtrees(tail + kids, f);
      ForestSubtreesAppend(tail, kids);
      FlatMapAppend(ForestSubtrees(tail), ForestSubtrees(kids), f);
      FlatMapAppend([head], BfsOrder(tail + kids), f);
      assert BfsOrder(q) == [head] + BfsOrder(tail + kids);
      assert FlatMap([head], f) == f(head);
      assert ForestSubtrees(q) == [head] + ForestSubtrees(kids) + ForestSubtrees(tail);
      FlatMapAppend([head] + ForestSubtrees(kids), ForestSubtrees(tail), f);
      FlatMapAppend([head], ForestSubtrees(kids), f);
    }
  }

  /** Summing along a breadth-first walk gives the same total as summing
      over the pre-order enumeration. */
  lemma BfsPreservesTotals(q: seq<Node>, g: Node -> nat)
    ensures Total(BfsOrder(q), g) == Total(ForestSubtrees(q), g)
  {
    var f := (n: Node) => seq(g(n), _ => 0);
    assert forall n :: |f(n)| == g(n);
    BfsPermutesSubtrees(q, f);
    assert |multiset(FlatMap(BfsOrder(q), f))| == |multiset(FlatMap(ForestSubtrees(q), f))|;
    FlatMapLength(BfsOrder(q), f, g);
    FlatMapLength(ForestSubtrees(q), f, g);
  }

  lemma {:induction false} FlatMapSingletons(s: seq<Node>)
    ensures FlatMap(s, n => [n]) == s
  {
    if s != [] {
      FlatMapSingletons(s[1..]);
    }
  }

  /** A breadth-first walk from the root yields every node of the tree
      exactly as often as the pre-order enumeration does: once. */
  lemma BfsVisitsEachNodeOnce(root: Node)
    ensures multiset(BfsOrder([root])) == multiset(Subtrees(root))
  {
    assert ForestSubtrees([root]) == Subtrees(root);
    BfsPermutesSubtrees([root], n => [n]);
    FlatMapSingletons(BfsOrder([root]));
    FlatMapSingletons(Subtrees(root));
  }

  /** Python's `ast.walk(tree)`: a queue holding the root; repeatedly take
      the front node, append its children at the back, and yield the node.
      It yields the root first and as many nodes as the tree has; that
      each node comes exactly once is `BfsVisitsEachNodeOnce`. */
  method Walk(root: Node) returns (order: seq<Node>)
    ensures order == BfsOrder([root])
    ensures |order| == Size(root) && order[0] == root
  {
    var todo := [root];
    order := [];
    while todo != []
      invariant order + BfsOrder(todo) == BfsOrder([root])
      decreases ForestSize(todo)
    {
      var node, kids := todo[0], Children(todo[0]);
      BfsStep(todo);
      todo := todo[1..] + kids;
      order := order + [node];
    }
    BfsShape(root);
  }

  /** One round of the walk: the front node comes first, and what is left
      to walk is smaller. */
  lemma BfsStep(q: seq<Node>)
    requires q != []
    ensures BfsOrder(q) == [q[0]] + BfsOrder(q[1..] + Children(q[0]))
    ensures ForestSize(q[1..] + Children(q[0])) < ForestSize(q)
  {
    ChildrenSize(q[0]);
    ForestSizeAppend(q[1..], Children(q[0]));
  }

  /** The walk from the root yields the root first, and one node for every
      node of the tree. */
  lemma BfsShape(root: Node)
    ensures |BfsOrder([root])| == Size(root) && BfsOrder([root])[0] == root
  {
    BfsVisitsEachNodeOnce(root);
    assert |multiset(BfsOrder([root]))| == |BfsOrder([root])|;
    BfsStep([root]);
  }
}
