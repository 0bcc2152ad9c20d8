/** The syntax-tree side of counter.py: a tagged-union stand-in for Python's
    `ast` nodes, `ast.walk`, and the two comprehensions over it,
    `get_all_names` and `separate_to_node`. */
module Ast {
  import opened Lists
  import opened Naming

  /** A syntax-tree node, reduced to the kinds the analysis tells apart: a
      function definition with its name and all the nodes directly under it
      (arguments, decorators, annotations and statements alike), a name
      reference with its identifier, and every other kind of node with its
      child nodes. */
  datatype Node =
    | FunctionDef(name: string, children: seq<Node>)
    | Name(id: string)
    | Other(children: seq<Node>)

  /** `ast.iter_child_nodes(node)`. */
  function Children(n: Node): seq<Node>
  {
    if n.Name? then [] else n.children
  }

  /** Number of nodes in a tree. */
  function Size(n: Node): nat
  {
    match n
    case FunctionDef(_, children) => 1 + SizeOf(children)
    case Name(_) => 1
    case Other(children) => 1 + SizeOf(children)
  }

  /** Number of nodes in a list of trees. */
  function SizeOf(ns: seq<Node>): nat
  {
    if ns == [] then 0 else Size(ns[0]) + SizeOf(ns[1..])
  }

  lemma SizeChildren(n: Node)
    ensures Size(n) == 1 + SizeOf(Children(n))
  {
  }

  lemma {:induction false} SizeOfAppend(a: seq<Node>, b: seq<Node>)
    ensures SizeOf(a + b) == SizeOf(a) + SizeOf(b)
  {
    if a == [] {
      assert a + b == b;
    } else {
      assert (a + b)[1..] == a[1..] + b;
      SizeOfAppend(a[1..], b);
    }
  }

  /** The loop of `ast.walk` over its queue: take the front node, queue its
      children at the back, yield the node. Breadth-first: the queued nodes
      come out first, in queue order, and one node comes out for every node
      of the queued trees. */
  function Bfs(queue: seq<Node>): (r: seq<Node>)
    ensures |r| == SizeOf(queue)
    ensures |queue| <= |r| && r[..|queue|] == queue
    decreases SizeOf(queue)
  {
    if queue == [] then []
    else
      var n, rest := queue[0], queue[1..];
      SizeOfAppend(rest, Children(n));
      SizeChildren(n);
      var later := Bfs(rest + Children(n));
      assert later[..|rest|] == (rest + Children(n))[..|rest|] == rest;
      assert ([n] + later)[..|queue|] == [n] + later[..|rest|];
      [n] + later
  }

  /** `ast.walk(t)`: one node for every node of the tree, the root first. */
  function Walk(t: Node): (r: seq<Node>)
    ensures |r| == Size(t) && r[0] == t
  {
    assert SizeOf([t]) == Size(t) + SizeOf([]);
    Bfs([t])
  }

  /** A comprehension `[... for node in ns if ...]` over nodes, written with
      `pick` giving what each node contributes (nothing or one item). */
  function Collect<T>(pick: Node -> seq<T>, ns: seq<Node>): seq<T>
  {
    if ns == [] then [] else pick(ns[0]) + Collect(pick, ns[1..])
  }

  /** The reference traversal: what a tree contributes, in preorder. */
  function CollectTree<T>(pick: Node -> seq<T>, n: Node): seq<T>
  {
    match n
    case FunctionDef(_, children) => pick(n) + CollectForest(pick, children)
    case Name(_) => pick(n)
    case Other(children) => pick(n) + CollectForest(pick, children)
  }

  function CollectForest<T>(pick: Node -> seq<T>, ns: seq<Node>): seq<T>
  {
    if ns == [] then [] else CollectTree(pick, ns[0]) + CollectForest(pick, ns[1..])
  }

  lemma {:induction false} CollectForestAppend<T>(pick: Node -> seq<T>, a: seq<Node>, b: seq<Node>)
    ensures CollectForest(pick, a + b) == CollectForest(pick, a) + CollectForest(pick, b)
  {
    if a == [] {
      assert a + b == b;
    } else {
      assert (a + b)[1..] == a[1..] + b;
      CollectForestAppend(pick, a[1..], b);
    }
  }

  /** The breadth-first walk and the preorder traversal collect the same
      items, each as often: only the order differs. */
  lemma {:induction false} BfsCollect<T>(pick: Node -> seq<T>, queue: seq<Node>)
    ensures multiset(Collect(pick, Bfs(queue))) == multiset(CollectForest(pick, queue))
    decreases SizeOf(queue)
  {
    if queue != [] {
      var n, rest := queue[0], queue[1..];
      SizeOfAppend(rest, Children(n));
      SizeChildren(n);
      BfsCollect(pick, rest + Children(n));
      CollectForestAppend(pick, rest, Children(n));
      var walked := Bfs(rest + Children(n));
      assert ([n] + walked)[1..] == walked;
      assert Collect(pick, Bfs(queue)) == pick(n) + Collect(pick, walked);
      assert CollectTree(pick, n) == pick(n) + CollectForest(pick, Children(n));
    }
  }

  /** Each node as its own one-item contribution. */
  function Itself(n: Node): seq<Node>
  {
    [n]
  }

  /** `ast.walk` visits every node of the tree exactly once: as a multiset,
      its nodes are those of the preorder traversal. */
  lemma WalkVisitsEveryNodeOnce(t: Node)
    ensures multiset(Walk(t)) == multiset(CollectTree(Itself, t))
  {
    BfsCollect(Itself, [t]);
    CollectItself(Walk(t));
    assert CollectForest(Itself, [t]) == CollectTree(Itself, t) + [];
  }

  lemma {:induction false} CollectItself(ns: seq<Node>)
    ensures Collect(Itself, ns) == ns
  {
    if ns != [] {
      CollectItself(ns[1..]);
      assert ns == [ns[0]] + ns[1..];
    }
  }

  /** What a `FunctionDef` node contributes to `separate_to_node`: its name,
      lower-cased. */
  function LoweredFunctionName(n: Node): seq<string>
  {
    if n.FunctionDef? then [Lower(n.name)] else []
  }

  /** What a `Name` node contributes to `get_all_names`: its identifier, as
      it is. */
  function NameId(n: Node): seq<string>
  {
    if n.Name? then [n.id] else []
  }

  /** `get_all_names(tree)`: the identifier of every `Name` node, in walk
      order. Exactly one identifier per `Name` node, unchanged (not
      lower-cased): as a multiset, those of the preorder traversal. */
  function GetAllNames(t: Node): (r: seq<string>)
    ensures multiset(r) == multiset(CollectTree(NameId, t))
    ensures |r| == NameCount(t)
  {
    var r := Collect(NameId, Walk(t));
    BfsCollect(NameId, [t]);
    assert CollectForest(NameId, [t]) == CollectTree(NameId, t) + [];
    assert |r| == |multiset(r)|;
    NameIdsCount(t);
    r
  }

  /** `separate_to_node(t)`: the lower-cased name of every `FunctionDef`
      node, nested ones included, in walk order. Exactly one name per
      `FunctionDef` node: as a multiset, those of the preorder traversal. */
  function SeparateToNode(t: Node): (r: seq<string>)
    ensures multiset(r) == multiset(CollectTree(LoweredFunctionName, t))
    ensures |r| == FunctionDefCount(t)
  {
    var r := Collect(LoweredFunctionName, Walk(t));
    BfsCollect(LoweredFunctionName, [t]);
    assert CollectForest(LoweredFunctionName, [t]) == CollectTree(LoweredFunctionName, t) + [];
    assert |r| == |multiset(r)|;
    FunctionNamesCount(t);
    r
  }

  /** Number of `FunctionDef` nodes in a tree. */
  function FunctionDefCount(n: Node): nat
  {
    match n
    case FunctionDef(_, children) => 1 + FunctionDefCountOf(children)
    case Name(_) => 0
    case Other(children) => FunctionDefCountOf(children)
  }

  function FunctionDefCountOf(ns: seq<Node>): nat
  {
    if ns == [] then 0 else FunctionDefCount(ns[0]) + FunctionDefCountOf(ns[1..])
  }

  /** Number of `Name` nodes in a tree. */
  function NameCount(n: Node): nat
  {
    match n
    case FunctionDef(_, children) => NameCountOf(children)
    case Name(_) => 1
    case Other(children) => NameCountOf(children)
  }

  function NameCountOf(ns: seq<Node>): nat
  {
    if ns == [] then 0 else NameCount(ns[0]) + NameCountOf(ns[1..])
  }

  /** Everything collected from a list of nodes comes from one of them. */
  lemma {:induction false} CollectFrom<T>(pick: Node -> seq<T>, ns: seq<Node>, x: T)
    requires x in Collect(pick, ns)
    ensures exists i :: 0 <= i < |ns| && x in pick(ns[i])
  {
    if x !in pick(ns[0]) {
      CollectFrom(pick, ns[1..], x);
      var i :| 0 <= i < |ns[1..]| && x in pick(ns[1..][i]);
      assert x in pick(ns[i + 1]);
    }
  }

  lemma {:induction false} FunctionNamesCount(t: Node)
    ensures |CollectTree(LoweredFunctionName, t)| == FunctionDefCount(t)
    decreases t, 1
  {
    match t
    case FunctionDef(_, children) => FunctionNamesCountOf(children);
    case Name(_) =>
    case Other(children) => FunctionNamesCountOf(children);
  }

  lemma {:induction false} FunctionNamesCountOf(ns: seq<Node>)
    ensures |CollectForest(LoweredFunctionName, ns)| == FunctionDefCountOf(ns)
    decreases ns, 0
  {
    if ns != [] {
      FunctionNamesCount(ns[0]);
      FunctionNamesCountOf(ns[1..]);
    }
  }

  /** Every name `separate_to_node` yields is the lower-cased name of a
      `FunctionDef` node the walk visits, so it holds no ASCII capital. */
  lemma SeparateToNodeLowered(t: Node, s: string)
    requires s in SeparateToNode(t)
    ensures exists n :: n in Walk(t) && n.FunctionDef? && s == Lower(n.name)
    ensures forall j :: 0 <= j < |s| ==> !('A' <= s[j] <= 'Z')
  {
    CollectFrom(LoweredFunctionName, Walk(t), s);
  }

  lemma {:induction false} NameIdsCount(t: Node)
    ensures |CollectTree(NameId, t)| == NameCount(t)
    decreases t, 1
  {
    match t
    case FunctionDef(_, children) => NameIdsCountOf(children);
    case Name(_) =>
    case Other(children) => NameIdsCountOf(children);
  }

  lemma {:induction false} NameIdsCountOf(ns: seq<Node>)
    ensures |CollectForest(NameId, ns)| == NameCountOf(ns)
    decreases ns, 0
  {
    if ns != [] {
      NameIdsCount(ns[0]);
      NameIdsCountOf(ns[1..]);
    }
  }

  /** Every identifier `get_all_names` yields is that of a `Name` node the
      walk visits. */
  lemma GetAllNamesFrom(t: Node, s: string)
    requires s in GetAllNames(t)
    ensures Name(s) in Walk(t)
  {
    CollectFrom(NameId, Walk(t), s);
  }

  /** `separate_to_node` on a module with two top-level functions, the first
      holding a nested one: breadth-first, so the nested name comes last,
      and every name is lower-cased. */
  lemma SeparateToNodeExample(inner: Node, outer: Node, second: Node, root: Node)
    requires inner == FunctionDef("Inner", [])
    requires outer == FunctionDef("Outer", [Name("x"), inner])
    requires second == FunctionDef("second", [])
    requires root == Other([outer, second])
    ensures SeparateToNode(root) == ["outer", "second", "inner"]
  {
    var walked := [root, outer, second, Name("x"), inner];
    WalkedNames(root, walked, inner, outer, second);
    assert Lower("Outer") == "outer" && Lower("Inner") == "inner" && Lower("second") == "second";
    CollectFive(LoweredFunctionName, walked);
  }

  /** `get_all_names` on the same module: its one name reference. */
  lemma GetAllNamesExample(inner: Node, outer: Node, second: Node, root: Node)
    requires inner == FunctionDef("Inner", [])
    requires outer == FunctionDef("Outer", [Name("x"), inner])
    requires second == FunctionDef("second", [])
    requires root == Other([outer, second])
    ensures GetAllNames(root) == ["x"]
  {
    var walked := [root, outer, second, Name("x"), inner];
    WalkedNames(root, walked, inner, outer, second);
    CollectFive(NameId, walked);
  }

  /** Both comprehensions of that module run over its walk. */
  lemma WalkedNames(root: Node, walked: seq<Node>, inner: Node, outer: Node, second: Node)
    requires inner == FunctionDef("Inner", [])
    requires outer == FunctionDef("Outer", [Name("x"), inner])
    requires second == FunctionDef("second", [])
    requires root == Other([outer, second])
    requires walked == [root, outer, second, Name("x"), inner]
    ensures SeparateToNode(root) == Collect(LoweredFunctionName, walked)
    ensures GetAllNames(root) == Collect(NameId, walked)
  {
    WalkExample(inner, outer, second, root);
  }

  lemma CollectFive<T>(pick: Node -> seq<T>, ns: seq<Node>)
    requires |ns| == 5
    ensures Collect(pick, ns) == pick(ns[0]) + pick(ns[1]) + pick(ns[2]) + pick(ns[3]) + pick(ns[4])
  {
    assert ns[4..][1..] == [];
    assert Collect(pick, ns[4..]) == pick(ns[4]);
    assert ns[3..][1..] == ns[4..];
    assert Collect(pick, ns[3..]) == pick(ns[3]) + pick(ns[4]);
    assert ns[2..][1..] == ns[3..];
    assert Collect(pick, ns[2..]) == pick(ns[2]) + pick(ns[3]) + pick(ns[4]);
    assert ns[1..][1..] == ns[2..];
    assert Collect(pick, ns[1..]) == pick(ns[1]) + pick(ns[2]) + pick(ns[3]) + pick(ns[4]);
  }

  /** The walk of that module, level by level. */
  lemma WalkExample(inner: Node, outer: Node, second: Node, root: Node)
    requires inner == FunctionDef("Inner", [])
    requires outer == FunctionDef("Outer", [Name("x"), inner])
    requires second == FunctionDef("second", [])
    requires root == Other([outer, second])
    ensures Walk(root) == [root, outer, second, Name("x"), inner]
  {
    var q1 := [outer, second];
    var q2 := [second, Name("x"), inner];
    var q3 := [Name("x"), inner];
    var q4 := [inner];
    assert Bfs(q4) == [inner] by {
      assert q4[1..] + Children(inner) == [];
    }
    assert Bfs(q3) == [Name("x")] + Bfs(q4) by {
      assert q3[1..] + Children(Name("x")) == q4;
    }
    assert Bfs(q2) == [second] + Bfs(q3) by {
      assert q2[1..] + Children(second) == q3;
    }
    assert Bfs(q1) == [outer] + Bfs(q2) by {
      assert q1[1..] + Children(outer) == q2;
    }
    assert Walk(root) == [root] + Bfs(q1) by {
      assert [root][1..] + Children(root) == q1;
    }
  }
}
