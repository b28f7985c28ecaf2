/**
  `extract_listeners`: the static discovery of event names. The Python
  syntax tree is reduced to the node kinds the match looks at; `ast.walk`
  is a breadth-first traversal with a queue; each call of the form
  `self._call(<constant>, ...)` or `self._addListenerDoc(<constant>, ...)`
  contributes its constant, once, in the order the walk meets it.
 */
module Extractor {
  import opened Wrappers

  /** The value of an `ast.Constant`. */
  datatype Literal = Str(s: string) | Int(i: int) | Bool(b: bool) | NoneLit

  /**
    A syntax-tree node. `Call` holds `func`, `args` and `keywords` in the
    order `ast.iter_child_nodes` yields them; every other kind of node is
    `Other` with its child nodes.
   */
  datatype Node =
    | Call(func: Node, args: seq<Node>, keywords: seq<Node>)
    | Attribute(value: Node, attr: string)
    | Name(id: string)
    | Constant(literal: Literal)
    | Other(children: seq<Node>)

  /** The result dict: `events`, and `error`, None where the source leaves `""`. */
  datatype Extraction = Extraction(events: seq<Literal>, error: Option<string>)

  /** `ast.iter_child_nodes`: the direct sub-nodes of n, each strictly inside it. */
  function Children(n: Node): (cs: seq<Node>)
    ensures forall c :: c in cs ==> c < n
  {
    match n
    case Call(f, args, kws) => [f] + args + kws
    case Attribute(v, _) => [v]
    case Name(_) => []
    case Constant(_) => []
    case Other(cs) => cs
  }

  /** The number of nodes in the tree of n. */
  function Size(n: Node): nat
    decreases n
  {
    match n
    case Call(f, args, kws) => 1 + Size(f) + QueueSize(args) + QueueSize(kws)
    case Attribute(v, _) => 1 + Size(v)
    case Name(_) => 1
    case Constant(_) => 1
    case Other(cs) => 1 + QueueSize(cs)
  }

  /** The number of nodes in the trees of a queue. */
  function QueueSize(q: seq<Node>): nat
    decreases q
  {
    if q == [] then 0 else Size(q[0]) + QueueSize(q[1..])
  }

  lemma {:induction false} QueueSizeAppend(a: seq<Node>, b: seq<Node>)
    ensures QueueSize(a + b) == QueueSize(a) + QueueSize(b)
    decreases |a|
  {
    if a == [] {
      assert a + b == b;
    } else {
      assert (a + b)[0] == a[0];
      assert (a + b)[1..] == a[1..] + b;
      QueueSizeAppend(a[1..], b);
    }
  }

  /** The queue after `popleft()` and `extend(iter_child_nodes(node))` holds one node fewer. */
  lemma WalkProgress(q: seq<Node>)
    requires q != []
    ensures QueueSize(q[1..] + Children(q[0])) == QueueSize(q) - 1
  {
    QueueSizeAppend(q[1..], Children(q[0]));
    match q[0]
    case Call(f, args, kws) =>
      QueueSizeAppend([f], args);
      QueueSizeAppend([f] + args, kws);
      assert QueueSize([f]) == Size(f) by {
        assert [f][1..] == [];
      }
    case Attribute(v, _) =>
      assert [v][1..] == [];
    case Name(_) =>
    case Constant(_) =>
    case Other(cs) =>
  }

  /** The nodes `ast.walk` yields when its queue starts as q: breadth first. */
  function Walk(q: seq<Node>): (w: seq<Node>)
    ensures |w| == QueueSize(q)
    ensures q != [] ==> |w| > 0 && w[0] == q[0]
    decreases QueueSize(q)
  {
    if q == [] then []
    else
      WalkProgress(q);
      [q[0]] + Walk(q[1..] + Children(q[0]))
  }

  /** The event name a node contributes, if it is a matching call with a constant first argument. */
  function EventOf(n: Node): (e: Option<Literal>)
    ensures e.Some? ==> n.Call? && |n.args| > 0 && n.args[0] == Constant(e.value)
    ensures e.Some? ==> n.func == Attribute(Name("self"), "_call") || n.func == Attribute(Name("self"), "_addListenerDoc")
  {
    if n.Call? && n.func.Attribute? && n.func.value.Name? && n.func.value.id == "self"
       && (n.func.attr == "_call" || n.func.attr == "_addListenerDoc")
       && |n.args| > 0 && n.args[0].Constant?
    then Some(n.args[0].literal)
    else None
  }

  /** The event names the visited nodes contribute, in visiting order, repeats included. */
  function Matches(nodes: seq<Node>): seq<Literal>
    decreases |nodes|
  {
    if nodes == [] then []
    else
      var last := nodes[|nodes| - 1];
      Matches(nodes[..|nodes| - 1]) + (if EventOf(last).Some? then [EventOf(last).value] else [])
  }

  /** First occurrences only, in order: `if event_name not in events: events.append(event_name)`. */
  function Dedup(xs: seq<Literal>): (d: seq<Literal>)
    ensures |d| <= |xs|
    ensures xs != [] ==> d != [] && d[0] == xs[0]
    decreases |xs|
  {
    if xs == [] then []
    else
      var prefix := Dedup(xs[..|xs| - 1]);
      var x := xs[|xs| - 1];
      if x in prefix then prefix else prefix + [x]
  }

  /** One loop step: what the visit of one more node does to the collected names. */
  lemma CollectStep(visited: seq<Node>, node: Node)
    ensures EventOf(node).None? ==> Dedup(Matches(visited + [node])) == Dedup(Matches(visited))
    ensures EventOf(node).Some? ==>
      var prev := Dedup(Matches(visited));
      var e := EventOf(node).value;
      Dedup(Matches(visited + [node])) == if e in prev then prev else prev + [e]
  {
    var all := visited + [node];
    assert all[..|all| - 1] == visited;
    assert all[|all| - 1] == node;
    if EventOf(node).Some? {
      var m := Matches(visited) + [EventOf(node).value];
      assert Matches(all) == m;
      assert m[..|m| - 1] == Matches(visited);
    } else {
      assert Matches(all) == Matches(visited) + [];
      assert Matches(visited) + [] == Matches(visited);
    }
  }

  /** Moving the head of the queue to the visited nodes keeps the whole walk. */
  lemma VisitStep(visited: seq<Node>, todo: seq<Node>)
    requires todo != []
    ensures visited + Walk(todo) == (visited + [todo[0]]) + Walk(todo[1..] + Children(todo[0]))
  {
    var rest := Walk(todo[1..] + Children(todo[0]));
    assert Walk(todo) == [todo[0]] + rest;
    ShiftHead(visited, todo[0], rest);
  }

  /** Moving one element across the join of two sequences. */
  lemma ShiftHead(a: seq<Node>, x: Node, b: seq<Node>)
    ensures a + ([x] + b) == (a + [x]) + b
  {
  }

  /**
    `extract_listeners(cls)`, given the outcome of `ast.parse` on the class
    source: a parse failure gives no events and its error; otherwise the walk
    runs with a queue, as `ast.walk` does, and the loop body collects names.
   */
  method ExtractListeners(parsed: Result<Node, string>) returns (result: Extraction)
    ensures parsed.Failure? ==> result == Extraction([], Some(parsed.error))
    ensures parsed.Success? ==> result == Extraction(Dedup(Matches(Walk([parsed.value]))), None)
  {
    result := Extraction([], None);
    if parsed.Failure? {
      result := result.(error := Some(parsed.error));
      return;
    }
    var todo := [parsed.value];
    ghost var visited: seq<Node> := [];
    var events: seq<Literal> := [];
    while todo != []
      invariant Walk([parsed.value]) == visited + Walk(todo)
      invariant events == Dedup(Matches(visited))
      decreases QueueSize(todo)
    {
      var node := todo[0];
      WalkProgress(todo);
      VisitStep(visited, todo);
      CollectStep(visited, node);
      todo := todo[1..] + Children(node);
      visited := visited + [node];
      if node.Call? {
        if node.func.Attribute? && node.func.value.Name? && node.func.value.id == "self"
           && (node.func.attr == "_call" || node.func.attr == "_addListenerDoc")
        {
          if |node.args| > 0 && node.args[0].Constant? {
            var eventName := node.args[0].literal;
            assert EventOf(node) == Some(eventName);
            if eventName !in events {
              events := events + [eventName];
            }
          }
        }
      }
    }
    assert visited + Walk(todo) == visited;
    result := result.(events := events);
  }
  /** An independent reference for the nodes of a tree: depth-first preorder. */
  function Subtrees(n: Node): seq<Node>
    decreases Size(n), 0
  {
    ChildrenSize(n);
    [n] + Forest(Children(n))
  }

  /** The nodes of every tree of a queue, tree by tree. */
  function Forest(q: seq<Node>): seq<Node>
    decreases QueueSize(q), 1
  {
    if q == [] then [] else Subtrees(q[0]) + Forest(q[1..])
  }

  lemma ChildrenSize(n: Node)
    ensures QueueSize(Children(n)) < Size(n)
  {
    WalkProgress([n]);
    assert [n][1..] + Children(n) == Children(n);
  }

  lemma {:induction false} ForestAppend(a: seq<Node>, b: seq<Node>)
    ensures Forest(a + b) == Forest(a) + Forest(b)
    decreases |a|
  {
    if a == [] {
      assert a + b == b;
    } else {
      assert (a + b)[0] == a[0];
      assert (a + b)[1..] == a[1..] + b;
      ForestAppend(a[1..], b);
    }
  }

  /**
    The breadth-first walk visits every node of the queue's trees exactly
    once: as a multiset it is the depth-first preorder.
   */
  lemma {:induction false} WalkVisitsForest(q: seq<Node>)
    ensures multiset(Walk(q)) == multiset(Forest(q))
    decreases QueueSize(q)
  {
    if q != [] {
      var rest := q[1..] + Children(q[0]);
      WalkProgress(q);
      WalkVisitsForest(rest);
      ForestAppend(q[1..], Children(q[0]));
      assert Walk(q) == [q[0]] + Walk(rest);
      assert Forest(q) == [q[0]] + Forest(Children(q[0])) + Forest(q[1..]);
    }
  }

  /** Every node of a tree is visited exactly once by `ast.walk(tree)`. */
  lemma WalkVisitsEachNodeOnce(tree: Node)
    ensures multiset(Walk([tree])) == multiset(Subtrees(tree))
  {
    WalkVisitsForest([tree]);
    assert Forest([tree]) == Subtrees(tree) + Forest([]);
    assert Subtrees(tree) + [] == Subtrees(tree);
  }

  /** A name is matched exactly when some visited node contributes it. */
  lemma {:induction false} MatchesMembership(nodes: seq<Node>, e: Literal)
    ensures e in Matches(nodes) <==> exists n :: n in nodes && EventOf(n) == Some(e)
    decreases |nodes|
  {
    if nodes != [] {
      var init := nodes[..|nodes| - 1];
      MatchesMembership(init, e);
      assert nodes == init + [nodes[|nodes| - 1]];
    }
  }

  /** No name is recorded twice. */
  lemma {:induction false} DedupDistinct(xs: seq<Literal>)
    ensures forall i, j :: 0 <= i < j < |Dedup(xs)| ==> Dedup(xs)[i] != Dedup(xs)[j]
    decreases |xs|
  {
    if xs != [] {
      DedupDistinct(xs[..|xs| - 1]);
    }
  }

  /** A name is recorded exactly when it occurs at all. */
  lemma {:induction false} DedupMembership(xs: seq<Literal>, e: Literal)
    ensures e in Dedup(xs) <==> e in xs
    decreases |xs|
  {
    if xs != [] {
      var init := xs[..|xs| - 1];
      DedupMembership(init, e);
      assert xs == init + [xs[|xs| - 1]];
    }
  }

  /** Names are kept in the order of their first occurrence. */
  lemma {:induction false} DedupFirstOccurrence(xs: seq<Literal>, i: nat, j: nat)
    requires i < j < |Dedup(xs)|
    ensures exists p, q :: 0 <= p < q < |xs| && xs[p] == Dedup(xs)[i] && xs[q] == Dedup(xs)[j]
                           && Dedup(xs)[j] !in xs[..q]
    decreases |xs|
  {
    var init := xs[..|xs| - 1];
    var prefix := Dedup(init);
    var x := xs[|xs| - 1];
    if j < |prefix| {
      DedupFirstOccurrence(init, i, j);
      var p, q :| 0 <= p < q < |init| && init[p] == prefix[i] && init[q] == prefix[j]
                  && prefix[j] !in init[..q];
      assert xs[..q] == init[..q];
      assert xs[p] == init[p] && xs[q] == init[q];
    } else {
      assert Dedup(xs) == prefix + [x] && j == |prefix|;
      DedupMembership(init, x);
      DedupMembership(init, prefix[i]);
      assert prefix[i] in prefix;
      var p :| 0 <= p < |init| && init[p] == prefix[i];
      assert xs[p] == init[p];
      assert xs[..|xs| - 1] == init;
    }
  }

  /**
    A name appears in `events` exactly when some node of the class body is a
    matching call whose first argument is that constant.
   */
  lemma ExtractFindsExactly(tree: Node, e: Literal)
    ensures e in Dedup(Matches(Walk([tree]))) <==> exists n :: n in Subtrees(tree) && EventOf(n) == Some(e)
  {
    var walked := Walk([tree]);
    var nodes := Subtrees(tree);
    DedupMembership(Matches(walked), e);
    MatchesMembership(walked, e);
    WalkVisitsEachNodeOnce(tree);
    assert forall n :: n in walked <==> n in nodes by {
      forall n
        ensures n in walked <==> n in nodes
      {
        assert n in walked <==> n in multiset(walked);
        assert n in nodes <==> n in multiset(nodes);
      }
    }
  }

  /** The names the walk yields, as one sequence: `Matches(a + b)` is `Matches(a) + Matches(b)`. */
  lemma {:induction false} MatchesAppend(a: seq<Node>, b: seq<Node>)
    ensures Matches(a + b) == Matches(a) + Matches(b)
    decreases |b|
  {
    if b == [] {
      assert a + b == a;
    } else {
      var init := b[..|b| - 1];
      MatchesAppend(a, init);
      assert (a + b)[..|a + b| - 1] == a + init;
      assert (a + b)[|a + b| - 1] == b[|b| - 1];
    }
  }

  /** Matches of a single node. */
  lemma MatchesOne(n: Node)
    ensures Matches([n]) == if EventOf(n).Some? then [EventOf(n).value] else []
  {
    assert [n][..0] == [];
  }

  /** Nodes that are not matching calls contribute nothing. */
  lemma {:induction false} MatchesNone(nodes: seq<Node>)
    requires forall k :: 0 <= k < |nodes| ==> EventOf(nodes[k]).None?
    ensures Matches(nodes) == []
    decreases |nodes|
  {
    if nodes != [] {
      MatchesNone(nodes[..|nodes| - 1]);
    }
  }

  /** A queue of leaves is walked as it stands. */
  lemma {:induction false} WalkLeaves(q: seq<Node>)
    requires forall k :: 0 <= k < |q| ==> Children(q[k]) == []
    ensures Walk(q) == q
    decreases |q|
  {
    if q != [] {
      assert q[1..] + Children(q[0]) == q[1..];
      WalkLeaves(q[1..]);
    }
  }

  /** Two different names are both kept, in order. */
  lemma DedupPair(x: Literal, y: Literal)
    requires x != y
    ensures Dedup([x, y]) == [x, y]
  {
    assert [x, y][..1] == [x];
    assert [x][..0] == [];
    assert Dedup([x]) == [x];
    assert y !in [x];
  }

  /** The names of a walk whose only matching calls are the ones shown, in this order. */
  lemma MatchesOfCalls(front: seq<Node>, p: Node, q: Node, rest: seq<Node>)
    requires Matches(front) == [] && Matches(rest) == []
    requires EventOf(p).Some? && EventOf(q).Some?
    ensures Matches(front + [p, q] + rest) == [EventOf(p).value, EventOf(q).value]
  {
    var withP := front + [p];
    var withQ := withP + [q];
    assert front + [p, q] + rest == withQ + rest;
    MatchesOne(p);
    MatchesOne(q);
    MatchesAppend(front, [p]);
    assert Matches(withP) == [EventOf(p).value];
    MatchesAppend(withP, [q]);
    assert Matches(withQ) == [EventOf(p).value, EventOf(q).value];
    MatchesAppend(withQ, rest);
  }

  /** `self.<attr>(<arg>)`. */
  function SelfCall(attr: string, arg: Node): Node {
    Call(Attribute(Name("self"), attr), [arg], [])
  }

  /** `self.<attr>("<name>")`. */
  function SelfCallStr(attr: string, name: string): Node {
    SelfCall(attr, Constant(Str(name)))
  }

  /** The last level of both examples: two `self.<attr>` nodes and two leaves. */
  lemma AttributesWalk(x: string, k1: Node, y: string, k2: Node)
    requires Children(k1) == [] && Children(k2) == []
    ensures Walk([Attribute(Name("self"), x), k1, Attribute(Name("self"), y), k2])
            == [Attribute(Name("self"), x), k1, Attribute(Name("self"), y), k2, Name("self"), Name("self")]
  {
    var f1 := Attribute(Name("self"), x);
    var f2 := Attribute(Name("self"), y);
    var me := Name("self");
    var w3 := Walk([k2, me, me]);
    assert w3 == [k2, me, me] by { WalkLeaves([k2, me, me]); }
    var w2 := Walk([f2, k2, me]);
    assert w2 == [f2] + w3 by { assert [f2, k2, me][1..] + Children(f2) == [k2, me, me]; }
    var w1 := Walk([k1, f2, k2, me]);
    assert w1 == [k1] + w2 by { assert [k1, f2, k2, me][1..] + Children(k1) == [f2, k2, me]; }
    assert Walk([f1, k1, f2, k2]) == [f1] + w1 by { assert [f1, k1, f2, k2][1..] + Children(f1) == [k1, f2, k2, me]; }
  }

  /** The walk of a class body that raises `a` and then `b`. */
  lemma TwoCallsWalk(a: string, b: string, tree: Node)
    requires tree == Other([SelfCallStr("_call", a), SelfCallStr("_call", b)])
    ensures Walk([tree]) == [tree] + [SelfCallStr("_call", a), SelfCallStr("_call", b)]
                            + [Attribute(Name("self"), "_call"), Constant(Str(a)),
                               Attribute(Name("self"), "_call"), Constant(Str(b)),
                               Name("self"), Name("self")]
  {
    var c := SelfCallStr("_call", a);
    var d := SelfCallStr("_call", b);
    var fc := Attribute(Name("self"), "_call");
    var kc := Constant(Str(a));
    var kd := Constant(Str(b));
    var w3 := Walk([fc, kc, fc, kd]);
    AttributesWalk("_call", kc, "_call", kd);
    var w2 := Walk([d, fc, kc]);
    assert w2 == [d] + w3 by { assert [d, fc, kc][1..] + Children(d) == [fc, kc, fc, kd]; }
    var w1 := Walk([c, d]);
    assert w1 == [c] + w2 by { assert [c, d][1..] + Children(c) == [d, fc, kc]; }
    assert Walk([tree]) == [tree] + w1 by { assert [tree][1..] + Children(tree) == [c, d]; }
    assert [tree] + ([c] + ([d] + w3)) == [tree] + [c, d] + w3;
  }

  /** A class body raising `a` and then a different `b` yields both, in that order. */
  lemma TwoCallsExample(a: string, b: string, tree: Node)
    requires a != b
    requires tree == Other([SelfCallStr("_call", a), SelfCallStr("_call", b)])
    ensures Dedup(Matches(Walk([tree]))) == [Str(a), Str(b)]
  {
    var c := SelfCallStr("_call", a);
    var d := SelfCallStr("_call", b);
    var rest := [Attribute(Name("self"), "_call"), Constant(Str(a)),
                 Attribute(Name("self"), "_call"), Constant(Str(b)),
                 Name("self"), Name("self")];
    TwoCallsWalk(a, b, tree);
    MatchesNone(rest);
    MatchesOne(tree);
    MatchesOfCalls([tree], c, d, rest);
    DedupPair(Str(a), Str(b));
  }

  /** `self._call("connected")` then `self._call("disconnected")` gives `["connected", "disconnected"]`. */
  lemma ConnectedExample(tree: Node)
    requires tree == Other([SelfCallStr("_call", "connected"), SelfCallStr("_call", "disconnected")])
    ensures Dedup(Matches(Walk([tree]))) == [Str("connected"), Str("disconnected")]
  {
    TwoCallsExample("connected", "disconnected", tree);
  }

  /**
    The walk of a class body whose first statement nests `self._call(a)` one
    level deeper than the `self._addListenerDoc(b)` that follows it.
   */
  lemma NestedWalk(a: string, b: string, tree: Node)
    requires tree == Other([Other([SelfCallStr("_call", a)]), SelfCallStr("_addListenerDoc", b)])
    ensures Walk([tree]) == [tree, Other([SelfCallStr("_call", a)])]
                            + [SelfCallStr("_addListenerDoc", b), SelfCallStr("_call", a)]
                            + [Attribute(Name("self"), "_addListenerDoc"), Constant(Str(b)),
                               Attribute(Name("self"), "_call"), Constant(Str(a)),
                               Name("self"), Name("self")]
  {
    var ca := SelfCallStr("_call", a);
    var cb := SelfCallStr("_addListenerDoc", b);
    var inner := Other([ca]);
    var fa := Attribute(Name("self"), "_call");
    var fb := Attribute(Name("self"), "_addListenerDoc");
    var ka := Constant(Str(a));
    var kb := Constant(Str(b));
    var w4 := Walk([fb, kb, fa, ka]);
    AttributesWalk("_addListenerDoc", kb, "_call", ka);
    var w3 := Walk([ca, fb, kb]);
    assert w3 == [ca] + w4 by { assert [ca, fb, kb][1..] + Children(ca) == [fb, kb, fa, ka]; }
    var w2 := Walk([cb, ca]);
    assert w2 == [cb] + w3 by { assert [cb, ca][1..] + Children(cb) == [ca, fb, kb]; }
    var w1 := Walk([inner, cb]);
    assert w1 == [inner] + w2 by { assert [inner, cb][1..] + Children(inner) == [cb, ca]; }
    assert Walk([tree]) == [tree] + w1 by { assert [tree][1..] + Children(tree) == [inner, cb]; }
    assert [tree] + ([inner] + ([cb] + ([ca] + w4))) == [tree, inner] + [cb, ca] + w4;
  }

  /**
    First-seen means breadth-first: the shallower `b` is recorded before the
    deeper `a`, although `a` comes first in the source text.
   */
  lemma BreadthFirstOrder(a: string, b: string, tree: Node)
    requires a != b
    requires tree == Other([Other([SelfCallStr("_call", a)]), SelfCallStr("_addListenerDoc", b)])
    ensures Dedup(Matches(Walk([tree]))) == [Str(b), Str(a)]
  {
    var ca := SelfCallStr("_call", a);
    var cb := SelfCallStr("_addListenerDoc", b);
    var inner := Other([ca]);
    var rest := [Attribute(Name("self"), "_addListenerDoc"), Constant(Str(b)),
                 Attribute(Name("self"), "_call"), Constant(Str(a)),
                 Name("self"), Name("self")];
    NestedWalk(a, b, tree);
    MatchesNone(rest);
    MatchesNone([tree, inner]);
    MatchesOfCalls([tree, inner], cb, ca, rest);
    DedupPair(Str(b), Str(a));
  }
}
