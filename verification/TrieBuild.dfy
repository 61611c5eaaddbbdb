/** Growing the trie one character or placeholder at a time (http/routing.h `Trie::add`). */
module TrieBuild {
  import opened Options
  import opened Patterns
  import opened TrieModel

  /** The child of node `i` by one token; 0 when there is none. */
  ghost function Edge(nodes: seq<Node>, i: nat, tok: Token): nat
    requires i < |nodes|
  {
    match tok
    case Lit(c) => if [c] in nodes[i].children then nodes[i].children[[c]] else 0
    case Param(kind) => nodes[i].paramChildren[kind.Slot()]
  }

  /** A trie under construction: one-character fragments, and every node but the head is reached by one edge only. */
  ghost predicate Built(nodes: seq<Node>) {
    && Wf(nodes)
    && (forall i, f :: 0 <= i < |nodes| && f in nodes[i].children ==> |f| == 1)
    && (forall i, t, j, u {:trigger Edge(nodes, i, t), Edge(nodes, j, u)} ::
          0 <= i < |nodes| && 0 <= j < |nodes| && Edge(nodes, i, t) == Edge(nodes, j, u) != 0 ==> i == j && t == u)
  }

  lemma EdgeUp(nodes: seq<Node>, i: nat, t: Token)
    requires Wf(nodes) && i < |nodes| && Edge(nodes, i, t) != 0
    ensures i < Edge(nodes, i, t) < |nodes|
  {
    assert WfNode(nodes, i);
  }

  /** The node reached from `i` by the tokens. */
  ghost function Walk(nodes: seq<Node>, i: nat, toks: seq<Token>): (r: Option<nat>)
    requires Wf(nodes) && i < |nodes|
    ensures r.Some? ==> i <= r.value < |nodes|
    decreases |toks|
  {
    if toks == [] then Some(i)
    else
      var c := Edge(nodes, i, toks[0]);
      if c == 0 then None else EdgeUp(nodes, i, toks[0]); Walk(nodes, c, toks[1..])
  }

  lemma {:induction false} WalkSnoc(nodes: seq<Node>, i: nat, toks: seq<Token>, t: Token)
    requires Wf(nodes) && i < |nodes|
    ensures Walk(nodes, i, toks + [t]) ==
            match Walk(nodes, i, toks)
            case None => None
            case Some(w) => if Edge(nodes, w, t) == 0 then None else Some(Edge(nodes, w, t))
    decreases |toks|
  {
    var longer := toks + [t];
    if toks == [] {
      assert longer[1..] == [];
      if Edge(nodes, i, t) != 0 { EdgeUp(nodes, i, t); }
    } else {
      assert longer[1..] == toks[1..] + [t];
      var c := Edge(nodes, i, toks[0]);
      if c != 0 {
        EdgeUp(nodes, i, toks[0]);
        WalkSnoc(nodes, c, toks[1..], t);
      }
    }
  }

  /** Two token sequences never lead from the head to the same node. */
  lemma {:induction false} WalkInjective(nodes: seq<Node>, a: seq<Token>, b: seq<Token>)
    requires Built(nodes) && Walk(nodes, 0, a).Some? && Walk(nodes, 0, a) == Walk(nodes, 0, b)
    ensures a == b
    decreases |a| + |b|
  {
    if a != [] && b != [] {
      var a', b' := a[..|a| - 1], b[..|b| - 1];
      assert a == a' + [a[|a| - 1]] && b == b' + [b[|b| - 1]];
      WalkSnoc(nodes, 0, a', a[|a| - 1]);
      WalkSnoc(nodes, 0, b', b[|b| - 1]);
      WalkInjective(nodes, a', b');
    }
  }

  /** With one-character fragments, lookup follows edges. */
  lemma LookupEdge(nodes: seq<Node>, i: nat, toks: seq<Token>)
    requires Built(nodes) && i < |nodes| && toks != []
    ensures Edge(nodes, i, toks[0]) < |nodes|
    ensures Lookup(nodes, i, toks) ==
            if Edge(nodes, i, toks[0]) == 0 then 0 else Lookup(nodes, Edge(nodes, i, toks[0]), toks[1..])
  {
    assert WfNode(nodes, i);
    if toks[0].Lit? {
      var f := [toks[0].c];
      if f in nodes[i].children {
        assert Lits(f) == [toks[0]];
        FragForUnique(nodes[i].children, toks, f);
      } else {
        forall g | g in nodes[i].children
          ensures !Spells(g, toks)
        {
          assert Lits(g)[0] == Lit(g[0]) && g == [g[0]];
        }
      }
    }
  }

  /** What is stored for a token sequence stands at the node it leads to. */
  lemma {:induction false} LookupWalk(nodes: seq<Node>, i: nat, toks: seq<Token>)
    requires Built(nodes) && i < |nodes|
    ensures Lookup(nodes, i, toks) ==
            match Walk(nodes, i, toks) case None => 0 case Some(w) => nodes[w].ruleIndex
    decreases |toks|
  {
    if toks != [] {
      LookupEdge(nodes, i, toks);
      if Edge(nodes, i, toks[0]) != 0 {
        LookupWalk(nodes, Edge(nodes, i, toks[0]), toks[1..]);
      }
    }
  }

  /** The vector after a new node has been appended and hung below `i` by token `t`. */
  ghost function Grown(nodes: seq<Node>, i: nat, t: Token): seq<Node>
    requires i < |nodes|
  {
    var n := nodes[i];
    var n' := match t
              case Lit(c) => n.(children := n.children[[c] := |nodes|])
              case Param(kind) => n.(paramChildren := n.paramChildren[kind.Slot() := |nodes|]);
    nodes[i := n'] + [EMPTY_NODE]
  }

  lemma GrownEdge(nodes: seq<Node>, i: nat, t: Token, j: nat, u: Token)
    requires i < |nodes| && j <= |nodes|
    ensures Edge(Grown(nodes, i, t), j, u) ==
            if j == |nodes| then 0 else if j == i && u == t then |nodes| else Edge(nodes, j, u)
  {
    if u.Param? && t.Param? && u != t {
      assert KindOfSlot(u.kind.Slot()) == u.kind && KindOfSlot(t.kind.Slot()) == t.kind;
    }
  }

  lemma GrownBuilt(nodes: seq<Node>, i: nat, t: Token)
    requires Built(nodes) && i < |nodes| && Edge(nodes, i, t) == 0
    ensures Built(Grown(nodes, i, t))
  {
    var nodes' := Grown(nodes, i, t);
    forall j | 0 <= j < |nodes'|
      ensures WfNode(nodes', j)
    {
      if j < |nodes| { assert WfNode(nodes, j); }
      assert forall f, g :: f in nodes'[j].children && g in nodes'[j].children && IsPrefix(f, g) ==> |f| == |g| == 1;
    }
    forall j, u, k, v | 0 <= j < |nodes'| && 0 <= k < |nodes'| && Edge(nodes', j, u) == Edge(nodes', k, v) != 0
      ensures j == k && u == v
    {
      GrownEdge(nodes, i, t, j, u);
      GrownEdge(nodes, i, t, k, v);
      if Edge(nodes', j, u) < |nodes| {
      } else {
        if j < |nodes| && Edge(nodes, j, u) != 0 { EdgeUp(nodes, j, u); }
        if k < |nodes| && Edge(nodes, k, v) != 0 { EdgeUp(nodes, k, v); }
      }
    }
  }

  /** Growing adds no rule. */
  lemma {:induction false} GrownLookup(nodes: seq<Node>, i: nat, t: Token, j: nat, toks: seq<Token>)
    requires Built(nodes) && i < |nodes| && Edge(nodes, i, t) == 0 && Built(Grown(nodes, i, t)) && j < |nodes|
    ensures Lookup(Grown(nodes, i, t), j, toks) == Lookup(nodes, j, toks)
    decreases |toks|
  {
    var nodes' := Grown(nodes, i, t);
    if toks != [] {
      LookupEdge(nodes, j, toks);
      LookupEdge(nodes', j, toks);
      GrownEdge(nodes, i, t, j, toks[0]);
      if j == i && toks[0] == t {
        if toks[1..] != [] {
          LookupEdge(nodes', |nodes|, toks[1..]);
          GrownEdge(nodes, i, t, |nodes|, toks[1..][0]);
        }
      } else if Edge(nodes, j, toks[0]) != 0 {
        GrownLookup(nodes, i, t, Edge(nodes, j, toks[0]), toks[1..]);
      }
    }
  }

  /** Growing keeps every path. */
  lemma {:induction false} GrownWalk(nodes: seq<Node>, i: nat, t: Token, j: nat, toks: seq<Token>)
    requires Built(nodes) && i < |nodes| && Edge(nodes, i, t) == 0 && Built(Grown(nodes, i, t)) && j < |nodes|
    requires Walk(nodes, j, toks).Some?
    ensures Walk(Grown(nodes, i, t), j, toks) == Walk(nodes, j, toks)
    decreases |toks|
  {
    if toks != [] {
      GrownEdge(nodes, i, t, j, toks[0]);
      EdgeUp(nodes, j, toks[0]);
      GrownWalk(nodes, i, t, Edge(nodes, j, toks[0]), toks[1..]);
    }
  }

  /** Storing an index at the node a path leads to changes what is stored for that path and for no other. */
  lemma StoreLookup(nodes: seq<Node>, path: seq<Token>, w: nat, ruleIndex: nat, toks: seq<Token>)
    requires Built(nodes) && Walk(nodes, 0, path) == Some(w)
    ensures Built(nodes[w := nodes[w].(ruleIndex := ruleIndex)])
    ensures Lookup(nodes[w := nodes[w].(ruleIndex := ruleIndex)], 0, toks) ==
            if toks == path then ruleIndex else Lookup(nodes, 0, toks)
  {
    var nodes' := nodes[w := nodes[w].(ruleIndex := ruleIndex)];
    forall j | 0 <= j < |nodes'|
      ensures WfNode(nodes', j)
    {
      assert WfNode(nodes, j);
    }
    assert forall j, u {:trigger Edge(nodes', j, u)} :: 0 <= j < |nodes| ==> Edge(nodes', j, u) == Edge(nodes, j, u);
    LookupWalk(nodes, 0, toks);
    LookupWalk(nodes', 0, toks);
    SameWalk(nodes, nodes', 0, toks);
    if Walk(nodes, 0, toks) == Some(w) {
      WalkInjective(nodes, toks, path);
    }
  }

  lemma {:induction false} SameWalk(nodes: seq<Node>, nodes': seq<Node>, j: nat, toks: seq<Token>)
    requires Wf(nodes) && Wf(nodes') && |nodes| == |nodes'| && j < |nodes|
    requires forall k, u :: 0 <= k < |nodes| ==> Edge(nodes', k, u) == Edge(nodes, k, u)
    ensures Walk(nodes', j, toks) == Walk(nodes, j, toks)
    decreases |toks|
  {
    if toks != [] && Edge(nodes, j, toks[0]) != 0 {
      EdgeUp(nodes, j, toks[0]);
      SameWalk(nodes, nodes', Edge(nodes, j, toks[0]), toks[1..]);
    }
  }

  /** Some stored token sequence begins with `t`. */
  ghost predicate Begins(rules: map<seq<Token>, nat>, t: Token) {
    exists toks :: toks in rules && toks != [] && toks[0] == t
  }

  /** Every edge of the head is the first step to a stored rule, or of the path that is being made. */
  ghost predicate HeadCovered(nodes: seq<Node>, rules: map<seq<Token>, nat>, path: seq<Token>) {
    nodes != [] &&
    forall t {:trigger Edge(nodes, 0, t)} :: Edge(nodes, 0, t) != 0 ==> (path != [] && path[0] == t) || Begins(rules, t)
  }

  lemma CoveredStart(rules: map<seq<Token>, nat>)
    ensures HeadCovered([EMPTY_NODE], rules, [])
  {
  }

  /** Following an edge, or making it, keeps the head covered by the longer path. */
  lemma CoveredStep(nodes: seq<Node>, rules: map<seq<Token>, nat>, path: seq<Token>, idx: nat, tok: Token)
    requires Built(nodes) && HeadCovered(nodes, rules, path) && Walk(nodes, 0, path) == Some(idx)
    ensures HeadCovered(nodes, rules, path + [tok]) && HeadCovered(Grown(nodes, idx, tok), rules, path + [tok])
  {
    hide Begins;
    if idx == 0 {
      WalkInjective(nodes, path, []);
    }
    forall t
      ensures Edge(Grown(nodes, idx, tok), 0, t) == if idx == 0 && t == tok then |nodes| else Edge(nodes, 0, t)
    {
      GrownEdge(nodes, idx, tok, 0, t);
    }
  }

  /** Storing the path, or finding it stored, covers the head by the rules alone. */
  lemma CoveredStore(nodes: seq<Node>, next: seq<Node>, rules: map<seq<Token>, nat>, path: seq<Token>)
    requires HeadCovered(nodes, rules, path) && path in rules && next != []
    requires next[0].children == nodes[0].children && next[0].paramChildren == nodes[0].paramChildren
    ensures HeadCovered(next, rules, [])
  {
    forall t | Edge(next, 0, t) != 0
      ensures Begins(rules, t)
    {
      assert Edge(nodes, 0, t) == Edge(next, 0, t);
    }
  }

  lemma CoveredMore(nodes: seq<Node>, rules: map<seq<Token>, nat>, more: map<seq<Token>, nat>, path: seq<Token>)
    requires HeadCovered(nodes, rules, path) && rules.Keys <= more.Keys
    ensures HeadCovered(nodes, more, path)
  {
    forall t | Edge(nodes, 0, t) != 0 && !(path != [] && path[0] == t)
      ensures Begins(more, t)
    {
      assert Begins(rules, t);
      var toks :| toks in rules && toks != [] && toks[0] == t;
      assert toks in more;
    }
  }

  /** No stored sequence is empty or begins with a placeholder. */
  ghost predicate BeginPlain(rules: map<seq<Token>, nat>) {
    forall toks: seq<Token> :: toks in rules ==> toks != [] && toks[0].Lit?
  }

  /** The head is plain exactly when no stored sequence is empty or begins with a placeholder. */
  lemma HeadIsSimple(nodes: seq<Node>, rules: map<seq<Token>, nat>)
    requires Built(nodes) && HeadCovered(nodes, rules, [])
    requires forall toks :: Lookup(nodes, 0, toks) == if toks in rules then rules[toks] else 0
    requires forall toks :: toks in rules ==> rules[toks] != 0
    ensures nodes[0].IsSimple() <==> BeginPlain(rules)
  {
    assert Lookup(nodes, 0, []) == nodes[0].ruleIndex;
    if nodes[0].IsSimple() {
      forall toks: seq<Token> | toks in rules
        ensures toks != [] && toks[0].Lit?
      {
        if toks != [] {
          LookupEdge(nodes, 0, toks);
        }
      }
    } else if nodes[0].ruleIndex == 0 {
      var k :| 0 <= k < 5 && nodes[0].paramChildren[k] != 0;
      var t := Param(KindOfSlot(k));
      assert Edge(nodes, 0, t) != 0;
      assert Begins(rules, t);
    }
  }
}
