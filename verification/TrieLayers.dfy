/** Why compression leaves fragments of equal length: a node is merged into its parent only while it is still as it was
    built (http/routing.h `Trie::optimizeNode`).

    `built` is the vector before compression and `done` the set of nodes compressed or merged away so far. */
module TrieLayers {
  import opened Patterns
  import opened TrieModel
  import opened TrieBuild
  import opened TrieOptimize
  import opened TrieNormal

  /** The fragments leaving any one node have the same length. */
  ghost predicate Uniform(nodes: seq<Node>) {
    forall j, f, g :: 0 <= j < |nodes| && f in nodes[j].children && g in nodes[j].children ==> |f| == |g|
  }

  /** Nodes outside `done` are still as built, `done` is closed under parents, and the fragments are uniform. */
  ghost predicate Clean(built: seq<Node>, nodes: seq<Node>, done: set<nat>) {
    && Built(built) && Wf(nodes) && |nodes| == |built|
    && (forall j :: 0 <= j < |built| && j !in done ==> nodes[j] == built[j])
    && (forall j :: 0 <= j < |built| ==> nodes[j].paramChildren == built[j].paramChildren)
    && (forall p, t {:trigger Edge(built, p, t)} ::
          0 <= p < |built| && Edge(built, p, t) != 0 && Edge(built, p, t) in done ==> p in done)
    && Uniform(nodes)
  }

  /** Node `c` is still to be compressed, its parent is not. */
  ghost predicate Pending(built: seq<Node>, done: set<nat>, c: nat) {
    c < |built| && c !in done && forall p, t :: 0 <= p < |built| && Edge(built, p, t) == c ==> c == 0 || p in done
  }

  ghost predicate AllPending(built: seq<Node>, done: set<nat>, xs: seq<nat>) {
    forall k :: 0 <= k < |xs| && xs[k] != 0 ==> Pending(built, done, xs[k])
  }

  ghost predicate Distinct(xs: seq<nat>) {
    forall k, m :: 0 <= k < m < |xs| && xs[k] != 0 ==> xs[k] != xs[m]
  }

  ghost function Targets(n: Node): set<nat> {
    set f | f in n.children :: n.children[f]
  }

  /** The literal children of node `i` are pending and pairwise different. */
  ghost predicate Frontier(built: seq<Node>, nodes: seq<Node>, done: set<nat>, i: nat)
    requires i < |nodes|
  {
    && i in done
    && (forall f :: f in nodes[i].children ==> Pending(built, done, nodes[i].children[f]))
    && (forall f, g :: f in nodes[i].children && g in nodes[i].children && f != g ==>
          nodes[i].children[f] != nodes[i].children[g])
  }

  ghost predicate ParamsNormal(nodes: seq<Node>, i: nat)
    requires Wf(nodes) && i < |nodes|
  {
    assert WfNode(nodes, i);
    forall k :: 0 <= k < 5 && nodes[i].paramChildren[k] != 0 ==> Normal(nodes, nodes[i].paramChildren[k])
  }

  /** What `optimizeNode` meets at a node that is not in normal form: either the node has not been touched, or some
      layers have been merged into it and its parameter children are done. */
  ghost predicate Task(built: seq<Node>, nodes: seq<Node>, done: set<nat>, i: nat) {
    && Clean(built, nodes, done) && i < |nodes|
    && (Pending(built, done, i) || (Frontier(built, nodes, done, i) && ParamsNormal(nodes, i)))
  }

  /** What was pending stays pending, except for `gone`. */
  ghost predicate PendingStays(built: seq<Node>, done: set<nat>, done': set<nat>, gone: set<nat>) {
    forall c :: Pending(built, done, c) && c !in gone ==> Pending(built, done', c)
  }

  /** Starting on an untouched node makes its children pending. */
  lemma StartNode(built: seq<Node>, nodes: seq<Node>, done: set<nat>, i: nat)
    requires Clean(built, nodes, done) && i < |nodes| && Pending(built, done, i)
    ensures Clean(built, nodes, done + {i}) && nodes[i] == built[i]
    ensures forall t {:trigger Edge(built, i, t)} :: Edge(built, i, t) != 0 ==>
              Pending(built, done + {i}, Edge(built, i, t))
    ensures PendingStays(built, done, done + {i}, {i})
  {
    forall t | Edge(built, i, t) != 0
      ensures Pending(built, done + {i}, Edge(built, i, t))
    {
      EdgeUp(built, i, t);
    }
  }

  /** ... its parameter children first, ... */
  lemma StartParams(built: seq<Node>, nodes: seq<Node>, done: set<nat>, i: nat)
    requires Clean(built, nodes, done) && i < |nodes| && Pending(built, done, i)
    ensures AllPending(built, done + {i}, nodes[i].paramChildren) && Distinct(nodes[i].paramChildren)
  {
    StartNode(built, nodes, done, i);
    forall k | 0 <= k < 5
      ensures nodes[i].paramChildren[k] == Edge(built, i, Param(KindOfSlot(k)))
    {
    }
    forall k, m | 0 <= k < m < 5 && nodes[i].paramChildren[k] != 0
      ensures nodes[i].paramChildren[k] != nodes[i].paramChildren[m]
    {
      assert Edge(built, i, Param(KindOfSlot(k))) == nodes[i].paramChildren[k];
      assert Edge(built, i, Param(KindOfSlot(m))) == nodes[i].paramChildren[m];
      assert KindOfSlot(k).Slot() != KindOfSlot(m).Slot();
    }
  }

  /** ... and then its literal children. */
  lemma StartFrontier(built: seq<Node>, nodes: seq<Node>, done: set<nat>, i: nat, nodes': seq<Node>, done': set<nat>,
                      gone: set<nat>)
    requires Clean(built, nodes, done) && i < |nodes| && Pending(built, done, i)
    requires |nodes'| == |nodes| && nodes'[i] == nodes[i] && done + {i} <= done'
    requires PendingStays(built, done + {i}, done', gone)
    requires forall x :: x in gone ==> x == 0 || x in nodes[i].paramChildren
    ensures Frontier(built, nodes', done', i)
  {
    StartNode(built, nodes, done, i);
    assert WfNode(nodes, i);
    forall f | f in nodes'[i].children
      ensures Pending(built, done', nodes'[i].children[f])
      ensures Edge(built, i, Lit(f[0])) == nodes'[i].children[f] && f == [f[0]]
    {
      assert |f| == 1 && f == [f[0]];
      var x := nodes[i].children[f];
      assert Edge(built, i, Lit(f[0])) == x;
      assert forall k :: 0 <= k < 5 ==> nodes[i].paramChildren[k] == Edge(built, i, Param(KindOfSlot(k)));
    }
  }

  /** A merged fragment is an old fragment and one more character, the label of a built edge. */
  lemma MergedFrom(built: seq<Node>, nodes: seq<Node>, done: set<nat>, i: nat, merged: map<string, nat>, h: string)
    returns (f: string, ch: char)
    requires Clean(built, nodes, done) && i < |nodes| && Frontier(built, nodes, done, i) && IsMerge(nodes, i, merged)
    requires h in merged
    ensures f in nodes[i].children && h == f + [ch] && 0 < nodes[i].children[f] < |built|
    ensures Pending(built, done, nodes[i].children[f])
    ensures merged[h] == Edge(built, nodes[i].children[f], Lit(ch)) != 0
  {
    hide Pending, Uniform, PrefixFree;
    var g: string;
    f, g :| TwoStep(nodes, i, f, g) && h == f + g;
    assert WfNode(nodes, i);
    var c := nodes[i].children[f];
    PendingUntouched(built, nodes, done, c);
    assert WfNode(nodes, c) && |g| == 1;
    ch := g[0];
    assert g == [ch];
    assert merged[h] == TwoStepTarget(nodes, i, f, g);
  }

  lemma PendingUntouched(built: seq<Node>, nodes: seq<Node>, done: set<nat>, c: nat)
    requires Clean(built, nodes, done) && Pending(built, done, c)
    ensures c < |nodes| && nodes[c] == built[c]
  {
  }

  /** The child of a pending node, by one edge: not reached yet, and pending once its parent is done. */
  lemma NextLayer(built: seq<Node>, nodes: seq<Node>, done: set<nat>, layer: set<nat>, c: nat, t: Token)
    requires Clean(built, nodes, done) && Pending(built, done, c) && c in layer && Edge(built, c, t) != 0
    requires forall x :: x in layer ==> x != 0 && Pending(built, done, x)
    ensures Pending(built, done + layer, Edge(built, c, t))
    ensures !Pending(built, done, Edge(built, c, t))
  {
    EdgeUp(built, c, t);
  }

  /** Merging a layer of untouched nodes keeps the fragments uniform and leaves a new layer pending. */
  lemma MergeClean(built: seq<Node>, nodes: seq<Node>, done: set<nat>, i: nat, merged: map<string, nat>)
    requires Clean(built, nodes, done) && i < |nodes| && Frontier(built, nodes, done, i) && IsMerge(nodes, i, merged)
    requires Wf(WithChildren(nodes, i, merged))
    ensures Clean(built, WithChildren(nodes, i, merged), done + Targets(nodes[i]))
    ensures Frontier(built, WithChildren(nodes, i, merged), done + Targets(nodes[i]), i)
    ensures PendingStays(built, done, done + Targets(nodes[i]), Targets(nodes[i]))
    ensures forall c :: c in Targets(WithChildren(nodes, i, merged)[i]) ==> !Pending(built, done, c)
  {
    hide Wf, IsMerge, Uniform, Built;
    var nodes' := WithChildren(nodes, i, merged);
    var layer := Targets(nodes[i]);
    LayerPending(built, nodes, done, i);
    forall h | h in merged
      ensures Pending(built, done + layer, merged[h]) && !Pending(built, done, merged[h])
    {
      var f, ch := MergedFrom(built, nodes, done, i, merged, h);
      NextLayer(built, nodes, done, layer, nodes[i].children[f], Lit(ch));
    }
    MergeInjective(built, nodes, done, i, merged);
    MergeUniform(built, nodes, done, i, merged);
  }

  lemma LayerPending(built: seq<Node>, nodes: seq<Node>, done: set<nat>, i: nat)
    requires Clean(built, nodes, done) && i < |nodes| && Frontier(built, nodes, done, i)
    ensures forall x :: x in Targets(nodes[i]) ==> x != 0 && Pending(built, done, x)
  {
    assert WfNode(nodes, i);
  }

  lemma MergeInjective(built: seq<Node>, nodes: seq<Node>, done: set<nat>, i: nat, merged: map<string, nat>)
    requires Clean(built, nodes, done) && i < |nodes| && Frontier(built, nodes, done, i) && IsMerge(nodes, i, merged)
    ensures forall h, k :: h in merged && k in merged && h != k ==> merged[h] != merged[k]
  {
    hide Pending, Wf, IsMerge, Uniform, Edge;
    forall h, k | h in merged && k in merged && merged[h] == merged[k]
      ensures h == k
    {
      var f, ch := MergedFrom(built, nodes, done, i, merged, h);
      var g, dh := MergedFrom(built, nodes, done, i, merged, k);
    }
  }

  lemma MergeUniform(built: seq<Node>, nodes: seq<Node>, done: set<nat>, i: nat, merged: map<string, nat>)
    requires Clean(built, nodes, done) && i < |nodes| && Frontier(built, nodes, done, i) && IsMerge(nodes, i, merged)
    ensures Uniform(WithChildren(nodes, i, merged))
  {
    hide Pending, Wf, IsMerge, Frontier, Edge, Built;
    forall h, k | h in merged && k in merged
      ensures |h| == |k|
    {
      var f, ch := MergedFrom(built, nodes, done, i, merged, h);
      var g, dh := MergedFrom(built, nodes, done, i, merged, k);
    }
  }
}
