/** The normal form that `Trie::optimize` reaches, and what every optimisation step keeps (http/routing.h). */
module TrieNormal {
  import opened Captures
  import opened TrieModel
  import opened TrieOptimize

  /** Nothing left to merge at node `j`. */
  ghost predicate LocalNormal(nodes: seq<Node>, j: nat)
    requires Wf(nodes) && j < |nodes|
  {
    nodes[j].children == map[] || !ChildrenSimple(nodes, j)
  }

  /** Nothing left to merge at any node that `j` reaches. */
  ghost predicate Normal(nodes: seq<Node>, j: nat)
    requires Wf(nodes) && j < |nodes|
    decreases |nodes| - j
  {
    assert WfNode(nodes, j);
    && LocalNormal(nodes, j)
    && (forall k :: 0 <= k < 5 && nodes[j].paramChildren[k] != 0 ==> Normal(nodes, nodes[j].paramChildren[k]))
    && (forall f :: f in nodes[j].children ==> Normal(nodes, nodes[j].children[f]))
  }

  /** Every search and every lookup, from every node, gives the same. */
  ghost predicate SameMeaning(a: seq<Node>, b: seq<Node>)
    requires Wf(a) && Wf(b) && |a| == |b|
  {
    && (forall cap: Capturer, url: string, j: nat, pos: nat, params: Params ::
          j < |a| && pos <= |url| ==> Search(cap, a, url, j, pos, params) == Search(cap, b, url, j, pos, params))
    && (forall j: nat, toks :: j < |a| ==> Lookup(a, j, toks) == Lookup(b, j, toks))
  }

  /** What merging may do to the vector: rules and parameter slots stay, nodes in normal form stay as they are, and the
      meaning stays. */
  ghost predicate Evolved(a: seq<Node>, b: seq<Node>) {
    && Wf(a) && Wf(b) && |a| == |b|
    && (forall j :: 0 <= j < |a| ==> b[j].ruleIndex == a[j].ruleIndex && b[j].paramChildren == a[j].paramChildren)
    && (forall j :: 0 <= j < |a| && LocalNormal(a, j) ==> b[j] == a[j])
    && SameMeaning(a, b)
  }

  lemma EvolvedRefl(a: seq<Node>)
    requires Wf(a)
    ensures Evolved(a, a)
  {
  }

  lemma EvolvedLocal(a: seq<Node>, b: seq<Node>, j: nat)
    requires Evolved(a, b) && j < |a| && LocalNormal(a, j)
    ensures LocalNormal(b, j) && b[j] == a[j]
  {
    assert WfNode(a, j);
    if !ChildrenSimple(a, j) {
      var f :| f in a[j].children && !a[a[j].children[f]].IsSimple();
      assert !b[b[j].children[f]].IsSimple();
    }
  }

  lemma EvolvedTrans(a: seq<Node>, b: seq<Node>, c: seq<Node>)
    requires Evolved(a, b) && Evolved(b, c)
    ensures Evolved(a, c)
  {
    forall j | 0 <= j < |a| && LocalNormal(a, j)
      ensures c[j] == a[j]
    {
      EvolvedLocal(a, b, j);
    }
  }

  /** One merge at a node that is not in normal form. */
  lemma EvolvedMerge(nodes: seq<Node>, i: nat, merged: map<string, nat>)
    requires Wf(nodes) && i < |nodes| && !LocalNormal(nodes, i) && IsMerge(nodes, i, merged)
    ensures Evolved(nodes, WithChildren(nodes, i, merged))
  {
    var nodes' := WithChildren(nodes, i, merged);
    MergeWf(nodes, i, merged);
    forall cap: Capturer, url: string, j: nat, pos: nat, params: Params | j < |nodes| && pos <= |url|
      ensures Search(cap, nodes, url, j, pos, params) == Search(cap, nodes', url, j, pos, params)
    {
      MergeFind(cap, nodes, i, merged, url, j, pos, params);
    }
    forall j: nat, toks | j < |nodes|
      ensures Lookup(nodes, j, toks) == Lookup(nodes', j, toks)
    {
      MergeLookup(nodes, i, merged, j, toks);
    }
  }

  /** Normal form, once reached below a node, survives whatever is merged elsewhere. */
  lemma {:induction false} NormalStays(a: seq<Node>, b: seq<Node>, j: nat)
    requires Evolved(a, b) && j < |a| && Normal(a, j)
    ensures Normal(b, j)
    decreases |a| - j
  {
    assert WfNode(a, j);
    EvolvedLocal(a, b, j);
    forall k | 0 <= k < 5 && b[j].paramChildren[k] != 0
      ensures Normal(b, b[j].paramChildren[k])
    {
      NormalStays(a, b, a[j].paramChildren[k]);
    }
    forall f | f in b[j].children
      ensures Normal(b, b[j].children[f])
    {
      NormalStays(a, b, a[j].children[f]);
    }
  }
}
