/** What each loop of the compression leaves behind, node by node (http/routing.h `Trie::optimizeNode`). */
module TrieLoops {
  import opened Patterns
  import opened TrieModel
  import opened TrieBuild
  import opened TrieOptimize
  import opened TrieNormal
  import opened TrieLayers

  ghost predicate AllNormal(nodes: seq<Node>, xs: seq<nat>)
    requires Wf(nodes)
  {
    forall k :: 0 <= k < |xs| && xs[k] != 0 ==> xs[k] < |nodes| && Normal(nodes, xs[k])
  }

  ghost function Elems(xs: seq<nat>): set<nat> {
    set x | x in xs && x != 0
  }

  ghost predicate SameUpTo(a: seq<Node>, b: seq<Node>, i: nat) {
    |a| == |b| && forall j :: 0 <= j < i && j < |a| ==> b[j] == a[j]
  }

  /** What one call of `optimizeNode` does: `a` and `b` are the vectors before and after. */
  ghost predicate Optimized(a: seq<Node>, b: seq<Node>, i: nat, built: seq<Node>, done: set<nat>, done': set<nat>) {
    && Evolved(a, b) && i < |a| && Normal(b, i) && SameUpTo(a, b, i)
    && (Normal(a, i) ==> b == a && done' == done)
    && (!Normal(a, i) ==>
          Clean(built, b, done') && done <= done' && PendingStays(built, done, done', {i} + Targets(a[i])))
  }

  /** The nodes in `xs` can be compressed one after the other. */
  ghost predicate EachReady(nodes: seq<Node>, xs: seq<nat>, built: seq<Node>, done: set<nat>) {
    && Wf(nodes)
    && (AllNormal(nodes, xs) || (Clean(built, nodes, done) && AllPending(built, done, xs) && Distinct(xs)))
  }

  /** What compressing the first `k` of them does. */
  ghost predicate EachOptimized(a: seq<Node>, b: seq<Node>, i: nat, xs: seq<nat>, k: nat, built: seq<Node>,
                                done: set<nat>, done': set<nat>)
  {
    && Evolved(a, b) && SameUpTo(a, b, i + 1) && k <= |xs| && AllNormal(b, xs[..k])
    && (AllNormal(a, xs) ==> b == a && done' == done)
    && (!AllNormal(a, xs) ==>
          && Clean(built, b, done') && done <= done' && AllPending(built, done', xs[k..]) && Distinct(xs)
          && PendingStays(built, done, done', Elems(xs[..k])))
  }

  lemma EachStart(a: seq<Node>, i: nat, xs: seq<nat>, built: seq<Node>, done: set<nat>)
    requires EachReady(a, xs, built, done)
    ensures EachOptimized(a, a, i, xs, 0, built, done, done)
  {
    EvolvedRefl(a);
  }

  /** The next node of the list can be compressed. */
  lemma EachNext(a: seq<Node>, b: seq<Node>, i: nat, xs: seq<nat>, k: nat, built: seq<Node>, done: set<nat>, d: set<nat>)
    requires EachOptimized(a, b, i, xs, k, built, done, d) && k < |xs| && xs[k] != 0
    ensures Wf(b) && |a| == |b| && xs[k] < |b| && (Normal(b, xs[k]) || Task(built, b, d, xs[k]))
  {
    hide Normal, SameMeaning, Edge, PendingStays;
    if AllNormal(a, xs) {
    } else {
      assert xs[k..][0] == xs[k];
    }
  }

  /** Children of a pending node are not pending themselves. */
  lemma NotBoth(built: seq<Node>, nodes: seq<Node>, done: set<nat>, x: nat, c: nat)
    requires Clean(built, nodes, done) && Pending(built, done, x) && Pending(built, done, c)
    ensures x < |nodes| && c !in Targets(nodes[x])
  {
    assert WfNode(nodes, x) && nodes[x] == built[x];
    forall f | f in nodes[x].children
      ensures nodes[x].children[f] != c
    {
      assert f == [f[0]];
      assert Edge(built, x, Lit(f[0])) == nodes[x].children[f];
    }
  }

  lemma EachStep(a: seq<Node>, mid: seq<Node>, b: seq<Node>, i: nat, xs: seq<nat>, k: nat, built: seq<Node>,
                 done: set<nat>, d: set<nat>, d': set<nat>)
    requires EachOptimized(a, mid, i, xs, k, built, done, d) && k < |xs| && xs[k] > i
    requires Optimized(mid, b, xs[k], built, d, d')
    ensures EachOptimized(a, b, i, xs, k + 1, built, done, d')
  {
    hide Clean, Pending, Normal;
    EvolvedTrans(a, mid, b);
    StepNormal(mid, b, xs, k);
    if AllNormal(a, xs) {
    } else if Normal(mid, xs[k]) {
      StepPending(built, mid, done, d, d', xs, k);
    } else {
      StepPending(built, mid, done, d, d', xs, k);
    }
  }

  lemma EachSkip(a: seq<Node>, b: seq<Node>, i: nat, xs: seq<nat>, k: nat, built: seq<Node>, done: set<nat>, d: set<nat>)
    requires EachOptimized(a, b, i, xs, k, built, done, d) && k < |xs| && xs[k] == 0
    ensures EachOptimized(a, b, i, xs, k + 1, built, done, d)
  {
    hide Clean, Pending, Normal;
    assert xs[..k + 1] == xs[..k] + [0];
    assert Elems(xs[..k + 1]) == Elems(xs[..k]);
    var rest, whole := xs[k + 1..], xs[k..];
    assert forall m {:trigger rest[m]} :: 0 <= m < |rest| ==> rest[m] == whole[m + 1];
  }

  lemma StepNormal(mid: seq<Node>, b: seq<Node>, xs: seq<nat>, k: nat)
    requires Evolved(mid, b) && k < |xs| && AllNormal(mid, xs[..k]) && xs[k] < |b| && Normal(b, xs[k])
    ensures AllNormal(b, xs[..k + 1])
  {
    forall m | 0 <= m < |xs[..k + 1]| && xs[..k + 1][m] != 0
      ensures xs[m] < |b| && Normal(b, xs[m])
    {
      if m < k {
        assert xs[..k][m] == xs[m];
        NormalStays(mid, b, xs[m]);
      }
    }
  }

  lemma StepPending(built: seq<Node>, mid: seq<Node>, done: set<nat>, d: set<nat>, d': set<nat>, xs: seq<nat>, k: nat)
    requires k < |xs| && xs[k] != 0 && xs[k] < |mid| && Clean(built, mid, d) && Distinct(xs)
    requires AllPending(built, d, xs[k..]) && PendingStays(built, done, d, Elems(xs[..k]))
    requires d' == d || PendingStays(built, d, d', {xs[k]} + Targets(mid[xs[k]]))
    ensures AllPending(built, d', xs[k + 1..]) && PendingStays(built, done, d', Elems(xs[..k + 1]))
  {
    hide Clean, Pending, Targets;
    var x := xs[k];
    assert xs[k..][0] == x;
    forall c | Pending(built, d, c) && c != x
      ensures Pending(built, d', c)
    {
      NotBoth(built, mid, d, x, c);
    }
    var rest := xs[k + 1..];
    forall m | 0 <= m < |rest| && rest[m] != 0
      ensures Pending(built, d', rest[m])
    {
      assert xs[k..][m + 1] == rest[m] == xs[k + 1 + m];
    }
    assert xs[..k + 1] == xs[..k] + [x];
  }

  /** A call has dealt with the parameter children of node `i`; its literal children are next. */
  ghost predicate Opened(a: seq<Node>, b: seq<Node>, i: nat, built: seq<Node>, done: set<nat>, done': set<nat>) {
    && Evolved(a, b) && i < |a| && SameUpTo(a, b, i + 1) && ParamsNormal(b, i)
    && (Normal(a, i) ==> b == a && done' == done)
    && (!Normal(a, i) ==>
          && Clean(built, b, done') && Frontier(built, b, done', i) && done <= done'
          && PendingStays(built, done, done', {i} + Targets(a[i])))
  }

  ghost function Started(nodes: seq<Node>, done: set<nat>, i: nat): set<nat>
    requires Wf(nodes) && i < |nodes|
  {
    if Normal(nodes, i) then done else done + {i}
  }

  lemma ParamsReady(a: seq<Node>, i: nat, built: seq<Node>, done: set<nat>)
    requires Wf(a) && i < |a| && (Normal(a, i) || Task(built, a, done, i))
    ensures EachReady(a, a[i].paramChildren, built, Started(a, done, i))
  {
    hide Clean, AllPending, Distinct, LocalNormal, Pending, Frontier;
    assert WfNode(a, i);
    if !Normal(a, i) && Pending(built, done, i) {
      StartNode(built, a, done, i);
      StartParams(built, a, done, i);
    }
  }

  lemma ParamsDone(a: seq<Node>, b: seq<Node>, i: nat, built: seq<Node>, done: set<nat>, done': set<nat>)
    requires Wf(a) && i < |a| && (Normal(a, i) || Task(built, a, done, i))
    requires EachOptimized(a, b, i, a[i].paramChildren, 5, built, Started(a, done, i), done')
    ensures Opened(a, b, i, built, done, done')
  {
    hide Clean, Pending, Normal, LocalNormal, SameMeaning, PrefixFree, WfNode;
    var xs := a[i].paramChildren;
    assert xs[..5] == xs && b[i] == a[i];
    assert ParamsNormal(b, i);
    if Normal(a, i) {
      NormalParams(a, i);
    } else if Pending(built, done, i) {
      StartNode(built, a, done, i);
      if AllNormal(a, xs) { assert PendingStays(built, done + {i}, done', Elems(xs)); }
      StartFrontier(built, a, done, i, b, done', Elems(xs));
      ParamsNotPending(built, a, done, i);
    } else {
      assert AllNormal(a, xs);
      FrontierDone(built, a, done, i);
    }
  }

  lemma NormalParams(a: seq<Node>, i: nat)
    requires Wf(a) && i < |a| && Normal(a, i)
    ensures AllNormal(a, a[i].paramChildren)
  {
    assert WfNode(a, i);
  }

  lemma FrontierDone(built: seq<Node>, a: seq<Node>, done: set<nat>, i: nat)
    requires i < |a| && Frontier(built, a, done, i)
    ensures done + {i} == done
  {
  }

  lemma ParamsNotPending(built: seq<Node>, a: seq<Node>, done: set<nat>, i: nat)
    requires Clean(built, a, done) && i < |a| && Pending(built, done, i)
    ensures forall c :: c in a[i].paramChildren && c != 0 ==> !Pending(built, done, c)
  {
    forall k | 0 <= k < 5 && a[i].paramChildren[k] != 0
      ensures !Pending(built, done, a[i].paramChildren[k])
    {
      assert Edge(built, i, Param(KindOfSlot(k))) == a[i].paramChildren[k];
    }
  }

  lemma NoChildren(a: seq<Node>, b: seq<Node>, i: nat, built: seq<Node>, done: set<nat>, done': set<nat>)
    requires Opened(a, b, i, built, done, done') && b[i].children == map[]
    ensures Optimized(a, b, i, built, done, done')
  {
    hide Clean, Pending, SameMeaning, PrefixFree, Frontier, PendingStays;
    assert WfNode(b, i);
  }

  /** After a merge the call starts over on the same node. */
  lemma MergeAgain(a: seq<Node>, mid: seq<Node>, i: nat, merged: map<string, nat>, built: seq<Node>, done: set<nat>,
                   d: set<nat>)
    requires Opened(a, mid, i, built, done, d) && mid[i].children != map[] && ChildrenSimple(mid, i)
    requires IsMerge(mid, i, merged)
    ensures Evolved(mid, WithChildren(mid, i, merged)) && Wf(WithChildren(mid, i, merged))
    ensures Task(built, WithChildren(mid, i, merged), d + Targets(mid[i]), i)
  {
    hide Clean, Pending, SameMeaning, PrefixFree, Frontier, PendingStays, IsMerge, WfNode, ChildrenSimple;
    NotNormal(mid, i);
    EvolvedMerge(mid, i, merged);
    MergeClean(built, mid, d, i, merged);
    MergeParams(mid, WithChildren(mid, i, merged), i);
  }

  lemma NotNormal(nodes: seq<Node>, i: nat)
    requires Wf(nodes) && i < |nodes| && nodes[i].children != map[] && ChildrenSimple(nodes, i)
    ensures !LocalNormal(nodes, i) && !Normal(nodes, i)
  {
  }

  lemma MergeParams(a: seq<Node>, b: seq<Node>, i: nat)
    requires Evolved(a, b) && i < |a| && ParamsNormal(a, i)
    ensures ParamsNormal(b, i)
  {
    assert WfNode(a, i) && WfNode(b, i);
    forall k | 0 <= k < 5 && b[i].paramChildren[k] != 0
      ensures Normal(b, b[i].paramChildren[k])
    {
      NormalStays(a, b, a[i].paramChildren[k]);
    }
  }

  lemma MergeDone(a: seq<Node>, mid: seq<Node>, b: seq<Node>, i: nat, merged: map<string, nat>, built: seq<Node>,
                  done: set<nat>, d: set<nat>, done': set<nat>)
    requires Opened(a, mid, i, built, done, d) && mid[i].children != map[] && ChildrenSimple(mid, i)
    requires IsMerge(mid, i, merged) && Wf(WithChildren(mid, i, merged))
    requires Evolved(mid, WithChildren(mid, i, merged))
    requires Optimized(WithChildren(mid, i, merged), b, i, built, d + Targets(mid[i]), done')
    ensures Optimized(a, b, i, built, done, done')
  {
    hide Clean, Pending, SameMeaning, PrefixFree, Frontier, IsMerge, WfNode, ChildrenSimple, LocalNormal, Targets;
    var once := WithChildren(mid, i, merged);
    NotNormal(mid, i);
    EvolvedTrans(a, mid, once);
    EvolvedTrans(a, once, b);
    MergeClean(built, mid, d, i, merged);
  }

  lemma ChildrenReady(a: seq<Node>, b: seq<Node>, i: nat, xs: seq<nat>, built: seq<Node>, done: set<nat>, d: set<nat>)
    requires Opened(a, b, i, built, done, d) && Lists(xs, b[i])
    ensures EachReady(b, xs, built, d)
  {
    hide Clean, Pending, SameMeaning, PrefixFree, PendingStays, LocalNormal;
    assert WfNode(b, i);
    if Normal(a, i) {
      forall k | 0 <= k < |xs|
        ensures xs[k] < |b| && Normal(b, xs[k])
      {
        assert xs[k] in Elems(xs);
        var f :| f in b[i].children && b[i].children[f] == xs[k];
      }
    } else {
      forall k | 0 <= k < |xs|
        ensures Pending(built, d, xs[k])
      {
        assert xs[k] in Elems(xs);
        var f :| f in b[i].children && b[i].children[f] == xs[k];
      }
    }
  }

  /** `xs` lists the literal children of a node, each as often as it occurs. */
  ghost predicate Lists(xs: seq<nat>, n: Node) {
    && Elems(xs) == Targets(n) && 0 !in xs
    && ((forall f, g :: f in n.children && g in n.children && f != g ==> n.children[f] != n.children[g]) ==>
          Distinct(xs))
  }

  lemma ChildrenDone(a: seq<Node>, mid: seq<Node>, b: seq<Node>, i: nat, xs: seq<nat>, built: seq<Node>,
                     done: set<nat>, d: set<nat>, done': set<nat>)
    requires Opened(a, mid, i, built, done, d) && mid[i].children != map[] && !ChildrenSimple(mid, i)
    requires Lists(xs, mid[i]) && EachOptimized(mid, b, i, xs, |xs|, built, d, done')
    ensures Optimized(a, b, i, built, done, done')
  {
    hide Clean, Pending, SameMeaning, PrefixFree, Frontier;
    EvolvedTrans(a, mid, b);
    assert xs[..|xs|] == xs && b[i] == mid[i];
    MergeParams(mid, b, i);
    ChildrenNormal(mid, b, i, xs);
    if Normal(a, i) {
      ChildrenReadyNormal(a, i, xs);
    } else if AllNormal(mid, xs) {
    } else {
    }
  }

  lemma ChildrenReadyNormal(a: seq<Node>, i: nat, xs: seq<nat>)
    requires Wf(a) && i < |a| && Normal(a, i) && Lists(xs, a[i])
    ensures AllNormal(a, xs)
  {
    assert WfNode(a, i);
    forall k | 0 <= k < |xs|
      ensures xs[k] < |a| && Normal(a, xs[k])
    {
      assert xs[k] in Elems(xs);
      var f :| f in a[i].children && a[i].children[f] == xs[k];
    }
  }

  lemma ChildrenNormal(mid: seq<Node>, b: seq<Node>, i: nat, xs: seq<nat>)
    requires Evolved(mid, b) && i < |mid| && b[i] == mid[i] && mid[i].children != map[] && !ChildrenSimple(mid, i)
    requires Lists(xs, mid[i]) && AllNormal(b, xs) && ParamsNormal(b, i)
    ensures Normal(b, i)
  {
    assert WfNode(b, i);
    EvolvedLocal(mid, b, i);
    forall f | f in b[i].children
      ensures Normal(b, b[i].children[f])
    {
      assert b[i].children[f] in Elems(xs);
    }
  }

  /** All literal children of a node have an index of at least `lo`, in a vector of the given size. */
  ghost predicate AboveLo(n: Node, size: nat, lo: nat) {
    lo <= size && forall f :: f in n.children ==> lo <= n.children[f]
  }

  lemma AboveZero(n: Node, size: nat)
    ensures AboveLo(n, size, 0)
  {
  }

  /** Every merge raises the bound. */
  lemma AboveMerge(nodes: seq<Node>, i: nat, merged: map<string, nat>, lo: nat)
    requires Wf(nodes) && i < |nodes| && AboveLo(nodes[i], |nodes|, lo) && IsMerge(nodes, i, merged)
    requires nodes[i].children != map[]
    ensures lo < |nodes| && AboveLo(WithChildren(nodes, i, merged)[i], |nodes|, lo + 1)
    ensures WithChildren(nodes, i, merged) == nodes[i := nodes[i].(children := merged)]
  {
    assert WfNode(nodes, i);
    var f0 :| f0 in nodes[i].children;
    forall h | h in merged
      ensures lo + 1 <= merged[h]
    {
      var f, g :| TwoStep(nodes, i, f, g) && h == f + g;
      assert merged[f + g] == TwoStepTarget(nodes, i, f, g);
      assert WfNode(nodes, nodes[i].children[f]);
    }
  }

  lemma ParamsAbove(nodes: seq<Node>, i: nat)
    requires Wf(nodes) && i < |nodes|
    ensures forall x :: x in nodes[i].paramChildren && x != 0 ==> i < x < |nodes|
  {
    assert WfNode(nodes, i);
  }

  lemma OpenedFacts(a: seq<Node>, b: seq<Node>, i: nat, built: seq<Node>, done: set<nat>, done': set<nat>)
    requires Opened(a, b, i, built, done, done')
    ensures Wf(b) && |a| == |b| && i < |b| && b[i] == a[i]
  {
  }

  lemma EachFacts(a: seq<Node>, b: seq<Node>, i: nat, xs: seq<nat>, k: nat, built: seq<Node>, done: set<nat>, d: set<nat>)
    requires EachOptimized(a, b, i, xs, k, built, done, d) && i < |a|
    ensures Wf(b) && |a| == |b| && b[i] == a[i]
  {
  }

  /** A trie that has only been grown is untouched and uniform. */
  lemma BuiltClean(nodes: seq<Node>)
    ensures Built(nodes) ==> Task(nodes, nodes, {}, 0) && Uniform(nodes)
  {
  }
}
