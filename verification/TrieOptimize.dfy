/** One merge of `Trie::optimizeNode` and why it changes nothing a search can see (http/routing.h). */
module TrieOptimize {
  import opened Options
  import opened Patterns
  import opened Captures
  import opened TrieModel

  ghost predicate ChildrenSimple(nodes: seq<Node>, i: nat)
    requires Wf(nodes) && i < |nodes|
  {
    forall f :: f in nodes[i].children ==> (assert WfNode(nodes, i); nodes[nodes[i].children[f]].IsSimple())
  }

  /** `merged` holds the two-step fragments of node `i`: every child fragment followed by a grandchild fragment. */
  ghost predicate IsMerge(nodes: seq<Node>, i: nat, merged: map<string, nat>)
    requires Wf(nodes) && i < |nodes|
  {
    && (forall f, g :: TwoStep(nodes, i, f, g) ==> f + g in merged && merged[f + g] == TwoStepTarget(nodes, i, f, g))
    && (forall h :: h in merged ==> exists f, g :: TwoStep(nodes, i, f, g) && h == f + g)
  }

  ghost predicate TwoStep(nodes: seq<Node>, i: nat, f: string, g: string)
    requires Wf(nodes) && i < |nodes|
  {
    assert WfNode(nodes, i);
    f in nodes[i].children && g in nodes[nodes[i].children[f]].children
  }

  ghost function TwoStepTarget(nodes: seq<Node>, i: nat, f: string, g: string): nat
    requires Wf(nodes) && i < |nodes| && TwoStep(nodes, i, f, g)
  {
    assert WfNode(nodes, i);
    nodes[nodes[i].children[f]].children[g]
  }

  ghost function WithChildren(nodes: seq<Node>, i: nat, merged: map<string, nat>): seq<Node>
    requires i < |nodes|
  {
    nodes[i := nodes[i].(children := merged)]
  }

  /** The fragments made by a merge are again non-empty and prefix-free, and their targets again lie above. */
  lemma MergeWf(nodes: seq<Node>, i: nat, merged: map<string, nat>)
    requires Wf(nodes) && i < |nodes| && IsMerge(nodes, i, merged)
    ensures Wf(WithChildren(nodes, i, merged))
  {
    var nodes' := WithChildren(nodes, i, merged);
    assert WfNode(nodes, i);
    forall h | h in merged
      ensures h != "" && i < merged[h] < |nodes|
    {
      var f, g :| TwoStep(nodes, i, f, g) && h == f + g;
      assert WfNode(nodes, nodes[i].children[f]);
    }
    forall h, h' | h in merged && h' in merged && IsPrefix(h, h')
      ensures h == h'
    {
      var f, g :| TwoStep(nodes, i, f, g) && h == f + g;
      var f', g' :| TwoStep(nodes, i, f', g') && h' == f' + g';
      ConcatPrefix(f, g, f', g');
      assert WfNode(nodes, nodes[i].children[f]);
    }
    forall j | 0 <= j < |nodes'|
      ensures WfNode(nodes', j)
    {
      assert WfNode(nodes, j);
    }
  }

  lemma ConcatPrefix(f: string, g: string, f': string, g': string)
    requires IsPrefix(f + g, f' + g')
    ensures IsPrefix(f, f') || IsPrefix(f', f)
    ensures f == f' ==> IsPrefix(g, g')
  {
    forall k | 0 <= k < |f| && k < |f'|
      ensures f[k] == f'[k]
    {
      assert (f + g)[k] == (f' + g')[k];
    }
    if f == f' {
      forall k | 0 <= k < |g|
        ensures g[k] == g'[k]
      {
        assert (f + g)[|f| + k] == (f' + g')[|f| + k];
      }
    }
  }

  /** Different pairs of fragments never make the same merged fragment. */
  lemma MergeKeyUnique(nodes: seq<Node>, i: nat, f: string, g: string)
    requires Wf(nodes) && i < |nodes| && TwoStep(nodes, i, f, g)
    ensures forall f', g' :: TwoStep(nodes, i, f', g') && f' + g' == f + g ==> f' == f && g' == g
  {
    assert WfNode(nodes, i);
    forall f', g' | TwoStep(nodes, i, f', g') && f' + g' == f + g
      ensures f' == f && g' == g
    {
      ConcatPrefix(f, g, f', g');
      assert |g'| == |g|;
    }
  }

  lemma HasAtConcat(url: string, pos: nat, f: string, g: string)
    ensures HasAt(url, pos, f + g) <==> HasAt(url, pos, f) && HasAt(url, pos + |f|, g)
  {
    if HasAt(url, pos, f + g) {
      assert forall k :: 0 <= k < |f| ==> f[k] == (f + g)[k];
      assert forall k :: 0 <= k < |g| ==> g[k] == (f + g)[|f| + k];
    }
    if HasAt(url, pos, f) && HasAt(url, pos + |f|, g) {
      forall k | 0 <= k < |f + g|
        ensures url[pos + k] == (f + g)[k]
      {
        if k >= |f| { assert url[pos + |f| + (k - |f|)] == g[k - |f|]; }
      }
    }
  }

  lemma SpellsConcat(f: string, g: string, toks: seq<Token>)
    ensures Spells(f + g, toks) <==> Spells(f, toks) && Spells(g, toks[|f|..])
  {
    assert Lits(f + g) == Lits(f) + Lits(g);
    if Spells(f, toks) && Spells(g, toks[|f|..]) {
      assert toks == Lits(f) + toks[|f|..];
    }
    if Spells(f + g, toks) {
      assert toks[..|f|] == Lits(f + g)[..|f|] == Lits(f);
      assert toks[|f|..|f| + |g|] == Lits(f + g)[|f|..] == Lits(g);
      assert toks[|f|..][..|g|] == toks[|f|..|f| + |g|];
    }
  }

  /** After the merge node `i` leaves by the pair of fragments that stood at `pos` before. */
  lemma MergeFragAt(nodes: seq<Node>, i: nat, merged: map<string, nat>, url: string, pos: nat)
    requires Wf(nodes) && i < |nodes| && IsMerge(nodes, i, merged) && PrefixFree(merged)
    ensures match FragAt(nodes[i].children, url, pos)
            case None => FragAt(merged, url, pos) == None
            case Some(f) =>
              assert WfNode(nodes, i);
              match FragAt(nodes[nodes[i].children[f]].children, url, pos + |f|)
              case None => FragAt(merged, url, pos) == None
              case Some(g) => FragAt(merged, url, pos) == Some(f + g) && TwoStep(nodes, i, f, g)
  {
    assert WfNode(nodes, i);
    if FragAt(merged, url, pos).Some? {
      var f, g :| TwoStep(nodes, i, f, g) && FragAt(merged, url, pos).value == f + g;
      HasAtConcat(url, pos, f, g);
      FragAtUnique(nodes[i].children, url, pos, f);
      assert WfNode(nodes, nodes[i].children[f]);
      FragAtUnique(nodes[nodes[i].children[f]].children, url, pos + |f|, g);
    } else if FragAt(nodes[i].children, url, pos).Some? {
      var f := FragAt(nodes[i].children, url, pos).value;
      var rest := FragAt(nodes[nodes[i].children[f]].children, url, pos + |f|);
      if rest.Some? {
        HasAtConcat(url, pos, f, rest.value);
        assert TwoStep(nodes, i, f, rest.value);
        assert false;
      }
    }
  }

  /** A simple node has no step but its literal one. */
  lemma SimpleSuccs(cap: Capturer, nodes: seq<Node>, url: string, c: nat, pos: nat, params: Params, k: nat)
    requires Wf(nodes) && c < |nodes| && nodes[c].IsSimple() && pos < |url| && k <= 5
    ensures ParamSuccs(cap, nodes, url, c, pos, params, k) == []
    ensures k == 5 ==> Succs(cap, nodes, url, c, pos, params) == LiteralSucc(nodes, url, c, pos, params)
  {
  }

  /** The merge leaves the parameter steps of every node alone. */
  lemma MergeParamSuccs(cap: Capturer, nodes: seq<Node>, i: nat, merged: map<string, nat>, url: string,
                        j: nat, pos: nat, params: Params, k: nat)
    requires Wf(nodes) && i < |nodes| && Wf(WithChildren(nodes, i, merged)) && j < |nodes| && pos < |url| && k <= 5
    ensures ParamSuccs(cap, nodes, url, j, pos, params, k) ==
            ParamSuccs(cap, WithChildren(nodes, i, merged), url, j, pos, params, k)
  {
  }

  /** The literal step of node `i` followed by the literal step of the child it leads to. */
  ghost function SkipSucc(nodes: seq<Node>, url: string, i: nat, pos: nat, params: Params): (r: seq<Succ>)
    requires Wf(nodes) && i < |nodes| && pos < |url|
    ensures Ahead(nodes, url, pos, r)
  {
    assert WfNode(nodes, i);
    match FragAt(nodes[i].children, url, pos)
    case None => []
    case Some(f) =>
      var c, e := nodes[i].children[f], pos + |f|;
      assert WfNode(nodes, c);
      if e == |url| then [] else LiteralSucc(nodes, url, c, e, params)
  }

  /** After the merge that is one literal step. */
  lemma MergeLiteralSucc(nodes: seq<Node>, i: nat, merged: map<string, nat>, url: string, pos: nat, params: Params)
    requires Wf(nodes) && i < |nodes| && IsMerge(nodes, i, merged)
    requires Wf(WithChildren(nodes, i, merged)) && pos < |url|
    ensures LiteralSucc(WithChildren(nodes, i, merged), url, i, pos, params) == SkipSucc(nodes, url, i, pos, params)
  {
    assert WfNode(nodes, i) && WfNode(WithChildren(nodes, i, merged), i);
    MergeFragAt(nodes, i, merged, url, pos);
    if FragAt(nodes[i].children, url, pos).Some? {
      var f := FragAt(nodes[i].children, url, pos).value;
      assert WfNode(nodes, nodes[i].children[f]);
    }
  }

  /** Before the merge it is two steps, through a simple child, with the same result. */
  lemma ThroughSimple(cap: Capturer, nodes: seq<Node>, url: string, i: nat, pos: nat, params: Params)
    requires Wf(nodes) && i < |nodes| && ChildrenSimple(nodes, i) && pos < |url|
    ensures Ahead(nodes, url, pos, LiteralSucc(nodes, url, i, pos, params))
    ensures Best(cap, nodes, url, pos, LiteralSucc(nodes, url, i, pos, params)) ==
            Best(cap, nodes, url, pos, SkipSucc(nodes, url, i, pos, params))
  {
    assert WfNode(nodes, i);
    if FragAt(nodes[i].children, url, pos).Some? {
      var f := FragAt(nodes[i].children, url, pos).value;
      var c, e := nodes[i].children[f], pos + |f|;
      assert LiteralSucc(nodes, url, i, pos, params) == [Succ(c, e, params)];
      SimpleBest(cap, nodes, url, pos, c, e, params);
    }
  }

  /** A step to a simple child is as good as the child's literal step. */
  lemma SimpleBest(cap: Capturer, nodes: seq<Node>, url: string, pos: nat, c: nat, e: nat, params: Params)
    requires Wf(nodes) && c < |nodes| && nodes[c].IsSimple() && pos < e <= |url|
    ensures e < |url| ==> Ahead(nodes, url, pos, LiteralSucc(nodes, url, c, e, params))
    ensures Best(cap, nodes, url, pos, [Succ(c, e, params)]) ==
            if e == |url| then Best(cap, nodes, url, pos, [])
            else Best(cap, nodes, url, pos, LiteralSucc(nodes, url, c, e, params))
  {
    SingleBest(cap, nodes, url, pos, Succ(c, e, params));
    if e < |url| {
      SimpleSuccs(cap, nodes, url, c, e, params, 5);
      var steps := Succs(cap, nodes, url, c, e, params);
      BestNormal(cap, nodes, url, e, steps);
      BestFrom(cap, nodes, url, pos, e, steps);
    }
  }

  lemma SingleBest(cap: Capturer, nodes: seq<Node>, url: string, pos: nat, s: Succ)
    requires Wf(nodes) && s.node < |nodes| && pos < s.pos <= |url|
    ensures Best(cap, nodes, url, pos, [s]) == Better(NOT_FOUND, Search(cap, nodes, url, s.node, s.pos, s.params))
  {
    assert [s][..|[s]| - 1] == [];
    assert Best(cap, nodes, url, pos, []) == NOT_FOUND;
  }

  lemma {:induction false} BestConcat(cap: Capturer, nodes: seq<Node>, url: string, pos: nat, a: seq<Succ>, b: seq<Succ>)
    requires Wf(nodes) && pos <= |url| && Ahead(nodes, url, pos, a) && Ahead(nodes, url, pos, b)
    ensures Ahead(nodes, url, pos, a + b)
    ensures Best(cap, nodes, url, pos, a + b) == Better(Best(cap, nodes, url, pos, a), Best(cap, nodes, url, pos, b))
    decreases |b|
  {
    if b == [] {
      assert a + b == a;
      BestNormal(cap, nodes, url, pos, a);
    } else {
      assert (a + b)[..|a + b| - 1] == a + b[..|b| - 1];
      BestConcat(cap, nodes, url, pos, a, b[..|b| - 1]);
    }
  }

  lemma BestNormal(cap: Capturer, nodes: seq<Node>, url: string, pos: nat, a: seq<Succ>)
    requires Wf(nodes) && pos <= |url| && Ahead(nodes, url, pos, a)
    ensures Best(cap, nodes, url, pos, a).index == 0 ==> Best(cap, nodes, url, pos, a) == NOT_FOUND
  {
  }

  /** A step to position `e` weighs the same when the steps tried before it start at another position. */
  lemma {:induction false} BestFrom(cap: Capturer, nodes: seq<Node>, url: string, pos: nat, e: nat, steps: seq<Succ>)
    requires Wf(nodes) && pos <= e <= |url| && Ahead(nodes, url, e, steps)
    ensures Ahead(nodes, url, pos, steps) && Best(cap, nodes, url, pos, steps) == Best(cap, nodes, url, e, steps)
    decreases |steps|
  {
    if steps != [] {
      BestFrom(cap, nodes, url, pos, e, steps[..|steps| - 1]);
    }
  }

  /** The steps of the other nodes stay as they are. */
  lemma MergeSuccs(cap: Capturer, nodes: seq<Node>, i: nat, merged: map<string, nat>, url: string,
                   j: nat, pos: nat, params: Params)
    requires Wf(nodes) && i < |nodes| && Wf(WithChildren(nodes, i, merged)) && j < |nodes| && j != i && pos < |url|
    ensures Succs(cap, WithChildren(nodes, i, merged), url, j, pos, params) == Succs(cap, nodes, url, j, pos, params)
  {
    MergeParamSuccs(cap, nodes, i, merged, url, j, pos, params, 5);
  }

  /** A search from a node is the better of its parameter steps and its literal step. */
  lemma FindSplit(cap: Capturer, nodes: seq<Node>, url: string, i: nat, pos: nat, params: Params)
    requires Wf(nodes) && i < |nodes| && pos < |url|
    ensures Ahead(nodes, url, pos, LiteralSucc(nodes, url, i, pos, params))
    ensures Search(cap, nodes, url, i, pos, params) ==
            Better(Best(cap, nodes, url, pos, ParamSuccs(cap, nodes, url, i, pos, params, 5)),
                   Best(cap, nodes, url, pos, LiteralSucc(nodes, url, i, pos, params)))
  {
    assert WfNode(nodes, i);
    BestConcat(cap, nodes, url, pos, ParamSuccs(cap, nodes, url, i, pos, params, 5),
               LiteralSucc(nodes, url, i, pos, params));
  }

  /** A merge whose children are all simple preserves every search, from every node and position: index and captures. */
  lemma {:induction false} MergeFind(cap: Capturer, nodes: seq<Node>, i: nat, merged: map<string, nat>, url: string,
                                     j: nat, pos: nat, params: Params)
    requires Wf(nodes) && i < |nodes| && ChildrenSimple(nodes, i) && IsMerge(nodes, i, merged)
    requires Wf(WithChildren(nodes, i, merged)) && j < |nodes| && pos <= |url|
    ensures Search(cap, nodes, url, j, pos, params) == Search(cap, WithChildren(nodes, i, merged), url, j, pos, params)
    decreases |url| - pos, 3, 0
  {
    if pos < |url| {
      if j == i {
        MergeFindSelf(cap, nodes, i, merged, url, pos, params);
      } else {
        MergeSuccs(cap, nodes, i, merged, url, j, pos, params);
        MergeBest(cap, nodes, i, merged, url, pos, Succs(cap, nodes, url, j, pos, params));
      }
    }
  }

  lemma {:induction false} MergeFindSelf(cap: Capturer, nodes: seq<Node>, i: nat, merged: map<string, nat>, url: string,
                                         pos: nat, params: Params)
    requires Wf(nodes) && i < |nodes| && ChildrenSimple(nodes, i) && IsMerge(nodes, i, merged)
    requires Wf(WithChildren(nodes, i, merged)) && pos < |url|
    ensures Search(cap, nodes, url, i, pos, params) == Search(cap, WithChildren(nodes, i, merged), url, i, pos, params)
    decreases |url| - pos, 2, 0
  {
    FindSplit(cap, nodes, url, i, pos, params);
    FindSplit(cap, WithChildren(nodes, i, merged), url, i, pos, params);
    MergeParamSuccs(cap, nodes, i, merged, url, i, pos, params, 5);
    MergeBest(cap, nodes, i, merged, url, pos, ParamSuccs(cap, nodes, url, i, pos, params, 5));
    ThroughSimple(cap, nodes, url, i, pos, params);
    MergeLiteralSucc(nodes, i, merged, url, pos, params);
    MergeBest(cap, nodes, i, merged, url, pos, SkipSucc(nodes, url, i, pos, params));
  }

  lemma {:induction false} MergeBest(cap: Capturer, nodes: seq<Node>, i: nat, merged: map<string, nat>, url: string,
                                     pos: nat, steps: seq<Succ>)
    requires Wf(nodes) && i < |nodes| && ChildrenSimple(nodes, i) && IsMerge(nodes, i, merged)
    requires Wf(WithChildren(nodes, i, merged)) && pos <= |url| && Ahead(nodes, url, pos, steps)
    ensures Best(cap, nodes, url, pos, steps) == Best(cap, WithChildren(nodes, i, merged), url, pos, steps)
    decreases |url| - pos, 0, |steps|
  {
    if steps != [] {
      var s := steps[|steps| - 1];
      MergeBest(cap, nodes, i, merged, url, pos, steps[..|steps| - 1]);
      MergeFind(cap, nodes, i, merged, url, s.node, s.pos, s.params);
    }
  }

  /** The same for the stored rules: below every node, every token sequence keeps its index. */
  lemma {:induction false} MergeLookup(nodes: seq<Node>, i: nat, merged: map<string, nat>, j: nat, toks: seq<Token>)
    requires Wf(nodes) && i < |nodes| && ChildrenSimple(nodes, i) && IsMerge(nodes, i, merged)
    requires Wf(WithChildren(nodes, i, merged)) && j < |nodes|
    ensures Lookup(nodes, j, toks) == Lookup(WithChildren(nodes, i, merged), j, toks)
    decreases |toks|, 1
  {
    var nodes' := WithChildren(nodes, i, merged);
    assert WfNode(nodes, j);
    if toks == [] {
    } else if toks[0].Param? {
      var c := nodes[j].paramChildren[toks[0].kind.Slot()];
      if c != 0 { MergeLookup(nodes, i, merged, c, toks[1..]); }
    } else if j == i {
      MergeLookupLiteral(nodes, i, merged, toks);
    } else if FragFor(nodes[j].children, toks).Some? {
      var f := FragFor(nodes[j].children, toks).value;
      MergeLookup(nodes, i, merged, nodes[j].children[f], toks[|f|..]);
    }
  }

  lemma MergeFragFor(nodes: seq<Node>, i: nat, merged: map<string, nat>, toks: seq<Token>)
    requires Wf(nodes) && i < |nodes| && IsMerge(nodes, i, merged) && PrefixFree(merged)
    ensures match FragFor(nodes[i].children, toks)
            case None => FragFor(merged, toks) == None
            case Some(f) =>
              assert WfNode(nodes, i);
              match FragFor(nodes[nodes[i].children[f]].children, toks[|f|..])
              case None => FragFor(merged, toks) == None
              case Some(g) => FragFor(merged, toks) == Some(f + g) && TwoStep(nodes, i, f, g)
  {
    assert WfNode(nodes, i);
    if FragFor(merged, toks).Some? {
      var f, g :| TwoStep(nodes, i, f, g) && FragFor(merged, toks).value == f + g;
      SpellsConcat(f, g, toks);
      FragForUnique(nodes[i].children, toks, f);
      assert WfNode(nodes, nodes[i].children[f]);
      FragForUnique(nodes[nodes[i].children[f]].children, toks[|f|..], g);
    } else if FragFor(nodes[i].children, toks).Some? {
      var f := FragFor(nodes[i].children, toks).value;
      var rest := FragFor(nodes[nodes[i].children[f]].children, toks[|f|..]);
      if rest.Some? {
        SpellsConcat(f, rest.value, toks);
        assert TwoStep(nodes, i, f, rest.value);
        assert false;
      }
    }
  }

  lemma {:induction false} MergeLookupLiteral(nodes: seq<Node>, i: nat, merged: map<string, nat>, toks: seq<Token>)
    requires Wf(nodes) && i < |nodes| && ChildrenSimple(nodes, i) && IsMerge(nodes, i, merged)
    requires Wf(WithChildren(nodes, i, merged)) && toks != [] && toks[0].Lit?
    ensures Lookup(nodes, i, toks) == Lookup(WithChildren(nodes, i, merged), i, toks)
    decreases |toks|, 0
  {
    var nodes' := WithChildren(nodes, i, merged);
    assert WfNode(nodes, i) && WfNode(nodes', i);
    MergeFragFor(nodes, i, merged, toks);
    if FragFor(nodes[i].children, toks).Some? {
      var f := FragFor(nodes[i].children, toks).value;
      var c, rest := nodes[i].children[f], toks[|f|..];
      assert WfNode(nodes, c);
      if FragFor(nodes[c].children, rest).Some? {
        var g := FragFor(nodes[c].children, rest).value;
        assert rest[0] == Lits(g)[0];
        assert rest[|g|..] == toks[|f + g|..];
        MergeLookup(nodes, i, merged, nodes[c].children[g], rest[|g|..]);
      }
    }
  }
}
