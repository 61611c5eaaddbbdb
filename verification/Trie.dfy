/** The trie as the router uses it: grown by `Add`, compressed by `Validate`, searched by `Find` (http/routing.h). */
module Tries {
  import opened Options
  import opened Patterns
  import opened Captures
  import opened TrieModel
  import opened TrieOptimize
  import opened TrieNormal
  import opened TrieBuild
  import opened TrieLayers
  import opened TrieLoops

  /** The shared buffer of captured values: `find` pushes before it descends and pops afterwards. */
  class ParamBuffer {
    var ints: seq<int>
    var uints: seq<nat>
    var doubles: seq<Double64>
    var strings: seq<string>

    ghost function Value(): Params
      reads this
    {
      Params(ints, uints, doubles, strings)
    }

    constructor ()
      ensures Value() == NO_PARAMS
    {
      ints, uints, doubles, strings := [], [], [], [];
    }

    method Copy() returns (r: Params)
      ensures r == Value()
    {
      r := Params(ints, uints, doubles, strings);
    }

    method Push(v: Value)
      modifies this
      ensures Value() == old(Value()).Push(v)
    {
      match v
      case IntV(i) => ints := ints + [i];
      case UintV(u) => uints := uints + [u];
      case DoubleV(d) => doubles := doubles + [d];
      case StrV(s) => strings := strings + [s];
    }

    method Pop(v: Value, ghost before: Params)
      requires Value() == before.Push(v)
      modifies this
      ensures Value() == before
    {
      match v
      case IntV(_) => ints := ints[..|ints| - 1];
      case UintV(_) => uints := uints[..|uints| - 1];
      case DoubleV(_) => doubles := doubles[..|doubles| - 1];
      case StrV(_) => strings := strings[..|strings| - 1];
    }
  }

  /** The index a rule table gives a token sequence; 0 when it has none. */
  ghost function RuleAt(rules: map<seq<Token>, nat>, toks: seq<Token>): nat {
    if toks in rules then rules[toks] else 0
  }

  /** The vector stores exactly this rule table. */
  ghost predicate Holds(nodes: seq<Node>, rules: map<seq<Token>, nat>)
    requires Wf(nodes)
  {
    forall toks :: Lookup(nodes, 0, toks) == RuleAt(rules, toks)
  }

  /** `r` is what scanning the whole rule table gives: the captures of a matching rule of least index, or nothing when
      no rule matches. */
  ghost predicate IsBestMatch(cap: Capturer, rules: map<seq<Token>, nat>, url: string, r: Found) {
    && (r.index == 0 ==> r == NOT_FOUND)
    && (r.index != 0 ==> exists toks ::
          && toks in rules && rules[toks] == r.index && Match(cap, toks, url, 0).Some?
          && r.params == NO_PARAMS.PushAll(Match(cap, toks, url, 0).value))
    && (forall toks :: toks in rules && rules[toks] != 0 && Match(cap, toks, url, 0).Some? ==>
          0 < r.index <= rules[toks])
  }

  /** The search refines the scan. */
  lemma FindIsBest(cap: Capturer, nodes: seq<Node>, rules: map<seq<Token>, nat>, url: string)
    requires Wf(nodes) && Holds(nodes, rules)
    ensures IsBestMatch(cap, rules, url, Search(cap, nodes, url, 0, 0, NO_PARAMS))
  {
    var r := Search(cap, nodes, url, 0, 0, NO_PARAMS);
    if url != "" {
      BestNormal(cap, nodes, url, 0, Succs(cap, nodes, url, 0, 0, NO_PARAMS));
    }
    if r.index != 0 {
      var toks := FindSound(cap, nodes, url, 0, 0, NO_PARAMS);
      assert RuleAt(rules, toks) == r.index;
    }
    forall toks | toks in rules && rules[toks] != 0 && Match(cap, toks, url, 0).Some?
      ensures 0 < r.index <= rules[toks]
    {
      assert RuleAt(rules, toks) == rules[toks];
      FindComplete(cap, nodes, url, 0, 0, NO_PARAMS, toks);
    }
  }

  class Trie {
    var nodes: seq<Node>
    ghost var rules: map<seq<Token>, nat>  // what has been added, by token sequence

    ghost predicate Valid()
      reads this
    {
      Wf(nodes) && Holds(nodes, rules)
    }

    /** Not compressed yet: rules may still be added. */
    ghost predicate Growing()
      reads this
    {
      Built(nodes) && Valid() && HeadCovered(nodes, rules, [])
    }

    constructor ()
      ensures Growing() && rules == map[]
    {
      nodes, rules := [EMPTY_NODE], map[];
      new;
      assert WfNode(nodes, 0);
      CoveredStart(rules);
      forall toks
        ensures Lookup(nodes, 0, toks) == 0
      {
        if toks != [] { LookupEdge(nodes, 0, toks); }
      }
    }

    method NewNode() returns (r: nat)
      modifies this`nodes
      ensures nodes == old(nodes) + [EMPTY_NODE] && r == |old(nodes)|
    {
      nodes := nodes + [EMPTY_NODE];
      r := |nodes| - 1;
    }

    ghost predicate LeadsTo(path: seq<Token>, idx: nat)
      reads this
    {
      Built(nodes) && Valid() && HeadCovered(nodes, rules, path) && Walk(nodes, 0, path) == Some(idx)
    }

    lemma AtHead()
      requires Growing()
      ensures LeadsTo([], 0)
    {
    }

    /** Follows the edge for `tok` below `idx`, growing the trie when it is missing. */
    method Child(idx: nat, tok: Token, ghost path: seq<Token>) returns (c: nat)
      requires LeadsTo(path, idx)
      modifies this`nodes
      ensures LeadsTo(path + [tok], c)
    {
      hide HeadCovered;
      ghost var before := nodes;
      assert WfNode(nodes, idx);
      CoveredStep(nodes, rules, path, idx, tok);
      WalkSnoc(nodes, 0, path, tok);
      match tok {
      case Lit(ch) =>
        if [ch] !in nodes[idx].children {
          var n := NewNode();
          nodes := nodes[idx := nodes[idx].(children := nodes[idx].children[[ch] := n])];
        }
        c := nodes[idx].children[[ch]];
      case Param(kind) =>
        if nodes[idx].paramChildren[kind.Slot()] == 0 {
          var n := NewNode();
          nodes := nodes[idx := nodes[idx].(paramChildren := nodes[idx].paramChildren[kind.Slot() := n])];
        }
        c := nodes[idx].paramChildren[kind.Slot()];
      }
      if Edge(before, idx, tok) == 0 {
        assert nodes == Grown(before, idx, tok);
        GrownBuilt(before, idx, tok);
        forall toks
          ensures Lookup(nodes, 0, toks) == Lookup(before, 0, toks)
        {
          GrownLookup(before, idx, tok, 0, toks);
        }
        GrownWalk(before, idx, tok, 0, path);
        GrownEdge(before, idx, tok, idx, tok);
        WalkSnoc(nodes, 0, path, tok);
      }
    }

    /** The loop over the spellings; it finds one wherever the rule is scannable. */
    method MatchTrait(url: string, i: nat) returns (t: nat)
      requires i < |url| && url[i] == '<' && NextToken(url, i).Some?
      ensures t < 7 && NextToken(url, i) == Some((Param(TraitKind(t)), i + |TraitText(t)|))
    {
      t := 0;
      while !HasAt(url, i, TraitText(t))
        invariant t < 7 && FirstTrait(url, i, 0) == FirstTrait(url, i, t)
        decreases 7 - t
      {
        t := t + 1;
      }
    }

    /** Adds a rule. The result is false where the source throws "handler already exists". */
    method Add(url: string, ruleIndex: nat) returns (ok: bool)
      requires Growing() && Tokens(url).Some?
      modifies this
      ensures Growing()
      ensures ok <==> RuleAt(old(rules), Tokens(url).value) == 0
      ensures rules == if ok then old(rules)[Tokens(url).value := ruleIndex] else old(rules)
    {
      hide *;
      ghost var path: seq<Token> := [];
      var idx, i := 0, 0;
      AtHead();
      FirstToken(url);
      while i < |url|
        invariant i <= |url| && TokensFrom(url, i).Some? && Tokens(url) == Some(path + TokensFrom(url, i).value)
        invariant LeadsTo(path, idx) && rules == old(rules)
      {
        var c := url[i];
        TokenStep(url, i, path);
        if c == '<' {
          var t := MatchTrait(url, i);
          idx := Child(idx, Param(TraitKind(t)), path);
          path := path + [Param(TraitKind(t))];
          i := i + |TraitText(t)|;
          i := i - 1;
        } else {
          idx := Child(idx, Lit(c), path);
          path := path + [Lit(c)];
        }
        i := i + 1;
      }
      NoTokensLeft(url);
      assert path == Tokens(url).value;
      ok := Store(idx, path, ruleIndex);
    }

    method Store(idx: nat, ghost path: seq<Token>, ruleIndex: nat) returns (ok: bool)
      requires LeadsTo(path, idx)
      modifies this
      ensures Growing()
      ensures ok <==> RuleAt(old(rules), path) == 0
      ensures rules == if ok then old(rules)[path := ruleIndex] else old(rules)
    {
      hide HeadCovered;
      LookupWalk(nodes, 0, path);
      if nodes[idx].ruleIndex != 0 {
        CoveredStore(nodes, nodes, rules, path);
        return false;
      }
      ghost var before := nodes;
      CoveredMore(nodes, rules, rules[path := ruleIndex], path);
      nodes := nodes[idx := nodes[idx].(ruleIndex := ruleIndex)];
      rules := rules[path := ruleIndex];
      CoveredStore(before, nodes, rules, path);
      forall toks
        ensures Built(nodes) && Lookup(nodes, 0, toks) == if toks == path then ruleIndex else Lookup(before, 0, toks)
      {
        StoreLookup(before, path, idx, ruleIndex, toks);
      }
      assert Lookup(nodes, 0, path) == ruleIndex;
      ok := true;
    }

    method AllChildrenSimple(i: nat) returns (r: bool)
      requires Wf(nodes) && i < |nodes|
      ensures r == ChildrenSimple(nodes, i)
    {
      assert WfNode(nodes, i);
      var todo := nodes[i].children.Keys;
      while todo != {}
        invariant todo <= nodes[i].children.Keys
        invariant forall f :: f in nodes[i].children && f !in todo ==> nodes[nodes[i].children[f]].IsSimple()
        decreases todo
      {
        var f :| f in todo;
        if !nodes[nodes[i].children[f]].IsSimple() {
          return false;
        }
        todo := todo - {f};
      }
      r := true;
    }

    /** The fragments of the merged node. */
    method Merged(i: nat) returns (merged: map<string, nat>)
      requires Wf(nodes) && i < |nodes|
      ensures IsMerge(nodes, i, merged)
    {
      assert WfNode(nodes, i);
      merged := map[];
      var todo := nodes[i].children.Keys;
      while todo != {}
        invariant todo <= nodes[i].children.Keys
        invariant forall f, g :: TwoStep(nodes, i, f, g) && f !in todo ==>
                    f + g in merged && merged[f + g] == TwoStepTarget(nodes, i, f, g)
        invariant forall h :: h in merged ==> exists f, g :: TwoStep(nodes, i, f, g) && h == f + g
        decreases todo
      {
        var f :| f in todo;
        var child := nodes[nodes[i].children[f]];
        var inner := child.children.Keys;
        while inner != {}
          invariant inner <= child.children.Keys
          invariant forall f', g :: TwoStep(nodes, i, f', g) && (f' !in todo || (f' == f && g !in inner)) ==>
                      f' + g in merged && merged[f' + g] == TwoStepTarget(nodes, i, f', g)
          invariant forall h :: h in merged ==> exists f', g :: TwoStep(nodes, i, f', g) && h == f' + g
          decreases inner
        {
          var g :| g in inner;
          assert TwoStep(nodes, i, f, g);
          MergeKeyUnique(nodes, i, f, g);
          merged := merged[f + g := child.children[g]];
          inner := inner - {g};
        }
        todo := todo - {f};
      }
    }

    /** Compresses the trie below node `i`: merges layers of simple nodes until one of the children is not simple.
        `lo` bounds the indices of the literal children from below; it grows with every merge, which ends the recursion. */
    method OptimizeNode(i: nat, ghost lo: nat, ghost built: seq<Node>, ghost done: set<nat>)
      returns (ghost done': set<nat>)
      requires Wf(nodes) && i < |nodes| && AboveLo(nodes[i], |nodes|, lo)
      requires Normal(nodes, i) || Task(built, nodes, done, i)
      modifies this`nodes
      ensures Optimized(old(nodes), nodes, i, built, done, done')
      ensures |nodes| == |old(nodes)|
      decreases |nodes| - i, 1, |nodes| - lo
    {
      hide *;
      ghost var before := nodes;
      ParamsReady(nodes, i, built, done);
      ParamsAbove(nodes, i);
      done' := OptimizeEach(i, nodes[i].paramChildren, built, Started(nodes, done, i));
      ParamsDone(before, nodes, i, built, done, done');
      OpenedFacts(before, nodes, i, built, done, done');
      if nodes[i].children == map[] {
        NoChildren(before, nodes, i, built, done, done');
        return;
      }
      var mergeWithChild := AllChildrenSimple(i);
      ghost var mid, d := nodes, done';
      if mergeWithChild {
        var merged := Merged(i);
        MergeAgain(before, mid, i, merged, built, done, d);
        AboveMerge(mid, i, merged, lo);
        nodes := nodes[i := nodes[i].(children := merged)];
        done' := OptimizeNode(i, lo + 1, built, d + Targets(mid[i]));
        MergeDone(before, mid, nodes, i, merged, built, done, d, done');
      } else {
        var xs := ChildList(i);
        ChildrenReady(before, nodes, i, xs, built, done, d);
        done' := OptimizeEach(i, xs, built, d);
        ChildrenDone(before, mid, nodes, i, xs, built, done, d, done');
      }
    }

    /** The loops over the parameter children and over the literal children. */
    method OptimizeEach(i: nat, xs: seq<nat>, ghost built: seq<Node>, ghost done: set<nat>)
      returns (ghost done': set<nat>)
      requires Wf(nodes) && i < |nodes| && EachReady(nodes, xs, built, done)
      requires forall x :: x in xs && x != 0 ==> i < x < |nodes|
      modifies this`nodes
      ensures EachOptimized(old(nodes), nodes, i, xs, |xs|, built, done, done')
      ensures Wf(nodes) && |nodes| == |old(nodes)| && nodes[i] == old(nodes)[i]
      decreases |nodes| - i, 0, 0
    {
      hide *;
      ghost var before := nodes;
      done' := done;
      EachStart(nodes, i, xs, built, done);
      for k := 0 to |xs|
        invariant EachOptimized(before, nodes, i, xs, k, built, done, done')
        invariant Wf(nodes) && |nodes| == |before| && nodes[i] == before[i]
      {
        var x := xs[k];
        if x == 0 {
          EachSkip(before, nodes, i, xs, k, built, done, done');
        } else {
          assert x in xs;
          ghost var mid, d := nodes, done';
          EachNext(before, mid, i, xs, k, built, done, d);
          AboveZero(nodes[x], |nodes|);
          done' := OptimizeNode(x, 0, built, d);
          EachStep(before, mid, nodes, i, xs, k, built, done, d, done');
          EachFacts(before, nodes, i, xs, k + 1, built, done, done');
        }
      }
    }

    /** The literal children in the order the loop meets them. */
    method ChildList(i: nat) returns (xs: seq<nat>)
      requires Wf(nodes) && i < |nodes|
      ensures Lists(xs, nodes[i])
      ensures forall x :: x in xs && x != 0 ==> i < x < |nodes|
    {
      assert WfNode(nodes, i);
      var children := nodes[i].children;
      var todo := children.Keys;
      xs := [];
      ghost var from: seq<string> := [];
      while todo != {}
        invariant todo <= children.Keys && |from| == |xs|
        invariant forall k :: 0 <= k < |xs| ==> from[k] in children && from[k] !in todo && xs[k] == children[from[k]]
        invariant forall f :: f in children && f !in todo ==> children[f] in xs
        invariant forall k, m :: 0 <= k < m < |from| ==> from[k] != from[m]
        decreases todo
      {
        var f :| f in todo;
        xs, from := xs + [children[f]], from + [f];
        assert forall x :: x in xs[..|xs| - 1] ==> x in xs;
        todo := todo - {f};
      }
    }

    /** Refuses a trie whose head carries a rule or a placeholder, and compresses any other. The compressed trie means
        the same, has nothing left to merge and has fragments of one length at every node; compressing it again
        changes nothing. */
    method Validate() returns (ok: bool)
      requires Valid() && (Built(nodes) || Normal(nodes, 0))
      modifies this`nodes
      ensures Valid() && |nodes| == |old(nodes)| && SameMeaning(old(nodes), nodes)
      ensures ok <==> old(nodes)[0].IsSimple()
      ensures ok ==> Normal(nodes, 0)
      ensures old(Built(nodes)) ==> Uniform(nodes)
      ensures old(Normal(nodes, 0)) ==> nodes == old(nodes)
    {
      ok := nodes[0].IsSimple();
      BuiltClean(nodes);
      EvolvedRefl(nodes);
      if ok {
        ghost var before := nodes;
        AboveZero(nodes[0], |nodes|);
        ghost var done := OptimizeNode(0, 0, nodes, {});
      }
    }

    /** The search from node `i` at position `pos`: parameter branches in slot order, then the literal fragments. It
        leaves the shared buffer as it found it. */
    method FindAt(d: Strtod, url: string, i: nat, pos: nat, params: ParamBuffer) returns (r: Found)
      requires Wf(nodes) && i < |nodes| && pos <= |url|
      modifies params
      ensures params.Value() == old(params.Value())
      ensures r == Search(CapturesOf(d), nodes, url, i, pos, params.Value())
      decreases |url| - pos, 2
    {
      hide *;
      if pos == |url| {
        var copy := params.Copy();
        FindAtEnd(CapturesOf(d), nodes, url, i, copy);
        return Found(nodes[i].ruleIndex, copy);
      }
      ghost var cap, ps := CapturesOf(d), params.Value();
      SlotsStart(cap, nodes, url, i, pos, ps);
      SlotStep(cap, nodes, url, i, pos, ps, 0);
      SlotStep(cap, nodes, url, i, pos, ps, 1);
      SlotStep(cap, nodes, url, i, pos, ps, 2);
      SlotStep(cap, nodes, url, i, pos, ps, 3);
      SlotStep(cap, nodes, url, i, pos, ps, 4);
      r := TryInt(d, url, i, pos, params, NOT_FOUND);
      r := TryUint(d, url, i, pos, params, r);
      r := TryDouble(d, url, i, pos, params, r);
      r := TryString(d, url, i, pos, params, r);
      r := TryPath(d, url, i, pos, params, r);
      r := TryFragments(d, url, i, pos, params, r);
    }

    /** The INT branch. */
    method TryInt(d: Strtod, url: string, i: nat, pos: nat, params: ParamBuffer, found: Found) returns (r: Found)
      requires Wf(nodes) && i < |nodes| && pos < |url|
      modifies params
      ensures params.Value() == old(params.Value())
      ensures r == AfterSlot(CapturesOf(d), nodes, url, i, pos, params.Value(), 0, found)
      decreases |url| - pos, 1
    {
      r := found;
      assert WfNode(nodes, i) && KindOfSlot(0) == Int;
      hide CapturesOf, Capture, ScanInt, ScanUint, ScanDouble, Search, Wf, WfNode;
      CaptureInt(d, url, pos);
      if nodes[i].paramChildren[0] != 0 {
        var scan := ScanInt(url, pos);
        if scan.Some? {
          r := Descend(d, url, nodes[i].paramChildren[0], scan.value.0, IntV(scan.value.1), params, found);
        }
      }
    }

    /** The UINT branch. */
    method TryUint(d: Strtod, url: string, i: nat, pos: nat, params: ParamBuffer, found: Found) returns (r: Found)
      requires Wf(nodes) && i < |nodes| && pos < |url|
      modifies params
      ensures params.Value() == old(params.Value())
      ensures r == AfterSlot(CapturesOf(d), nodes, url, i, pos, params.Value(), 1, found)
      decreases |url| - pos, 1
    {
      r := found;
      assert WfNode(nodes, i) && KindOfSlot(1) == Uint;
      hide CapturesOf, Capture, ScanInt, ScanUint, ScanDouble, Search, Wf, WfNode;
      CaptureUint(d, url, pos);
      if nodes[i].paramChildren[1] != 0 {
        var scan := ScanUint(url, pos);
        if scan.Some? {
          r := Descend(d, url, nodes[i].paramChildren[1], scan.value.0, UintV(scan.value.1), params, found);
        }
      }
    }

    /** The DOUBLE branch. */
    method TryDouble(d: Strtod, url: string, i: nat, pos: nat, params: ParamBuffer, found: Found) returns (r: Found)
      requires Wf(nodes) && i < |nodes| && pos < |url|
      modifies params
      ensures params.Value() == old(params.Value())
      ensures r == AfterSlot(CapturesOf(d), nodes, url, i, pos, params.Value(), 2, found)
      decreases |url| - pos, 1
    {
      r := found;
      assert WfNode(nodes, i) && KindOfSlot(2) == Double;
      hide CapturesOf, Capture, ScanInt, ScanUint, ScanDouble, Search, Wf, WfNode;
      CaptureDouble(d, url, pos);
      if nodes[i].paramChildren[2] != 0 {
        var scan := ScanDouble(d, url, pos);
        if scan.Some? {
          r := Descend(d, url, nodes[i].paramChildren[2], scan.value.0, DoubleV(scan.value.1), params, found);
        }
      }
    }

    /** The STRING branch: everything up to the next '/', when that is not empty. */
    method TryString(d: Strtod, url: string, i: nat, pos: nat, params: ParamBuffer, found: Found) returns (r: Found)
      requires Wf(nodes) && i < |nodes| && pos < |url|
      modifies params
      ensures params.Value() == old(params.Value())
      ensures r == AfterSlot(CapturesOf(d), nodes, url, i, pos, params.Value(), 3, found)
      decreases |url| - pos, 1
    {
      r := found;
      assert WfNode(nodes, i) && KindOfSlot(3) == Str;
      hide CapturesOf, Capture, Search, Wf, WfNode;
      CaptureStr(d, url, pos);
      if nodes[i].paramChildren[3] != 0 {
        var epos := pos;
        while epos < |url| && url[epos] != '/'
          invariant pos <= epos <= |url| && SlashOrEnd(url, epos) == SlashOrEnd(url, pos)
        {
          epos := epos + 1;
        }
        if epos != pos {
          r := Descend(d, url, nodes[i].paramChildren[3], epos, StrV(url[pos..epos]), params, found);
        }
      }
    }

    /** The PATH branch: everything that is left. */
    method TryPath(d: Strtod, url: string, i: nat, pos: nat, params: ParamBuffer, found: Found) returns (r: Found)
      requires Wf(nodes) && i < |nodes| && pos < |url|
      modifies params
      ensures params.Value() == old(params.Value())
      ensures r == AfterSlot(CapturesOf(d), nodes, url, i, pos, params.Value(), 4, found)
      decreases |url| - pos, 1
    {
      r := found;
      assert WfNode(nodes, i) && KindOfSlot(4) == Path;
      hide CapturesOf, Capture, ScanInt, ScanUint, ScanDouble, Search, Wf, WfNode;
      CapturePath(d, url, pos);
      if nodes[i].paramChildren[4] != 0 {
        var epos := |url|;
        assert url[pos..epos] == url[pos..];
        if epos != pos {
          r := Descend(d, url, nodes[i].paramChildren[4], epos, StrV(url[pos..epos]), params, found);
        }
      }
    }

    /** One parameter branch: push the captured value, search on, take the better result, pop the value. */
    method Descend(d: Strtod, url: string, c: nat, e: nat, v: Value, params: ParamBuffer, found: Found) returns (r: Found)
      requires Wf(nodes) && c < |nodes| && e <= |url|
      modifies params
      ensures params.Value() == old(params.Value())
      ensures r == Better(found, Search(CapturesOf(d), nodes, url, c, e, params.Value().Push(v)))
      decreases |url| - e, 3
    {
      hide Search, Wf, CapturesOf;
      ghost var before := params.Value();
      params.Push(v);
      var ret := FindAt(d, url, c, e, params);
      params.Pop(v, before);
      r := Better(found, ret);
    }

    /** The loop over the literal fragments; whatever its order, at most one of them stands at `pos`. */
    method TryFragments(d: Strtod, url: string, i: nat, pos: nat, params: ParamBuffer, found: Found) returns (r: Found)
      requires Wf(nodes) && i < |nodes| && pos < |url|
      requires found == Best(CapturesOf(d), nodes, url, pos,
                             ParamSuccs(CapturesOf(d), nodes, url, i, pos, params.Value(), 5))
      modifies params
      ensures params.Value() == old(params.Value())
      ensures r == Search(CapturesOf(d), nodes, url, i, pos, params.Value())
      decreases |url| - pos, 1
    {
      hide *;
      ghost var cap, ps := CapturesOf(d), params.Value();
      LiteralStep(cap, nodes, url, i, pos, ps);
      ChildrenFacts(nodes, i);
      var children := nodes[i].children;
      r := found;
      var todo := children.Keys;
      while todo != {}
        invariant todo <= children.Keys && params.Value() == ps
        invariant match FragAt(children, url, pos)
                  case None => r == found
                  case Some(f) =>
                    if f in todo then r == found
                    else r == Better(found, Search(cap, nodes, url, children[f], pos + |f|, ps))
        decreases todo
      {
        var f :| f in todo;
        FitsAt(url, pos, f);
        if HasAt(url, pos, f) {
          FragAtUnique(children, url, pos, f);
          var ret := FindAt(d, url, children[f], pos + |f|, params);
          r := Better(r, ret);
        }
        todo := todo - {f};
      }
    }

    /** The search the router makes: the result is the best match in the rule table. */
    method Find(d: Strtod, url: string) returns (r: Found)
      requires Valid()
      ensures IsBestMatch(CapturesOf(d), rules, url, r)
    {
      var params := new ParamBuffer();
      r := FindAt(d, url, 0, 0, params);
      FindIsBest(CapturesOf(d), nodes, rules, url);
    }
  }
}
