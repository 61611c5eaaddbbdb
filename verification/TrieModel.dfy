/** The node vector of the URL trie and what searching it means (http/routing.h `Trie`). */
module TrieModel {
  import opened Options
  import opened Patterns
  import opened Captures

  type Slots = s: seq<nat> | |s| == 5 witness [0, 0, 0, 0, 0]

  /** A trie node. Index 0 in a slot means "no child": the head is nobody's child. */
  datatype Node = Node(ruleIndex: nat, paramChildren: Slots, children: map<string, nat>) {
    predicate IsSimple() {
      ruleIndex == 0 && forall k :: 0 <= k < 5 ==> paramChildren[k] == 0
    }
  }

  const EMPTY_NODE := Node(0, [0, 0, 0, 0, 0], map[])

  ghost predicate IsPrefix(f: string, g: string) {
    f <= g
  }

  /** No fragment is a proper prefix of another, so at most one of them stands at any place. */
  ghost predicate PrefixFree(children: map<string, nat>) {
    forall f, g {:trigger IsPrefix(f, g)} :: f in children && g in children && IsPrefix(f, g) ==> f == g
  }

  ghost predicate WfNode(nodes: seq<Node>, i: nat)
    requires i < |nodes|
  {
    var n := nodes[i];
    && (forall k :: 0 <= k < 5 && n.paramChildren[k] != 0 ==> i < n.paramChildren[k] < |nodes|)
    && (forall f :: f in n.children ==> f != "" && i < n.children[f] < |nodes|)
    && PrefixFree(n.children)
  }

  /** Well-formed vectors: there is a head, and children have larger indices than their parent. */
  ghost predicate Wf(nodes: seq<Node>) {
    nodes != [] && forall i :: 0 <= i < |nodes| ==> WfNode(nodes, i)
  }

  /** `f` spells the first tokens of `toks`. */
  ghost predicate Spells(f: string, toks: seq<Token>) {
    Lits(f) <= toks
  }

  /** The fragment that spells the first tokens of `toks`. */
  ghost function FragFor(children: map<string, nat>, toks: seq<Token>): (r: Option<string>)
    ensures r.Some? ==> r.value in children && Spells(r.value, toks)
    ensures r.None? ==> forall f :: f in children ==> !Spells(f, toks)
  {
    if f :| f in children && Spells(f, toks) then Some(f) else None
  }

  /** The rule index stored for a token sequence below node `i`; 0 when there is none. */
  ghost function Lookup(nodes: seq<Node>, i: nat, toks: seq<Token>): nat
    requires Wf(nodes) && i < |nodes|
    decreases |toks|
  {
    if toks == [] then nodes[i].ruleIndex
    else match toks[0]
      case Param(kind) =>
        var c := nodes[i].paramChildren[kind.Slot()];
        if c == 0 then 0 else assert WfNode(nodes, i); Lookup(nodes, c, toks[1..])
      case Lit(_) =>
        match FragFor(nodes[i].children, toks)
        case None => 0
        case Some(f) => assert WfNode(nodes, i); Lookup(nodes, nodes[i].children[f], toks[|f|..])
  }

  /** Only one fragment can spell the tokens. */
  lemma FragForUnique(children: map<string, nat>, toks: seq<Token>, f: string)
    requires PrefixFree(children) && f in children && Spells(f, toks)
    ensures FragFor(children, toks) == Some(f)
  {
    var g := FragFor(children, toks).value;
    assert forall k :: 0 <= k < |f| && k < |g| ==> Lits(f)[k] == toks[k] == Lits(g)[k];
    assert IsPrefix(f, g) || IsPrefix(g, f);
  }

  /** A search result: the rule index (0 for none) and the captured vectors. */
  datatype Found = Found(index: nat, params: Params)

  const NOT_FOUND := Found(0, NO_PARAMS)

  /** `updateFound`: a non-zero result replaces what was found before when its index is smaller. */
  function Better(found: Found, ret: Found): Found {
    if ret.index != 0 && (found.index == 0 || found.index > ret.index) then ret else found
  }

  /** Where the search goes next: a node, a position and the vectors captured so far. */
  datatype Succ = Succ(node: nat, pos: nat, params: Params)

  /** The step through parameter slot `k`, if there is a child and the placeholder captures something. */
  ghost function ParamSucc(cap: Capturer, nodes: seq<Node>, url: string, i: nat, pos: nat, params: Params, k: nat): seq<Succ>
    requires i < |nodes| && pos < |url| && k < 5
  {
    var c := nodes[i].paramChildren[k];
    if c == 0 then [] else
    match cap(KindOfSlot(k), url, pos)
    case None => []
    case Some((e, v)) => [Succ(c, e, params.Push(v))]
  }

  /** The step through the literal fragment that stands at `pos`, if there is one. */
  ghost function LiteralSucc(nodes: seq<Node>, url: string, i: nat, pos: nat, params: Params): seq<Succ>
    requires i < |nodes| && pos < |url|
  {
    match FragAt(nodes[i].children, url, pos)
    case None => []
    case Some(f) => [Succ(nodes[i].children[f], pos + |f|, params)]
  }

  /** The steps through the slots below `k`, in the order the search tries them. */
  ghost function ParamSuccs(cap: Capturer, nodes: seq<Node>, url: string, i: nat, pos: nat, params: Params, k: nat)
    : (r: seq<Succ>)
    requires Wf(nodes) && i < |nodes| && pos < |url| && k <= 5
    ensures Ahead(nodes, url, pos, r)
  {
    assert WfNode(nodes, i);
    if k == 0 then []
    else ParamSuccs(cap, nodes, url, i, pos, params, k - 1) + ParamSucc(cap, nodes, url, i, pos, params, k - 1)
  }

  /** Every step of the search from node `i`, the literal one last. */
  ghost function Succs(cap: Capturer, nodes: seq<Node>, url: string, i: nat, pos: nat, params: Params): (r: seq<Succ>)
    requires Wf(nodes) && i < |nodes| && pos < |url|
    ensures Ahead(nodes, url, pos, r)
  {
    assert WfNode(nodes, i);
    ParamSuccs(cap, nodes, url, i, pos, params, 5) + LiteralSucc(nodes, url, i, pos, params)
  }

  /** Every step consumes some of the URL: why the search ends. */
  ghost predicate Ahead(nodes: seq<Node>, url: string, pos: nat, steps: seq<Succ>) {
    forall k :: 0 <= k < |steps| ==> steps[k].node < |nodes| && pos < steps[k].pos <= |url|
  }

  /** The search from node `i` at position `pos`. */
  ghost function Search(cap: Capturer, nodes: seq<Node>, url: string, i: nat, pos: nat, params: Params): Found
    requires Wf(nodes) && i < |nodes| && pos <= |url|
    decreases |url| - pos, 1, 0
  {
    if pos == |url| then Found(nodes[i].ruleIndex, params)
    else Best(cap, nodes, url, pos, Succs(cap, nodes, url, i, pos, params))
  }

  /** The best result among the given steps. */
  ghost function Best(cap: Capturer, nodes: seq<Node>, url: string, pos: nat, steps: seq<Succ>): Found
    requires Wf(nodes) && pos <= |url| && Ahead(nodes, url, pos, steps)
    decreases |url| - pos, 0, |steps|
  {
    if steps == [] then NOT_FOUND
    else
      var last := steps[|steps| - 1];
      Better(Best(cap, nodes, url, pos, steps[..|steps| - 1]), Search(cap, nodes, url, last.node, last.pos, last.params))
  }

  /** The fragment that stands at `pos`. */
  ghost function FragAt(children: map<string, nat>, url: string, pos: nat): (r: Option<string>)
    ensures r.Some? ==> r.value in children && HasAt(url, pos, r.value) && pos + |r.value| <= |url|
    ensures r.None? ==> forall f :: f in children ==> !HasAt(url, pos, f)
  {
    if f :| f in children && HasAt(url, pos, f) then Some(f) else None
  }

  /** Only one fragment can stand there. */
  lemma FragAtUnique(children: map<string, nat>, url: string, pos: nat, f: string)
    requires PrefixFree(children) && f in children && HasAt(url, pos, f)
    ensures FragAt(children, url, pos) == Some(f)
  {
    var g := FragAt(children, url, pos).value;
    assert IsPrefix(f, g) || IsPrefix(g, f);
  }

  /** The best result is the result of one of the steps... */
  lemma {:induction false} BestIsSome(cap: Capturer, nodes: seq<Node>, url: string, pos: nat, steps: seq<Succ>)
    returns (k: nat)
    requires Wf(nodes) && pos <= |url| && Ahead(nodes, url, pos, steps)
    requires Best(cap, nodes, url, pos, steps).index != 0
    ensures k < |steps|
    ensures Best(cap, nodes, url, pos, steps) ==
            Search(cap, nodes, url, steps[k].node, steps[k].pos, steps[k].params)
    decreases |steps|
  {
    var last := |steps| - 1;
    if Best(cap, nodes, url, pos, steps) == Search(cap, nodes, url, steps[last].node, steps[last].pos, steps[last].params) {
      k := last;
    } else {
      k := BestIsSome(cap, nodes, url, pos, steps[..last]);
    }
  }

  /** ... and none of the steps has a smaller index. */
  lemma {:induction false} BestIsLeast(cap: Capturer, nodes: seq<Node>, url: string, pos: nat, steps: seq<Succ>, k: nat)
    requires Wf(nodes) && pos <= |url| && Ahead(nodes, url, pos, steps) && k < |steps|
    requires Search(cap, nodes, url, steps[k].node, steps[k].pos, steps[k].params).index != 0
    ensures 0 < Best(cap, nodes, url, pos, steps).index <=
            Search(cap, nodes, url, steps[k].node, steps[k].pos, steps[k].params).index
    decreases |steps|
  {
    if k < |steps| - 1 {
      BestIsLeast(cap, nodes, url, pos, steps[..|steps| - 1], k);
    }
  }

  lemma {:induction false} InParamSuccs(cap: Capturer, nodes: seq<Node>, url: string, i: nat, pos: nat, params: Params,
                                        k: nat, j: nat, s: Succ)
    requires Wf(nodes) && i < |nodes| && pos < |url| && k < j <= 5
    requires s in ParamSucc(cap, nodes, url, i, pos, params, k)
    ensures s in ParamSuccs(cap, nodes, url, i, pos, params, j)
    decreases j
  {
    if k < j - 1 { InParamSuccs(cap, nodes, url, i, pos, params, k, j - 1, s); }
  }

  lemma {:induction false} FromParamSuccs(cap: Capturer, nodes: seq<Node>, url: string, i: nat, pos: nat, params: Params,
                                          j: nat, s: Succ) returns (k: nat)
    requires Wf(nodes) && i < |nodes| && pos < |url| && j <= 5
    requires s in ParamSuccs(cap, nodes, url, i, pos, params, j)
    ensures k < j && s in ParamSucc(cap, nodes, url, i, pos, params, k)
    decreases j
  {
    if s in ParamSucc(cap, nodes, url, i, pos, params, j - 1) {
      k := j - 1;
    } else {
      k := FromParamSuccs(cap, nodes, url, i, pos, params, j - 1, s);
    }
  }

  /** Each step stands for some leading tokens: what is stored and matched after it is stored and matched before it. */
  lemma StepSound(cap: Capturer, nodes: seq<Node>, url: string, i: nat, pos: nat, params: Params, s: Succ,
                  rest: seq<Token>) returns (toks: seq<Token>)
    requires Wf(nodes) && i < |nodes| && pos < |url|
    requires s in Succs(cap, nodes, url, i, pos, params)
    requires s.node < |nodes| && pos < s.pos <= |url| && Match(cap, rest, url, s.pos).Some?
    ensures Lookup(nodes, i, toks) == Lookup(nodes, s.node, rest)
    ensures Match(cap, toks, url, pos).Some?
    ensures params.PushAll(Match(cap, toks, url, pos).value) == s.params.PushAll(Match(cap, rest, url, s.pos).value)
  {
    assert WfNode(nodes, i);
    if s in LiteralSucc(nodes, url, i, pos, params) {
      var f := FragAt(nodes[i].children, url, pos).value;
      toks := Lits(f) + rest;
      MatchLits(cap, f, rest, url, pos);
      assert toks[|f|..] == rest && toks[0] == Lit(f[0]);
      FragForUnique(nodes[i].children, toks, f);
    } else {
      var k := FromParamSuccs(cap, nodes, url, i, pos, params, 5, s);
      toks := [Param(KindOfSlot(k))] + rest;
      assert toks[1..] == rest;
      var v := cap(KindOfSlot(k), url, pos).value.1;
      var vs := Match(cap, rest, url, s.pos).value;
      assert ([v] + vs)[1..] == vs;
    }
  }

  /** A stored sequence that matches takes one of the steps. */
  lemma StepComplete(cap: Capturer, nodes: seq<Node>, url: string, i: nat, pos: nat, params: Params, toks: seq<Token>)
    returns (s: Succ, rest: seq<Token>)
    requires Wf(nodes) && i < |nodes| && pos < |url|
    requires Lookup(nodes, i, toks) != 0 && Match(cap, toks, url, pos).Some?
    ensures s in Succs(cap, nodes, url, i, pos, params) && s.node < |nodes| && pos < s.pos <= |url|
    ensures Lookup(nodes, s.node, rest) == Lookup(nodes, i, toks) && Match(cap, rest, url, s.pos).Some?
  {
    assert WfNode(nodes, i);
    match toks[0]
    case Param(kind) =>
      var (e, v) := cap(kind, url, pos).value;
      s, rest := Succ(nodes[i].paramChildren[kind.Slot()], e, params.Push(v)), toks[1..];
      assert KindOfSlot(kind.Slot()) == kind;
      InParamSuccs(cap, nodes, url, i, pos, params, kind.Slot(), 5, s);
    case Lit(_) =>
      var f := FragFor(nodes[i].children, toks).value;
      s, rest := Succ(nodes[i].children[f], pos + |f|, params), toks[|f|..];
      assert toks == Lits(f) + rest;
      MatchLits(cap, f, rest, url, pos);
      FragAtUnique(nodes[i].children, url, pos, f);
  }

  /** Soundness: a non-zero result is the index stored for some token sequence that consumes the rest of the URL,
      and the result carries exactly that sequence's captures, appended to what was captured before. */
  lemma {:induction false} FindSound(cap: Capturer, nodes: seq<Node>, url: string, i: nat, pos: nat, params: Params)
    returns (toks: seq<Token>)
    requires Wf(nodes) && i < |nodes| && pos <= |url|
    requires Search(cap, nodes, url, i, pos, params).index != 0
    ensures Lookup(nodes, i, toks) == Search(cap, nodes, url, i, pos, params).index
    ensures Match(cap, toks, url, pos).Some?
    ensures Search(cap, nodes, url, i, pos, params).params == params.PushAll(Match(cap, toks, url, pos).value)
    decreases |url| - pos
  {
    if pos == |url| {
      toks := [];
    } else {
      var steps := Succs(cap, nodes, url, i, pos, params);
      var k := BestIsSome(cap, nodes, url, pos, steps);
      var s := steps[k];
      var rest := FindSound(cap, nodes, url, s.node, s.pos, s.params);
      toks := StepSound(cap, nodes, url, i, pos, params, s, rest);
    }
  }

  /** Completeness: no stored token sequence that consumes the rest of the URL has a smaller index. */
  lemma {:induction false} FindComplete(cap: Capturer, nodes: seq<Node>, url: string, i: nat, pos: nat, params: Params,
                                        toks: seq<Token>)
    requires Wf(nodes) && i < |nodes| && pos <= |url|
    requires Lookup(nodes, i, toks) != 0 && Match(cap, toks, url, pos).Some?
    ensures 0 < Search(cap, nodes, url, i, pos, params).index <= Lookup(nodes, i, toks)
    decreases |url| - pos
  {
    if pos < |url| {
      var s, rest := StepComplete(cap, nodes, url, i, pos, params, toks);
      FindComplete(cap, nodes, url, s.node, s.pos, s.params, rest);
      var steps := Succs(cap, nodes, url, i, pos, params);
      var k :| 0 <= k < |steps| && steps[k] == s;
      BestIsLeast(cap, nodes, url, pos, steps, k);
    }
  }

  /** What one parameter branch adds to the result so far. */
  ghost function AfterSlot(cap: Capturer, nodes: seq<Node>, url: string, i: nat, pos: nat, params: Params, k: nat,
                           found: Found): Found
    requires Wf(nodes) && i < |nodes| && pos < |url| && k < 5
  {
    assert WfNode(nodes, i);
    var c := nodes[i].paramChildren[k];
    if c == 0 then found else
    match cap(KindOfSlot(k), url, pos)
    case None => found
    case Some((e, v)) => Better(found, Search(cap, nodes, url, c, e, params.Push(v)))
  }

  lemma SlotStep(cap: Capturer, nodes: seq<Node>, url: string, i: nat, pos: nat, params: Params, k: nat)
    requires Wf(nodes) && i < |nodes| && pos < |url| && k < 5
    ensures Best(cap, nodes, url, pos, ParamSuccs(cap, nodes, url, i, pos, params, k + 1)) ==
            AfterSlot(cap, nodes, url, i, pos, params, k,
                      Best(cap, nodes, url, pos, ParamSuccs(cap, nodes, url, i, pos, params, k)))
  {
    assert WfNode(nodes, i);
    var steps := ParamSuccs(cap, nodes, url, i, pos, params, k);
    var more := ParamSucc(cap, nodes, url, i, pos, params, k);
    if more != [] {
      assert (steps + more)[..|steps + more| - 1] == steps;
    } else {
      assert steps + more == steps;
    }
  }

  lemma FindAtEnd(cap: Capturer, nodes: seq<Node>, url: string, i: nat, params: Params)
    requires Wf(nodes) && i < |nodes|
    ensures Search(cap, nodes, url, i, |url|, params) == Found(nodes[i].ruleIndex, params)
  {
  }

  lemma ChildrenFacts(nodes: seq<Node>, i: nat)
    requires Wf(nodes) && i < |nodes|
    ensures PrefixFree(nodes[i].children)
    ensures forall f :: f in nodes[i].children ==> f != "" && nodes[i].children[f] < |nodes|
  {
    assert WfNode(nodes, i);
  }

  lemma FitsAt(url: string, pos: nat, f: string)
    ensures HasAt(url, pos, f) ==> pos + |f| <= |url|
  {
  }

  lemma SlotsStart(cap: Capturer, nodes: seq<Node>, url: string, i: nat, pos: nat, params: Params)
    requires Wf(nodes) && i < |nodes| && pos < |url|
    ensures Best(cap, nodes, url, pos, ParamSuccs(cap, nodes, url, i, pos, params, 0)) == NOT_FOUND
  {
  }

  /** The literal branch comes last. */
  lemma LiteralStep(cap: Capturer, nodes: seq<Node>, url: string, i: nat, pos: nat, params: Params)
    requires Wf(nodes) && i < |nodes| && pos < |url|
    ensures WfNode(nodes, i)
    ensures Search(cap, nodes, url, i, pos, params) ==
            var found := Best(cap, nodes, url, pos, ParamSuccs(cap, nodes, url, i, pos, params, 5));
            match FragAt(nodes[i].children, url, pos)
            case None => found
            case Some(f) => Better(found, Search(cap, nodes, url, nodes[i].children[f], pos + |f|, params))
  {
    hide *;
    NodeOf(nodes, i);
    SearchIsBest(cap, nodes, url, i, pos, params);
    SuccsAre(cap, nodes, url, i, pos, params);
    var steps := ParamSuccs(cap, nodes, url, i, pos, params, 5);
    match FragAt(nodes[i].children, url, pos)
    case None =>
    case Some(f) => BestSnoc(cap, nodes, url, pos, steps, Succ(nodes[i].children[f], pos + |f|, params));
  }

  lemma NodeOf(nodes: seq<Node>, i: nat)
    requires Wf(nodes) && i < |nodes|
    ensures WfNode(nodes, i) && forall f :: f in nodes[i].children ==> nodes[i].children[f] < |nodes|
  {
    assert WfNode(nodes, i);
  }

  lemma SuccsAre(cap: Capturer, nodes: seq<Node>, url: string, i: nat, pos: nat, params: Params)
    requires Wf(nodes) && i < |nodes| && pos < |url|
    ensures Succs(cap, nodes, url, i, pos, params) ==
            var steps := ParamSuccs(cap, nodes, url, i, pos, params, 5);
            match FragAt(nodes[i].children, url, pos)
            case None => steps
            case Some(f) => steps + [Succ(nodes[i].children[f], pos + |f|, params)]
  {
    hide ParamSuccs, FragAt, Wf;
    var steps := ParamSuccs(cap, nodes, url, i, pos, params, 5);
    assert steps + [] == steps;
  }

  lemma SearchIsBest(cap: Capturer, nodes: seq<Node>, url: string, i: nat, pos: nat, params: Params)
    requires Wf(nodes) && i < |nodes| && pos < |url|
    ensures Search(cap, nodes, url, i, pos, params) == Best(cap, nodes, url, pos, Succs(cap, nodes, url, i, pos, params))
  {
    hide Best, Succs;
  }

  lemma BestSnoc(cap: Capturer, nodes: seq<Node>, url: string, pos: nat, steps: seq<Succ>, last: Succ)
    requires Wf(nodes) && pos <= |url| && Ahead(nodes, url, pos, steps) && Ahead(nodes, url, pos, steps + [last])
    requires last.node < |nodes| && last.pos <= |url|
    ensures Best(cap, nodes, url, pos, steps + [last]) ==
            Better(Best(cap, nodes, url, pos, steps), Search(cap, nodes, url, last.node, last.pos, last.params))
  {
    hide Search, Wf;
    assert (steps + [last])[..|steps + [last]| - 1] == steps;
  }
}
