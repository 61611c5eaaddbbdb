/** Optional results, used where the source returns a sentinel or throws. */
module Options {
  datatype Option<+T> = None | Some(value: T)
}

/** Rule text: literal characters and typed placeholders (http/common.h, http/routing.h, http/utility.h). */
module Patterns {
  import opened Options

  datatype Kind = Int | Uint | Double | Str | Path {
    /** Position of the kind in `paramChildrens`. */
    function Slot(): (k: nat)
      ensures k < 5
    {
      match this
      case Int => 0
      case Uint => 1
      case Double => 2
      case Str => 3
      case Path => 4
    }
  }

  function KindOfSlot(k: nat): (r: Kind)
    requires k < 5
    ensures r.Slot() == k
  {
    if k == 0 then Int else if k == 1 then Uint else if k == 2 then Double else if k == 3 then Str else Path
  }

  datatype Token = Lit(c: char) | Param(kind: Kind)

  /** `w` occurs in `s` at `i`. */
  predicate HasAt(s: string, i: nat, w: string) {
    i + |w| <= |s| && forall k :: 0 <= k < |w| ==> s[i + k] == w[k]
  }

  /** The seven spellings of a placeholder, in the order `Trie::add` tries them. */
  function TraitText(t: nat): (w: string)
    requires t < 7
    ensures w != "" && w[0] == '<' && w[|w| - 1] == '>'
  {
    if t == 0 then "<int>" else if t == 1 then "<uint>" else if t == 2 then "<float>" else if t == 3 then "<double>"
    else if t == 4 then "<str>" else if t == 5 then "<string>" else "<path>"
  }

  function TraitKind(t: nat): Kind
    requires t < 7
  {
    if t == 0 then Int else if t == 1 then Uint else if t <= 3 then Double else if t <= 5 then Str else Path
  }

  /** The first spelling at or after `t` that stands at position `i`; 7 when there is none. */
  function FirstTrait(s: string, i: nat, t: nat): (r: nat)
    requires t <= 7
    ensures t <= r <= 7
    ensures r < 7 ==> HasAt(s, i, TraitText(r))
    ensures forall u :: t <= u < r ==> !HasAt(s, i, TraitText(u))
    decreases 7 - t
  {
    if t == 7 || HasAt(s, i, TraitText(t)) then t else FirstTrait(s, i, t + 1)
  }

  /** The token at position `i` and the position after it; None when a '<' there starts no known placeholder. */
  function NextToken(s: string, i: nat): (r: Option<(Token, nat)>)
    requires i < |s|
    ensures r.Some? ==> i < r.value.1 <= |s|
    ensures s[i] != '<' ==> r == Some((Lit(s[i]), i + 1))
  {
    if s[i] == '<' then
      var t := FirstTrait(s, i, 0);
      if t == 7 then None else Some((Param(TraitKind(t)), i + |TraitText(t)|))
    else Some((Lit(s[i]), i + 1))
  }

  /** The tokens of `s` from position `i` on, when there is one at every step. */
  function TokensFrom(s: string, i: nat): (r: Option<seq<Token>>)
    requires i <= |s|
    decreases |s| - i
  {
    if i == |s| then Some([]) else
    match NextToken(s, i)
    case None => None
    case Some((tok, j)) =>
      match TokensFrom(s, j)
      case None => None
      case Some(rest) => Some([tok] + rest)
  }

  function Tokens(s: string): Option<seq<Token>> {
    TokensFrom(s, 0)
  }

  /** The literal tokens spelling `f`. */
  function Lits(f: string): (r: seq<Token>)
    ensures |r| == |f| && forall k :: 0 <= k < |f| ==> r[k] == Lit(f[k])
  {
    seq(|f|, k requires 0 <= k < |f| => Lit(f[k]))
  }

  /** The placeholder kinds of a token sequence, in order. */
  function Kinds(toks: seq<Token>): seq<Kind> {
    if toks == [] then []
    else match toks[0]
      case Lit(_) => Kinds(toks[1..])
      case Param(k) => [k] + Kinds(toks[1..])
  }

  lemma FirstToken(s: string)
    requires Tokens(s).Some?
    ensures TokensFrom(s, 0).Some? && Tokens(s) == Some([] + TokensFrom(s, 0).value)
  {
    assert [] + TokensFrom(s, 0).value == TokensFrom(s, 0).value;
  }

  lemma NoTokensLeft(s: string)
    ensures TokensFrom(s, |s|) == Some([])
  {
  }

  /** Reading one more token. */
  lemma TokenStep(s: string, i: nat, path: seq<Token>)
    requires i < |s| && TokensFrom(s, i).Some? && Tokens(s) == Some(path + TokensFrom(s, i).value)
    ensures NextToken(s, i).Some?
    ensures var (tok, j) := NextToken(s, i).value;
            TokensFrom(s, j).Some? && Tokens(s) == Some(path + [tok] + TokensFrom(s, j).value)
  {
    var (tok, j) := NextToken(s, i).value;
    assert path + ([tok] + TokensFrom(s, j).value) == path + [tok] + TokensFrom(s, j).value;
  }

  /** A rule ending in '/' has a literal slash as its last token, and dropping the character drops
      just that token: what the "directory case" of the router relies on. */
  lemma {:induction false} DropSlash(s: string, i: nat)
    requires i < |s| && s[|s| - 1] == '/'
    requires TokensFrom(s, i).Some?
    ensures i <= |s| - 1 && TokensFrom(s[..|s| - 1], i).Some?
    ensures TokensFrom(s, i).value == TokensFrom(s[..|s| - 1], i).value + [Lit('/')]
    decreases |s| - i
  {
    var s' := s[..|s| - 1];
    if i == |s| - 1 {
      assert TokensFrom(s, i + 1) == Some([]);
      assert TokensFrom(s, i).value == [Lit('/')];
    } else {
      DropSlashStep(s, i);
      DropSlash(s, NextToken(s, i).value.1);
    }
  }

  lemma DropSlashStep(s: string, i: nat)
    requires i < |s| - 1 && s[|s| - 1] == '/' && NextToken(s, i).Some?
    ensures NextToken(s[..|s| - 1], i) == NextToken(s, i) && NextToken(s, i).value.1 < |s|
  {
    hide HasAt, TraitText, TraitKind, FirstTrait;
    if s[i] == '<' {
      SameTrait(s, i, 0);
      SpellingFits(s, i, TraitText(FirstTrait(s, i, 0)));
      SpellingEnds(s[..|s| - 1], i, TraitText(FirstTrait(s, i, 0)));
    }
  }

  lemma {:induction false} SameTrait(s: string, i: nat, t: nat)
    requires s != "" && s[|s| - 1] == '/' && t <= 7
    ensures FirstTrait(s[..|s| - 1], i, t) == FirstTrait(s, i, t)
    decreases 7 - t
  {
    hide HasAt, TraitText;
    if t < 7 {
      SpellingFits(s, i, TraitText(t));
      SameTrait(s, i, t + 1);
    }
  }

  lemma SpellingEnds(s: string, i: nat, w: string)
    requires HasAt(s, i, w)
    ensures i + |w| <= |s|
  {
  }

  lemma SpellingFits(s: string, i: nat, w: string)
    requires s != "" && w != "" && s[|s| - 1] != w[|w| - 1]
    ensures HasAt(s[..|s| - 1], i, w) <==> HasAt(s, i, w)
  {
    if HasAt(s, i, w) {
      assert s[i + |w| - 1] == w[|w| - 1];
    }
  }

  /** The spellings of the placeholders, and the kind of each. */
  lemma SpellingsRead(s: string, i: nat, w: string)
    requires HasAt(s, i, w)
    ensures w == "<int>" ==> i < |s| && NextToken(s, i) == Some((Param(Int), i + 5))
    ensures w == "<uint>" ==> i < |s| && NextToken(s, i) == Some((Param(Uint), i + 6))
    ensures w == "<float>" ==> i < |s| && NextToken(s, i) == Some((Param(Double), i + 7))
    ensures w == "<double>" ==> i < |s| && NextToken(s, i) == Some((Param(Double), i + 8))
    ensures w == "<str>" ==> i < |s| && NextToken(s, i) == Some((Param(Str), i + 5))
    ensures w == "<string>" ==> i < |s| && NextToken(s, i) == Some((Param(Str), i + 8))
    ensures w == "<path>" ==> i < |s| && NextToken(s, i) == Some((Param(Path), i + 6))
  {
    var t := FirstTrait(s, i, 0);
    OneSpelling(s, i, w, t);
  }

  /** Only one spelling stands at a position. */
  lemma OneSpelling(s: string, i: nat, w: string, t: nat)
    requires HasAt(s, i, w) && t == FirstTrait(s, i, 0)
    ensures w in {"<int>", "<uint>", "<float>", "<double>", "<str>", "<string>", "<path>"} ==> t < 7 && TraitText(t) == w
  {
    if u: nat :| u < 7 && TraitText(u) == w {
      forall v: nat | v < u
        ensures !HasAt(s, i, TraitText(v))
      {
        SpellingsDiffer(v, u);
        var k := FirstDifference(v, u);
        assert s[i + k] == w[k];
      }
    }
    assert TraitText(0) == "<int>" && TraitText(1) == "<uint>" && TraitText(2) == "<float>" && TraitText(3) == "<double>";
    assert TraitText(4) == "<str>" && TraitText(5) == "<string>" && TraitText(6) == "<path>";
  }

  function FirstDifference(t: nat, u: nat): nat {
    if t == 4 && u == 5 then 4 else 1
  }

  lemma SpellingsDiffer(t: nat, u: nat)
    requires t < u < 7
    ensures
      var k := FirstDifference(t, u);
      k < |TraitText(t)| && k < |TraitText(u)| && TraitText(t)[k] != TraitText(u)[k]
  {
  }
}
