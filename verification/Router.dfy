/** The router: one trie per HTTP verb, privileges, and the answer to a request (http/routing.h `Router`,
    redfish-core/include/privileges.hpp). */
module Routers {
  import opened Options
  import opened Powers
  import opened Patterns
  import opened Captures
  import opened TrieModel
  import opened TrieBuild
  import opened TrieNormal
  import opened Tries
  import opened Tags

  /** Number of verbs in the table: everything below `unlink`. */
  const VERBS: nat := 33

  /** A set of privileges, one bit per privilege name. */
  type Privileges = bv32

  const LOGIN: Privileges := 1
  const CONFIGURE_MANAGER: Privileges := 2
  const CONFIGURE_COMPONENTS: Privileges := 4
  const CONFIGURE_SELF: Privileges := 8
  const CONFIGURE_USERS: Privileges := 16

  predicate IsSuperset(user: Privileges, required: Privileges) {
    user & required == required
  }

  /** `getUserPrivileges`. */
  function UserPrivileges(role: string): Privileges {
    if role == "priv-admin" then
      LOGIN | CONFIGURE_MANAGER | CONFIGURE_SELF | CONFIGURE_USERS | CONFIGURE_COMPONENTS
    else if role == "priv-operator" then LOGIN | CONFIGURE_SELF | CONFIGURE_COMPONENTS
    else LOGIN | CONFIGURE_SELF
  }

  /** A registered rule: its text, the bit field of its verbs, and the alternative privilege sets it asks for. */
  datatype Rule = Rule(text: string, methods: nat, privileges: seq<Privileges>)

  /** `field & bit` for a bit that is a power of two, or 0 after the shift has dropped it. */
  predicate BitSet(field: nat, bit: nat) {
    bit != 0 && (field / bit) % 2 == 1
  }

  /** Whether a rule answers a verb: the verbs from 32 on have no bit in the 32-bit mask. */
  predicate HasMethod(rule: Rule, verb: nat) {
    verb < 32 && BitSet(rule.methods, Pow2(verb))
  }

  predicate IsDirectory(text: string) {
    |text| > 2 && text[|text| - 1] == '/'
  }

  /** Does the rule accept the URL, with which values? A rule ending in '/' also accepts it without the slash. */
  ghost function RuleMatch(cap: Capturer, text: string, url: string): Option<seq<Value>>
    requires Tokens(text).Some?
  {
    match Match(cap, Tokens(text).value, url, 0)
    case Some(vs) => Some(vs)
    case None =>
      if IsDirectory(text) then
        DropSlash(text, 0);
        Match(cap, Tokens(text[..|text| - 1]).value, url, 0)
      else None
  }

  ghost predicate Scannable(rules: seq<Rule>) {
    forall k :: 0 <= k < |rules| ==> Tokens(rules[k].text).Some?
  }

  /** The reference: the first registered rule that answers the verb and accepts the URL. */
  ghost function FirstMatch(cap: Capturer, all: seq<Rule>, verb: nat, url: string): Option<(Rule, seq<Value>)>
    requires Scannable(all)
    decreases |all|
  {
    if all == [] then None
    else if HasMethod(all[0], verb) && RuleMatch(cap, all[0].text, url).Some?
    then Some((all[0], RuleMatch(cap, all[0].text, url).value))
    else FirstMatch(cap, all[1..], verb, url)
  }

  predicate Allowed(rule: Rule, user: Privileges) {
    rule.privileges == [] || exists k :: 0 <= k < |rule.privileges| && IsSuperset(user, rule.privileges[k])
  }

  /** What the router does with a request. The last three stand for branches that the theorems show unreachable. */
  datatype Decision =
    | NoResponse
    | NotFound
    | MethodNotAllowed
    | Forbidden
    | Dispatch(rule: Rule, params: Params)
    | Corrupted
    | Redirect
    | MethodMismatch

  /** The answer, said over the list of registered rules alone. */
  ghost function Decide(cap: Capturer, all: seq<Rule>, verb: nat, url: string, user: Privileges): Decision
    requires Scannable(all)
  {
    if verb >= VERBS then NoResponse else
    match FirstMatch(cap, all, verb, url)
    case Some((rule, vs)) => if Allowed(rule, user) then Dispatch(rule, NO_PARAMS.PushAll(vs)) else Forbidden
    case None =>
      if exists v: nat :: v < VERBS && FirstMatch(cap, all, v, url).Some? then MethodNotAllowed else NotFound
  }

  /** The rules that answer a verb, in order of registration. */
  ghost function ForVerb(all: seq<Rule>, verb: nat): (r: seq<Rule>)
    ensures forall k :: 0 <= k < |r| ==> r[k] in all && HasMethod(r[k], verb)
  {
    if all == [] then []
    else
      var front := ForVerb(all[..|all| - 1], verb);
      if HasMethod(all[|all| - 1], verb) then front + [all[|all| - 1]] else front
  }

  /** The token sequences stored for a rule. */
  ghost predicate Accepts(text: string, toks: seq<Token>) {
    Tokens(text) == Some(toks) || (IsDirectory(text) && Tokens(text[..|text| - 1]) == Some(toks))
  }

  /** The table of one verb: rule `j` is stored under index `j + 2`, and nothing else is stored. */
  ghost predicate TableOf(table: map<seq<Token>, nat>, rules: seq<Rule>) {
    && (forall toks :: toks in table ==> 2 <= table[toks] < |rules| + 2 && Accepts(rules[table[toks] - 2].text, toks))
    && (forall j, toks {:trigger Accepts(rules[j].text, toks)} ::
          0 <= j < |rules| && Accepts(rules[j].text, toks) ==> toks in table && table[toks] == j + 2)
  }

  /** The reference for one verb. */
  ghost function FirstOf(cap: Capturer, rules: seq<Rule>, url: string): Option<(nat, seq<Value>)>
    requires Scannable(rules)
    decreases |rules|
  {
    if rules == [] then None
    else if FirstOf(cap, rules[..|rules| - 1], url).Some? then FirstOf(cap, rules[..|rules| - 1], url)
    else
      var last := |rules| - 1;
      match RuleMatch(cap, rules[last].text, url)
      case None => None
      case Some(vs) => Some((last, vs))
  }

  lemma {:induction false} FirstOfIsLeast(cap: Capturer, rules: seq<Rule>, url: string)
    requires Scannable(rules)
    ensures match FirstOf(cap, rules, url)
            case None => forall j :: 0 <= j < |rules| ==> RuleMatch(cap, rules[j].text, url).None?
            case Some((k, vs)) =>
              && k < |rules| && RuleMatch(cap, rules[k].text, url) == Some(vs)
              && forall j :: 0 <= j < k ==> RuleMatch(cap, rules[j].text, url).None?
    decreases |rules|
  {
    if rules != [] {
      hide RuleMatch;
      var front := rules[..|rules| - 1];
      FirstOfIsLeast(cap, front, url);
      assert forall j :: 0 <= j < |front| ==> front[j] == rules[j];
    }
  }

  /** A rule accepts a URL exactly when one of its stored sequences does, and then with that sequence's values. */
  lemma MatchAccepts(cap: Capturer, text: string, toks: seq<Token>, url: string)
    requires Tokens(text).Some? && Accepts(text, toks) && Match(cap, toks, url, 0).Some?
    ensures RuleMatch(cap, text, url) == Match(cap, toks, url, 0)
  {
    if Tokens(text) != Some(toks) {
      DropSlash(text, 0);
      assert Tokens(text).value == toks + [Lit('/')];
      SlashExclusive(cap, toks, url, 0);
    }
  }

  lemma AcceptsMatch(cap: Capturer, text: string, url: string) returns (toks: seq<Token>)
    requires Tokens(text).Some? && RuleMatch(cap, text, url).Some?
    ensures Accepts(text, toks) && Match(cap, toks, url, 0) == RuleMatch(cap, text, url)
  {
    toks := Tokens(text).value;
    if Match(cap, toks, url, 0).None? {
      DropSlash(text, 0);
      toks := Tokens(text[..|text| - 1]).value;
    }
  }

  /** The best match in a verb's table is the verb's first rule that accepts the URL. */
  lemma BestIsFirst(cap: Capturer, table: map<seq<Token>, nat>, rules: seq<Rule>, url: string, r: Found)
    requires Scannable(rules) && TableOf(table, rules) && IsBestMatch(cap, table, url, r)
    ensures match FirstOf(cap, rules, url)
            case None => r == NOT_FOUND
            case Some((k, vs)) => r == Found(k + 2, NO_PARAMS.PushAll(vs))
  {
    hide RuleMatch, FirstOf, Match, Accepts, Tokens;
    FirstOfIsLeast(cap, rules, url);
    match FirstOf(cap, rules, url)
    case None =>
      if r.index != 0 {
        var toks :| toks in table && table[toks] == r.index && Match(cap, toks, url, 0).Some?;
        MatchAccepts(cap, rules[r.index - 2].text, toks, url);
      }
    case Some((k, vs)) =>
      var toks := AcceptsMatch(cap, rules[k].text, url);
      assert table[toks] == k + 2;
      assert 0 < r.index <= k + 2;
      var toks' :| && toks' in table && table[toks'] == r.index && Match(cap, toks', url, 0).Some?
                   && r.params == NO_PARAMS.PushAll(Match(cap, toks', url, 0).value);
      MatchAccepts(cap, rules[r.index - 2].text, toks', url);
  }

  /** A search result stands for the expected rule and values, by index into the verb's rules. */
  ghost predicate Answers(want: Option<(Rule, seq<Value>)>, rules: seq<Option<Rule>>, verb: nat, r: Found) {
    if want.None? then r == NOT_FOUND
    else
      && 2 <= r.index < |rules| && rules[r.index] == Some(want.value.0) && HasMethod(want.value.0, verb)
      && r.params == NO_PARAMS.PushAll(want.value.1)
  }

  function Somes(rules: seq<Rule>): (r: seq<Option<Rule>>)
    ensures |r| == |rules| && forall k :: 0 <= k < |r| ==> r[k] == Some(rules[k])
  {
    seq(|rules|, k requires 0 <= k < |rules| => Some(rules[k]))
  }

  /** What a search of the verb's trie says about the registered rules. */
  lemma VerbResult(cap: Capturer, table: map<seq<Token>, nat>, all: seq<Rule>, verb: nat, url: string, r: Found)
    requires Scannable(all) && TableOf(table, ForVerb(all, verb)) && IsBestMatch(cap, table, url, r)
    ensures Answers(FirstMatch(cap, all, verb, url), [None, None] + Somes(ForVerb(all, verb)), verb, r)
  {
    hide TableOf, IsBestMatch, FirstMatch, FirstOf, HasMethod, ForVerb, RuleMatch, Somes, Params.PushAll;
    var rules := ForVerb(all, verb);
    FilterFirst(cap, all, verb, url);
    BestIsFirst(cap, table, rules, url, r);
    FirstOfIsLeast(cap, rules, url);
    var first := FirstOf(cap, rules, url);
    if first.Some? {
      IndexedRule(all, verb, first.value.0);
    }
  }

  /** A verb's rules are indexed from 2 on. */
  lemma IndexedRule(all: seq<Rule>, verb: nat, k: nat)
    requires k < |ForVerb(all, verb)|
    ensures HasMethod(ForVerb(all, verb)[k], verb)
    ensures
      var rules := [None, None] + Somes(ForVerb(all, verb));
      k + 2 < |rules| && rules[k + 2] == Some(ForVerb(all, verb)[k])
  {
    ForVerbHas(all, verb);
    assert ForVerb(all, verb)[k] in ForVerb(all, verb);
  }

  /** Filtering by verb and then taking the first match is taking the first match that answers the verb. */
  lemma {:induction false} FilterFirst(cap: Capturer, all: seq<Rule>, verb: nat, url: string)
    requires Scannable(all)
    ensures Scannable(ForVerb(all, verb))
    ensures FirstMatch(cap, all, verb, url) ==
            match FirstOf(cap, ForVerb(all, verb), url)
            case None => None
            case Some((k, vs)) => (FirstOfIsLeast(cap, ForVerb(all, verb), url); Some((ForVerb(all, verb)[k], vs)))
    decreases |all|
  {
    if all != [] {
      var front, last := all[..|all| - 1], all[|all| - 1];
      FilterFirst(cap, front, verb, url);
      FirstMatchSnoc(cap, front, last, verb, url);
      assert front + [last] == all;
      if HasMethod(last, verb) {
        var rules := ForVerb(front, verb);
        FirstOfIsLeast(cap, rules, url);
        assert (rules + [last])[..|rules + [last]| - 1] == rules;
      }
    }
  }

  lemma {:induction false} FirstMatchSnoc(cap: Capturer, all: seq<Rule>, last: Rule, verb: nat, url: string)
    requires Scannable(all + [last]) && Scannable(all) && Tokens(last.text).Some?
    ensures FirstMatch(cap, all + [last], verb, url) ==
            if FirstMatch(cap, all, verb, url).Some? then FirstMatch(cap, all, verb, url)
            else if HasMethod(last, verb) && RuleMatch(cap, last.text, url).Some?
            then Some((last, RuleMatch(cap, last.text, url).value))
            else None
    decreases |all|
  {
    var more := all + [last];
    if all == [] {
      assert more[1..] == [];
    } else {
      assert more[1..] == all[1..] + [last];
      FirstMatchSnoc(cap, all[1..], last, verb, url);
    }
  }

  /** The rules and the trie of one verb; the first two indices are reserved. */
  class PerMethod {
    var rules: seq<Option<Rule>>
    const trie: Trie

    ghost predicate Serves(list: seq<Rule>)
      reads this, trie
    {
      trie.Valid() && TableOf(trie.rules, list) && rules == [None, None] + Somes(list)
    }

    constructor ()
      ensures fresh(trie) && trie.Growing() && Serves([])
    {
      rules := [None, None];
      trie := new Trie();
    }

    /** Registers a rule for this verb; false where adding it to the trie throws. */
    method AddRule(rule: Rule, ghost list: seq<Rule>) returns (ok: bool)
      requires Serves(list) && trie.Growing() && Tokens(rule.text).Some?
      modifies this, trie
      ensures trie.Growing()
      ensures ok <==> forall e :: e in list ==> !SharesText(e, rule)
      ensures ok ==> Serves(list + [rule])
    {
      hide *;
      ghost var before := trie.rules;
      ServesFacts(list);
      SharedInTable(before, list, rule);
      rules := rules + [Some(rule)];
      ok := trie.Add(rule.text, |rules| - 1);
      if ok {
        var directory := |rule.text| > 2 && rule.text[|rule.text| - 1] == '/';
        IsDirectoryFacts(rule.text);
        if directory {
          ok := trie.Add(rule.text[..|rule.text| - 1], |rules| - 1);
        }
        if ok {
          TableAdded(before, list, rule);
          ServesMore(list, rule);
        }
      }
    }

    method Compress(ghost list: seq<Rule>) returns (ok: bool)
      requires Serves(list) && trie.Growing() && Scannable(list)
      modifies trie
      ensures Serves(list)
      ensures ok <==> PlainStarts(list)
      ensures trie.nodes != [] && Wf(trie.nodes) && (ok ==> Normal(trie.nodes, 0))
    {
      hide Built, TableOf, Normal, SameMeaning, HeadCovered, Scannable, BeginPlain, PlainStarts;
      TableIsNonZero(trie.rules, list);
      HeadIsSimple(trie.nodes, trie.rules);
      PlainTable(trie.rules, list);
      ok := trie.Validate();
    }

    /** The search for a request, said over the registered rules. */
    method Search(d: Strtod, url: string, ghost all: seq<Rule>, ghost verb: nat) returns (r: Found)
      requires Scannable(all) && Serves(ForVerb(all, verb))
      ensures Answers(FirstMatch(CapturesOf(d), all, verb, url), rules, verb, r)
    {
      hide TableOf, IsBestMatch, FirstMatch, HasMethod, CapturesOf, Holds, Wf;
      r := trie.Find(d, url);
      VerbResult(CapturesOf(d), trie.rules, all, verb, url, r);
    }

    lemma ServesFacts(list: seq<Rule>)
      requires Serves(list)
      ensures TableOf(trie.rules, list) && rules == [None, None] + Somes(list)
    {
    }

    lemma ServesMore(list: seq<Rule>, rule: Rule)
      requires trie.Growing() && TableOf(trie.rules, list + [rule])
      requires rules == [None, None] + Somes(list) + [Some(rule)]
      ensures Serves(list + [rule])
    {
      assert Somes(list + [rule]) == Somes(list) + [Some(rule)];
    }
  }

  /** A rule text that is neither empty nor begins with a placeholder. */
  predicate PlainStart(text: string) {
    text != "" && text[0] != '<'
  }

  ghost predicate PlainStarts(list: seq<Rule>) {
    forall r :: r in list ==> PlainStart(r.text)
  }

  lemma TableIsNonZero(table: map<seq<Token>, nat>, list: seq<Rule>)
    requires TableOf(table, list)
    ensures forall toks :: toks in table ==> table[toks] != 0
  {
  }

  /** The first token of a text tells how it begins. */
  lemma FirstOfTokens(text: string)
    requires Tokens(text).Some?
    ensures PlainStart(text) <==> Tokens(text).value != [] && Tokens(text).value[0].Lit?
  {
  }

  /** The stored sequences begin plainly exactly when the rules do. */
  lemma PlainTable(table: map<seq<Token>, nat>, list: seq<Rule>)
    requires TableOf(table, list) && Scannable(list)
    ensures BeginPlain(table) <==> PlainStarts(list)
  {
    hide Tokens;
    if BeginPlain(table) {
      forall r | r in list
        ensures PlainStart(r.text)
      {
        FirstOfTokens(r.text);
        var j :| 0 <= j < |list| && list[j] == r;
        assert Accepts(list[j].text, Tokens(r.text).value);
      }
    }
    if PlainStarts(list) {
      forall toks: seq<Token> | toks in table
        ensures toks != [] && toks[0].Lit?
      {
        var text := list[table[toks] - 2].text;
        assert list[table[toks] - 2] in list;
        FirstOfTokens(text);
        if Tokens(text) != Some(toks) {
          FirstOfTokens(text[..|text| - 1]);
        }
      }
    }
  }

  lemma IsDirectoryFacts(text: string)
    requires Tokens(text).Some?
    ensures IsDirectory(text) <==> |text| > 2 && text[|text| - 1] == '/'
    ensures IsDirectory(text) ==> Tokens(text[..|text| - 1]).Some?
  {
    if IsDirectory(text) { DropSlash(text, 0); }
  }

  /** Two rules store a token sequence in common. */
  ghost predicate SharesText(e: Rule, rule: Rule) {
    exists toks :: Accepts(e.text, toks) && Accepts(rule.text, toks)
  }

  /** Adding a rule hits an existing handler exactly when an earlier rule of the verb shares a sequence with it. */
  lemma SharedInTable(table: map<seq<Token>, nat>, list: seq<Rule>, rule: Rule)
    requires TableOf(table, list) && Tokens(rule.text).Some?
    ensures var toks := Tokens(rule.text).value;
            var free := RuleAt(table, toks) == 0 &&
                        (IsDirectory(rule.text) ==>
                           && Tokens(rule.text[..|rule.text| - 1]).Some?
                           && RuleAt(table[toks := |list| + 2], Tokens(rule.text[..|rule.text| - 1]).value) == 0);
            free <==> forall e :: e in list ==> !SharesText(e, rule)
  {
    hide Tokens;
    var toks := Tokens(rule.text).value;
    assert forall t :: RuleAt(table, t) == 0 <==> t !in table;
    SharedBy(table, list, rule);
    assert Accepts(rule.text, toks);
    if IsDirectory(rule.text) {
      SlashDiffers(rule.text);
      assert Accepts(rule.text, Tokens(rule.text[..|rule.text| - 1]).value);
    }
  }

  lemma SlashDiffers(text: string)
    requires Tokens(text).Some? && IsDirectory(text)
    ensures Tokens(text[..|text| - 1]).Some? && Tokens(text[..|text| - 1]) != Tokens(text)
  {
    DropSlash(text, 0);
  }

  lemma SharedBy(table: map<seq<Token>, nat>, list: seq<Rule>, rule: Rule)
    requires TableOf(table, list)
    ensures (forall e :: e in list ==> !SharesText(e, rule)) <==> (forall t :: Accepts(rule.text, t) ==> t !in table)
  {
    hide Accepts;
    if t :| Accepts(rule.text, t) && t in table {
      var e := list[table[t] - 2];
      assert Accepts(e.text, t) && SharesText(e, rule);
    }
    if e :| e in list && SharesText(e, rule) {
      var t :| Accepts(e.text, t) && Accepts(rule.text, t);
      var j :| 0 <= j < |list| && list[j] == e;
      assert Accepts(list[j].text, t);
    }
  }

  /** The table after the one or two additions for a rule. */
  ghost function WithRule(table: map<seq<Token>, nat>, index: nat, text: string): map<seq<Token>, nat>
    requires Tokens(text).Some?
  {
    var once := table[Tokens(text).value := index];
    if IsDirectory(text) then
      DropSlash(text, 0);
      once[Tokens(text[..|text| - 1]).value := index]
    else once
  }

  lemma TableAdded(table: map<seq<Token>, nat>, list: seq<Rule>, rule: Rule)
    requires TableOf(table, list) && Tokens(rule.text).Some? && RuleAt(table, Tokens(rule.text).value) == 0
    requires IsDirectory(rule.text) ==>
               && Tokens(rule.text[..|rule.text| - 1]).Some?
               && RuleAt(table[Tokens(rule.text).value := |list| + 2], Tokens(rule.text[..|rule.text| - 1]).value) == 0
    ensures TableOf(WithRule(table, |list| + 2, rule.text), list + [rule])
    ensures WithRule(table, |list| + 2, rule.text) ==
            if IsDirectory(rule.text)
            then table[Tokens(rule.text).value := |list| + 2][Tokens(rule.text[..|rule.text| - 1]).value := |list| + 2]
            else table[Tokens(rule.text).value := |list| + 2]
  {
    hide Tokens;
    TableAdd(table, list, rule, WithRule(table, |list| + 2, rule.text));
  }

  lemma TableAdd(table: map<seq<Token>, nat>, list: seq<Rule>, rule: Rule, table': map<seq<Token>, nat>)
    requires TableOf(table, list) && Tokens(rule.text).Some?
    requires forall toks :: Accepts(rule.text, toks) ==> RuleAt(table, toks) == 0
    requires forall toks :: toks in table' <==> toks in table || Accepts(rule.text, toks)
    requires forall toks :: toks in table' ==>
               table'[toks] == if Accepts(rule.text, toks) then |list| + 2 else table[toks]
    ensures TableOf(table', list + [rule])
  {
    hide Accepts, Tokens;
    var more := list + [rule];
    assert forall j :: 0 <= j < |list| ==> more[j] == list[j];
  }

  /** The bit of the next verb: the 32-bit shift drops it after verb 31. */
  function MethodBit(verb: nat): nat {
    if verb < 32 then Pow2(verb) else 0
  }

  lemma FirstMethodBit()
    ensures MethodBit(0) == 1
  {
  }

  lemma BitIsMethod(rule: Rule, verb: nat)
    ensures BitSet(rule.methods, MethodBit(verb)) <==> HasMethod(rule, verb)
  {
  }

  lemma NextMethodBit(verb: nat)
    requires verb < VERBS
    ensures MethodBit(verb + 1) == (MethodBit(verb) * 2) % 0x1_0000_0000
  {
    LargePowers();
    if verb < 31 {
      Pow2Grows(verb + 1, 31);
    }
  }

  lemma ForVerbSnoc(all: seq<Rule>, rule: Rule, verb: nat)
    ensures ForVerb(all + [rule], verb) == if HasMethod(rule, verb) then ForVerb(all, verb) + [rule] else ForVerb(all, verb)
  {
    assert (all + [rule])[..|all + [rule]| - 1] == all;
  }

  lemma {:induction false} ForVerbHas(all: seq<Rule>, verb: nat)
    ensures forall e :: e in ForVerb(all, verb) <==> e in all && HasMethod(e, verb)
    decreases |all|
  {
    if all != [] {
      ForVerbHas(all[..|all| - 1], verb);
      assert all == all[..|all| - 1] + [all[|all| - 1]];
    }
  }

  /** Two rules that answer a common verb and store a token sequence in common. */
  ghost predicate Clash(e: Rule, rule: Rule) {
    (exists v :: 0 <= v < VERBS && HasMethod(e, v) && HasMethod(rule, v)) && SharesText(e, rule)
  }

  ghost predicate ClashFree(all: seq<Rule>) {
    forall i, j :: 0 <= i < j < |all| ==> !Clash(all[i], all[j])
  }

  lemma ScannableFor(all: seq<Rule>, verb: nat)
    requires Scannable(all)
    ensures Scannable(ForVerb(all, verb))
  {
    hide Tokens;
    ForVerbHas(all, verb);
    forall k | 0 <= k < |ForVerb(all, verb)|
      ensures Tokens(ForVerb(all, verb)[k].text).Some?
    {
      assert ForVerb(all, verb)[k] in all;
    }
  }

  lemma ClashFreeStart(all: seq<Rule>)
    ensures ClashFree(all[..0])
  {
  }

  /** Adding rule `k` to the ones before it. */
  lemma ClashFreeNext(all: seq<Rule>, k: nat)
    requires k < |all| && ClashFree(all[..k])
    ensures (forall e :: e in all[..k] ==> !Clash(e, all[k])) ==> ClashFree(all[..k + 1])
    ensures !(forall e :: e in all[..k] ==> !Clash(e, all[k])) ==> !ClashFree(all)
  {
    hide Clash;
    var front, more := all[..k], all[..k + 1];
    if forall e :: e in front ==> !Clash(e, all[k]) {
      forall i, j | 0 <= i < j < |more|
        ensures !Clash(more[i], more[j])
      {
        if j < k {
          assert !Clash(front[i], front[j]);
        } else {
          assert front[i] in front;
        }
      }
    } else {
      var e :| e in front && Clash(e, all[k]);
      var i :| 0 <= i < k && front[i] == e;
      assert Clash(all[i], all[k]);
    }
  }

  class Router {
    const perMethods: seq<PerMethod>

    ghost predicate Shape() {
      && |perMethods| == VERBS
      && (forall u, v :: 0 <= u < v < VERBS ==>
            perMethods[u] != perMethods[v] && perMethods[u].trie != perMethods[v].trie)
    }

    ghost function Tries(): set<Trie> {
      set p | p in perMethods :: p.trie
    }

    /** The verbs from `lo` up to `hi` serve the rules registered for them. */
    ghost predicate ServesRange(all: seq<Rule>, lo: nat, hi: nat)
      requires Shape()
      reads perMethods, Tries()
    {
      forall v :: lo <= v < hi && v < VERBS ==> perMethods[v].Serves(ForVerb(all, v))
    }

    ghost predicate AllGrowing()
      requires Shape()
      reads perMethods, Tries()
    {
      forall v :: 0 <= v < VERBS ==> perMethods[v].trie.Growing()
    }

    ghost predicate Serves(all: seq<Rule>)
      reads perMethods, Tries()
    {
      Shape() && Scannable(all) && ServesRange(all, 0, VERBS)
    }

    constructor ()
      ensures Serves([]) && AllGrowing()
      ensures fresh(perMethods) && fresh(Tries())
    {
      var list: seq<PerMethod> := [];
      while |list| < VERBS
        invariant |list| <= VERBS && fresh(list) && (forall p :: p in list ==> fresh(p.trie))
        invariant forall u, v :: 0 <= u < v < |list| ==> list[u] != list[v] && list[u].trie != list[v].trie
        invariant forall v :: 0 <= v < |list| ==> list[v].Serves([]) && list[v].trie.Growing()
      {
        var p := new PerMethod();
        list := list + [p];
      }
      perMethods := list;
    }

    /** Registers a rule for one verb. */
    method AddForVerb(rule: Rule, verb: nat, ghost all: seq<Rule>) returns (ok: bool)
      requires Shape() && verb < VERBS && AllGrowing() && Tokens(rule.text).Some? && HasMethod(rule, verb)
      requires ServesRange(all + [rule], 0, verb) && ServesRange(all, verb, VERBS)
      modifies perMethods, Tries()
      ensures AllGrowing()
      ensures ok <==> forall e :: e in all && HasMethod(e, verb) ==> !SharesText(e, rule)
      ensures ok ==> ServesRange(all + [rule], 0, verb + 1) && ServesRange(all, verb + 1, VERBS)
    {
      hide PerMethod.Serves, Trie.Growing, ForVerb, Tokens, HasMethod, SharesText;
      ForVerbSnoc(all, rule, verb);
      ForVerbHas(all, verb);
      ok := perMethods[verb].AddRule(rule, ForVerb(all, verb));
    }

    /** Registers a rule for each of its verbs; false where that throws. */
    method InternalAddRuleObject(rule: Rule, ghost all: seq<Rule>) returns (ok: bool)
      requires Serves(all) && AllGrowing() && Tokens(rule.text).Some?
      modifies perMethods, Tries()
      ensures AllGrowing()
      ensures ok <==> forall e :: e in all ==> !Clash(e, rule)
      ensures ok ==> Serves(all + [rule])
    {
      hide PerMethod.Serves, Trie.Growing, ForVerb, Tokens, HasMethod, BitSet, MethodBit, SharesText;
      FirstMethodBit();
      var methodBit := 1;
      for verb := 0 to VERBS
        invariant methodBit == MethodBit(verb)
        invariant AllGrowing()
        invariant ServesRange(all + [rule], 0, verb) && ServesRange(all, verb, VERBS)
        invariant forall e, v :: e in all && 0 <= v < verb && HasMethod(e, v) && HasMethod(rule, v) ==> !SharesText(e, rule)
      {
        ForVerbSnoc(all, rule, verb);
        NextMethodBit(verb);
        BitIsMethod(rule, verb);
        if BitSet(rule.methods, methodBit) {
          var added := AddForVerb(rule, verb, all);
          if !added {
            return false;
          }
        }
        methodBit := (methodBit * 2) % 0x1_0000_0000;
      }
      ok := true;
    }

    /** Registers the rules in order; false where a rule meets a handler that already exists. */
    method Register(all: seq<Rule>) returns (ok: bool)
      requires Serves([]) && AllGrowing() && Scannable(all)
      modifies perMethods, Tries()
      ensures AllGrowing()
      ensures ok <==> ClashFree(all)
      ensures ok ==> Serves(all)
    {
      hide ServesRange, Clash, AllGrowing, ClashFree;
      ClashFreeStart(all);
      for k := 0 to |all|
        invariant AllGrowing() && Serves(all[..k]) && ClashFree(all[..k])
      {
        var added := InternalAddRuleObject(all[k], all[..k]);
        ClashFreeNext(all, k);
        assert all[..k + 1] == all[..k] + [all[k]];
        if !added {
          return false;
        }
      }
      assert all[..|all|] == all;
      ok := true;
    }

    /** Compresses every trie; fails exactly when a rule that answers some verb is empty or begins with a placeholder. */
    method Compress(ghost all: seq<Rule>) returns (ok: bool)
      requires Serves(all) && AllGrowing()
      modifies Tries()
      ensures Serves(all)
      ensures ok <==> forall r, v :: r in all && 0 <= v < VERBS && HasMethod(r, v) ==> PlainStart(r.text)
      ensures ok ==> forall v :: 0 <= v < VERBS ==> Normal(perMethods[v].trie.nodes, 0)
    {
      hide PerMethod.Serves, Trie.Growing, ForVerb, Tokens, Normal, Built, IsBestMatch, HasMethod, PlainStart, Scannable;
      for v := 0 to VERBS
        invariant ServesRange(all, 0, VERBS)
        invariant forall u :: v <= u < VERBS ==> perMethods[u].trie.Growing()
        invariant forall r, u :: r in all && 0 <= u < v && HasMethod(r, u) ==> PlainStart(r.text)
        invariant forall u :: 0 <= u < v ==>
                    perMethods[u].trie.nodes != [] && Wf(perMethods[u].trie.nodes) && Normal(perMethods[u].trie.nodes, 0)
      {
        ForVerbHas(all, v);
        ScannableFor(all, v);
        var valid := perMethods[v].Compress(ForVerb(all, v));
        if !valid {
          return false;
        }
      }
      ok := true;
    }

    /** Answers a request. */
    method Handle(d: Strtod, verb: nat, url: string, session: Option<string>, ghost all: seq<Rule>)
      returns (r: Decision)
      requires Serves(all)
      ensures r == Decide(CapturesOf(d), all, verb, url, PrivilegesOf(session))
    {
      hide PerMethod.Serves, ForVerb, IsBestMatch, TableOf, FirstMatch, CapturesOf, HasMethod, BitSet, MethodBit;
      if verb >= |perMethods| {
        return NoResponse;
      }
      ghost var cap := CapturesOf(d);
      var perMethod := perMethods[verb];
      var found := perMethod.Search(d, url, all, verb);
      var ruleIndex := found.index;
      if ruleIndex == 0 {
        for v := 0 to |perMethods|
          invariant forall u :: 0 <= u < v ==> FirstMatch(cap, all, u, url).None?
        {
          var other := perMethods[v].Search(d, url, all, v);
          if other.index > 0 {
            return MethodNotAllowed;
          }
        }
        return NotFound;
      }
      if ruleIndex >= |perMethod.rules| {
        return Corrupted;
      }
      if ruleIndex == 1 {
        return Redirect;
      }
      var rule := perMethod.rules[ruleIndex].value;
      BitIsMethod(rule, verb);
      if !BitSet(rule.methods, MethodBit(verb)) {
        return MethodMismatch;
      }
      var userPrivileges := PrivilegesOf(session);
      if !Allowed(rule, userPrivileges) {
        return Forbidden;
      }
      r := Dispatch(rule, found.params);
    }
  }

  /** No session, no privileges; otherwise those of the user's role. */
  function PrivilegesOf(session: Option<string>): Privileges {
    match session
    case None => 0
    case Some(role) => UserPrivileges(role)
  }

  /** A dispatched handler gets, as its arguments and in order, the values its rule captured from the URL, if and only if
      the rule's unwrapped tag fits 64 bits; 24 placeholders always do. */
  lemma DispatchArguments(cap: Capturer, all: seq<Rule>, verb: nat, url: string, user: Privileges)
    requires Scannable(all) && Decide(cap, all, verb, url, user).Dispatch?
    ensures var decision := Decide(cap, all, verb, url, user);
            var text := decision.rule.text;
            && Tokens(text).Some? && RuleMatch(cap, text, url).Some?
            && decision.params == NO_PARAMS.PushAll(RuleMatch(cap, text, url).value)
            && (HandsOver(text, RuleMatch(cap, text, url).value) <==> Encode(Kinds(Tokens(text).value)) < UINT64)
            && (|Kinds(Tokens(text).value)| <= 24 ==> HandsOver(text, RuleMatch(cap, text, url).value))
  {
    hide Allowed, Kinds, HandsOver, Encode, Tokens, RuleMatch;
    FirstMatchSome(cap, all, verb, url);
    var (rule, vs) := FirstMatch(cap, all, verb, url).value;
    RuleArguments(cap, rule.text, url);
  }

  lemma {:induction false} FirstMatchSome(cap: Capturer, all: seq<Rule>, verb: nat, url: string)
    requires Scannable(all) && FirstMatch(cap, all, verb, url).Some?
    ensures var (rule, vs) := FirstMatch(cap, all, verb, url).value;
            rule in all && HasMethod(rule, verb) && Tokens(rule.text).Some? && RuleMatch(cap, rule.text, url) == Some(vs)
    decreases |all|
  {
    if !(HasMethod(all[0], verb) && RuleMatch(cap, all[0].text, url).Some?) {
      FirstMatchSome(cap, all[1..], verb, url);
    }
  }

  lemma RuleArguments(cap: Capturer, text: string, url: string)
    requires Tokens(text).Some? && RuleMatch(cap, text, url).Some?
    ensures HandsOver(text, RuleMatch(cap, text, url).value) <==> Encode(Kinds(Tokens(text).value)) < UINT64
    ensures |Kinds(Tokens(text).value)| <= 24 ==> HandsOver(text, RuleMatch(cap, text, url).value)
  {
    hide HandsOver, Tokens, Encode, Kinds;
    var toks := AcceptsMatch(cap, text, url);
    var kinds := Kinds(Tokens(text).value);
    if Tokens(text) != Some(toks) {
      AcceptsKinds(text, toks);
    }
    MatchTypes(cap, toks, url, 0);
    HandsOverExactly(text, RuleMatch(cap, text, url).value);
    if |kinds| <= 24 {
      TagFits(kinds);
    }
  }

  lemma AcceptsKinds(text: string, toks: seq<Token>)
    requires Tokens(text).Some? && Accepts(text, toks)
    ensures Kinds(toks) == Kinds(Tokens(text).value)
  {
    if Tokens(text) != Some(toks) {
      DropSlash(text, 0);
      KindsSlash(toks);
    }
  }

  lemma {:induction false} KindsSlash(toks: seq<Token>)
    ensures Kinds(toks + [Lit('/')]) == Kinds(toks)
    decreases |toks|
  {
    var more := toks + [Lit('/')];
    if toks == [] {
      assert more[1..] == [];
    } else {
      assert more[1..] == toks[1..] + [Lit('/')];
      KindsSlash(toks[1..]);
    }
  }
}
