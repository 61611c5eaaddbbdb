/** What the answer to a request means: privilege by privilege, verb by verb, and over the positions of the registered rules
    (http/routing.h, redfish-core/include/privileges.hpp). */
module Access {
  import opened Options
  import opened Powers
  import opened Patterns
  import opened Captures
  import opened TrieModel
  import opened Routers

  /** The privilege with this number is in the set. */
  predicate Has(p: Privileges, k: nat) {
    if k == 0 then p & 1 == 1 else Has(p >> 1, k - 1)
  }

  /** A set is granted if and only if every privilege in it is held. */
  lemma GrantedExactly(user: Privileges, required: Privileges)
    ensures IsSuperset(user, required) <==> forall k: nat :: Has(required, k) ==> Has(user, k)
  {
    if IsSuperset(user, required) {
      forall k: nat | Has(required, k)
        ensures Has(user, k)
      {
        HeldInSuperset(user, required, k);
      }
    } else {
      var k := MissingIn(user, required);
    }
  }

  lemma {:induction false} HeldInSuperset(user: Privileges, required: Privileges, k: nat)
    requires user & required == required && Has(required, k)
    ensures Has(user, k)
    decreases k
  {
    if k > 0 {
      HeldInSuperset(user >> 1, required >> 1, k - 1);
    }
  }

  /** Some privilege of a set that is not granted is missing. */
  lemma {:induction false} MissingIn(user: Privileges, required: Privileges) returns (k: nat)
    requires user & required != required
    ensures Has(required, k) && !Has(user, k)
    decreases required
  {
    hide Has;
    if required & 1 == 1 && user & 1 == 0 {
      k := 0;
      HasStep(user, 0);
      HasStep(required, 0);
    } else {
      MissingAbove(user, required);
      k := MissingIn(user >> 1, required >> 1);
      HasStep(user, k);
      HasStep(required, k);
      k := k + 1;
    }
  }

  lemma HasStep(p: Privileges, k: nat)
    ensures (Has(p, 0) <==> p & 1 == 1) && (Has(p, k + 1) <==> Has(p >> 1, k))
  {
  }

  lemma MissingAbove(user: Privileges, required: Privileges)
    requires user & required != required && !(required & 1 == 1 && user & 1 == 0)
    ensures (user >> 1) & (required >> 1) != required >> 1 && required >> 1 < required
  {
  }

  /** The five privileges, in the order of their numbers. */
  datatype Privilege = Login | ConfigureManager | ConfigureComponents | ConfigureSelf | ConfigureUsers {
    function Number(): (k: nat)
      ensures k < 5
    {
      match this
      case Login => 0
      case ConfigureManager => 1
      case ConfigureComponents => 2
      case ConfigureSelf => 3
      case ConfigureUsers => 4
    }
  }

  lemma FirstFive(p: Privileges)
    ensures Has(p, 0) <==> p & 1 != 0
    ensures Has(p, 1) <==> p & 2 != 0
    ensures Has(p, 2) <==> p & 4 != 0
    ensures Has(p, 3) <==> p & 8 != 0
    ensures Has(p, 4) <==> p & 16 != 0
  {
    assert Has(p, 1) == Has(p >> 1, 0);
    assert Has(p, 2) == Has(p >> 1, 1) == Has(p >> 1 >> 1, 0);
    assert Has(p, 3) == Has(p >> 1, 2) == Has(p >> 1 >> 1, 1) == Has(p >> 1 >> 1 >> 1, 0);
    assert Has(p, 4) == Has(p >> 1, 3) == Has(p >> 1 >> 1, 2) == Has(p >> 1 >> 1 >> 1, 1);
    assert Has(p >> 1 >> 1 >> 1, 1) == Has(p >> 1 >> 1 >> 1 >> 1, 0);
  }

  /** Which privileges each role holds; without a session, none. */
  lemma RolesHold(p: Privilege, role: string)
    ensures !Has(PrivilegesOf(None), p.Number())
    ensures Has(PrivilegesOf(Some("priv-admin")), p.Number())
    ensures Has(PrivilegesOf(Some("priv-operator")), p.Number()) <==> p in {Login, ConfigureSelf, ConfigureComponents}
    ensures role != "priv-admin" && role != "priv-operator" ==>
              (Has(PrivilegesOf(Some(role)), p.Number()) <==> p in {Login, ConfigureSelf})
  {
    hide Has;
    FirstFive(PrivilegesOf(None));
    FirstFive(PrivilegesOf(Some("priv-admin")));
    FirstFive(PrivilegesOf(Some("priv-operator")));
    FirstFive(PrivilegesOf(Some(role)));
  }

  /** Nothing beyond the five is held by anyone. */
  lemma RolesHoldNoMore(session: Option<string>, k: nat)
    requires k >= 5
    ensures !Has(PrivilegesOf(session), k)
  {
    SmallHas(PrivilegesOf(session), k);
  }

  lemma SmallHas(p: Privileges, k: nat)
    requires p < 32 && k >= 5
    ensures !Has(p, k)
  {
    var a := p >> 1;
    var b := a >> 1;
    var c := b >> 1;
    var d := c >> 1;
    assert d >> 1 == 0;
    NothingHas(k - 5);
    assert Has(p, k) == Has(a, k - 1) && Has(a, k - 1) == Has(b, k - 2) && Has(b, k - 2) == Has(c, k - 3);
    assert Has(c, k - 3) == Has(d, k - 4) && Has(d, k - 4) == Has(0, k - 5);
  }

  lemma {:induction false} NothingHas(k: nat)
    ensures !Has(0, k)
    decreases k
  {
    if k > 0 {
      NothingHas(k - 1);
    }
  }

  lemma QuotientIs(f: nat, p: nat, q: nat, r: nat)
    requires p > 0 && r < p && f == q * p + r
    ensures f / p == q
  {
    var d, e := f / p, f % p;
    assert f == d * p + e;
    assert (d - q) * p == r - e;
    SmallMultiple(d - q, p);
  }

  lemma SmallMultiple(n: int, p: nat)
    requires p > 0 && 0 < n * p + p < 2 * p
    ensures n == 0
  {
  }

  /** Adding a power of two that is not in a field sets its bit and no other. */
  lemma {:induction false} DigitOfSum(a: nat, v: nat, u: nat)
    requires !BitSet(a, Pow2(v))
    ensures BitSet(a + Pow2(v), Pow2(u)) <==> u == v || BitSet(a, Pow2(u))
    decreases v + u
  {
    hide BitSet, Pow2;
    var b := a + Pow2(v);
    PowerStep(v);
    PowerStep(u);
    LowBit(a);
    LowBit(b);
    if u > 0 {
      HalfBit(a, u - 1);
      HalfBit(b, u - 1);
      if v > 0 {
        HalfBit(a, v - 1);
        DigitOfSum(a / 2, v - 1, u - 1);
      }
    }
  }

  lemma PowerStep(v: nat)
    ensures Pow2(0) == 1 && (v > 0 ==> Pow2(v) == 2 * Pow2(v - 1))
  {
  }

  lemma LowBit(a: nat)
    ensures BitSet(a, 1) <==> a % 2 == 1
  {
  }

  lemma HalfBit(a: nat, u: nat)
    ensures BitSet(a, Pow2(u + 1)) <==> BitSet(a / 2, Pow2(u))
  {
    QuotientOfHalf(a, Pow2(u));
  }

  lemma QuotientOfHalf(a: nat, p: nat)
    requires p > 0
    ensures a / (2 * p) == a / 2 / p
  {
    var h := a / 2;
    var q := h / p;
    var r := h % p;
    assert h == q * p + r;
    assert a == q * (2 * p) + (2 * r + a % 2);
    QuotientIs(a, 2 * p, q, 2 * r + a % 2);
  }

  /** `methods(m, ...)`: the bits of different verbs, one or-ed to the other, which adds them up. */
  function Field(verbs: seq<nat>): nat {
    if verbs == [] then 0 else Field(verbs[1..]) + Pow2(verbs[0])
  }

  ghost predicate Different(verbs: seq<nat>) {
    forall j, k :: 0 <= j < k < |verbs| ==> verbs[j] != verbs[k]
  }

  /** A rule answers exactly the verbs it was declared for. */
  lemma AnswersItsVerbs(rule: Rule, verbs: seq<nat>, v: nat)
    requires rule.methods == Field(verbs) && Different(verbs) && forall k :: 0 <= k < |verbs| ==> verbs[k] < 32
    ensures HasMethod(rule, v) <==> v in verbs
  {
    hide BitSet, Pow2;
    if v < 32 {
      FieldHas(verbs, v);
    }
  }

  lemma {:induction false} FieldHas(verbs: seq<nat>, v: nat)
    requires Different(verbs)
    ensures BitSet(Field(verbs), Pow2(v)) <==> v in verbs
    decreases |verbs|
  {
    if verbs == [] {
      assert 0 / Pow2(v) == 0;
    } else {
      hide BitSet, Pow2;
      var rest := verbs[1..];
      FieldHas(rest, v);
      FieldHas(rest, verbs[0]);
      DigitOfSum(Field(rest), verbs[0], v);
      assert v in verbs <==> v == verbs[0] || v in rest;
    }
  }

  /** The rule answers the verb and accepts the URL. */
  ghost predicate Fits(cap: Capturer, rule: Rule, verb: nat, url: string)
    requires Tokens(rule.text).Some?
  {
    HasMethod(rule, verb) && RuleMatch(cap, rule.text, url).Some?
  }

  ghost predicate FirstAt(cap: Capturer, all: seq<Rule>, verb: nat, url: string, k: nat)
    requires Scannable(all)
  {
    k < |all| && Fits(cap, all[k], verb, url) && forall j :: 0 <= j < k ==> !Fits(cap, all[j], verb, url)
  }

  lemma {:induction false} FirstMatchAt(cap: Capturer, all: seq<Rule>, verb: nat, url: string) returns (k: nat)
    requires Scannable(all)
    ensures FirstMatch(cap, all, verb, url).None? <==> forall j :: 0 <= j < |all| ==> !Fits(cap, all[j], verb, url)
    ensures FirstMatch(cap, all, verb, url).Some? ==>
              FirstAt(cap, all, verb, url, k) &&
              FirstMatch(cap, all, verb, url).value == (all[k], RuleMatch(cap, all[k].text, url).value)
    decreases |all|
  {
    hide RuleMatch, HasMethod, Tokens;
    k := 0;
    if all != [] && !Fits(cap, all[0], verb, url) {
      k := FirstMatchAt(cap, all[1..], verb, url);
      assert forall j :: 0 < j < |all| ==> all[j] == all[1..][j - 1];
      assert forall j :: 0 <= j < |all| - 1 ==> all[1..][j] == all[j + 1];
      k := k + 1;
    }
  }

  /** Each of the rule's privilege sets holds a privilege that the user lacks. */
  ghost predicate LacksEach(rule: Rule, user: Privileges) {
    forall j :: 0 <= j < |rule.privileges| ==> Lacks(user, rule.privileges[j])
  }

  ghost predicate Lacks(user: Privileges, required: Privileges) {
    exists k: nat :: Has(required, k) && !Has(user, k)
  }

  lemma GrantedOrLacks(user: Privileges, required: Privileges)
    ensures IsSuperset(user, required) <==> !Lacks(user, required)
  {
    if Lacks(user, required) {
      var k: nat :| Has(required, k) && !Has(user, k);
      if IsSuperset(user, required) {
        HeldInSuperset(user, required, k);
      }
    } else if !IsSuperset(user, required) {
      var k := MissingIn(user, required);
    }
  }

  lemma AllowedExactly(rule: Rule, user: Privileges)
    ensures Allowed(rule, user) <==> rule.privileges == [] || !LacksEach(rule, user)
  {
    hide IsSuperset, Lacks;
    forall j | 0 <= j < |rule.privileges|
      ensures IsSuperset(user, rule.privileges[j]) <==> !Lacks(user, rule.privileges[j])
    {
      GrantedOrLacks(user, rule.privileges[j]);
    }
  }

  ghost predicate NoneFits(cap: Capturer, all: seq<Rule>, verb: nat, url: string)
    requires Scannable(all)
  {
    forall j :: 0 <= j < |all| ==> !Fits(cap, all[j], verb, url)
  }

  /** Every answer, and exactly when it is given: no response for a verb outside the table of 33; not found when no rule
      accepts the URL for any verb; not allowed when only rules of other verbs do; forbidden when the first rule for the verb
      asks for privileges and the user lacks one in each of its sets; and otherwise that rule with its captures. */
  lemma DecideExactly(cap: Capturer, all: seq<Rule>, verb: nat, url: string, user: Privileges)
    requires Scannable(all)
    ensures Decide(cap, all, verb, url, user) == NoResponse <==> verb >= 33
    ensures Decide(cap, all, verb, url, user) == NotFound <==>
            verb < 33 && forall v: nat :: v < 33 ==> NoneFits(cap, all, v, url)
    ensures Decide(cap, all, verb, url, user) == MethodNotAllowed <==>
            verb < 33 && NoneFits(cap, all, verb, url) && exists v: nat :: v < 33 && !NoneFits(cap, all, v, url)
    ensures Decide(cap, all, verb, url, user) == Forbidden <==>
            verb < 33 && exists k: nat :: FirstAt(cap, all, verb, url, k) && Refused(all[k], user)
    ensures forall k: nat :: verb < 33 && FirstAt(cap, all, verb, url, k) && !Refused(all[k], user) ==>
              Decide(cap, all, verb, url, user) ==
              Dispatch(all[k], NO_PARAMS.PushAll(RuleMatch(cap, all[k].text, url).value))
  {
    hide RuleMatch, HasMethod, Tokens, FirstMatch, LacksEach, Fits, Params.PushAll, NoneFits, FirstAt, Allowed;
    if verb < 33 {
      forall v: nat | v < 33
        ensures FirstMatch(cap, all, v, url).None? <==> NoneFits(cap, all, v, url)
      {
        NoneIsNone(cap, all, v, url);
      }
      var k := FirstMatchAt(cap, all, verb, url);
      if FirstMatch(cap, all, verb, url).Some? {
        OnlyFirst(cap, all, verb, url, k);
        AllowedExactly(all[k], user);
      } else {
        NoFirst(cap, all, verb, url);
      }
    }
  }

  /** The rule asks for privileges, and each of its sets holds one that the user lacks. */
  ghost predicate Refused(rule: Rule, user: Privileges) {
    rule.privileges != [] && LacksEach(rule, user)
  }

  lemma NoneIsNone(cap: Capturer, all: seq<Rule>, verb: nat, url: string)
    requires Scannable(all)
    ensures FirstMatch(cap, all, verb, url).None? <==> NoneFits(cap, all, verb, url)
  {
    hide RuleMatch, HasMethod, Tokens, FirstMatch, Fits;
    var k := FirstMatchAt(cap, all, verb, url);
  }

  lemma OnlyFirst(cap: Capturer, all: seq<Rule>, verb: nat, url: string, k: nat)
    requires Scannable(all) && FirstAt(cap, all, verb, url, k)
    ensures k < |all| && forall j: nat :: FirstAt(cap, all, verb, url, j) ==> j == k
  {
    hide Fits, Tokens;
  }

  lemma NoFirst(cap: Capturer, all: seq<Rule>, verb: nat, url: string)
    requires Scannable(all) && NoneFits(cap, all, verb, url)
    ensures forall j: nat :: !FirstAt(cap, all, verb, url, j)
  {
    hide Fits, Tokens;
  }

  /** A plain text that ends in a slash also accepts the URL without it if and only if it has more than two characters. */
  lemma SlashIsOptional(cap: Capturer, text: string)
    requires text != "" && '<' !in text && text[|text| - 1] == '/'
    ensures Tokens(text).Some?
    ensures RuleMatch(cap, text, text) == Some([])
    ensures RuleMatch(cap, text, text[..|text| - 1]).Some? <==> |text| > 2
  {
    PlainTokens(text, 0);
    assert text[0..] == text;
    var short := text[..|text| - 1];
    PlainMatch(cap, text, text);
    PlainMatch(cap, text, short);
    if |text| > 2 {
      PlainTokens(short, 0);
      assert short[0..] == short;
      PlainMatch(cap, short, short);
    }
  }

  lemma {:induction false} PlainTokens(s: string, i: nat)
    requires i <= |s| && '<' !in s
    ensures TokensFrom(s, i) == Some(Lits(s[i..]))
    decreases |s| - i
  {
    if i < |s| {
      PlainTokens(s, i + 1);
      assert s[i] in s;
      assert Lits(s[i..]) == [Lit(s[i])] + Lits(s[i + 1..]);
    }
  }

  lemma PlainMatch(cap: Capturer, text: string, url: string)
    requires text != ""
    ensures Match(cap, Lits(text), url, 0) == if text == url then Some([]) else None
  {
    assert Lits(text) + [] == Lits(text);
    MatchLits(cap, text, [], url, 0);
    if HasAt(url, 0, text) && |url| == |text| {
      assert forall k :: 0 <= k < |url| ==> url[0 + k] == text[k];
      assert url == text;
    }
  }
}
