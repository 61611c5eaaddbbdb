/** The base-6 parameter tag of a rule, the argument types it stands for, and how captured values are handed to the
    handler (http/utility.h, http/routing.h `Call`, http/common.h). */
module Tags {
  import opened Options
  import opened Patterns
  import opened Captures

  const UINT64: nat := 0x1_0000_0000_0000_0000

  /** `findClosingTagRuntime`: the first '>' from `p` on; None where it throws. */
  function FindClosing(s: string, p: nat): (r: Option<nat>)
    requires p <= |s|
    ensures r.Some? ==> p <= r.value < |s| && s[r.value] == '>' && '>' !in s[p..r.value]
    decreases |s| - p
  {
    if p == |s| then None else if s[p] == '>' then Some(p) else FindClosing(s, p + 1)
  }

  /** The digit for the placeholder at `p`; None where the scanner throws "invalid parameter type". */
  function DigitAt(s: string, p: nat): Option<nat> {
    if HasAt(s, p, "<int>") then Some(1)
    else if HasAt(s, p, "<uint>") then Some(2)
    else if HasAt(s, p, "<float>") || HasAt(s, p, "<double>") then Some(3)
    else if HasAt(s, p, "<str>") || HasAt(s, p, "<string>") then Some(4)
    else if HasAt(s, p, "<path>") then Some(5)
    else None
  }

  /** `getParameterTagRuntime` (and its compile-time twin `get_parameter_tag`), in 64-bit arithmetic. */
  function ParameterTag(s: string, p: nat): Option<nat>
    requires p <= |s|
    decreases |s| - p
  {
    if p == |s| then Some(0)
    else if s[p] != '<' then ParameterTag(s, p + 1)
    else match DigitAt(s, p)
      case None => None
      case Some(digit) =>
        match FindClosing(s, p)
        case None => None
        case Some(q) =>
          match ParameterTag(s, q)
          case None => None
          case Some(t) => Some((t * 6 + digit) % UINT64)
  }

  function DigitOf(kind: Kind): (d: nat)
    ensures 1 <= d <= 5
  {
    match kind
    case Int => 1
    case Uint => 2
    case Double => 3
    case Str => 4
    case Path => 5
  }

  /** The tag without wrap-around: the first placeholder is the lowest digit. */
  function Encode(kinds: seq<Kind>): nat {
    if kinds == [] then 0 else Encode(kinds[1..]) * 6 + DigitOf(kinds[0])
  }

  /** `SingleTagToType`. */
  function TypeOfDigit(digit: nat): Option<ArgType> {
    if digit == 1 then Some(Int64) else if digit == 2 then Some(Uint64) else if digit == 3 then Some(Float64)
    else if digit == 4 || digit == 5 then Some(Text) else None
  }

  /** `Arguments<Tag>`: the handler's argument types; None where there is no such type. */
  function Arguments(tag: nat): Option<seq<ArgType>> {
    if tag == 0 then Some([]) else
    match Arguments(tag / 6)
    case None => None
    case Some(rest) =>
      match TypeOfDigit(tag % 6)
      case None => None
      case Some(t) => Some([t] + rest)
  }

  function Types(kinds: seq<Kind>): (r: seq<ArgType>)
    ensures |r| == |kinds| && forall k :: 0 <= k < |r| ==> r[k] == TypeOfKind(kinds[k])
  {
    seq(|kinds|, k requires 0 <= k < |kinds| => TypeOfKind(kinds[k]))
  }

  lemma DigitIsTrait(s: string, p: nat)
    requires p < |s| && s[p] == '<'
    ensures DigitAt(s, p) ==
            var t := FirstTrait(s, p, 0); if t == 7 then None else Some(DigitOf(TraitKind(t)))
  {
    assert FirstTrait(s, p, 0) == 7 || HasAt(s, p, TraitText(FirstTrait(s, p, 0)));
    assert TraitText(0) == "<int>" && TraitText(1) == "<uint>" && TraitText(2) == "<float>";
    assert TraitText(3) == "<double>" && TraitText(4) == "<str>" && TraitText(5) == "<string>";
    assert TraitText(6) == "<path>";
  }

  lemma ClosingIsEnd(s: string, p: nat, t: nat)
    requires t < 7 && HasAt(s, p, TraitText(t))
    ensures p + |TraitText(t)| <= |s| && FindClosing(s, p) == Some(p + |TraitText(t)| - 1)
  {
    var w := TraitText(t);
    ClosingFrom(s, p, w, 0);
  }

  lemma {:induction false} ClosingFrom(s: string, p: nat, w: string, k: nat)
    requires HasAt(s, p, w) && k < |w| && w[|w| - 1] == '>' && '>' !in w[..|w| - 1]
    ensures p + |w| <= |s| && FindClosing(s, p + k) == Some(p + |w| - 1)
    decreases |w| - k
  {
    assert s[p + k] == w[k];
    if k < |w| - 1 {
      assert w[k] in w[..|w| - 1];
      ClosingFrom(s, p, w, k + 1);
    }
  }

  /** The tag scanner accepts exactly the rules that `Trie::add` can read, and the tag is the base-6 number of the
      rule's placeholder kinds, modulo 2^64. */
  lemma {:induction false} TagIsEncoding(s: string, p: nat)
    requires p <= |s|
    ensures ParameterTag(s, p) ==
            match TokensFrom(s, p) case None => None case Some(toks) => Some(Encode(Kinds(toks)) % UINT64)
    decreases |s| - p
  {
    if p < |s| {
      if s[p] != '<' {
        TagIsEncoding(s, p + 1);
        if TokensFrom(s, p + 1).Some? {
          var rest := TokensFrom(s, p + 1).value;
          assert ([Lit(s[p])] + rest)[1..] == rest;
        }
      } else {
        DigitIsTrait(s, p);
        var t := FirstTrait(s, p, 0);
        if t < 7 {
          TagStep(s, p, t);
        }
      }
    }
  }

  lemma {:induction false} TagStep(s: string, p: nat, t: nat)
    requires p < |s| && s[p] == '<' && t == FirstTrait(s, p, 0) < 7
    ensures ParameterTag(s, p) ==
            match TokensFrom(s, p) case None => None case Some(toks) => Some(Encode(Kinds(toks)) % UINT64)
    decreases |s| - p, 0
  {
    hide Encode, Kinds, DigitAt, FindClosing, HasAt, FirstTrait, TraitText, TraitKind, DigitOf, TokensFrom;
    TraitFound(s, p, t);
    DigitIsTrait(s, p);
    ClosingIsEnd(s, p, t);
    var q, kind := p + |TraitText(t)|, TraitKind(t);
    TagIsEncoding(s, q);
    assert ParameterTag(s, q - 1) == ParameterTag(s, q);
    if TokensFrom(s, q).Some? {
      var rest := TokensFrom(s, q).value;
      EncodeParam(kind, rest);
      WrapStep(Encode(Kinds(rest)), DigitOf(kind));
    }
  }

  lemma EncodeParam(kind: Kind, rest: seq<Token>)
    ensures Encode(Kinds([Param(kind)] + rest)) == Encode(Kinds(rest)) * 6 + DigitOf(kind)
  {
    hide DigitOf;
    assert ([Param(kind)] + rest)[1..] == rest;
    assert ([kind] + Kinds(rest))[1..] == Kinds(rest);
  }

  /** The tokens of a rule text at a placeholder. */
  lemma TraitFound(s: string, p: nat, t: nat)
    requires p < |s| && s[p] == '<' && t == FirstTrait(s, p, 0) < 7
    ensures
      var q := p + |TraitText(t)|;
      && HasAt(s, p, TraitText(t)) && p < q - 1 && q <= |s|
      && TokensFrom(s, p) ==
         match TokensFrom(s, q) case None => None case Some(rest) => Some([Param(TraitKind(t))] + rest)
  {
    hide HasAt, TraitKind;
    assert NextToken(s, p) == Some((Param(TraitKind(t)), p + |TraitText(t)|));
  }

  lemma WrapStep(v: nat, digit: nat)
    ensures ((v % UINT64) * 6 + digit) % UINT64 == (v * 6 + digit) % UINT64
  {
    var q := v / UINT64;
    assert v * 6 + digit == (v % UINT64) * 6 + digit + (6 * q) * UINT64;
    AddMultiple((v % UINT64) * 6 + digit, 6 * q);
  }

  lemma {:induction false} AddMultiple(x: nat, k: nat)
    ensures (x + k * UINT64) % UINT64 == x % UINT64
    decreases k
  {
    if k > 0 {
      AddMultiple(x, k - 1);
      assert x + k * UINT64 == (x + (k - 1) * UINT64) + UINT64;
    }
  }

  function Pow6(n: nat): (r: nat)
    ensures r >= 1
  {
    if n == 0 then 1 else 6 * Pow6(n - 1)
  }

  lemma {:induction false} Pow6Grows(m: nat, n: nat)
    requires m <= n
    ensures Pow6(m) <= Pow6(n)
    decreases n
  {
    if m < n { Pow6Grows(m, n - 1); }
  }

  lemma {:induction false} Pow6Sum(m: nat, n: nat)
    ensures Pow6(m + n) == Pow6(m) * Pow6(n)
    decreases m
  {
    if m > 0 { Pow6Sum(m - 1, n); }
  }

  lemma Pow6Values()
    ensures Pow6(24) == 4738381338321616896 && Pow6(25) == 28430288029929701376
  {
    assert Pow6(1) == 6 && Pow6(2) == 36 && Pow6(3) == 216;
    Pow6Sum(3, 3);
    Pow6Sum(6, 6);
    Pow6Sum(12, 12);
    Pow6Sum(1, 24);
  }

  lemma {:induction false} EncodeBound(kinds: seq<Kind>)
    ensures Encode(kinds) < Pow6(|kinds|)
    decreases |kinds|
  {
    if kinds != [] { EncodeBound(kinds[1..]); }
  }

  /** Every argument type stands for one base-6 digit. */
  lemma {:induction false} ArgumentsLength(tag: nat)
    requires Arguments(tag).Some?
    ensures tag < Pow6(|Arguments(tag).value|)
    ensures tag > 0 ==> |Arguments(tag).value| > 0 && Pow6(|Arguments(tag).value| - 1) <= tag
    decreases tag
  {
    if tag > 0 {
      ArgumentsLength(tag / 6);
      var rest := Arguments(tag / 6).value;
      assert Arguments(tag).value[1..] == rest;
    }
  }

  /** Decoding the unwrapped tag gives the placeholder types in order. */
  lemma {:induction false} ArgumentsOfEncoding(kinds: seq<Kind>)
    ensures Arguments(Encode(kinds)) == Some(Types(kinds))
    decreases |kinds|
  {
    if kinds != [] {
      ArgumentsOfEncoding(kinds[1..]);
      assert Types(kinds) == [TypeOfKind(kinds[0])] + Types(kinds[1..]);
    }
  }

  /** With at most 24 placeholders the tag does not wrap. */
  lemma TagFits(kinds: seq<Kind>)
    requires |kinds| <= 24
    ensures Encode(kinds) < UINT64
  {
    EncodeBound(kinds);
    Pow6Grows(|kinds|, 24);
    Pow6Values();
  }

  /** A wrapped tag never decodes to the placeholder types: its lowest digit is off. */
  lemma WrappedTagDiffers(kinds: seq<Kind>)
    requires Encode(kinds) >= UINT64
    ensures Arguments(Encode(kinds) % UINT64) != Some(Types(kinds))
  {
    var v := Encode(kinds);
    var w := v % UINT64;
    if Arguments(w) == Some(Types(kinds)) {
      ArgumentsLength(w);
      LengthAtMost25(w, |kinds|);
      WrapsOnce(kinds);
      LowDigitsDiffer(w);
      FirstType(w, kinds);
    }
  }

  lemma WrapsOnce(kinds: seq<Kind>)
    requires |kinds| <= 25 && Encode(kinds) >= UINT64
    ensures Encode(kinds) == Encode(kinds) % UINT64 + UINT64
  {
    EncodeBound(kinds);
    Pow6Values();
    Pow6Grows(|kinds|, 25);
  }

  lemma FirstType(w: nat, kinds: seq<Kind>)
    requires kinds != [] && Arguments(w) == Some(Types(kinds))
    ensures TypeOfDigit(w % 6) == Some(TypeOfKind(kinds[0])) == TypeOfDigit(Encode(kinds) % 6)
  {
    hide Arguments, Encode;
    FirstDigit(w);
    LowDigit(kinds);
    assert Types(kinds)[0] == TypeOfKind(kinds[0]);
  }

  lemma FirstDigit(w: nat)
    requires Arguments(w).Some? && Arguments(w).value != []
    ensures TypeOfDigit(w % 6) == Some(Arguments(w).value[0])
  {
  }

  lemma LowDigit(kinds: seq<Kind>)
    requires kinds != []
    ensures TypeOfDigit(Encode(kinds) % 6) == Some(TypeOfKind(kinds[0]))
  {
    var x, digit := Encode(kinds[1..]), DigitOf(kinds[0]);
    assert Encode(kinds) == x * 6 + digit;
    assert (x * 6 + digit) % 6 == digit;
  }

  /** The handler gets the placeholder types, in order, exactly when the unwrapped tag fits 64 bits. */
  lemma TagDecodes(kinds: seq<Kind>)
    ensures Arguments(Encode(kinds) % UINT64) == Some(Types(kinds)) <==> Encode(kinds) < UINT64
  {
    hide Arguments, Encode, Types;
    ArgumentsOfEncoding(kinds);
    Unwrapped(Encode(kinds));
    if Encode(kinds) >= UINT64 {
      WrappedTagDiffers(kinds);
    }
  }

  lemma Unwrapped(v: nat)
    ensures v < UINT64 ==> v % UINT64 == v
  {
  }

  lemma LengthAtMost25(w: nat, n: nat)
    requires w < UINT64 && n > 0 && (w > 0 ==> Pow6(n - 1) <= w) && (w == 0 ==> n == 0)
    ensures n <= 25
  {
    if n > 25 {
      Pow6Grows(25, n - 1);
      Pow6Values();
    }
  }

  lemma LowDigitsDiffer(w: nat)
    ensures TypeOfDigit((w + UINT64) % 6).Some? ==> TypeOfDigit((w + UINT64) % 6) != TypeOfDigit(w % 6)
  {
    assert (w + UINT64) % 6 == (w % 6 + 4) % 6;
  }

  function Repeat(kind: Kind, n: nat): (r: seq<Kind>)
    ensures |r| == n && forall k :: 0 <= k < n ==> r[k] == kind
  {
    seq(n, _ => kind)
  }

  /** The tag of `n` equal placeholders in front of others, times five. */
  lemma {:induction false} RepeatEncoding(kind: Kind, n: nat, rest: seq<Kind>)
    ensures 5 * Encode(Repeat(kind, n) + rest) == 5 * Encode(rest) * Pow6(n) + DigitOf(kind) * (Pow6(n) - 1)
    decreases n
  {
    hide DigitOf;
    var kinds := Repeat(kind, n) + rest;
    if n == 0 {
      assert kinds == rest;
    } else {
      RepeatEncoding(kind, n - 1, rest);
      assert kinds[1..] == Repeat(kind, n - 1) + rest;
      Distribute(5 * Encode(rest), Pow6(n - 1), DigitOf(kind));
    }
  }

  lemma Distribute(e: nat, p: nat, d: nat)
    ensures 6 * (e * p + d * (p - 1)) + 5 * d == e * (6 * p) + d * (6 * p - 1)
  {
  }

  /** Six integers and nineteen strings. */
  function Wrapping(): seq<Kind> {
    Repeat(Int, 6) + Repeat(Str, 19)
  }

  /** Their tag wraps, and still decodes to an argument list: of 24 arguments, the first a double. */
  lemma TagWraps()
    ensures Encode(Wrapping()) == 22744230423943733107 >= UINT64
    ensures Arguments(Encode(Wrapping()) % UINT64).Some?
    ensures Arguments(Encode(Wrapping()) % UINT64) != Some(Types(Wrapping()))
  {
    WrappingTag();
    hide Encode, Arguments, Wrapping, Types;
    TagDecodes(Wrapping());
    WrappedList();
  }

  lemma WrappingTag()
    ensures Encode(Wrapping()) == 22744230423943733107
  {
    hide Encode, Repeat, Pow6;
    Pow6At19();
    NoKinds();
    RepeatEncoding(Str, 19, []);
    assert Repeat(Str, 19) + [] == Repeat(Str, 19);
    RepeatEncoding(Int, 6, Repeat(Str, 19));
  }

  lemma NoKinds()
    ensures Encode([]) == 0
  {
  }

  lemma Pow6At19()
    ensures Pow6(6) == 46656 && Pow6(19) == 609359740010496
  {
    assert Pow6(1) == 6 && Pow6(2) == 36 && Pow6(3) == 216;
    Pow6Sum(3, 3);
    Pow6Sum(6, 6);
    Pow6Sum(12, 6);
    Pow6Sum(1, 18);
  }

  /** A number of `k` base-6 digits, none of them zero. */
  predicate Typed(y: nat, k: nat) {
    if k == 0 then y == 0 else 1 <= y % 6 <= 5 && Typed(y / 6, k - 1)
  }

  lemma {:induction false} JoinTyped(x: nat, y: nat, k: nat)
    requires Arguments(x).Some? && Typed(y, k)
    ensures Arguments(x * Pow6(k) + y).Some?
    decreases k
  {
    if k > 0 {
      JoinTyped(x, y / 6, k - 1);
      hide Arguments;
      JoinDigit(x, Pow6(k - 1), y);
    }
  }

  lemma JoinDigit(x: nat, p: nat, y: nat)
    requires Arguments(x * p + y / 6).Some? && 1 <= y % 6 <= 5
    ensures Arguments(x * (6 * p) + y).Some?
  {
    hide Arguments;
    TimesSix(x, p);
    SplitDigit(x * p, y);
    OneDigit(6 * (x * p) + y);
  }

  lemma TimesSix(x: nat, p: nat)
    ensures x * (6 * p) == 6 * (x * p)
  {
  }

  lemma OneDigit(tag: nat)
    requires Arguments(tag / 6).Some? && 1 <= tag % 6 <= 5
    ensures Arguments(tag).Some?
  {
  }

  lemma SplitDigit(a: nat, y: nat)
    ensures (6 * a + y) / 6 == a + y / 6 && (6 * a + y) % 6 == y % 6
  {
  }

  lemma WrappedList()
    ensures Arguments(4297486350234181491).Some?
  {
    hide Arguments;
    Pow6At19();
    NoArguments();
    TypedParts();
    hide Typed, Pow6;
    JoinTyped(0, 42314, 6);
    JoinTyped(42314, 35990, 6);
    JoinTyped(1974237974, 29375, 6);
    JoinTyped(92110046944319, 34227, 6);
  }

  lemma TypedParts()
    ensures Typed(34227, 6) && Typed(29375, 6) && Typed(35990, 6) && Typed(42314, 6)
  {
  }

  lemma NoArguments()
    ensures Arguments(0) == Some([])
  {
  }

  /** `Call`: walks the argument types, taking from each vector in turn; None where an index would be out of range. */
  function Call(types: seq<ArgType>, params: Params, nInt: nat, nUint: nat, nDouble: nat, nString: nat)
    : Option<seq<Value>>
    decreases |types|
  {
    if types == [] then Some([]) else
    match types[0]
    case Int64 =>
      if nInt >= |params.ints| then None
      else Cons(IntV(params.ints[nInt]), Call(types[1..], params, nInt + 1, nUint, nDouble, nString))
    case Uint64 =>
      if nUint >= |params.uints| then None
      else Cons(UintV(params.uints[nUint]), Call(types[1..], params, nInt, nUint + 1, nDouble, nString))
    case Float64 =>
      if nDouble >= |params.doubles| then None
      else Cons(DoubleV(params.doubles[nDouble]), Call(types[1..], params, nInt, nUint, nDouble + 1, nString))
    case Text =>
      if nString >= |params.strings| then None
      else Cons(StrV(params.strings[nString]), Call(types[1..], params, nInt, nUint, nDouble, nString + 1))
  }

  function Cons(v: Value, rest: Option<seq<Value>>): Option<seq<Value>> {
    match rest case None => None case Some(vs) => Some([v] + vs)
  }

  ghost predicate Extends(a: Params, b: Params) {
    a.ints <= b.ints && a.uints <= b.uints && a.doubles <= b.doubles && a.strings <= b.strings
  }

  lemma {:induction false} PushAllExtends(a: Params, vs: seq<Value>)
    ensures Extends(a, a.PushAll(vs))
    decreases |vs|
  {
    if vs != [] { PushAllExtends(a.Push(vs[0]), vs[1..]); }
  }

  function ValueTypes(vs: seq<Value>): (r: seq<ArgType>)
    ensures |r| == |vs| && forall k :: 0 <= k < |r| ==> r[k] == TypeOfValue(vs[k])
  {
    seq(|vs|, k requires 0 <= k < |vs| => TypeOfValue(vs[k]))
  }

  /** Sorting values into the four vectors and taking them out again by type gives them back in order. */
  lemma {:induction false} CallRestores(base: Params, vs: seq<Value>)
    ensures Call(ValueTypes(vs), base.PushAll(vs), |base.ints|, |base.uints|, |base.doubles|, |base.strings|) == Some(vs)
    decreases |vs|
  {
    if vs != [] {
      var more := base.Push(vs[0]);
      CallRestores(more, vs[1..]);
      PushAllExtends(more, vs[1..]);
      assert ValueTypes(vs)[1..] == ValueTypes(vs[1..]);
      assert [vs[0]] + vs[1..] == vs;
    }
  }

  /** The values a rule captures have the types of its placeholders. */
  lemma {:induction false} MatchTypes(cap: Capturer, toks: seq<Token>, url: string, pos: nat)
    requires pos <= |url| && Match(cap, toks, url, pos).Some?
    ensures ValueTypes(Match(cap, toks, url, pos).value) == Types(Kinds(toks))
    decreases |toks|
  {
    if toks != [] {
      match toks[0]
      case Lit(_) => MatchTypes(cap, toks[1..], url, pos + 1);
      case Param(kind) =>
        var (e, v) := cap(kind, url, pos).value;
        MatchTypes(cap, toks[1..], url, e);
    }
  }

  /** A call gives values of the types it is made with. */
  lemma {:induction false} CallTypes(types: seq<ArgType>, params: Params, nInt: nat, nUint: nat, nDouble: nat, nString: nat)
    requires Call(types, params, nInt, nUint, nDouble, nString).Some?
    ensures ValueTypes(Call(types, params, nInt, nUint, nDouble, nString).value) == types
    decreases |types|
  {
    if types != [] {
      match types[0]
      case Int64 => CallTypes(types[1..], params, nInt + 1, nUint, nDouble, nString);
      case Uint64 => CallTypes(types[1..], params, nInt, nUint + 1, nDouble, nString);
      case Float64 => CallTypes(types[1..], params, nInt, nUint, nDouble + 1, nString);
      case Text => CallTypes(types[1..], params, nInt, nUint, nDouble, nString + 1);
    }
  }

  /** The handler of a rule, called with the captured values sorted into vectors, gets just these values back. */
  ghost predicate HandsOver(rule: string, vs: seq<Value>) {
    && ParameterTag(rule, 0).Some? && Arguments(ParameterTag(rule, 0).value).Some?
    && Call(Arguments(ParameterTag(rule, 0).value).value, NO_PARAMS.PushAll(vs), 0, 0, 0, 0) == Some(vs)
  }

  /** Values of the rule's own types are handed over if and only if its unwrapped tag fits 64 bits. */
  lemma HandsOverExactly(rule: string, vs: seq<Value>)
    requires Tokens(rule).Some? && ValueTypes(vs) == Types(Kinds(Tokens(rule).value))
    ensures HandsOver(rule, vs) <==> Encode(Kinds(Tokens(rule).value)) < UINT64
  {
    hide Tokens, Encode, Arguments, Call, Kinds, ParameterTag, ValueTypes, Types;
    var kinds := Kinds(Tokens(rule).value);
    TokensIsFrom(rule);
    TagIsEncoding(rule, 0);
    TagDecodes(kinds);
    CallRestores(NO_PARAMS, vs);
    if HandsOver(rule, vs) {
      CallTypes(Arguments(ParameterTag(rule, 0).value).value, NO_PARAMS.PushAll(vs), 0, 0, 0, 0);
    }
  }

  lemma TokensIsFrom(text: string)
    ensures Tokens(text) == TokensFrom(text, 0)
  {
  }

  /** A matching rule hands its handler the captured values, each as the right argument, if and only if its unwrapped tag
      fits 64 bits; 24 placeholders always do. */
  lemma HandlerGetsCaptures(cap: Capturer, rule: string, url: string)
    requires Tokens(rule).Some? && Match(cap, Tokens(rule).value, url, 0).Some?
    ensures HandsOver(rule, Match(cap, Tokens(rule).value, url, 0).value) <==> Encode(Kinds(Tokens(rule).value)) < UINT64
    ensures |Kinds(Tokens(rule).value)| <= 24 ==> HandsOver(rule, Match(cap, Tokens(rule).value, url, 0).value)
  {
    hide Tokens, Encode, HandsOver, Kinds;
    var toks := Tokens(rule).value;
    MatchTypes(cap, toks, url, 0);
    HandsOverExactly(rule, Match(cap, toks, url, 0).value);
    if |Kinds(toks)| <= 24 {
      TagFits(Kinds(toks));
    }
  }

  /** `isParameterTagCompatible` as written: both residues come from `a`. */
  predicate TagCompatible(a: nat, b: nat) {
    if a == 0 then b == 0
    else if b == 0 then a == 0
    else
      var sa, sb := a % 6, a % 6;
      (if sa == 5 then 4 else sa) == (if sb == 5 then 4 else sb) && TagCompatible(a / 6, b / 6)
  }

  function Digits(a: nat): nat {
    if a == 0 then 0 else 1 + Digits(a / 6)
  }

  /** So it decides whether the two tags have equally many digits, and nothing about their types. */
  lemma {:induction false} CompatibleIsArity(a: nat, b: nat)
    ensures TagCompatible(a, b) <==> Digits(a) == Digits(b)
  {
    if a != 0 && b != 0 { CompatibleIsArity(a / 6, b / 6); }
  }

  /** The tags of `<int>` and `<str>` pass for compatible, although their types differ. */
  lemma CompatibleMissesTypes()
    ensures TagCompatible(Encode([Int]), Encode([Str])) && Types([Int]) != Types([Str])
  {
    assert Encode([Int]) == 1 && Encode([Str]) == 4;
    assert Types([Int])[0] == Int64 && Types([Str])[0] == Text;
  }

  /** A rule text of placeholders between slashes; only integers and strings are spelled. */
  function Slashed(kinds: seq<Kind>): string {
    if kinds == [] then "" else "/" + (if kinds[0] == Int then "<int>" else "<str>") + Slashed(kinds[1..])
  }

  function SlashedTokens(kinds: seq<Kind>): seq<Token> {
    if kinds == [] then [] else [Lit('/'), Param(kinds[0])] + SlashedTokens(kinds[1..])
  }

  /** A URL for such a rule. */
  function Sample(kinds: seq<Kind>): string {
    if kinds == [] then "" else "/" + (if kinds[0] == Int then "1" else "a") + Sample(kinds[1..])
  }

  predicate IntOrStr(kinds: seq<Kind>) {
    forall k :: 0 <= k < |kinds| ==> kinds[k] == Int || kinds[k] == Str
  }

  lemma {:induction false} KindsOfSlashed(kinds: seq<Kind>)
    ensures Kinds(SlashedTokens(kinds)) == kinds
    decreases |kinds|
  {
    if kinds != [] {
      KindsOfSlashed(kinds[1..]);
      var toks, rest := SlashedTokens(kinds), SlashedTokens(kinds[1..]);
      assert toks[1..] == [Param(kinds[0])] + rest && toks[1..][1..] == rest;
    }
  }

  lemma TraitAt(s: string, p: nat, kind: Kind)
    requires kind == Int || kind == Str
    requires HasAt(s, p, if kind == Int then "<int>" else "<str>")
    ensures p + 5 <= |s| && NextToken(s, p) == Some((Param(kind), p + 5))
  {
    var w := if kind == Int then "<int>" else "<str>";
    assert s[p] == w[0] == '<' && s[p + 1] == w[1];
    if kind == Str {
      assert !HasAt(s, p, "<int>") && !HasAt(s, p, "<uint>") && !HasAt(s, p, "<float>") && !HasAt(s, p, "<double>") by {
        assert "<int>"[1] == 'i' && "<uint>"[1] == 'u' && "<float>"[1] == 'f' && "<double>"[1] == 'd';
      }
    }
  }

  lemma {:induction false} SlashedScans(s: string, p: nat, kinds: seq<Kind>)
    requires p <= |s| && s[p..] == Slashed(kinds) && IntOrStr(kinds)
    ensures TokensFrom(s, p) == Some(SlashedTokens(kinds))
    decreases |kinds|
  {
    if kinds != [] {
      var w := if kinds[0] == Int then "<int>" else "<str>";
      Pieces(s, p, w, Slashed(kinds[1..]));
      hide TokensFrom, NextToken, Slashed, HasAt;
      TraitAt(s, p + 1, kinds[0]);
      SlashedScans(s, p + 6, kinds[1..]);
      ScanPair(s, p, kinds[0], SlashedTokens(kinds[1..]));
    }
  }

  lemma Pieces(s: string, p: nat, w: string, rest: string)
    requires p <= |s| && s[p..] == "/" + w + rest
    ensures p < |s| && s[p] == '/' && HasAt(s, p + 1, w) && p + 1 + |w| <= |s| && s[p + 1 + |w|..] == rest
  {
    assert s[p] == s[p..][0];
    forall k | 0 <= k < |w|
      ensures s[p + 1 + k] == w[k]
    {
      assert s[p + 1 + k] == s[p..][1 + k];
    }
    assert s[p + 1 + |w|..] == s[p..][1 + |w|..];
  }

  /** A slash and a placeholder, scanned one after the other. */
  lemma ScanPair(s: string, p: nat, kind: Kind, rest: seq<Token>)
    requires p + 6 <= |s| && s[p] == '/' && NextToken(s, p + 1) == Some((Param(kind), p + 6))
    requires TokensFrom(s, p + 6) == Some(rest)
    ensures TokensFrom(s, p) == Some([Lit('/'), Param(kind)] + rest)
  {
    hide NextToken;
    assert TokensFrom(s, p + 1) == Some([Param(kind)] + rest);
    assert [Lit('/')] + ([Param(kind)] + rest) == [Lit('/'), Param(kind)] + rest;
  }

  lemma {:induction false} SampleMatches(d: Strtod, url: string, pos: nat, kinds: seq<Kind>)
    requires pos <= |url| && url[pos..] == Sample(kinds) && IntOrStr(kinds)
    ensures Match(CapturesOf(d), SlashedTokens(kinds), url, pos).Some?
    decreases |kinds|
  {
    if kinds != [] {
      var w := if kinds[0] == Int then "1" else "a";
      Pieces(url, pos, w, Sample(kinds[1..]));
      assert url[pos + 1] == w[0];
      assert pos + 2 < |url| ==> url[pos + 2] == url[pos + 2..][0] == '/';
      SampleMatches(d, url, pos + 2, kinds[1..]);
      SampleCaptures(d, url, pos + 1, kinds[0]);
      MatchPair(CapturesOf(d), kinds[0], SlashedTokens(kinds[1..]), url, pos);
    }
  }

  /** A slash and a placeholder, matched one after the other. */
  lemma MatchPair(cap: Capturer, kind: Kind, rest: seq<Token>, url: string, pos: nat)
    requires pos + 1 < |url| && url[pos] == '/' && cap(kind, url, pos + 1).Some?
    requires cap(kind, url, pos + 1).value.0 <= |url| && Match(cap, rest, url, cap(kind, url, pos + 1).value.0).Some?
    ensures Match(cap, [Lit('/'), Param(kind)] + rest, url, pos).Some?
  {
    var toks := [Lit('/'), Param(kind)] + rest;
    assert toks[1..] == [Param(kind)] + rest && toks[1..][1..] == rest;
  }

  lemma SampleCaptures(d: Strtod, url: string, pos: nat, kind: Kind)
    requires pos < |url| && (pos + 1 < |url| ==> url[pos + 1] == '/')
    requires (kind == Int && url[pos] == '1') || (kind == Str && url[pos] == 'a')
    ensures CapturesOf(d)(kind, url, pos).Some? && CapturesOf(d)(kind, url, pos).value.0 == pos + 1
  {
    if kind == Int {
      CaptureInt(d, url, pos);
      assert DigitsEnd(url, pos) == pos + 1;
      assert Decimal(url, pos, pos) == 0 && Decimal(url, pos, pos + 1) == 1;
    } else {
      CaptureStr(d, url, pos);
      assert SlashOrEnd(url, pos) == pos + 1;
    }
  }

  /** A rule that the code accepts, with an argument list of its own, and a URL that it matches: its handler does not get
      the captured values. */
  lemma WrappedRuleMisdelivers(d: Strtod)
    ensures
      var rule, url := Slashed(Wrapping()), Sample(Wrapping());
      && Tokens(rule).Some? && Match(CapturesOf(d), Tokens(rule).value, url, 0).Some?
      && ParameterTag(rule, 0).Some? && Arguments(ParameterTag(rule, 0).value).Some?
      && !HandsOver(rule, Match(CapturesOf(d), Tokens(rule).value, url, 0).value)
  {
    hide Wrapping, Tokens, Encode, Arguments, ParameterTag, HandsOver, Slashed, Sample, SlashedTokens, Kinds;
    var kinds := Wrapping();
    var rule, url := Slashed(kinds), Sample(kinds);
    WrappingIs();
    assert rule[0..] == rule && url[0..] == url;
    SlashedScans(rule, 0, kinds);
    TokensIsFrom(rule);
    KindsOfSlashed(kinds);
    SampleMatches(d, url, 0, kinds);
    TagIsEncoding(rule, 0);
    TagWraps();
    HandlerGetsCaptures(CapturesOf(d), rule, url);
  }

  lemma WrappingIs()
    ensures IntOrStr(Wrapping())
  {
  }
}
