/** D-Bus type signatures and how they are split into complete types (include/openbmc_dbus_rest.hpp `dbusArgSplit`;
    D-Bus Specification, section "Type System"). */
module Signatures {

  /** A D-Bus type. A dictionary entry occurs only as the element of an array. */
  datatype Type =
    | Basic(code: char)
    | Array(elem: Type)
    | Struct(fields: seq<Type>)
    | Entry(key: Type, val: Type)
    | Variant

  predicate IsBasicCode(c: char) {
    c in "ybnqiuxtdsogh"
  }

  /** Basic types use the basic codes. */
  ghost predicate Coded(t: Type)
    decreases t
  {
    match t
    case Basic(c) => IsBasicCode(c)
    case Array(e) => Coded(e)
    case Struct(fs) => forall f :: f in fs ==> Coded(f)
    case Entry(k, v) => Coded(k) && Coded(v)
    case Variant => true
  }

  function Sig(t: Type): (s: string)
    ensures s != ""
    decreases t, 0
  {
    match t
    case Basic(c) => [c]
    case Array(e) => "a" + Sig(e)
    case Struct(fs) => "(" + SigAll(fs) + ")"
    case Entry(k, v) => "{" + Sig(k) + Sig(v) + "}"
    case Variant => "v"
  }

  function SigAll(ts: seq<Type>): string
    decreases ts, 0
  {
    if ts == [] then "" else Sig(ts[0]) + SigAll(ts[1..])
  }

  ghost function TypeSize(t: Type): (n: nat)
    ensures n > 0
    decreases t, 0
  {
    match t
    case Basic(_) => 1
    case Array(e) => 1 + TypeSize(e)
    case Struct(fs) => 1 + TypesSize(fs)
    case Entry(k, v) => 1 + TypeSize(k) + TypeSize(v)
    case Variant => 1
  }

  ghost function TypesSize(ts: seq<Type>): nat
    decreases ts, 0
  {
    if ts == [] then 0 else TypeSize(ts[0]) + TypesSize(ts[1..])
  }

  function Sigs(ts: seq<Type>): (r: seq<string>)
    ensures |r| == |ts| && forall k :: 0 <= k < |r| ==> r[k] == Sig(ts[k])
  {
    seq(|ts|, k requires 0 <= k < |ts| => Sig(ts[k]))
  }

  /** The container depth after a character. */
  function DepthAfter(c: char, depth: int): int {
    if c == '(' || c == '{' then depth + 1 else if c == ')' || c == '}' then depth - 1 else depth
  }

  /** A piece is complete after this character. */
  predicate Closes(c: char, depth: int) {
    if c == 'a' || c == '(' || c == '{' then false else DepthAfter(c, depth) == 0
  }

  /** The pieces of what is left, given the depth and the piece begun. */
  function SplitRest(rest: string, depth: int, cur: string): (r: seq<string>)
    ensures r != []
    decreases |rest|
  {
    if rest == "" then [cur]
    else
      var piece, d := cur + [rest[0]], DepthAfter(rest[0], depth);
      if Closes(rest[0], depth) && rest[1..] != "" then [piece] + SplitRest(rest[1..], d, "")
      else SplitRest(rest[1..], d, piece)
  }

  function ArgSplit(s: string): seq<string> {
    if s == "" then [] else SplitRest(s, 0, "")
  }

  /** The source's loop. */
  method DbusArgSplit(s: string) returns (ret: seq<string>)
    ensures ret == ArgSplit(s)
  {
    hide SplitRest, Closes;
    ret := [];
    if s == "" {
      return;
    }
    ret := [""];
    var containerDepth := 0;
    for i := 0 to |s|
      invariant ret != []
      invariant ArgSplit(s) == ret[..|ret| - 1] + SplitRest(s[i..], containerDepth, ret[|ret| - 1])
    {
      ghost var before, depth := ret, containerDepth;
      var c := s[i];
      assert s[i..][0] == c && s[i..][1..] == s[i + 1..];
      ClosesIs(c, depth);
      ret := ret[|ret| - 1 := ret[|ret| - 1] + [c]];
      match c {
        case 'a' =>
        case '(' => containerDepth := containerDepth + 1;
        case '{' => containerDepth := containerDepth + 1;
        case '}' =>
          containerDepth := containerDepth - 1;
          if containerDepth == 0 && i + 1 != |s| { ret := ret + [""]; }
        case ')' =>
          containerDepth := containerDepth - 1;
          if containerDepth == 0 && i + 1 != |s| { ret := ret + [""]; }
        case _ =>
          if containerDepth == 0 && i + 1 != |s| { ret := ret + [""]; }
      }
      SplitStep(s[i..], depth, before, ret);
    }
    SplitEnds(s[|s|..], containerDepth, ret[|ret| - 1]);
    assert ret[..|ret| - 1] + [ret[|ret| - 1]] == ret;
  }

  lemma SplitEnds(rest: string, depth: int, cur: string)
    requires rest == ""
    ensures SplitRest(rest, depth, cur) == [cur]
  {
  }

  /** Which characters complete a piece. */
  lemma ClosesIs(c: char, depth: int)
    ensures c == 'a' || c == '(' || c == '{' ==> !Closes(c, depth)
    ensures c != 'a' && c != '(' && c != '{' ==> (Closes(c, depth) <==> DepthAfter(c, depth) == 0)
  {
  }

  lemma SplitStep(rest: string, depth: int, before: seq<string>, ret: seq<string>)
    requires rest != "" && before != []
    requires var last := before[|before| - 1] + [rest[0]];
             ret == before[..|before| - 1] + [last] + if Closes(rest[0], depth) && rest[1..] != "" then [""] else []
    ensures ret != []
    ensures before[..|before| - 1] + SplitRest(rest, depth, before[|before| - 1]) ==
            ret[..|ret| - 1] + SplitRest(rest[1..], DepthAfter(rest[0], depth), ret[|ret| - 1])
  {
    var last := before[|before| - 1] + [rest[0]];
    if Closes(rest[0], depth) && rest[1..] != "" {
      assert ret[..|ret| - 1] == before[..|before| - 1] + [last];
    } else {
      assert ret[..|ret| - 1] == before[..|before| - 1];
    }
  }

  function Join(ss: seq<string>): string {
    if ss == [] then "" else ss[0] + Join(ss[1..])
  }

  lemma {:induction false} JoinRest(rest: string, depth: int, cur: string)
    ensures Join(SplitRest(rest, depth, cur)) == cur + rest
    ensures rest != "" || cur != "" ==> "" !in SplitRest(rest, depth, cur)
    decreases |rest|
  {
    if rest == "" {
      assert [cur][1..] == [];
      assert cur + rest == cur == cur + Join([]);
    } else {
      var piece, d := cur + [rest[0]], DepthAfter(rest[0], depth);
      assert piece + rest[1..] == cur + rest;
      if Closes(rest[0], depth) && rest[1..] != "" {
        JoinRest(rest[1..], d, "");
        var more := SplitRest(rest[1..], d, "");
        assert ([piece] + more)[1..] == more;
        assert "" + rest[1..] == rest[1..];
      } else {
        JoinRest(rest[1..], d, piece);
      }
    }
  }

  /** For every string at all, joining the pieces gives it back and no piece is empty. */
  lemma SplitPartitions(s: string)
    ensures Join(ArgSplit(s)) == s && "" !in ArgSplit(s)
  {
    if s != "" {
      JoinRest(s, 0, "");
      assert "" + s == s;
    }
  }

  /** Nested inside a container, a complete type is passed over whole. */
  lemma {:induction false} PassType(t: Type, tail: string, depth: int, cur: string)
    requires depth > 0 && Coded(t)
    ensures SplitRest(Sig(t) + tail, depth, cur) == SplitRest(tail, depth, cur + Sig(t))
    decreases TypeSize(t), 0
  {
    hide SplitRest;
    match t
    case Basic(c) => PassChar(c, tail, depth, cur);
    case Variant => PassChar('v', tail, depth, cur);
    case Array(e) =>
      assert Sig(t) + tail == "a" + (Sig(e) + tail);
      PassChar('a', Sig(e) + tail, depth, cur);
      PassType(e, tail, depth, cur + "a");
      assert cur + "a" + Sig(e) == cur + Sig(t);
    case Struct(fs) =>
      PassOpen(t, SigAll(fs), '(', ')', tail, depth, cur);
      PassTypes(fs, ")" + tail, depth + 1, cur + "(");
      PassClose(SigAll(fs), '(', ')', tail, depth, cur);
    case Entry(k, v) =>
      EntrySig(k, v);
      PassOpen(t, SigAll([k, v]), '{', '}', tail, depth, cur);
      PassTypes([k, v], "}" + tail, depth + 1, cur + "{");
      PassClose(SigAll([k, v]), '{', '}', tail, depth, cur);
  }

  lemma EntrySig(k: Type, v: Type)
    ensures Sig(Entry(k, v)) == "{" + SigAll([k, v]) + "}"
    ensures SigAll([k, v]) == Sig(k) + Sig(v)
    ensures TypesSize([k, v]) == TypeSize(k) + TypeSize(v)
  {
    hide SigAll, TypeSize, TypesSize;
    OneSig(v);
    FirstSig(k, v);
    Braced(Sig(k), Sig(v));
  }

  lemma Braced(k: string, v: string)
    ensures "{" + (k + v) + "}" == "{" + k + v + "}"
  {
  }

  lemma FirstSig(k: Type, v: Type)
    ensures SigAll([k, v]) == Sig(k) + SigAll([v]) && TypesSize([k, v]) == TypeSize(k) + TypesSize([v])
  {
    hide Sig, TypeSize;
    assert [k, v][1..] == [v];
  }

  lemma OneSig(v: Type)
    ensures SigAll([v]) == Sig(v) && TypesSize([v]) == TypeSize(v)
  {
    hide Sig, TypeSize;
    assert [v][1..] == [];
    assert Sig(v) + "" == Sig(v);
  }

  lemma PassChar(c: char, tail: string, depth: int, cur: string)
    requires !Closes(c, depth) || tail == ""
    ensures SplitRest([c] + tail, depth, cur) == SplitRest(tail, DepthAfter(c, depth), cur + [c])
  {
    assert ([c] + tail)[1..] == tail;
  }

  lemma PassOpen(t: Type, inner: string, open: char, close: char, tail: string, depth: int, cur: string)
    requires Sig(t) == [open] + inner + [close] && (open == '(' || open == '{')
    ensures SplitRest(Sig(t) + tail, depth, cur) == SplitRest(inner + ([close] + tail), depth + 1, cur + [open])
  {
    assert Sig(t) + tail == [open] + (inner + ([close] + tail));
    PassChar(open, inner + ([close] + tail), depth, cur);
  }

  lemma PassClose(inner: string, open: char, close: char, tail: string, depth: int, cur: string)
    requires (close == ')' || close == '}') && depth > 0
    ensures SplitRest([close] + tail, depth + 1, cur + [open] + inner) ==
            SplitRest(tail, depth, cur + ([open] + inner + [close]))
  {
    PassChar(close, tail, depth + 1, cur + [open] + inner);
    assert cur + [open] + inner + [close] == cur + ([open] + inner + [close]);
  }

  lemma {:induction false} PassTypes(ts: seq<Type>, tail: string, depth: int, cur: string)
    requires depth > 0 && forall t :: t in ts ==> Coded(t)
    ensures SplitRest(SigAll(ts) + tail, depth, cur) == SplitRest(tail, depth, cur + SigAll(ts))
    decreases TypesSize(ts), 1
  {
    if ts == [] {
      assert SigAll(ts) + tail == tail && cur + SigAll(ts) == cur;
    } else {
      assert SigAll(ts) + tail == Sig(ts[0]) + (SigAll(ts[1..]) + tail);
      PassType(ts[0], SigAll(ts[1..]) + tail, depth, cur);
      PassTypes(ts[1..], tail, depth, cur + Sig(ts[0]));
      assert cur + Sig(ts[0]) + SigAll(ts[1..]) == cur + SigAll(ts);
    }
  }

  /** What follows a complete piece. */
  function Then(piece: string, tail: string): seq<string> {
    if tail == "" then [piece] else [piece] + SplitRest(tail, 0, "")
  }

  /** At the top level, a complete type makes one piece, together with the array codes before it. */
  lemma {:induction false} TakeType(t: Type, tail: string, cur: string)
    requires Coded(t)
    ensures SplitRest(Sig(t) + tail, 0, cur) == Then(cur + Sig(t), tail)
    decreases t
  {
    hide SplitRest, Then;
    match t
    case Basic(c) => TakeChar(c, tail, 0, cur);
    case Variant => TakeChar('v', tail, 0, cur);
    case Array(e) =>
      assert Sig(t) + tail == "a" + (Sig(e) + tail);
      PassChar('a', Sig(e) + tail, 0, cur);
      TakeType(e, tail, cur + "a");
      assert cur + "a" + Sig(e) == cur + Sig(t);
    case Struct(fs) =>
      PassOpen(t, SigAll(fs), '(', ')', tail, 0, cur);
      PassTypes(fs, ")" + tail, 1, cur + "(");
      TakeChar(')', tail, 1, cur + "(" + SigAll(fs));
      assert cur + "(" + SigAll(fs) + ")" == cur + Sig(t);
    case Entry(k, v) =>
      EntrySig(k, v);
      PassOpen(t, SigAll([k, v]), '{', '}', tail, 0, cur);
      PassTypes([k, v], "}" + tail, 1, cur + "{");
      TakeChar('}', tail, 1, cur + "{" + SigAll([k, v]));
      assert cur + "{" + SigAll([k, v]) + "}" == cur + Sig(t);
  }

  lemma TakeChar(c: char, tail: string, depth: int, cur: string)
    requires Closes(c, depth)
    ensures SplitRest([c] + tail, depth, cur) == Then(cur + [c], tail)
  {
    assert ([c] + tail)[1..] == tail;
  }

  /** Splitting undoes concatenation: the pieces of concatenated complete types are those types. */
  lemma {:induction false} SplitConcat(ts: seq<Type>)
    requires forall t :: t in ts ==> Coded(t)
    ensures ArgSplit(SigAll(ts)) == Sigs(ts)
    decreases |ts|
  {
    if ts != [] {
      var rest := SigAll(ts[1..]);
      TakeType(ts[0], rest, "");
      assert "" + Sig(ts[0]) == Sig(ts[0]);
      SplitConcat(ts[1..]);
      assert Sigs(ts) == [Sig(ts[0])] + Sigs(ts[1..]);
      if ts[1..] == [] {
        assert Sigs(ts[1..]) == [];
      } else {
        assert rest != "";
      }
    }
  }
}
