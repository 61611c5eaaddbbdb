/** Looking up the pairs of a parsed query string (http/query_string.h `qsStrncmp`, `qsK2v`, `QueryString`). */
module QueryLookups {
  import opened Options
  import opened CStrings
  import opened QueryStrings

  /** The next character of a key as it is compared, and how many characters of text it takes. */
  function Unit(s: string): char {
    if s == [] || !IsQsChr(s[0]) then NUL
    else if s[0] == '+' then ' '
    else if s[0] == '%' then (if CompleteEscape(s) then KeyEscape(s[1], s[2]) else NUL)
    else s[0]
  }

  function Width(s: string): (w: nat)
    ensures w <= |s| && (s != [] ==> w >= 1)
  {
    if CompleteEscape(s) then 3 else if s == [] then 0 else 1
  }

  function Compare(s: string, e: string, n: nat): int {
    if n == 0 then (if e != [] && IsQsChr(e[0]) then -1 else 0)
    else if Unit(s) != Unit(e) then Unit(s) as int - Unit(e) as int
    else if Unit(s) == NUL then 0
    else Compare(s[Width(s)..], e[Width(e)..], n - 1)
  }

  /** A key as the comparison reads it. */
  function KeyOf(e: string): string
    decreases |e|
  {
    if e == [] || !IsQsChr(e[0]) then [] else [Unit(e)] + KeyOf(e[Width(e)..])
  }

  predicate Plain(name: string) {
    forall k :: 0 <= k < |name| ==> IsQsChr(name[k]) && name[k] != '+' && name[k] != '%'
  }

  /** For a plain name the comparison says whether the entry's key, read with its escapes, is that name. */
  lemma {:induction false} CompareIsEquality(name: string, e: string)
    requires Plain(name)
    ensures Compare(name, e, |name|) == 0 <==> KeyOf(e) == name
    decreases |name|
  {
    if name != [] {
      assert Unit(name) == name[0] && Width(name) == 1;
      if e != [] && IsQsChr(e[0]) && Unit(e) == name[0] {
        CompareIsEquality(name[1..], e[Width(e)..]);
        assert KeyOf(e)[1..] == KeyOf(e[Width(e)..]);
        assert KeyOf(e) == name <==> KeyOf(e)[1..] == name[1..] by {
          assert name == [name[0]] + name[1..];
        }
      } else if e != [] && IsQsChr(e[0]) {
        assert KeyOf(e)[0] == Unit(e);
      }
    }
  }

  lemma {:induction false} CompareFrom(name: string, e: string, n: nat)
    requires n >= |KeyOf(name)|
    ensures
      Compare(name, e, n) == 0 <==>
      if NUL in KeyOf(name) || n > |KeyOf(name)| then CString(KeyOf(name)) == CString(KeyOf(e)) else KeyOf(name) == KeyOf(e)
    decreases n
  {
    hide KeyOf, CString, Unit, Width;
    KeyHead(name);
    KeyHead(e);
    if n > 0 && Unit(name) == Unit(e) != NUL {
      var a, b := name[Width(name)..], e[Width(e)..];
      CompareFrom(a, b, n - 1);
      SameHead(Unit(e), KeyOf(a), KeyOf(b));
      SameHead(Unit(e), CString(KeyOf(a)), CString(KeyOf(b)));
    }
  }

  lemma SameHead(u: char, a: string, b: string)
    ensures [u] + a == [u] + b <==> a == b
  {
    assert ([u] + a)[1..] == a && ([u] + b)[1..] == b;
  }

  /** A key and its first character. */
  lemma KeyHead(e: string)
    ensures
      var u, rest := Unit(e), KeyOf(e[Width(e)..]);
      if u != NUL then KeyOf(e) == [u] + rest && CString(KeyOf(e)) == [u] + CString(rest)
      else CString(KeyOf(e)) == [] && (KeyOf(e) == [] || (KeyOf(e)[0] == NUL && NUL in KeyOf(e)))
    ensures Unit(e) != NUL ==> KeyOf(e)[0] == CString(KeyOf(e))[0] == Unit(e)
    ensures KeyOf(e) == [] <==> e == [] || !IsQsChr(e[0])
  {
    if e != [] && IsQsChr(e[0]) {
      assert KeyOf(e)[1..] == KeyOf(e[Width(e)..]);
    }
  }

  lemma {:induction false} KeyOfFits(e: string)
    ensures |KeyOf(e)| <= |e|
    decreases |e|
  {
    if e != [] && IsQsChr(e[0]) {
      KeyOfFits(e[Width(e)..]);
    }
  }

  /** For any name: a key matches if it reads as the name does. Where the name has no escape the whole key counts; where
      it has one, or stops early, the key counts up to its first NUL or broken escape. */
  lemma CompareExactly(name: string, e: string)
    ensures
      Compare(name, e, |name|) == 0 <==>
      if NUL in KeyOf(name) || |name| > |KeyOf(name)| then CString(KeyOf(name)) == CString(KeyOf(e))
      else KeyOf(name) == KeyOf(e)
  {
    KeyOfFits(name);
    CompareFrom(name, e, |name|);
  }

  lemma {:induction false} KeyOfIsLocal(e: string, k: nat)
    requires k < |e| && !IsQsChr(e[k])
    ensures KeyOf(e) == KeyOf(e[..k])
    decreases |e|
  {
    var f := e[..k];
    if k > 0 && IsQsChr(e[0]) {
      assert forall n :: 0 <= n < k ==> f[n] == e[n];
      assert CompleteEscape(e) <==> CompleteEscape(f);
      var w := Width(e);
      KeyOfIsLocal(e[w..], k - w);
      assert e[w..][..k - w] == f[w..];
    }
  }

  /** Read one character of a key from a C string in memory. The second digit of an escape is read only behind a first
      one. */
  method NextUnit(m: seq<char>, p: nat) returns (u: char, w: nat)
    requires p < |m| && Terminated(m)
    ensures u == Unit(CString(m[p..]))
    ensures u != NUL ==> p + w < |m| && CString(m[p + w..]) == CString(m[p..])[Width(CString(m[p..]))..]
  {
    hide CString, Unit, Width, KeyEscape;
    UnitAt(m, p);
    u, w := m[p], 1;
    if !IsQsChr(u) {
      u := NUL;
    }
    if u == '+' {
      u := ' ';
    } else if u == '%' {
      if IsHex(m[p + 1]) && IsHex(m[p + 2]) {
        u, w := KeyEscape(m[p + 1], m[p + 2]), 3;
      } else {
        u := NUL;
      }
    }
  }

  /** The next character of the C string at `p`, read from memory. */
  lemma UnitAt(m: seq<char>, p: nat)
    requires p < |m| && Terminated(m)
    ensures !IsQsChr(m[p]) ==> Unit(CString(m[p..])) == NUL
    ensures IsQsChr(m[p]) && m[p] != '%' ==>
              Unit(CString(m[p..])) == if m[p] == '+' then ' ' else m[p]
    ensures IsQsChr(m[p]) && m[p] != '%' ==>
              CString(m[p + 1..]) == CString(m[p..])[Width(CString(m[p..]))..]
    ensures m[p] == '%' ==> p + 1 < |m| && (IsHex(m[p + 1]) ==> p + 2 < |m|)
    ensures m[p] == '%' && IsHex(m[p + 1]) && IsHex(m[p + 2]) ==>
              p + 3 < |m| && Unit(CString(m[p..])) == KeyEscape(m[p + 1], m[p + 2]) &&
              CString(m[p + 3..]) == CString(m[p..])[Width(CString(m[p..]))..]
    ensures m[p] == '%' && !(IsHex(m[p + 1]) && IsHex(m[p + 2])) ==> Unit(CString(m[p..])) == NUL
  {
    hide CString, KeyEscape;
    CStringAt(m, p);
    if m[p] == '%' {
      CStringAt(m, p + 1);
      if IsHex(m[p + 1]) {
        CStringAt(m, p + 2);
        if IsHex(m[p + 2]) {
          assert CString(m[p..])[3..] == CString(m[p + 3..]);
        }
      }
    }
  }

  method QsStrncmp(s: string, qs: array<char>, p: nat) returns (r: int)
    requires p < qs.Length && Terminated(qs[..]) && NUL !in s
    ensures r == Compare(s, CString(qs[..][p..]), |s|)
  {
    hide CString, Unit, Width;
    var m, a, b, n := s + [NUL], 0, p, |s|;
    CStringStops(s, []);
    assert m[0..] == s + [NUL] + [];
    while n > 0
      invariant 0 <= a < |m| && 0 <= b < qs.Length && 0 <= n
      invariant Compare(s, CString(qs[..][p..]), |s|) == Compare(CString(m[a..]), CString(qs[..][b..]), n)
    {
      var u1, wa := NextUnit(m, a);
      var u2, wb := NextUnit(qs[..], b);
      if u1 != u2 {
        return u1 as int - u2 as int;
      }
      if u1 == NUL {
        return 0;
      }
      a, b, n := a + wa, b + wb, n - 1;
    }
    CStringAt(qs[..], b);
    r := if IsQsChr(qs[b]) then -1 else 0;
  }

  /** Where the value of an entry begins: behind its `=`, or at its end. */
  function ValueAt(b: seq<char>, p: nat): (v: nat)
    requires p < |b| && Terminated(b)
    ensures p <= v < |b|
  {
    var s := Span(b, p, {'='});
    if b[s] == '=' then s + 1 else s
  }

  ghost predicate InBuffer(b: seq<char>, kv: seq<nat>) {
    Terminated(b) && forall k :: 0 <= k < |kv| ==> kv[k] < |b|
  }

  /** The values of all entries that match a key, in order. */
  ghost function Found(b: seq<char>, kv: seq<nat>, key: string): seq<nat>
    requires InBuffer(b, kv)
    decreases |kv|
  {
    if kv == [] then []
    else (if Compare(key, CString(b[kv[0]..]), |key|) == 0 then [ValueAt(b, kv[0])] else []) + Found(b, kv[1..], key)
  }

  ghost function Nth(found: seq<nat>, n: nat): Option<nat> {
    if n < |found| then Some(found[n]) else None
  }

  /** The `nth` match in order. */
  method QsK2v(key: string, qs: array<char>, kv: seq<nat>, nth: nat) returns (r: Option<nat>)
    requires InBuffer(qs[..], kv) && NUL !in key
    ensures r == Nth(Found(qs[..], kv, key), nth)
  {
    hide Compare, CString, ValueAt;
    var n := nth;
    assert kv[0..] == kv;
    for i := 0 to |kv|
      invariant Nth(Found(qs[..], kv, key), nth) == Nth(Found(qs[..], kv[i..], key), n)
    {
      assert kv[i..][1..] == kv[i + 1..];
      var c := QsStrncmp(key, qs, kv[i]);
      if c == 0 {
        var skip := ValueOffset(qs, kv[i]);
        if n == 0 {
          return Some(skip);
        }
        n := n - 1;
      }
    }
    r := None;
  }

  method ValueOffset(qs: array<char>, p: nat) returns (v: nat)
    requires p < qs.Length && Terminated(qs[..])
    ensures v == ValueAt(qs[..], p)
  {
    v := Span(qs[..], p, {'='});
    if qs[v] == '=' {
      v := v + 1;
    }
  }

  /** The restarted searches of `getList` collect all matches, in order and each once. */
  method Collect(key: string, qs: array<char>, kv: seq<nat>) returns (r: seq<nat>)
    requires InBuffer(qs[..], kv) && NUL !in key
    ensures r == Found(qs[..], kv, key)
  {
    ghost var all := Found(qs[..], kv, key);
    r := [];
    var count := 0;
    while true
      invariant count <= |all| && r == all[..count]
      decreases |all| - count
    {
      var element := QsK2v(key, qs, kv, count);
      count := count + 1;
      if element.None? {
        break;
      }
      r := r + [element.value];
    }
  }

  /** The entry that parsing leaves of a segment. */
  function Entry(seg: string): string {
    var k := KeyEnd(seg);
    if k == |seg| then seg else seg[..k + 1] + CString(Decode(seg[k + 1..]))
  }

  /** The value of a segment: what stands behind the `=` that ends its key, decoded. */
  function Value(seg: string): string {
    var k := KeyEnd(seg);
    if k < |seg| && seg[k] == '=' then CString(Decode(seg[k + 1..])) else []
  }

  /** The rendered segment holds its entry, whatever follows it in memory. */
  lemma RenderIsEntry(seg: string, t: char, rest: seq<char>)
    requires NUL !in seg && !IsQsChr(t)
    ensures CString(Render(seg, t) + rest) == Entry(seg)
  {
    hide Decode, CString;
    var k := KeyEnd(seg);
    if k == |seg| {
      CStringStops(seg, rest);
    } else {
      var v := seg[k + 1..] + [t];
      ValueInPlace(v, rest);
      assert seg[..k + 1] + InPlace(v) + rest == seg[..k + 1] + (InPlace(v) + rest);
      CStringKeeps(seg[..k + 1], InPlace(v) + rest);
      DecodeIsLocal(v, |v| - 1);
      assert v[..|v| - 1] == seg[k + 1..];
    }
  }

  lemma ValueInPlace(v: string, rest: seq<char>)
    requires v != [] && !IsQsChr(v[|v| - 1])
    ensures CString(InPlace(v) + rest) == CString(Decode(v))
  {
    var d := Decode(v);
    DecodeFits(v, |v| - 1);
    assert InPlace(v) + rest == d + [NUL] + (v[|d| + 1..] + rest);
    CStringStops(d, v[|d| + 1..] + rest);
  }

  /** A decoded value holds no `=`. */
  lemma {:induction false} DecodeHasNoEquals(v: string)
    ensures '=' !in Decode(v)
    decreases |v|
  {
    if v == [] || !IsQsChr(v[0]) {
    } else if v[0] == '%' {
      if CompleteEscape(v) {
        assert HexToDec(v[1] as int * 16) == 0 && 0 <= HexToDec(v[2] as int) < 16;
        DecodeHasNoEquals(v[3..]);
      }
    } else {
      DecodeHasNoEquals(v[1..]);
    }
  }

  /** Each entry of the parsed buffer depends on its own segment alone: its text, its value and its key. */
  lemma EntryOfSegment(q: seq<char>, now: seq<char>, s: nat)
    requires Terminated(q) && Terminated(now) && SegmentDone(q, now, s)
    ensures CString(now[s..]) == Entry(Segment(q, s))
    ensures CString(now[ValueAt(now, s)..]) == Value(Segment(q, s))
    ensures KeyOf(CString(now[s..])) == KeyOf(Segment(q, s))
  {
    hide Render, CString, Span, SegmentEnd, KeyOf, Decode, ValueAt;
    var seg, e := Segment(q, s), SegmentEnd(q, s);
    assert now[s..] == now[s..e + 1] + now[e + 1..];
    RenderIsEntry(seg, q[e], now[e + 1..]);
    ValueOfEntry(now, s, seg);
    KeyOfEntry(seg);
  }

  lemma KeyOfEntry(seg: string)
    ensures KeyOf(Entry(seg)) == KeyOf(seg)
  {
    hide KeyOf, CString, Decode;
    var k := KeyEnd(seg);
    if k < |seg| {
      KeyOfIsLocal(seg, k);
      KeyOfIsLocal(Entry(seg), k);
      assert Entry(seg)[..k] == seg[..k];
    }
  }

  /** A scan for `c` from `s` on is a scan of the C string that starts there. */
  lemma {:induction false} SpanInCString(m: seq<char>, s: nat, c: char)
    requires s < |m| && Terminated(m) && c != NUL
    ensures var v, e := Span(m, s, {c}), CString(m[s..]);
      && v - s <= |e| && c !in e[..v - s] && CString(m[v..]) == e[v - s..]
      && (if v - s < |e| then e[v - s] == m[v] == c else m[v] == NUL)
    decreases |m| - s
  {
    hide CString;
    CStringAt(m, s);
    var v, e := Span(m, s, {c}), CString(m[s..]);
    if m[s] != NUL && m[s] != c {
      SpanInCString(m, s + 1, c);
      assert v == Span(m, s + 1, {c});
      ConsSlices(m[s], CString(m[s + 1..]), v - s);
    } else {
      assert v == s && e[..0] == [] && e[0..] == e;
    }
  }

  lemma ConsSlices(x: char, f: string, n: nat)
    requires 1 <= n <= |f| + 1
    ensures ([x] + f)[..n] == [x] + f[..n - 1] && ([x] + f)[n..] == f[n - 1..]
    ensures n < |[x] + f| ==> ([x] + f)[n] == f[n - 1]
  {
  }

  lemma ValueOfEntry(now: seq<char>, s: nat, seg: string)
    requires s < |now| && Terminated(now) && NUL !in seg && CString(now[s..]) == Entry(seg)
    ensures CString(now[ValueAt(now, s)..]) == Value(seg)
  {
    hide CString, Decode, Span, Entry, Value;
    var e, v := Entry(seg), Span(now, s, {'='});
    SpanInCString(now, s, '=');
    EqualsInEntry(seg);
    CStringAt(now, v);
    if v - s < |e| {
      assert e[v - s] == '=';
      assert CString(now[v + 1..]) == e[v - s..][1..] == e[v - s + 1..];
    } else {
      assert e[..v - s] == e;
    }
  }

  /** The `=` of an entry, if it has one, is the only one and has the value behind it. */
  lemma EqualsInEntry(seg: string)
    ensures '=' !in Entry(seg) ==> Value(seg) == []
    ensures forall n :: 0 <= n < |Entry(seg)| && Entry(seg)[n] == '=' ==> Entry(seg)[n + 1..] == Value(seg)
  {
    hide CString, Decode;
    var k, e := KeyEnd(seg), Entry(seg);
    if k < |seg| {
      var d := CString(Decode(seg[k + 1..]));
      DecodeHasNoEquals(seg[k + 1..]);
      CStringIsPart(Decode(seg[k + 1..]), '=');
      assert e[k] == seg[k] && e[k + 1..] == d;
      assert forall n :: k < n < |e| ==> e[n] == d[n - k - 1];
    }
  }

  /** The buffer keeps its terminator. */
  lemma StaysTerminated(q: seq<char>, now: seq<char>, p: nat)
    requires p < |q| && Terminated(q) && Decoded(q, now, p, |Starts(q, p)|)
    ensures Terminated(now)
  {
    hide Render, SegmentEnd, Span;
    var last := |Starts(q, p)| - 1;
    var s := Starts(q, p)[last];
    StartsAreApart(q, p, last);
    LastEndIsLast(q, p, last);
    if LastEnd(q, p) == |q| - 1 {
      assert SegmentDone(q, now, s);
      RenderEnds(Segment(q, s), q[|q| - 1]);
      assert now[|q| - 1] == now[s..|q|][|q| - 1 - s];
    }
  }

  lemma RenderEnds(seg: string, t: char)
    requires t == NUL
    ensures var r := Render(seg, t); |r| == |seg| + 1 && r[|seg|] == NUL
  {
    var k := KeyEnd(seg);
    if k < |seg| {
      var v := seg[k + 1..] + [t];
      DecodeFits(v, |v| - 1);
    }
  }

  /** The values of the segments whose key is `name`, in the order of the URL. */
  ghost function ValuesFor(q: seq<char>, starts: seq<nat>, name: string): seq<string>
    requires InBuffer(q, starts)
    decreases |starts|
  {
    if starts == [] then []
    else
      (if KeyOf(Segment(q, starts[0])) == name then [Value(Segment(q, starts[0]))] else []) +
      ValuesFor(q, starts[1..], name)
  }

  ghost function Texts(b: seq<char>, at: seq<nat>): seq<string> {
    seq(|at|, k requires 0 <= k < |at| => if at[k] < |b| then CString(b[at[k]..]) else [])
  }

  lemma {:induction false} FoundIsFilter(q: seq<char>, now: seq<char>, starts: seq<nat>, name: string)
    requires InBuffer(q, starts) && InBuffer(now, starts) && Plain(name)
    requires forall k :: 0 <= k < |starts| ==> SegmentDone(q, now, starts[k])
    ensures Texts(now, Found(now, starts, name)) == ValuesFor(q, starts, name)
    decreases |starts|
  {
    hide CString, KeyOf, Compare, ValueAt, Value, Segment, SegmentDone;
    if starts != [] {
      var s := starts[0];
      EntryOfSegment(q, now, s);
      CompareIsEquality(name, CString(now[s..]));
      FoundIsFilter(q, now, starts[1..], name);
      assert Texts(now, [ValueAt(now, s)]) == [CString(now[ValueAt(now, s)..])];
      assert Texts(now, [ValueAt(now, s)] + Found(now, starts[1..], name)) ==
             Texts(now, [ValueAt(now, s)]) + Texts(now, Found(now, starts[1..], name));
    }
  }

  /** A URL with its parsed query. `source` is the URL as it was given. */
  class QueryString {
    var url: array<char>
    var keyValuePairs: seq<nat>
    var outside: bool  // the parser left its table
    ghost const source: string

    ghost predicate Valid()
      reads this, url
    {
      && InBuffer(url[..], keyValuePairs) && url.Length == |source| + 1
      && keyValuePairs == Segments(source + [NUL])
      && forall k :: 0 <= k < |keyValuePairs| ==> SegmentDone(source + [NUL], url[..], keyValuePairs[k])
    }

    constructor (newUrl: string)
      ensures source == newUrl && fresh(url)
      ensures outside <==> |Segments(newUrl + [NUL])| > MAX_KEY_VALUE_PAIRS
      ensures !outside ==> Valid()
    {
      hide SegmentDone, Segments, Decoded, QueryStart;
      ghost var q := newUrl + [NUL];
      var buffer := new char[|newUrl| + 1](i => if 0 <= i < |newUrl| then newUrl[i] else NUL);
      assert buffer[..] == q;
      var pairs: seq<nat>, over := [], false;
      if newUrl != [] {
        var kv := new int[MAX_KEY_VALUE_PAIRS];
        var count;
        count, over := QsParse(buffer, kv);
        NoSegments(q);
        if !over {
          if QueryStart(q).Some? {
            ParsedInBuffer(q, buffer[..]);
          }
          for k := 0 to count
            invariant |pairs| == k && forall n :: 0 <= n < k ==> pairs[n] == Segments(q)[n]
          {
            assert kv[..][k] == Segments(q)[k];
            pairs := pairs + [kv[k]];
          }
          assert pairs == Segments(q);
        }
      } else {
        EmptyUrl(q);
      }
      url, keyValuePairs, outside, source := buffer, pairs, over, newUrl;
    }

    /** The values the URL gives to a name, in order. */
    ghost function Values(name: string): seq<string> {
      SegmentsInBuffer(source + [NUL]);
      ValuesFor(source + [NUL], Segments(source + [NUL]), name)
    }

    method Get(name: string) returns (r: Option<nat>)
      requires Valid()
      ensures r == Nth(Found(url[..], keyValuePairs, CString(name)), 0)
      ensures Plain(name) ==> (r.Some? <==> Values(name) != [])
      ensures Plain(name) && r.Some? ==> r.value < url.Length && CString(url[..][r.value..]) == Values(name)[0]
    {
      hide CString, Compare, SegmentDone, Segments, ValuesFor;
      CStringStops(name, []);
      r := QsK2v(CString(name), url, keyValuePairs, 0);
      if Plain(name) {
        FoundIsFilter(source + [NUL], url[..], keyValuePairs, name);
        FoundInBuffer(url[..], keyValuePairs, name);
        assert r.Some? ==> Texts(url[..], Found(url[..], keyValuePairs, name))[0] == Values(name)[0];
      }
    }

    method GetList(name: string) returns (r: seq<nat>)
      requires Valid()
      ensures r == Found(url[..], keyValuePairs, CString(name + "[]"))
      ensures Plain(name) ==> Texts(url[..], r) == Values(name + "[]")
    {
      hide CString, Found, SegmentDone, Segments, ValuesFor, Texts, Plain;
      var plus := name + "[]";
      CStringStops(plus, []);
      PlainList(name);
      r := Collect(CString(plus), url, keyValuePairs);
      if Plain(name) {
        FoundIsFilter(source + [NUL], url[..], keyValuePairs, plus);
      }
    }
  }

  lemma {:induction false} FoundInBuffer(b: seq<char>, kv: seq<nat>, key: string)
    requires InBuffer(b, kv)
    ensures forall k :: 0 <= k < |Found(b, kv, key)| ==> Found(b, kv, key)[k] < |b|
    decreases |kv|
  {
    hide Compare, CString;
    if kv != [] {
      FoundInBuffer(b, kv[1..], key);
    }
  }

  lemma PlainList(name: string)
    ensures Plain(name) ==> Plain(name + "[]") && NUL !in name + "[]"
  {
  }

  lemma SegmentsInBuffer(q: seq<char>)
    requires Terminated(q)
    ensures InBuffer(q, Segments(q))
  {
    hide Starts, Span;
    if QueryStart(q).Some? {
      var p := QueryStart(q).value;
      forall k | 0 <= k < |Segments(q)|
        ensures Segments(q)[k] < |q|
      {
        StartsAreApart(q, p, k);
      }
    }
  }

  lemma ParsedInBuffer(q: seq<char>, now: seq<char>)
    requires Terminated(q) && QueryStart(q).Some? && Decoded(q, now, QueryStart(q).value, |Segments(q)|)
    ensures InBuffer(q, Segments(q)) && InBuffer(now, Segments(q))
    ensures forall k :: 0 <= k < |Segments(q)| ==> SegmentDone(q, now, Segments(q)[k])
  {
    hide SegmentDone, Starts, LastEnd, Span;
    StaysTerminated(q, now, QueryStart(q).value);
    SegmentsInBuffer(q);
  }

  lemma EmptyUrl(q: seq<char>)
    requires q == [NUL]
    ensures Segments(q) == []
  {
  }
}
