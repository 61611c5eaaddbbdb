/** The query string, parsed and decoded in place in the URL's own buffer (http/query_string.h). */
module QueryStrings {
  import opened Options
  import opened CStrings

  const MAX_KEY_VALUE_PAIRS: nat := 256

  predicate IsHex(c: char) {
    '0' <= c <= '9' || 'A' <= c <= 'F' || 'a' <= c <= 'f'
  }

  /** The value of a hexadecimal digit; anything else counts as zero. */
  function HexToDec(x: int): int {
    if '0' as int <= x <= '9' as int then x - 48
    else if 'A' as int <= x <= 'F' as int then x - 55
    else if 'a' as int <= x <= 'f' as int then x - 87
    else 0
  }

  predicate IsQsChr(c: char) {
    c != '=' && c != '#' && c != '&' && c != NUL
  }

  /** What an escape in a value is decoded to. The factor of sixteen is applied to the digit's character. */
  function Escape(hi: char, lo: char): char
    requires IsHex(hi) && IsHex(lo)
  {
    (HexToDec(hi as int * 16) + HexToDec(lo as int)) as char
  }

  /** What an escape in a key is compared as. */
  function KeyEscape(hi: char, lo: char): char
    requires IsHex(hi) && IsHex(lo)
  {
    (HexToDec(hi as int) * 16 + HexToDec(lo as int)) as char
  }

  /** The value decoder and the key comparison read an escape alike exactly when its first digit is zero. */
  lemma EscapesAgree(hi: char, lo: char)
    requires IsHex(hi) && IsHex(lo)
    ensures Escape(hi, lo) == KeyEscape(hi, lo) <==> hi == '0'
  {
    assert 768 <= hi as int * 16;
  }

  /** `%41` is `A` to the key comparison and the character 1 in a value. */
  lemma EscapesDiffer()
    ensures KeyEscape('4', '1') == 'A' && Escape('4', '1') == 1 as char
  {
  }

  predicate CompleteEscape(v: string) {
    |v| >= 3 && v[0] == '%' && IsHex(v[1]) && IsHex(v[2])
  }

  /** The decoded value: everything up to the first terminator or the first broken escape. */
  function Decode(v: string): string
    decreases |v|
  {
    if v == [] || !IsQsChr(v[0]) then []
    else if v[0] == '+' then [' '] + Decode(v[1..])
    else if v[0] == '%' then (if CompleteEscape(v) then [Escape(v[1], v[2])] + Decode(v[3..]) else [])
    else [v[0]] + Decode(v[1..])
  }

  lemma {:induction false} DecodeFits(v: string, e: nat)
    requires e < |v| && !IsQsChr(v[e])
    ensures |Decode(v)| <= e
    decreases |v|
  {
    if !IsQsChr(v[0]) {
    } else if v[0] == '%' {
      if CompleteEscape(v) {
        DecodeFits(v[3..], e - 3);
      }
    } else {
      DecodeFits(v[1..], e - 1);
    }
  }

  /** Decoding looks at nothing beyond a terminator. */
  lemma {:induction false} DecodeIsLocal(v: string, e: nat)
    requires e < |v| && !IsQsChr(v[e])
    ensures Decode(v) == Decode(v[..e])
    decreases |v|
  {
    var w := v[..e];
    if !IsQsChr(v[0]) {
    } else if v[0] == '%' {
      assert forall k :: 0 <= k < e ==> w[k] == v[k];
      if CompleteEscape(v) {
        assert CompleteEscape(w);
        DecodeIsLocal(v[3..], e - 3);
        assert v[3..][..e - 3] == w[3..];
      }
    } else {
      DecodeIsLocal(v[1..], e - 1);
      assert v[1..][..e - 1] == w[1..];
    }
  }

  /** What decoding leaves in memory: the value, a terminator, and whatever was behind it. */
  function InPlace(v: string): string {
    if |Decode(v)| < |v| then Decode(v) + [NUL] + v[|Decode(v)| + 1..] else Decode(v)
  }

  /** One step of the decoder at read position `j`. */
  lemma DecodeStep(v: string, j: nat)
    requires j < |v|
    ensures !IsQsChr(v[j]) ==> Decode(v[j..]) == []
    ensures v[j] == '+' ==> Decode(v[j..]) == [' '] + Decode(v[j + 1..])
    ensures v[j] == '%' && j + 2 < |v| && IsHex(v[j + 1]) && IsHex(v[j + 2]) ==>
              Decode(v[j..]) == [Escape(v[j + 1], v[j + 2])] + Decode(v[j + 3..])
    ensures v[j] == '%' && !(j + 2 < |v| && IsHex(v[j + 1]) && IsHex(v[j + 2])) ==> Decode(v[j..]) == []
    ensures IsQsChr(v[j]) && v[j] != '+' && v[j] != '%' ==> Decode(v[j..]) == [v[j]] + Decode(v[j + 1..])
  {
    var w := v[j..];
    assert w[1..] == v[j + 1..];
    if j + 2 < |v| {
      assert w[1] == v[j + 1] && w[2] == v[j + 2] && w[3..] == v[j + 3..];
    }
  }

  /** The buffer while `i` characters have been written from `base` on, none of them past the read position `j`. */
  ghost predicate Decoding(q: seq<char>, now: seq<char>, base: nat, i: nat, j: nat)
    requires base <= |q|
  {
    && |now| == |q| && i <= j < |q| - base
    && (forall k :: 0 <= k < base || base + i <= k < |q| ==> now[k] == q[k])
    && Decode(q[base..]) == now[base..base + i] + Decode(q[base..][j..])
  }

  lemma DecodingMoves(q: seq<char>, now: seq<char>, base: nat, i: nat, j: nat, c: char, w: nat)
    requires base < |q| && Decoding(q, now, base, i, j) && 1 <= w && j + w < |q| - base
    requires Decode(q[base..][j..]) == [c] + Decode(q[base..][j + w..])
    ensures Decoding(q, now[base + i := c], base, i + 1, j + w)
  {
    hide Decode;
    var next := now[base + i := c];
    assert next[base..base + i + 1] == now[base..base + i] + [c];
    assert now[base..base + i] + ([c] + Decode(q[base..][j + w..])) == next[base..base + i + 1] + Decode(q[base..][j + w..]);
  }

  lemma DecodingEnds(q: seq<char>, now: seq<char>, base: nat, i: nat, j: nat)
    requires base < |q| && Decoding(q, now, base, i, j) && Decode(q[base..][j..]) == []
    ensures i == |Decode(q[base..])|
    ensures now[base + i := NUL] == q[..base] + InPlace(q[base..])
  {
    hide Decode;
    var v := q[base..];
    assert Decode(v) == now[base..base + i];
    var end := now[base + i := NUL];
    assert q[base..][i + 1..] == q[base + i + 1..];
    assert end == end[..base] + (end[base..base + i] + [NUL] + end[base + i + 1..]);
    assert end[..base] == q[..base];
    assert end[base..base + i] == Decode(v);
    assert end[base + i + 1..] == q[base + i + 1..];
  }

  /** What the loop may rely on: it is inside the buffer, and what it reads next has not been written over. */
  lemma DecodingReads(q: seq<char>, now: seq<char>, base: nat, i: nat, j: nat)
    requires base < |q| && Decoding(q, now, base, i, j)
    ensures i <= j && base + j < |q| == |now| && now[base + j] == q[base..][j]
    ensures base + j + 1 < |q| ==> now[base + j + 1] == q[base..][j + 1]
    ensures base + j + 2 < |q| ==> now[base + j + 2] == q[base..][j + 2]
  {
    hide Decode;
  }

  lemma DecodingStarts(q: seq<char>, base: nat)
    requires base < |q|
    ensures Decoding(q, q, base, 0, 0)
  {
    hide Decode;
    assert q[base..][0..] == q[base..] && q[base..base] == [];
  }

  method QsDecode(qs: array<char>, base: nat) returns (i: nat)
    requires base < qs.Length && Terminated(qs[..])
    modifies qs
    ensures i == |Decode(old(qs[base..]))|
    ensures qs[..] == old(qs[..base]) + InPlace(old(qs[base..]))
  {
    hide Decode, InPlace, Escape, Decoding, IsHex;
    ghost var q := qs[..];
    ghost var v := q[base..];
    assert qs[base..] == v && qs[..base] == q[..base];
    var j := 0;
    i := 0;
    DecodingStarts(q, base);
    DecodingReads(q, q, base, 0, 0);
    while IsQsChr(qs[base + j])
      invariant i <= j < |v| && Decoding(q, qs[..], base, i, j)
      decreases |v| - j
    {
      ghost var was := qs[..];
      DecodingReads(q, was, base, i, j);
      DecodeStep(v, j);
      assert q[|q| - 1] == NUL == v[|v| - 1];
      if qs[base + j] == '+' {
        DecodingMoves(q, was, base, i, j, ' ', 1);
        qs[base + i] := ' ';
        assert qs[..] == was[base + i := ' '];
      } else if qs[base + j] == '%' {
        HexIsNoEnd(qs[base + j + 1]);
        if !IsHex(qs[base + j + 1]) || !IsHex(qs[base + j + 2]) {
          DecodingEnds(q, was, base, i, j);
          qs[base + i] := NUL;
          assert qs[..] == was[base + i := NUL];
          return;
        }
        HexIsNoEnd(qs[base + j + 2]);
        ghost var c := Escape(qs[base + j + 1], qs[base + j + 2]);
        DecodingMoves(q, was, base, i, j, c, 3);
        qs[base + i] := Escape(qs[base + j + 1], qs[base + j + 2]);
        assert qs[..] == was[base + i := c];
        j := j + 2;
      } else {
        DecodingMoves(q, was, base, i, j, v[j], 1);
        qs[base + i] := qs[base + j];
        assert qs[..] == was[base + i := v[j]];
      }
      i := i + 1;
      j := j + 1;
    }
    ghost var was := qs[..];
    DecodingReads(q, was, base, i, j);
    DecodeStep(v, j);
    DecodingEnds(q, was, base, i, j);
    qs[base + i] := NUL;
    assert qs[..] == was[base + i := NUL];
  }

  lemma HexIsNoEnd(c: char)
    ensures IsHex(c) ==> c != NUL
  {
  }

  /** `strcspn`: the first position from `p` on that holds a character of `stop` or the terminator. */
  function Span(q: seq<char>, p: nat, stop: set<char>): (r: nat)
    requires p < |q| && Terminated(q)
    ensures p <= r < |q| && (q[r] == NUL || q[r] in stop)
    ensures forall k :: p <= k < r ==> q[k] != NUL && q[k] !in stop
    decreases |q| - p
  {
    if q[p] == NUL || q[p] in stop then p else Span(q, p + 1, stop)
  }

  function SegmentEnd(q: seq<char>, p: nat): (e: nat)
    requires p < |q| && Terminated(q)
    ensures p <= e < |q| && (q[e] == NUL || q[e] == '&')
    ensures forall k :: p <= k < e ==> q[k] != NUL && q[k] != '&'
  {
    Span(q, p, {'&'})
  }

  function Segment(q: seq<char>, p: nat): string
    requires p < |q| && Terminated(q)
  {
    q[p..SegmentEnd(q, p)]
  }

  /** Where the `&`-separated segments from `p` on begin. */
  function Starts(q: seq<char>, p: nat): seq<nat>
    requires p < |q| && Terminated(q)
    decreases |q| - p
  {
    var e := SegmentEnd(q, p);
    if q[e] == '&' then [p] + Starts(q, e + 1) else [p]
  }

  /** The segments lie one behind the other, an `&` after each but the last. */
  lemma {:induction false} StartsAreApart(q: seq<char>, p: nat, k: nat)
    requires p < |q| && Terminated(q) && k < |Starts(q, p)|
    ensures p <= Starts(q, p)[k] < |q|
    ensures k + 1 < |Starts(q, p)| ==> Starts(q, p)[k + 1] == SegmentEnd(q, Starts(q, p)[k]) + 1
    ensures k + 1 == |Starts(q, p)| ==> q[SegmentEnd(q, Starts(q, p)[k])] == NUL
    decreases |q| - p
  {
    var e := SegmentEnd(q, p);
    if q[e] == '&' && k > 0 {
      StartsAreApart(q, e + 1, k - 1);
    } else if q[e] == '&' {
      StartsAreApart(q, e + 1, 0);
      assert Starts(q, e + 1)[0] == e + 1;
    }
  }

  lemma {:induction false} StartsIncrease(q: seq<char>, p: nat, k: nat, j: nat)
    requires p < |q| && Terminated(q) && k < j < |Starts(q, p)|
    ensures Starts(q, p)[k] < |q| && SegmentEnd(q, Starts(q, p)[k]) < Starts(q, p)[j] < |q|
    decreases j
  {
    StartsAreApart(q, p, j - 1);
    StartsAreApart(q, p, j);
    if k < j - 1 {
      StartsIncrease(q, p, k, j - 1);
    }
  }

  /** Where the query begins: behind the first `?` or `#`. */
  function QueryStart(q: seq<char>): Option<nat>
    requires Terminated(q)
  {
    var s := Span(q, 0, {'?', '#'});
    if q[s] == NUL then None else Some(s + 1)
  }

  /** All segment starts of a URL. */
  function Segments(q: seq<char>): seq<nat>
    requires Terminated(q)
  {
    if QueryStart(q).None? then [] else Starts(q, QueryStart(q).value)
  }

  /** The pairs that `qsParse` reports: one a segment, or one too many for the table once that is full. */
  function ReportedPairs(q: seq<char>, size: nat): nat
    requires Terminated(q)
  {
    if |Segments(q)| <= size then |Segments(q)| else size + 1
  }

  /** The number of `&` in the C string at `p`. */
  function Ampersands(q: seq<char>, p: nat): nat
    requires p < |q| && Terminated(q)
    decreases |q| - p
  {
    if q[p] == NUL then 0 else (if q[p] == '&' then 1 else 0) + Ampersands(q, p + 1)
  }

  /** The report is the number of segments exactly when the query has no more `&` than the table has places. */
  lemma CountIsExact(q: seq<char>, size: nat)
    requires Terminated(q) && QueryStart(q).Some?
    ensures |Segments(q)| == 1 + Ampersands(q, QueryStart(q).value)
    ensures ReportedPairs(q, size) == |Segments(q)| <==> Ampersands(q, QueryStart(q).value) <= size
  {
    StartsCount(q, QueryStart(q).value);
  }

  /** But every reported pair has its place in the table exactly when there are fewer `&` than places. */
  lemma ReportFitsTable(q: seq<char>, size: nat)
    requires Terminated(q) && QueryStart(q).Some?
    ensures ReportedPairs(q, size) <= size <==> Ampersands(q, QueryStart(q).value) < size
  {
    StartsCount(q, QueryStart(q).value);
  }

  /** A URL whose query is `n` times `&`. */
  function OnlyAmpersands(n: nat): seq<char> {
    ['?'] + seq(n, _ => '&') + [NUL]
  }

  /** With 256 `&` the count is right and still one too many for the table of 256 places. */
  lemma ReportOutsideTable()
    ensures
      var q := OnlyAmpersands(MAX_KEY_VALUE_PAIRS);
      ReportedPairs(q, MAX_KEY_VALUE_PAIRS) == |Segments(q)| == 257 > MAX_KEY_VALUE_PAIRS
  {
    var q := OnlyAmpersands(MAX_KEY_VALUE_PAIRS);
    assert q[0] == '?';
    assert Span(q, 0, {'?', '#'}) == 0;
    CountAmpersands(MAX_KEY_VALUE_PAIRS, 1);
    CountIsExact(q, MAX_KEY_VALUE_PAIRS);
  }

  lemma {:induction false} CountAmpersands(n: nat, p: nat)
    requires 1 <= p <= n + 1
    ensures Ampersands(OnlyAmpersands(n), p) == n + 1 - p
    decreases n + 1 - p
  {
    if p <= n {
      CountAmpersands(n, p + 1);
    }
  }

  lemma {:induction false} StartsCount(q: seq<char>, p: nat)
    requires p < |q| && Terminated(q)
    ensures |Starts(q, p)| == 1 + Ampersands(q, p)
    decreases |q| - p
  {
    if q[p] != NUL {
      StartsCount(q, p + 1);
      if q[p] != '&' {
        assert SegmentEnd(q, p) == SegmentEnd(q, p + 1);
      }
    }
  }

  /** The table holds the first `i` of the segment starts, and nothing behind them. */
  ghost predicate Filled(kv: seq<int>, all: seq<nat>, i: nat) {
    && i <= |kv| && i <= |all|
    && forall k :: 0 <= k < |kv| ==> kv[k] == if k < i then all[k] else -1
  }

  /** What is left to fill in is what starts at `p`. */
  ghost predicate LeftFrom(q: seq<char>, all: seq<nat>, i: nat, p: nat)
    requires Terminated(q)
  {
    i < |all| && p < |q| && all[i..] == Starts(q, p)
  }

  lemma LeftStep(q: seq<char>, all: seq<nat>, i: nat, p: nat)
    requires Terminated(q) && LeftFrom(q, all, i, p)
    ensures all[i] == p && SegmentEnd(q, p) == Span(q, p, {'&'})
    ensures
      var e := SegmentEnd(q, p);
      if q[e] == NUL then |all| == i + 1 else LeftFrom(q, all, i + 1, e + 1)
  {
    hide Span;
    var e := SegmentEnd(q, p);
    assert all[i..][0] == p;
    if q[e] == '&' {
      assert all[i..] == [p] + Starts(q, e + 1);
      assert all[i + 1..] == all[i..][1..];
    }
  }

  lemma LeftStart(q: seq<char>)
    requires Terminated(q)
    ensures
      var s := Span(q, 0, {'?', '#'});
      if q[s] == NUL then Segments(q) == [] else LeftFrom(q, Segments(q), 0, s + 1)
  {
    hide Span;
    assert Segments(q)[0..] == Segments(q);
  }

  method ClearTable(kv: array<int>)
    modifies kv
    ensures kv[..] == seq(kv.Length, _ => -1)
  {
    for n := 0 to kv.Length
      invariant forall k :: 0 <= k < n ==> kv[k] == -1
    {
      kv[n] := -1;
    }
  }

  /** The first loop of `qsParse` fills the table of segment starts. */
  method FillTable(qs: array<char>, kv: array<int>) returns (i: nat)
    requires Terminated(qs[..])
    modifies kv
    ensures i == ReportedPairs(qs[..], kv.Length)
    ensures Filled(kv[..], Segments(qs[..]), if i <= kv.Length then i else kv.Length)
  {
    hide Span, Starts, Segments, LeftFrom, SegmentEnd;
    ghost var q, all := qs[..], Segments(qs[..]);
    ClearTable(kv);
    LeftStart(q);
    var substr := Span(qs[..], 0, {'?', '#'});
    if qs[substr] == NUL {
      return 0;
    }
    substr := substr + 1;
    i := 0;
    InBounds(q, all, i, substr);
    while i < kv.Length
      invariant 0 <= substr < |q| && Filled(kv[..], all, i) && LeftFrom(q, all, i, substr)
    {
      ghost var before := kv[..];
      LeftStep(q, all, i, substr);
      InBounds(q, all, i, substr);
      kv[i] := substr;
      assert kv[..] == before[i := substr];
      var j := Span(qs[..], substr, {'&'});
      if qs[j] == NUL {
        i := i + 1;
        return;
      }
      InBounds(q, all, i + 1, j + 1);
      substr := j + 1;
      i := i + 1;
    }
    InBounds(q, all, i, substr);
    i := i + 1;
  }

  lemma InBounds(q: seq<char>, all: seq<nat>, i: nat, p: nat)
    requires Terminated(q) && LeftFrom(q, all, i, p)
    ensures i < |all| && p < |q|
  {
  }

  /** Where the key of a segment ends. */
  function KeyEnd(seg: string): (k: nat)
    ensures k <= |seg| && (k < |seg| ==> seg[k] == '=' || seg[k] == '#')
    ensures forall n :: 0 <= n < k ==> seg[n] != '=' && seg[n] != '#'
  {
    if seg == [] || seg[0] == '=' || seg[0] == '#' then 0 else 1 + KeyEnd(seg[1..])
  }

  /** What parsing leaves of a segment and the terminator `t` behind it. */
  function Render(seg: string, t: char): string {
    var k := KeyEnd(seg);
    if k == |seg| then seg + [NUL] else seg[..k + 1] + InPlace(seg[k + 1..] + [t])
  }

  /** Decoding in place stays inside the text up to a terminator. */
  lemma InPlaceIsLocal(v: string, e: nat)
    requires e < |v| && !IsQsChr(v[e])
    ensures InPlace(v) == InPlace(v[..e + 1]) + v[e + 1..] && |InPlace(v[..e + 1])| == e + 1
  {
    var w := v[..e + 1];
    DecodeFits(v, e);
    DecodeIsLocal(v, e);
    DecodeIsLocal(w, e);
    assert w[..e] == v[..e];
    hide Decode;
    var d := |Decode(v)|;
    assert v[d + 1..] == w[d + 1..] + v[e + 1..];
    assert InPlace(w) == Decode(v) + [NUL] + w[d + 1..];
    assert Decode(v) + [NUL] + (w[d + 1..] + v[e + 1..]) == Decode(v) + [NUL] + w[d + 1..] + v[e + 1..];
  }

  /** The key of a segment ends where the scan for `=`, `&` and `#` stops. */
  lemma KeyEndIsSpan(q: seq<char>, p: nat)
    requires p < |q| && Terminated(q)
    ensures Span(q, p, {'=', '&', '#'}) == p + KeyEnd(Segment(q, p)) <= SegmentEnd(q, p)
  {
    var s, e, seg := Span(q, p, {'=', '&', '#'}), SegmentEnd(q, p), Segment(q, p);
    assert forall n :: 0 <= n < |seg| ==> seg[n] == q[p + n];
  }

  /** Where the last segment ends. */
  function LastEnd(q: seq<char>, p: nat): nat
    requires p < |q| && Terminated(q)
    decreases |q| - p
  {
    var e := SegmentEnd(q, p);
    if q[e] == '&' then LastEnd(q, e + 1) else e
  }

  lemma {:induction false} LastEndIsLast(q: seq<char>, p: nat, k: nat)
    requires p < |q| && Terminated(q) && k < |Starts(q, p)|
    ensures Starts(q, p)[k] < |q| && SegmentEnd(q, Starts(q, p)[k]) <= LastEnd(q, p) < |q|
    ensures k + 1 == |Starts(q, p)| ==> SegmentEnd(q, Starts(q, p)[k]) == LastEnd(q, p)
    decreases |q| - p
  {
    var e := SegmentEnd(q, p);
    if q[e] == '&' {
      LastEndIsLast(q, e + 1, if k > 0 then k - 1 else 0);
    }
  }

  /** The buffer after the first `j` segments have been decoded. */
  ghost predicate Decoded(q: seq<char>, now: seq<char>, p: nat, j: nat)
    requires p < |q| && Terminated(q)
  {
    && |now| == |q| && j <= |Starts(q, p)|
    && (forall x :: 0 <= x < p || LastEnd(q, p) < x < |q| ==> now[x] == q[x])
    && (j < |Starts(q, p)| ==> forall x :: Starts(q, p)[j] <= x < |q| ==> now[x] == q[x])
    && (forall k :: 0 <= k < j ==> SegmentDone(q, now, Starts(q, p)[k]))
  }

  ghost predicate SegmentDone(q: seq<char>, now: seq<char>, s: nat)
    requires Terminated(q)
  {
    s < |q| == |now| &&
    var e := SegmentEnd(q, s);
    now[s..e + 1] == Render(Segment(q, s), q[e])
  }

  lemma DecodedMoves(q: seq<char>, now: seq<char>, next: seq<char>, p: nat, j: nat)
    requires p < |q| && Terminated(q) && Decoded(q, now, p, j) && j < |Starts(q, p)|
    requires |next| == |q| && SegmentDone(q, next, Starts(q, p)[j])
    requires forall x :: 0 <= x < Starts(q, p)[j] || SegmentEnd(q, Starts(q, p)[j]) < x < |q| ==> next[x] == now[x]
    ensures Decoded(q, next, p, j + 1)
  {
    hide Render, Starts, SegmentEnd, Segment;
    var s := Starts(q, p);
    StartsAreApart(q, p, j);
    LastEndIsLast(q, p, j);
    forall k | 0 <= k < j
      ensures SegmentDone(q, next, s[k])
    {
      StartsIncrease(q, p, k, j);
      assert SegmentDone(q, now, s[k]);
      assert next[s[k]..SegmentEnd(q, s[k]) + 1] == now[s[k]..SegmentEnd(q, s[k]) + 1];
    }
  }

  /** A scan sees only what lies ahead of it. */
  lemma {:induction false} SpanIsLocal(q: seq<char>, c: seq<char>, p: nat, stop: set<char>)
    requires p < |q| == |c| && Terminated(q) && Terminated(c) && q[p..] == c[p..]
    ensures Span(q, p, stop) == Span(c, p, stop)
    decreases |q| - p
  {
    assert q[p..][0] == c[p..][0];
    if !(q[p] == NUL || q[p] in stop) {
      assert q[p + 1..] == q[p..][1..] == c[p..][1..] == c[p + 1..];
      SpanIsLocal(q, c, p + 1, stop);
    }
  }

  lemma SegmentIsLocal(q: seq<char>, c: seq<char>, now: seq<char>, p: nat)
    requires p < |q| == |c| && Terminated(q) && Terminated(c) && q[p..] == c[p..] && SegmentDone(c, now, p)
    ensures SegmentDone(q, now, p) && SegmentEnd(c, p) == SegmentEnd(q, p)
  {
    SpanIsLocal(q, c, p, {'&'});
    var e := SegmentEnd(q, p);
    assert q[e] == q[p..][e - p] == c[e];
    assert q[p..e] == q[p..][..e - p] == c[p..e];
  }

  /** Decoding behind the key gives what is left of the segment. */
  lemma DecodedSegment(c: seq<char>, p: nat, s: nat)
    requires p < |c| && Terminated(c) && s == Span(c, p, {'=', '&', '#'}) < SegmentEnd(c, p)
    ensures SegmentDone(c, c[..s + 1] + InPlace(c[s + 1..]), p)
    ensures var next := c[..s + 1] + InPlace(c[s + 1..]);
      |next| == |c| && forall x :: 0 <= x < p || SegmentEnd(c, p) < x < |c| ==> next[x] == c[x]
  {
    hide InPlace, Span, SegmentEnd;
    var e, seg := SegmentEnd(c, p), Segment(c, p);
    KeyEndIsSpan(c, p);
    var v := c[s + 1..];
    InPlaceIsLocal(v, e - s - 1);
    var mine, rest := InPlace(v[..e - s]), c[e + 1..];
    assert v[e - s..] == rest;
    var next := c[..s + 1] + InPlace(v);
    assert next == c[..s + 1] + mine + rest;
    assert next[p..e + 1] == c[p..s + 1] + mine;
    RenderedValue(seg, c[e], s - p);
    assert v[..e - s] == seg[s - p + 1..] + [c[e]];
    assert seg[..s - p + 1] == c[p..s + 1];
  }

  lemma RenderedValue(seg: string, t: char, k: nat)
    requires k == KeyEnd(seg) < |seg|
    ensures Render(seg, t) == seg[..k + 1] + InPlace(seg[k + 1..] + [t])
  {
    hide InPlace, Decode;
  }

  /** The second loop's body: decode one segment's value, or end a segment that has none. */
  method DecodeSegment(qs: array<char>, p: nat)
    requires p < qs.Length && Terminated(qs[..])
    modifies qs
    ensures SegmentDone(old(qs[..]), qs[..], p)
    ensures forall x :: 0 <= x < p || SegmentEnd(old(qs[..]), p) < x < qs.Length ==> qs[x] == old(qs[x])
  {
    hide InPlace, Span, SegmentEnd, Decode;
    ghost var c := qs[..];
    KeyEndIsSpan(c, p);
    var substr := Span(qs[..], p, {'=', '&', '#'});
    if qs[substr] == '&' || qs[substr] == NUL {
      EndOfKeyIsEnd(c, p);
      qs[substr] := NUL;
      assert qs[p..substr + 1] == c[p..substr] + [NUL];
      assert qs[..][p..substr + 1] == qs[p..substr + 1];
    } else {
      BehindKeyIsInside(c, p);
      DecodedSegment(c, p, substr);
      var _ := QsDecode(qs, substr + 1);
      assert c[substr + 1..] == old(qs[substr + 1..]) && c[..substr + 1] == old(qs[..substr + 1]);
      assert forall x :: 0 <= x < p || SegmentEnd(c, p) < x < |c| ==> qs[..][x] == c[x];
    }
  }

  lemma EndOfKeyIsEnd(c: seq<char>, p: nat)
    requires p < |c| && Terminated(c)
    requires c[Span(c, p, {'=', '&', '#'})] == '&' || c[Span(c, p, {'=', '&', '#'})] == NUL
    ensures Span(c, p, {'=', '&', '#'}) == SegmentEnd(c, p)
    ensures Render(Segment(c, p), c[SegmentEnd(c, p)]) == c[p..SegmentEnd(c, p)] + [NUL]
  {
    KeyEndIsSpan(c, p);
  }

  lemma BehindKeyIsInside(c: seq<char>, p: nat)
    requires p < |c| && Terminated(c)
    requires c[Span(c, p, {'=', '&', '#'})] != '&' && c[Span(c, p, {'=', '&', '#'})] != NUL
    ensures Span(c, p, {'=', '&', '#'}) < SegmentEnd(c, p)
  {
    KeyEndIsSpan(c, p);
  }

  /** The pairs that have their place in a table of this size. */
  function PairsInTable(q: seq<char>, size: nat): nat
    requires Terminated(q)
  {
    if |Segments(q)| <= size then |Segments(q)| else size
  }

  /** Parses the query. `outside` says that the second loop reads a pair behind the end of the table; what the program
      does from there on is not defined, and the model stops. */
  method QsParse(qs: array<char>, kv: array<int>) returns (i: nat, outside: bool)
    requires Terminated(qs[..])
    modifies qs, kv
    ensures i == ReportedPairs(old(qs[..]), kv.Length)
    ensures outside <==> i > kv.Length
    ensures Filled(kv[..], Segments(old(qs[..])), PairsInTable(old(qs[..]), kv.Length))
    ensures QueryStart(old(qs[..])).None? ==> qs[..] == old(qs[..])
    ensures QueryStart(old(qs[..])).Some? ==>
              Decoded(old(qs[..]), qs[..], QueryStart(old(qs[..])).value, PairsInTable(old(qs[..]), kv.Length))
  {
    hide Span, SegmentEnd, Starts, LastEnd, SegmentDone;
    ghost var q := qs[..];
    i := FillTable(qs, kv);
    NoSegments(q);
    if i == 0 {
      return i, false;
    }
    ghost var p := QueryStart(q).value;
    var j := 0;
    while j < i
      invariant 0 <= j <= i && j <= kv.Length && Filled(kv[..], Starts(q, p), PairsInTable(q, kv.Length))
      invariant Decoded(q, qs[..], p, j)
    {
      if j >= kv.Length {
        return i, true;
      }
      ghost var c := qs[..];
      StartsAreApart(q, p, j);
      assert kv[..][j] == Starts(q, p)[j];
      var s := kv[j];
      assert c[s..] == q[s..];
      assert c[|c| - 1] == q[|q| - 1];
      DecodeSegment(qs, s);
      SegmentIsLocal(q, c, qs[..], s);
      DecodedMoves(q, c, qs[..], p, j);
      j := j + 1;
    }
    outside := false;
  }

  lemma NoSegments(q: seq<char>)
    requires Terminated(q)
    ensures Segments(q) == [] <==> QueryStart(q).None?
  {
  }
}
