/** What a placeholder takes from the URL, and the reference meaning of a rule (http/routing.h `find`,
    http/common.h `RoutingParams`). */
module Captures {
  import opened Options
  import opened Patterns

  /** A captured double, as its 64-bit pattern: no arithmetic is done on it. */
  datatype Double64 = Double64(bits: nat)

  /** What `strtod` reports for a text: how much it read, the value, and whether it set ERANGE. */
  datatype DoubleScan = DoubleScan(len: nat, value: Double64, erange: bool)

  ghost predicate BoundedScan(f: string -> DoubleScan) {
    forall s :: f(s).len <= |s|
  }

  /** `strtod` is foreign code: any scanner that stays inside the text it is given. */
  type Strtod = f: string -> DoubleScan | BoundedScan(f)
    witness (s: string) => DoubleScan(0, Double64(0), false)

  datatype Value = IntV(i: int) | UintV(u: nat) | DoubleV(d: Double64) | StrV(s: string)

  datatype Params = Params(ints: seq<int>, uints: seq<nat>, doubles: seq<Double64>, strings: seq<string>) {
    /** The vectors after one more capture. */
    function Push(v: Value): Params {
      match v
      case IntV(i) => this.(ints := ints + [i])
      case UintV(u) => this.(uints := uints + [u])
      case DoubleV(d) => this.(doubles := doubles + [d])
      case StrV(s) => this.(strings := strings + [s])
    }

    function PushAll(vs: seq<Value>): Params
      decreases |vs|
    {
      if vs == [] then this else Push(vs[0]).PushAll(vs[1..])
    }
  }

  const NO_PARAMS := Params([], [], [], [])

  const INT64_MIN: int := -0x8000_0000_0000_0000
  const INT64_MAX: int := 0x7fff_ffff_ffff_ffff
  const UINT64_MAX: int := 0xffff_ffff_ffff_ffff

  predicate IsDigit(c: char) {
    '0' <= c <= '9'
  }

  /** End of the run of digits that starts at `i`. */
  function DigitsEnd(s: string, i: nat): (e: nat)
    requires i <= |s|
    ensures i <= e <= |s|
    ensures forall k :: i <= k < e ==> IsDigit(s[k])
    ensures e < |s| ==> !IsDigit(s[e])
    decreases |s| - i
  {
    if i < |s| && IsDigit(s[i]) then DigitsEnd(s, i + 1) else i
  }

  function Decimal(s: string, i: nat, e: nat): nat
    requires i <= e <= |s| && forall k :: i <= k < e ==> IsDigit(s[k])
    decreases e
  {
    if i == e then 0 else assert IsDigit(s[e - 1]); 10 * Decimal(s, i, e - 1) + (s[e - 1] as int - '0' as int)
  }

  /** `strtoll` behind the guard of the INT branch: an optional sign, then digits, all of them; nothing when there
      is no digit or the value does not fit. Gives the end position and the value. */
  function ScanInt(url: string, pos: nat): (r: Option<(nat, int)>)
    requires pos < |url|
    ensures r.Some? ==> pos < r.value.0 <= |url| && INT64_MIN <= r.value.1 <= INT64_MAX
  {
    var sign := url[pos] == '+' || url[pos] == '-';
    if !IsDigit(url[pos]) && !sign then None else
    var start := if sign then pos + 1 else pos;
    var e := DigitsEnd(url, start);
    if e == start then None else
    var n: int := Decimal(url, start, e);
    var v := if url[pos] == '-' then -n else n;
    if INT64_MIN <= v <= INT64_MAX then Some((e, v)) else None
  }

  /** `strtoull` behind the guard of the UINT branch, which admits '+' but not '-'. */
  function ScanUint(url: string, pos: nat): (r: Option<(nat, nat)>)
    requires pos < |url|
    ensures r.Some? ==> pos < r.value.0 <= |url| && r.value.1 <= UINT64_MAX
  {
    if !IsDigit(url[pos]) && url[pos] != '+' then None else
    var start := if url[pos] == '+' then pos + 1 else pos;
    var e := DigitsEnd(url, start);
    if e == start then None else
    var v := Decimal(url, start, e);
    if v <= UINT64_MAX then Some((e, v)) else None
  }

  /** A numeral: digits, behind a sign if there is one. */
  function Unsigned(s: string): string {
    if s != [] && (s[0] == '+' || s[0] == '-') then s[1..] else s
  }

  predicate AllDigits(s: string) {
    forall k :: 0 <= k < |s| ==> IsDigit(s[k])
  }

  predicate IsNumeral(s: string) {
    Unsigned(s) != [] && AllDigits(Unsigned(s))
  }

  function Horner(s: string): nat
    requires AllDigits(s)
  {
    if s == [] then 0 else 10 * Horner(s[..|s| - 1]) + (s[|s| - 1] as int - '0' as int)
  }

  function NumeralValue(s: string): int
    requires IsNumeral(s)
  {
    var n: int := Horner(Unsigned(s));
    if s[0] == '-' then -n else n
  }

  lemma {:induction false} DecimalIsHorner(s: string, i: nat, e: nat)
    requires i <= e <= |s| && forall k :: i <= k < e ==> IsDigit(s[k])
    ensures AllDigits(s[i..e]) && Decimal(s, i, e) == Horner(s[i..e])
    decreases e
  {
    if i < e {
      DecimalIsHorner(s, i, e - 1);
      assert s[i..e][..e - 1 - i] == s[i..e - 1];
    }
  }

  /** A signed capture reads the longest numeral at `pos`, for its value, if that fits 64 bits; and nothing else. */
  lemma ScanIntReads(url: string, pos: nat, e: nat, v: int)
    requires pos < |url|
    ensures
      ScanInt(url, pos) == Some((e, v)) <==>
      && pos < e <= |url| && IsNumeral(url[pos..e]) && (e < |url| ==> !IsDigit(url[e]))
      && v == NumeralValue(url[pos..e]) && INT64_MIN <= v <= INT64_MAX
  {
    var start := if url[pos] == '+' || url[pos] == '-' then pos + 1 else pos;
    var end := DigitsEnd(url, start);
    DecimalIsHorner(url, start, end);
    if pos < e <= |url| {
      NumeralAt(url, pos, start, e);
    }
  }

  /** An unsigned capture reads the longest numeral at `pos` that has no minus sign. */
  lemma ScanUintReads(url: string, pos: nat, e: nat, v: nat)
    requires pos < |url|
    ensures
      ScanUint(url, pos) == Some((e, v)) <==>
      && pos < e <= |url| && IsNumeral(url[pos..e]) && (e < |url| ==> !IsDigit(url[e])) && url[pos] != '-'
      && v == NumeralValue(url[pos..e]) && v <= UINT64_MAX
  {
    var start := if url[pos] == '+' || url[pos] == '-' then pos + 1 else pos;
    var end := DigitsEnd(url, start);
    DecimalIsHorner(url, start, end);
    if pos < e <= |url| {
      NumeralAt(url, pos, start, e);
    }
  }

  /** The longest numeral ends where the digits do. */
  lemma NumeralAt(url: string, pos: nat, start: nat, e: nat)
    requires pos < e <= |url| && start == if url[pos] == '+' || url[pos] == '-' then pos + 1 else pos
    ensures Unsigned(url[pos..e]) == url[start..e]
    ensures IsNumeral(url[pos..e]) && (e < |url| ==> !IsDigit(url[e])) <==> start < e == DigitsEnd(url, start)
  {
    assert Unsigned(url[pos..e]) == url[start..e];
    DigitsOfSlice(url, start, e);
    DigitsEndIs(url, start, e);
  }

  lemma DigitsOfSlice(s: string, i: nat, e: nat)
    requires i <= e <= |s|
    ensures AllDigits(s[i..e]) <==> forall k :: i <= k < e ==> IsDigit(s[k])
  {
    if AllDigits(s[i..e]) {
      forall k | i <= k < e
        ensures IsDigit(s[k])
      {
        assert s[i..e][k - i] == s[k];
      }
    }
  }

  lemma DigitsEndIs(s: string, i: nat, e: nat)
    requires i <= e <= |s|
    ensures e == DigitsEnd(s, i) <==> (forall k :: i <= k < e ==> IsDigit(s[k])) && (e < |s| ==> !IsDigit(s[e]))
  {
    var d := DigitsEnd(s, i);
    assert d < e ==> !IsDigit(s[d]);
    assert e < d ==> IsDigit(s[e]);
  }

  /** The DOUBLE branch: the first-character guard, then `strtod`. */
  function ScanDouble(d: Strtod, url: string, pos: nat): (r: Option<(nat, Double64)>)
    requires pos < |url|
    ensures r.Some? ==> pos < r.value.0 <= |url|
  {
    var c := url[pos];
    if !IsDigit(c) && c != '+' && c != '-' && c != '.' then None else
    var scan := d(url[pos..]);
    assert scan.len <= |url[pos..]|;
    if scan.erange || scan.len == 0 then None else Some((pos + scan.len, scan.value))
  }

  /** First '/' at or after `e`, or the end of the URL. */
  function SlashOrEnd(url: string, e: nat): (r: nat)
    requires e <= |url|
    ensures e <= r <= |url|
    ensures '/' !in url[e..r] && (r < |url| ==> url[r] == '/')
    decreases |url| - e
  {
    if e < |url| && url[e] != '/' then SlashOrEnd(url, e + 1) else e
  }

  /** The C++ type a kind is handed over as: placeholders for a segment and for a path both give a string. */
  datatype ArgType = Int64 | Uint64 | Float64 | Text

  function TypeOfKind(kind: Kind): ArgType {
    match kind
    case Int => Int64
    case Uint => Uint64
    case Double => Float64
    case Str => Text
    case Path => Text
  }

  function TypeOfValue(v: Value): ArgType {
    match v
    case IntV(_) => Int64
    case UintV(_) => Uint64
    case DoubleV(_) => Float64
    case StrV(_) => Text
  }

  /** What a placeholder of this kind captures at `pos`: the position after it and the value. */
  function Capture(d: Strtod, kind: Kind, url: string, pos: nat): (r: Option<(nat, Value)>)
    requires pos < |url|
    ensures r.Some? ==> pos < r.value.0 <= |url| && TypeOfValue(r.value.1) == TypeOfKind(kind)
  {
    match kind
    case Int => (match ScanInt(url, pos) case None => None case Some((e, i)) => Some((e, IntV(i))))
    case Uint => (match ScanUint(url, pos) case None => None case Some((e, u)) => Some((e, UintV(u))))
    case Double => (match ScanDouble(d, url, pos) case None => None case Some((e, x)) => Some((e, DoubleV(x))))
    case Str => var e := SlashOrEnd(url, pos); if e == pos then None else Some((e, StrV(url[pos..e])))
    case Path => Some((|url|, StrV(url[pos..])))
  }

  /** A capture consumes something, stays inside the URL and yields a value of its kind's type. */
  ghost predicate Consuming(f: (Kind, string, nat) -> Option<(nat, Value)>) {
    forall kind, url, pos: nat {:trigger f(kind, url, pos)} :: pos < |url| && f(kind, url, pos).Some? ==>
      pos < f(kind, url, pos).value.0 <= |url| && TypeOfValue(f(kind, url, pos).value.1) == TypeOfKind(kind)
  }

  /** All the search needs to know about captures. */
  type Capturer = f: (Kind, string, nat) -> Option<(nat, Value)> | Consuming(f)
    witness (kind: Kind, url: string, pos: nat) => None

  /** The captures of the router, for a given `strtod`. */
  function CapturesOf(d: Strtod): (cap: Capturer)
    ensures forall kind, url, pos: nat {:trigger cap(kind, url, pos)} :: pos < |url| ==>
              cap(kind, url, pos) == Capture(d, kind, url, pos)
  {
    var f := (kind: Kind, url: string, pos: nat) => if pos < |url| then Capture(d, kind, url, pos) else None;
    assert Consuming(f);
    f
  }

  /** A string placeholder takes everything up to the next slash or the end, and at least one character. */
  lemma CaptureStrReads(d: Strtod, url: string, pos: nat, e: nat, v: Value)
    requires pos < |url|
    ensures
      CapturesOf(d)(Str, url, pos) == Some((e, v)) <==>
      pos < e <= |url| && '/' !in url[pos..e] && (e == |url| || url[e] == '/') && v == StrV(url[pos..e])
  {
    if pos < e <= |url| {
      assert forall k :: pos <= k < e ==> url[pos..e][k - pos] == url[k];
    }
  }

  /** A path placeholder takes the rest of the URL, whatever it is. */
  lemma CapturePathReads(d: Strtod, url: string, pos: nat, e: nat, v: Value)
    requires pos < |url|
    ensures CapturesOf(d)(Path, url, pos) == Some((e, v)) <==> e == |url| && v == StrV(url[pos..])
  {
  }

  /** A double placeholder takes what `strtod` reads without a range error, if the first character can begin a number. */
  lemma CaptureDoubleReads(d: Strtod, url: string, pos: nat, e: nat, x: Double64)
    requires pos < |url|
    ensures
      CapturesOf(d)(Double, url, pos) == Some((e, DoubleV(x))) <==>
      url[pos] in "0123456789+-." && e > pos && d(url[pos..]) == DoubleScan(e - pos, x, false)
  {
    hide IsDigit;
    DigitsAre(url[pos]);
  }

  lemma DigitsAre(c: char)
    ensures IsDigit(c) <==> c in "0123456789"
  {
    if IsDigit(c) {
      assert "0123456789"[c as int - 48] == c;
    }
  }

  lemma CaptureInt(d: Strtod, url: string, pos: nat)
    requires pos < |url|
    ensures CapturesOf(d)(Int, url, pos) ==
            match ScanInt(url, pos) case None => None case Some((e, i)) => Some((e, IntV(i)))
  {
  }

  lemma CaptureUint(d: Strtod, url: string, pos: nat)
    requires pos < |url|
    ensures CapturesOf(d)(Uint, url, pos) ==
            match ScanUint(url, pos) case None => None case Some((e, u)) => Some((e, UintV(u)))
  {
  }

  lemma CaptureDouble(d: Strtod, url: string, pos: nat)
    requires pos < |url|
    ensures CapturesOf(d)(Double, url, pos) ==
            match ScanDouble(d, url, pos) case None => None case Some((e, x)) => Some((e, DoubleV(x)))
  {
  }

  lemma CaptureStr(d: Strtod, url: string, pos: nat)
    requires pos < |url|
    ensures CapturesOf(d)(Str, url, pos) ==
            var e := SlashOrEnd(url, pos); if e == pos then None else Some((e, StrV(url[pos..e])))
  {
  }

  lemma CapturePath(d: Strtod, url: string, pos: nat)
    requires pos < |url|
    ensures CapturesOf(d)(Path, url, pos) == Some((|url|, StrV(url[pos..])))
  {
  }

  /** The reference meaning of a rule: its tokens, read from `pos`, consume the URL exactly; the result is the
      captured values in order. */
  function Match(cap: Capturer, toks: seq<Token>, url: string, pos: nat): (r: Option<seq<Value>>)
    requires pos <= |url|
    decreases |toks|
  {
    if toks == [] then (if pos == |url| then Some([]) else None)
    else if pos == |url| then None
    else match toks[0]
      case Lit(c) => if url[pos] == c then Match(cap, toks[1..], url, pos + 1) else None
      case Param(kind) =>
        match cap(kind, url, pos)
        case None => None
        case Some((e, v)) =>
          match Match(cap, toks[1..], url, e)
          case None => None
          case Some(vs) => Some([v] + vs)
  }

  /** A run of literal tokens matches exactly where its text stands. */
  lemma {:induction false} MatchLits(cap: Capturer, f: string, rest: seq<Token>, url: string, pos: nat)
    requires pos <= |url| && f != ""
    ensures Match(cap, Lits(f) + rest, url, pos) ==
            if HasAt(url, pos, f) then Match(cap, rest, url, pos + |f|) else None
    decreases |f|
  {
    var toks := Lits(f) + rest;
    assert toks[0] == Lit(f[0]);
    assert toks[1..] == Lits(f[1..]) + rest;
    if pos < |url| && url[pos] == f[0] {
      if |f| == 1 {
        assert Lits(f[1..]) + rest == rest;
        assert HasAt(url, pos, f);
      } else {
        MatchLits(cap, f[1..], rest, url, pos + 1);
        assert HasAt(url, pos, f) <==> HasAt(url, pos + 1, f[1..]) by {
          if HasAt(url, pos + 1, f[1..]) {
            assert url[pos..pos + |f|] == [url[pos]] + url[pos + 1..pos + |f|];
            assert f == [f[0]] + f[1..];
          }
          if HasAt(url, pos, f) {
            assert url[pos + 1..pos + |f|] == url[pos..pos + |f|][1..];
          }
        }
      }
    }
  }

  /** No rule matches together with itself plus a trailing slash: the two entries the router makes for a rule that
      ends in '/' never compete for one URL. */
  lemma {:induction false} SlashExclusive(cap: Capturer, toks: seq<Token>, url: string, pos: nat)
    requires pos <= |url|
    ensures !(Match(cap, toks, url, pos).Some? && Match(cap, toks + [Lit('/')], url, pos).Some?)
    decreases |toks|
  {
    var longer := toks + [Lit('/')];
    if toks != [] && pos < |url| {
      assert longer[1..] == toks[1..] + [Lit('/')];
      match toks[0]
      case Lit(_) => if url[pos] == toks[0].c { SlashExclusive(cap, toks[1..], url, pos + 1); }
      case Param(kind) =>
        if cap(kind, url, pos).Some? {
          SlashExclusive(cap, toks[1..], url, cap(kind, url, pos).value.0);
        }
    }
  }
}
