/** Writing a query and reading it back: what the parser and the lookups make of keys and values that are spelled
    plainly, with `+`, or with escapes (http/query_string.h). */
module QueryWriting {
  import opened Options
  import opened CStrings
  import opened QueryStrings
  import opened QueryLookups

  const UPPER_DIGITS := "0123456789ABCDEF"
  const LOWER_DIGITS := "0123456789abcdef"

  /** The digits, in either case, have the values 0 to 15. */
  lemma DigitsHaveValues(k: nat)
    requires k < 16
    ensures IsHex(UPPER_DIGITS[k]) && HexToDec(UPPER_DIGITS[k] as int) == k
    ensures IsHex(LOWER_DIGITS[k]) && HexToDec(LOWER_DIGITS[k] as int) == k
  {
  }

  /** There are no other digits. */
  lemma NoOtherDigits(c: char)
    ensures IsHex(c) <==> c in UPPER_DIGITS || c in LOWER_DIGITS
  {
    if IsHex(c) && c <= '9' {
      assert UPPER_DIGITS[c as int - 48] == c;
    } else if IsHex(c) && c <= 'F' {
      assert UPPER_DIGITS[c as int - 55] == c;
    } else if IsHex(c) {
      assert LOWER_DIGITS[c as int - 87] == c;
    }
  }

  /** How a character is written. */
  datatype Spelling = Plainly | AsPlus | AsHex(upperHigh: bool, upperLow: bool)

  predicate CanSpell(c: char, how: Spelling) {
    match how
    case Plainly => c !in "=#&+%" && c != NUL
    case AsPlus => c == ' '
    case AsHex(_, _) => c as int < 256
  }

  function DigitFor(k: nat, upper: bool): char
    requires k < 16
  {
    if upper then UPPER_DIGITS[k] else LOWER_DIGITS[k]
  }

  function SpellChar(c: char, how: Spelling): string
    requires CanSpell(c, how)
  {
    match how
    case Plainly => [c]
    case AsPlus => "+"
    case AsHex(high, low) => ['%', DigitFor(c as int / 16, high), DigitFor(c as int % 16, low)]
  }

  predicate Spellable(text: string, how: seq<Spelling>) {
    |how| == |text| && forall k :: 0 <= k < |text| ==> CanSpell(text[k], how[k])
  }

  function Spell(text: string, how: seq<Spelling>): string
    requires Spellable(text, how)
  {
    if text == [] then [] else SpellChar(text[0], how[0]) + Spell(text[1..], how[1..])
  }

  lemma EscapeDigits(c: char, high: bool, low: bool)
    requires c as int < 256
    ensures
      var h, l := DigitFor(c as int / 16, high), DigitFor(c as int % 16, low);
      IsHex(h) && IsHex(l) && KeyEscape(h, l) == c && Escape(h, l) == (c as int % 16) as char
  {
    DigitsHaveValues(c as int / 16);
    DigitsHaveValues(c as int % 16);
    var h, l := DigitFor(c as int / 16, high), DigitFor(c as int % 16, low);
    hide UPPER_DIGITS, LOWER_DIGITS;
    assert HexToDec(h as int * 16) == 0;
  }

  /** A spelled character never ends a key, a value or a segment. */
  lemma SpelledIsOpen(c: char, how: Spelling)
    requires CanSpell(c, how)
    ensures SpellChar(c, how) != [] && forall k :: 0 <= k < |SpellChar(c, how)| ==> IsQsChr(SpellChar(c, how)[k])
  {
    if how.AsHex? {
      EscapeDigits(c, how.upperHigh, how.upperLow);
    }
  }

  lemma {:induction false} SpellIsOpen(text: string, how: seq<Spelling>)
    requires Spellable(text, how)
    ensures forall k :: 0 <= k < |Spell(text, how)| ==> IsQsChr(Spell(text, how)[k])
    decreases |text|
  {
    hide SpellChar, CanSpell;
    if text != [] {
      SpelledIsOpen(text[0], how[0]);
      SpellIsOpen(text[1..], how[1..]);
    }
  }

  /** What ends a key. */
  predicate EndsKey(tail: string) {
    tail == [] || tail[0] in "=#&" || tail[0] == NUL
  }

  /** A key is read back, however its characters are written. */
  lemma {:induction false} KeyReadsBack(name: string, how: seq<Spelling>, tail: string)
    requires Spellable(name, how) && EndsKey(tail)
    ensures KeyOf(Spell(name, how) + tail) == name
    decreases |name|
  {
    hide KeyOf, SpellChar, CanSpell, Unit, Width;
    var all := Spell(name, how) + tail;
    if name == [] {
      assert all == tail;
      KeyEnds(tail);
    } else {
      var rest := Spell(name[1..], how[1..]) + tail;
      KeyReadsBack(name[1..], how[1..], tail);
      assert all == SpellChar(name[0], how[0]) + rest;
      OneUnit(name[0], how[0], rest);
      KeyStep(all);
      assert name == [name[0]] + name[1..];
    }
  }

  lemma KeyEnds(tail: string)
    requires EndsKey(tail)
    ensures KeyOf(tail) == []
  {
  }

  lemma KeyStep(e: string)
    requires e != [] && IsQsChr(e[0])
    ensures KeyOf(e) == [Unit(e)] + KeyOf(e[Width(e)..])
  {
  }

  lemma OneUnit(c: char, how: Spelling, rest: string)
    requires CanSpell(c, how)
    ensures
      var all := SpellChar(c, how) + rest;
      all != [] && IsQsChr(all[0]) && Unit(all) == c && all[Width(all)..] == rest
  {
    hide KeyEscape, DigitFor;
    if how.AsHex? {
      EscapeDigits(c, how.upperHigh, how.upperLow);
      var all := SpellChar(c, how) + rest;
      assert all[1] == DigitFor(c as int / 16, how.upperHigh) && all[2] == DigitFor(c as int % 16, how.upperLow);
    }
  }

  /** What ends a value: the ends of a key, and an escape without two digits. */
  predicate EndsValue(tail: string) {
    || EndsKey(tail)
    || (tail[0] == '%' && (|tail| < 3 || !IsDigit(tail[1]) || !IsDigit(tail[2])))
  }

  predicate IsDigit(c: char) {
    c in UPPER_DIGITS || c in LOWER_DIGITS
  }

  /** What a value is read as: an escape keeps only the second of its digits. */
  function Lowered(text: string, how: seq<Spelling>): string
    requires |how| == |text|
  {
    if text == [] then []
    else [if how[0].AsHex? then (text[0] as int % 16) as char else text[0]] + Lowered(text[1..], how[1..])
  }

  lemma {:induction false} ValueReads(text: string, how: seq<Spelling>, tail: string)
    requires Spellable(text, how) && EndsValue(tail)
    ensures Decode(Spell(text, how) + tail) == Lowered(text, how)
    decreases |text|
  {
    hide Decode, SpellChar, CanSpell, EndsValue;
    var all := Spell(text, how) + tail;
    if text == [] {
      assert all == tail;
      ValueEnds(tail);
    } else {
      var rest := Spell(text[1..], how[1..]) + tail;
      ValueReads(text[1..], how[1..], tail);
      assert all == SpellChar(text[0], how[0]) + rest;
      OneDecoded(text[0], how[0], rest);
    }
  }

  lemma ValueEnds(tail: string)
    requires EndsValue(tail)
    ensures Decode(tail) == []
  {
    if tail != [] && tail[0] == '%' && |tail| >= 3 {
      NoOtherDigits(tail[1]);
      NoOtherDigits(tail[2]);
    }
  }

  lemma OneDecoded(c: char, how: Spelling, rest: string)
    requires CanSpell(c, how)
    ensures Decode(SpellChar(c, how) + rest) ==
            [if how.AsHex? then (c as int % 16) as char else c] + Decode(rest)
  {
    hide Escape, DigitFor;
    var all := SpellChar(c, how) + rest;
    if how.AsHex? {
      EscapeDigits(c, how.upperHigh, how.upperLow);
      assert all[1] == DigitFor(c as int / 16, how.upperHigh) && all[2] == DigitFor(c as int % 16, how.upperLow);
      assert all[3..] == rest;
    } else {
      assert all[1..] == rest;
    }
  }

  /** A value is read back if and only if none of its characters from 16 on is written as an escape. */
  lemma ValueReadsBack(text: string, how: seq<Spelling>, tail: string)
    requires Spellable(text, how) && EndsValue(tail)
    ensures Decode(Spell(text, how) + tail) == text <==>
            forall k :: 0 <= k < |text| && how[k].AsHex? ==> text[k] as int < 16
  {
    ValueReads(text, how, tail);
    LoweredIsSame(text, how);
  }

  lemma {:induction false} LoweredIsSame(text: string, how: seq<Spelling>)
    requires |how| == |text|
    ensures Lowered(text, how) == text <==> forall k :: 0 <= k < |text| && how[k].AsHex? ==> text[k] as int < 16
    decreases |text|
  {
    if text != [] {
      LoweredIsSame(text[1..], how[1..]);
      var low := Lowered(text, how);
      assert text == [text[0]] + text[1..] && low[1..] == Lowered(text[1..], how[1..]);
      assert low == text <==> low[0] == text[0] && low[1..] == text[1..];
      assert forall k :: 0 < k < |text| ==> text[k] == text[1..][k - 1] && how[k] == how[1..][k - 1];
      assert forall k :: 0 <= k < |text| - 1 ==> text[1..][k] == text[k + 1] && how[1..][k] == how[k + 1];
    }
  }

  /** A pair of a query, as it is written. */
  datatype Pair = Pair(key: string, keyHow: seq<Spelling>, value: string, valueHow: seq<Spelling>)

  predicate Writable(p: Pair) {
    Spellable(p.key, p.keyHow) && Spellable(p.value, p.valueHow)
  }

  function WritePair(p: Pair): string
    requires Writable(p)
  {
    Spell(p.key, p.keyHow) + "=" + Spell(p.value, p.valueHow)
  }

  predicate AllWritable(pairs: seq<Pair>) {
    forall k :: 0 <= k < |pairs| ==> Writable(pairs[k])
  }

  /** The pairs with an `&` between them. */
  function WriteQuery(pairs: seq<Pair>): string
    requires AllWritable(pairs) && pairs != []
    decreases |pairs|
  {
    if |pairs| == 1 then WritePair(pairs[0]) else WritePair(pairs[0]) + "&" + WriteQuery(pairs[1..])
  }

  /** The value of a pair as it is read: up to a NUL, should an escape have made one. */
  function ReadValue(p: Pair): string
    requires Writable(p)
  {
    CString(Lowered(p.value, p.valueHow))
  }

  function ValuesUnder(pairs: seq<Pair>, name: string): seq<string>
    requires AllWritable(pairs)
    decreases |pairs|
  {
    if pairs == [] then []
    else (if pairs[0].key == name then [ReadValue(pairs[0])] else []) + ValuesUnder(pairs[1..], name)
  }

  lemma PairIsOpen(p: Pair)
    requires Writable(p)
    ensures '&' !in WritePair(p) && NUL !in WritePair(p)
  {
    hide Spell;
    SpellIsOpen(p.key, p.keyHow);
    SpellIsOpen(p.value, p.valueHow);
  }

  /** A written pair is read as its key and its value. */
  lemma PairReads(p: Pair)
    requires Writable(p)
    ensures KeyOf(WritePair(p)) == p.key && Value(WritePair(p)) == ReadValue(p)
  {
    hide KeyOf, Decode, Spell, CString, Lowered, EndsValue;
    var k, v := Spell(p.key, p.keyHow), Spell(p.value, p.valueHow);
    assert k + "=" + v == k + ("=" + v);
    KeyReadsBack(p.key, p.keyHow, "=" + v);
    SpellIsOpen(p.key, p.keyHow);
    KeyEndAt(k, v);
    assert (k + "=" + v)[|k| + 1..] == v && v + [] == v;
    NothingEnds();
    ValueReads(p.value, p.valueHow, []);
  }

  /** A segment that is only a key is read back as that key with an empty value. */
  lemma KeyAloneReads(key: string, how: seq<Spelling>)
    requires Spellable(key, how)
    ensures KeyOf(Spell(key, how)) == key && Value(Spell(key, how)) == []
  {
    hide KeyOf, Decode, Spell, CString;
    assert Spell(key, how) + [] == Spell(key, how);
    KeyReadsBack(key, how, []);
    SpellIsOpen(key, how);
  }

  lemma NothingEnds()
    ensures EndsValue([])
  {
  }

  lemma KeyEndAt(k: string, v: string)
    requires forall n :: 0 <= n < |k| ==> IsQsChr(k[n])
    ensures KeyEnd(k + "=" + v) == |k|
  {
    var all := k + "=" + v;
    assert all[|k|] == '=';
    assert forall n :: 0 <= n < |k| ==> all[n] == k[n];
  }

  /** One segment of a written query, and what follows it. */
  lemma SegmentAt(q: seq<char>, p: nat, seg: string, rest: seq<char>)
    requires p < |q| && Terminated(q) && q[p..] == seg + rest && '&' !in seg && NUL !in seg
    requires rest != [] && (rest[0] == '&' || rest[0] == NUL)
    ensures SegmentEnd(q, p) == p + |seg| && Segment(q, p) == seg && q[p + |seg|] == rest[0]
    ensures q[p + |seg| + 1..] == rest[1..]
  {
    hide Span;
    var e := SegmentEnd(q, p);
    assert forall k :: 0 <= k < |seg| ==> q[p + k] == q[p..][k] == seg[k];
    assert q[p + |seg|] == q[p..][|seg|] == rest[0];
    assert forall k :: 0 <= k < |seg| ==> seg[k] in seg;
    assert q[p + |seg| + 1..] == q[p..][|seg| + 1..] == rest[1..];
    assert q[p..p + |seg|] == seg;
  }

  lemma {:induction false} StartsBelow(q: seq<char>, p: nat)
    requires p < |q| && Terminated(q)
    ensures InBuffer(q, Starts(q, p))
    decreases |q| - p
  {
    hide Span;
    var e := SegmentEnd(q, p);
    if q[e] == '&' {
      StartsBelow(q, e + 1);
    }
  }

  lemma {:induction false} QueryReads(q: seq<char>, p: nat, pairs: seq<Pair>, name: string)
    requires p < |q| && Terminated(q) && pairs != [] && AllWritable(pairs) && q[p..] == WriteQuery(pairs) + [NUL]
    ensures InBuffer(q, Starts(q, p)) && |Starts(q, p)| == |pairs|
    ensures ValuesFor(q, Starts(q, p), name) == ValuesUnder(pairs, name)
    decreases |pairs|
  {
    hide Span, KeyOf, Value, WritePair, ReadValue, Writable, SegmentEnd, Segment;
    StartsBelow(q, p);
    PairIsOpen(pairs[0]);
    PairReads(pairs[0]);
    var seg := WritePair(pairs[0]);
    if |pairs| == 1 {
      SegmentAt(q, p, seg, [NUL]);
      assert Starts(q, p) == [p];
      assert Starts(q, p)[1..] == [] && pairs[1..] == [];
    } else {
      var rest := "&" + WriteQuery(pairs[1..]) + [NUL];
      assert q[p..] == seg + rest;
      SegmentAt(q, p, seg, rest);
      var next := p + |seg| + 1;
      assert rest[1..] == WriteQuery(pairs[1..]) + [NUL];
      assert next < |q| by {
        assert |q[next..]| > 0;
      }
      QueryReads(q, next, pairs[1..], name);
      assert Starts(q, p) == [p] + Starts(q, next);
      assert Starts(q, p)[1..] == Starts(q, next);
    }
  }

  /** A URL with a written query is read back: a name has, in order, the values of the pairs whose key it is. */
  lemma UrlReadsBack(path: string, mark: char, pairs: seq<Pair>, name: string)
    requires forall k :: 0 <= k < |path| ==> path[k] !in "?#" && path[k] != NUL
    requires mark in "?#" && pairs != [] && AllWritable(pairs)
    ensures
      var q := path + [mark] + WriteQuery(pairs) + [NUL];
      && InBuffer(q, Segments(q)) && |Segments(q)| == |pairs|
      && ValuesFor(q, Segments(q), name) == ValuesUnder(pairs, name)
  {
    hide WriteQuery, Starts, ValuesFor, ValuesUnder, AllWritable;
    var q := path + [mark] + WriteQuery(pairs) + [NUL];
    var s := Span(q, 0, {'?', '#'});
    assert forall k :: 0 <= k < |path| ==> q[k] == path[k];
    assert q[|path|] == mark;
    assert s == |path|;
    var p := |path| + 1;
    assert q[p..] == WriteQuery(pairs) + [NUL];
    QueryReads(q, p, pairs, name);
  }

  /** Without a query mark there is nothing to find. */
  lemma NoMarkNoValues(path: string)
    requires forall k :: 0 <= k < |path| ==> path[k] !in "?#"
    ensures Segments(path + [NUL]) == []
  {
    var q := path + [NUL];
    var s := Span(q, 0, {'?', '#'});
    assert forall k :: 0 <= k < |path| ==> q[k] == path[k];
    assert s < |path| ==> q[s] == path[s];
  }
}
