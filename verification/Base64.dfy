/** Base64 (section 4 of RFC 4648) as encoded and decoded by src/base64.cpp and http/utility.h. Text and data are bytes;
    `char` is taken as unsigned. */
module Base64 {
  const PAD: bv8 := 61
  const NOP: bv8 := 0xff

  /** The encoding table; the URL-safe key differs in its last two symbols. */
  function Symbol(x: bv8, urlSafe: bool): bv8 {
    if x < 26 then 65 + x
    else if x < 52 then 71 + x
    else if x < 62 then x - 4
    else if x == 62 then (if urlSafe then 45 else 43)
    else (if urlSafe then 95 else 47)
  }

  /** The decoding table. */
  function Code(c: bv8): bv8 {
    if c == 43 then 62
    else if c == 47 then 63
    else if 48 <= c <= 57 then c + 4
    else if 65 <= c <= 90 then c - 65
    else if 97 <= c <= 122 then c - 71
    else NOP
  }

  const UPPER := "ABCDEFGHIJKLMNOPQRSTUVWXYZ"
  const LOWER := "abcdefghijklmnopqrstuvwxyz"
  const DIGITS := "0123456789"

  lemma LettersAre(k: nat)
    requires k < 26
    ensures UPPER[k] as int == 65 + k && LOWER[k] as int == 97 + k
  {
  }

  lemma DigitsAre(k: nat)
    requires k < 10
    ensures DIGITS[k] as int == 48 + k
  {
  }

  /** The alphabets of sections 4 and 5 of RFC 4648, and the padding. */
  lemma AlphabetIs(k: nat, urlSafe: bool)
    requires k < 64
    ensures
      Symbol(k as bv8, urlSafe) as char ==
      if k < 26 then UPPER[k]
      else if k < 52 then LOWER[k - 26]
      else if k < 62 then DIGITS[k - 52]
      else (if urlSafe then "-_" else "+/")[k - 62]
    ensures PAD as char == '='
  {
    hide Symbol, UPPER, LOWER, DIGITS;
    SymbolCode(k, urlSafe);
    if k < 26 {
      LettersAre(k);
    } else if k < 52 {
      LettersAre(k - 26);
    } else if k < 62 {
      DigitsAre(k - 52);
    }
  }

  lemma SymbolCode(k: nat, urlSafe: bool)
    requires k < 64
    ensures
      Symbol(k as bv8, urlSafe) as int ==
      if k < 26 then 65 + k
      else if k < 52 then 71 + k
      else if k < 62 then k - 4
      else if k == 62 then (if urlSafe then 45 else 43)
      else (if urlSafe then 95 else 47)
  {
  }

  lemma CodeOfSymbol(x: bv8)
    requires x < 64
    ensures Code(Symbol(x, false)) == x && Symbol(x, false) != PAD
  {
  }

  lemma SymbolOfCode(c: bv8)
    requires Code(c) != NOP
    ensures Code(c) < 64 && Symbol(Code(c), false) == c && c != PAD
  {
  }

  /** The four six-bit groups of three bytes. */
  function First(a: bv8): bv8 { a >> 2 }
  function Second(a: bv8, b: bv8): bv8 { ((a << 4) & 0x3f) | (b >> 4) }
  function Third(b: bv8, c: bv8): bv8 { ((b << 2) & 0x3f) | (c >> 6) }
  function Fourth(c: bv8): bv8 { c & 0x3f }

  /** They are the base-64 digits of the 24-bit number that the bytes are the base-256 digits of. */
  lemma GroupsAreDigits(a: bv8, b: bv8, c: bv8)
    ensures First(a) < 64 && Second(a, b) < 64 && Third(b, c) < 64 && Fourth(c) < 64
    ensures ((First(a) as bv32) << 18) | ((Second(a, b) as bv32) << 12) | ((Third(b, c) as bv32) << 6) |
            (Fourth(c) as bv32)
         == ((a as bv32) << 16) | ((b as bv32) << 8) | (c as bv32)
  {
  }

  /** Three bytes become four symbols; a short last group is filled with zero bits and padded. */
  function Encode(s: seq<bv8>, urlSafe: bool): seq<bv8>
    decreases |s|
  {
    if s == [] then []
    else if |s| == 1 then [Symbol(First(s[0]), urlSafe), Symbol(Second(s[0], 0), urlSafe), PAD, PAD]
    else if |s| == 2 then
      [Symbol(First(s[0]), urlSafe), Symbol(Second(s[0], s[1]), urlSafe), Symbol(Third(s[1], 0), urlSafe), PAD]
    else
      [Symbol(First(s[0]), urlSafe), Symbol(Second(s[0], s[1]), urlSafe), Symbol(Third(s[1], s[2]), urlSafe),
       Symbol(Fourth(s[2]), urlSafe)] + Encode(s[3..], urlSafe)
  }

  function EncodeFrom(s: seq<bv8>, i: nat, urlSafe: bool): seq<bv8> {
    if i < |s| then Encode(s[i..], urlSafe) else []
  }

  /** The encoding from position `i` on. */
  lemma EncodeStep(s: seq<bv8>, i: nat, u: bool)
    requires i < |s|
    ensures i + 1 == |s| ==>
              EncodeFrom(s, i, u) == [Symbol(First(s[i]), u), Symbol(Second(s[i], 0), u), PAD, PAD]
    ensures i + 2 == |s| ==>
              EncodeFrom(s, i, u) ==
              [Symbol(First(s[i]), u), Symbol(Second(s[i], s[i + 1]), u), Symbol(Third(s[i + 1], 0), u), PAD]
    ensures i + 3 <= |s| ==>
              EncodeFrom(s, i, u) ==
              [Symbol(First(s[i]), u), Symbol(Second(s[i], s[i + 1]), u), Symbol(Third(s[i + 1], s[i + 2]), u),
               Symbol(Fourth(s[i + 2]), u)] + EncodeFrom(s, i + 3, u)
  {
    hide Symbol, First, Second, Third, Fourth;
    var r := s[i..];
    assert Encode([], u) == [];
    assert |r| >= 3 ==> r[3..] == s[i + 3..];
  }

  lemma {:induction false} EncodedLength(s: seq<bv8>, urlSafe: bool)
    ensures |Encode(s, urlSafe)| == (|s| + 2) / 3 * 4
    decreases |s|
  {
    if |s| >= 3 {
      EncodedLength(s[3..], urlSafe);
    }
  }

  /** The bits as the string encoder takes them. */
  lemma GroupBits(a: bv8, b: bv8, c: bv8)
    ensures (a >> 2) & 0x3f == First(a) && (a << 4) & 0x3f == Second(a, 0)
    ensures ((a << 4) & 0x3f) | ((b >> 4) & 0x0f) == Second(a, b) && (b << 2) & 0x3f == Third(b, 0)
    ensures ((b << 2) & 0x3f) | ((c >> 6) & 0x03) == Third(b, c) && c & 0x3f == Fourth(c)
  {
  }

  /** The bits as the buffer encoder takes them. */
  lemma MaskedBits(a: bv8, b: bv8, c: bv8)
    ensures (a & 0xfc) >> 2 == First(a) && (a & 0x03) << 4 == Second(a, 0)
    ensures ((a & 0x03) << 4) | ((b & 0xf0) >> 4) == Second(a, b) && (b & 0x0f) << 2 == Third(b, 0)
    ensures ((b & 0x0f) << 2) | ((c & 0xc0) >> 6) == Third(b, c) && c & 0x3f == Fourth(c)
  {
  }

  lemma FourMore(all: seq<bv8>, done: seq<bv8>, w: bv8, x: bv8, y: bv8, z: bv8, rest: seq<bv8>)
    requires all == done + ([w, x, y, z] + rest)
    ensures all == done + [w] + [x] + [y] + [z] + rest
  {
    assert done + [w] + [x] + [y] + [z] == done + [w, x, y, z];
  }

  method EncodeString(input: seq<bv8>) returns (output: seq<bv8>)
    ensures output == Encode(input, false)
  {
    hide Encode, EncodeFrom, Symbol, First, Second, Third, Fourth;
    output := [];
    var i := 0;
    FromStart(input, false);
    while i < |input|
      invariant 0 <= i
      invariant Encode(input, false) == output + EncodeFrom(input, i, false)
    {
      NextFour(input, output, i, false);
      GroupBits(input[i], if i + 1 < |input| then input[i + 1] else 0, if i + 2 < |input| then input[i + 2] else 0);
      var code0 := (input[i] >> 2) & 0x3f;
      output := output + [Symbol(code0, false)];
      var code1 := (input[i] << 4) & 0x3f;
      i := i + 1;
      if i < |input| {
        code1 := code1 | ((input[i] >> 4) & 0x0f);
        output := output + [Symbol(code1, false)];
        var code2 := (input[i] << 2) & 0x3f;
        i := i + 1;
        if i < |input| {
          code2 := code2 | ((input[i] >> 6) & 0x03);
          var code3 := input[i] & 0x3f;
          output := output + [Symbol(code2, false)];
          output := output + [Symbol(code3, false)];
        } else {
          output := output + [Symbol(code2, false)];
          output := output + [PAD];
        }
      } else {
        output := output + [Symbol(code1, false)];
        output := output + [PAD];
        output := output + [PAD];
      }
      i := i + 1;
      PastEnd(input, i, false);
    }
    PastEnd(input, i, false);
  }

  /** Appending the next four symbols one by one. */
  lemma NextFour(s: seq<bv8>, done: seq<bv8>, i: nat, u: bool)
    requires i < |s| && Encode(s, u) == done + EncodeFrom(s, i, u)
    ensures i + 1 == |s| ==>
              Encode(s, u) ==
              done + [Symbol(First(s[i]), u)] + [Symbol(Second(s[i], 0), u)] + [PAD] + [PAD] + EncodeFrom(s, i + 3, u)
    ensures i + 2 == |s| ==>
              Encode(s, u) ==
              done + [Symbol(First(s[i]), u)] + [Symbol(Second(s[i], s[i + 1]), u)] + [Symbol(Third(s[i + 1], 0), u)] +
              [PAD] + EncodeFrom(s, i + 3, u)
    ensures i + 3 <= |s| ==>
              Encode(s, u) ==
              done + [Symbol(First(s[i]), u)] + [Symbol(Second(s[i], s[i + 1]), u)] +
              [Symbol(Third(s[i + 1], s[i + 2]), u)] + [Symbol(Fourth(s[i + 2]), u)] + EncodeFrom(s, i + 3, u)
  {
    hide Encode, EncodeFrom, Symbol, First, Second, Third, Fourth;
    EncodeStep(s, i, u);
    PastEnd(s, i + 3, u);
    var w, rest := Symbol(First(s[i]), u), EncodeFrom(s, i + 3, u);
    if i + 1 == |s| {
      FourMore(Encode(s, u), done, w, Symbol(Second(s[i], 0), u), PAD, PAD, rest);
    } else if i + 2 == |s| {
      FourMore(Encode(s, u), done, w, Symbol(Second(s[i], s[i + 1]), u), Symbol(Third(s[i + 1], 0), u), PAD, rest);
    } else {
      FourMore(Encode(s, u), done, w, Symbol(Second(s[i], s[i + 1]), u), Symbol(Third(s[i + 1], s[i + 2]), u),
               Symbol(Fourth(s[i + 2]), u), rest);
    }
  }

  lemma FromStart(s: seq<bv8>, u: bool)
    ensures EncodeFrom(s, 0, u) == Encode(s, u)
  {
    assert s[0..] == s;
  }

  lemma PastEnd(s: seq<bv8>, i: nat, u: bool)
    ensures i >= |s| ==> EncodeFrom(s, i, u) == []
    ensures i + 1 >= |s| ==> EncodeFrom(s, i + 1, u) == [] && EncodeFrom(s, i + 2, u) == []
  {
  }

  /** `*it++ = x`. */
  method Put(ret: array<bv8>, it: nat, x: bv8) returns (next: nat)
    requires it < ret.Length
    modifies ret
    ensures next == it + 1 && ret[..next] == old(ret[..it]) + [x]
  {
    ret[it] := x;
    next := it + 1;
  }

  method EncodeBuffer(data: seq<bv8>, urlSafe: bool) returns (r: seq<bv8>)
    ensures r == Encode(data, urlSafe)
  {
    hide Encode, EncodeFrom, Symbol, First, Second, Third, Fourth;
    var size, d, it := |data|, 0, 0;
    var ret := new bv8[(size + 2) / 3 * 4];
    FromStart(data, urlSafe);
    EncodedLength(data, urlSafe);
    while size >= 3
      invariant 0 <= size == |data| - d && 0 <= it <= ret.Length
      invariant Encode(data, urlSafe) == ret[..it] + EncodeFrom(data, d, urlSafe)
    {
      NextFour(data, ret[..it], d, urlSafe);
      MaskedBits(data[d], data[d + 1], data[d + 2]);
      it := Put(ret, it, Symbol((data[d] & 0xfc) >> 2, urlSafe));
      var h := (data[d] & 0x03) << 4;
      d := d + 1;
      it := Put(ret, it, Symbol(h | ((data[d] & 0xf0) >> 4), urlSafe));
      h := (data[d] & 0x0f) << 2;
      d := d + 1;
      it := Put(ret, it, Symbol(h | ((data[d] & 0xc0) >> 6), urlSafe));
      it := Put(ret, it, Symbol(data[d] & 0x3f, urlSafe));
      d := d + 1;
      size := size - 3;
    }
    it := EncodeTail(ret, it, data, d, size, urlSafe);
    assert ret[..it] == ret[..];
    r := ret[..];
  }

  /** The last one or two bytes, padded. */
  method EncodeTail(ret: array<bv8>, from: nat, data: seq<bv8>, start: nat, size: nat, urlSafe: bool)
    returns (it: nat)
    requires size < 3 && start + size == |data| && from <= ret.Length == |Encode(data, urlSafe)|
    requires Encode(data, urlSafe) == ret[..from] + EncodeFrom(data, start, urlSafe)
    modifies ret
    ensures it == ret.Length && ret[..it] == Encode(data, urlSafe)
  {
    hide Encode, EncodeFrom, Symbol, First, Second, Third, Fourth;
    it := from;
    var d := start;
    PastEnd(data, d, urlSafe);
    if size == 1 {
      NextFour(data, ret[..it], d, urlSafe);
      MaskedBits(data[d], 0, 0);
      it := Put(ret, it, Symbol((data[d] & 0xfc) >> 2, urlSafe));
      var h := (data[d] & 0x03) << 4;
      d := d + 1;
      it := Put(ret, it, Symbol(h, urlSafe));
      it := Put(ret, it, PAD);
      it := Put(ret, it, PAD);
      PastEnd(data, d, urlSafe);
    } else if size == 2 {
      NextFour(data, ret[..it], d, urlSafe);
      MaskedBits(data[d], data[d + 1], 0);
      it := Put(ret, it, Symbol((data[d] & 0xfc) >> 2, urlSafe));
      var h := (data[d] & 0x03) << 4;
      d := d + 1;
      it := Put(ret, it, Symbol(h | ((data[d] & 0xf0) >> 4), urlSafe));
      h := (data[d] & 0x0f) << 2;
      d := d + 1;
      it := Put(ret, it, Symbol(h, urlSafe));
      it := Put(ret, it, PAD);
      PastEnd(data, d, urlSafe);
    }
  }

  datatype Decoding = Decoding(ok: bool, output: seq<bv8>)

  function Byte0(c0: bv8, c1: bv8): bv8 { (c0 << 2) | ((c1 >> 4) & 0x3) }
  function Byte1(c1: bv8, c2: bv8): bv8 { ((c1 << 4) & 0xf0) | ((c2 >> 2) & 0x0f) }
  function Byte2(c2: bv8, c3: bv8): bv8 { ((c2 << 6) & 0xc0) | c3 }

  function Prepend(done: seq<bv8>, d: Decoding): Decoding {
    Decoding(d.ok, done + d.output)
  }

  /** What a decoder makes of a text: the verdict, and the bytes it has appended by then. */
  function Decode(t: seq<bv8>): Decoding
    decreases |t|, 2
  {
    if t == [] then Decoding(true, [])
    else if Code(t[0]) == NOP || |t| == 1 || Code(t[1]) == NOP then Decoding(false, [])
    else Prepend([Byte0(Code(t[0]), Code(t[1]))], AfterSecond(t, 0))
  }

  function DecodeFrom(t: seq<bv8>, i: nat): Decoding
    decreases |t| - i, 3
  {
    if i < |t| then Decode(t[i..]) else Decoding(true, [])
  }

  /** What the third and the fourth symbol of the group at `i`, and the text behind it, add. */
  function AfterSecond(t: seq<bv8>, i: nat): Decoding
    requires i + 1 < |t|
    decreases |t| - i, 1
  {
    if i + 2 >= |t| then Decoding(true, [])
    else if t[i + 2] == PAD then Decoding(Code(t[i + 1]) & 0x0f == 0, [])
    else if Code(t[i + 2]) == NOP then Decoding(false, [])
    else Prepend([Byte1(Code(t[i + 1]), Code(t[i + 2]))], AfterThird(t, i))
  }

  function AfterThird(t: seq<bv8>, i: nat): Decoding
    requires i + 2 < |t|
    decreases |t| - i, 0
  {
    if i + 3 >= |t| then Decoding(true, [])
    else if t[i + 3] == PAD then Decoding(Code(t[i + 2]) & 0x03 == 0, [])
    else if Code(t[i + 3]) == NOP then Decoding(false, [])
    else Prepend([Byte2(Code(t[i + 2]), Code(t[i + 3]))], DecodeFrom(t, i + 4))
  }

  /** The decoding from position `i` on, by the branches of the loop. */
  lemma DecodeStep(t: seq<bv8>, i: nat)
    requires i < |t|
    ensures Code(t[i]) == NOP || i + 1 == |t| ==> DecodeFrom(t, i) == Decoding(false, [])
    ensures i + 1 < |t| && Code(t[i]) != NOP && Code(t[i + 1]) == NOP ==> DecodeFrom(t, i) == Decoding(false, [])
    ensures i + 1 < |t| && Code(t[i]) != NOP && Code(t[i + 1]) != NOP ==>
              DecodeFrom(t, i) == Prepend([Byte0(Code(t[i]), Code(t[i + 1]))], AfterSecond(t, i))
  {
    hide Byte0, Byte1, Byte2, Code;
    var r := t[i..];
    assert r[0] == t[i];
    if |r| > 1 && Code(r[0]) != NOP && Code(r[1]) != NOP {
      SuffixRest(t, i);
    }
  }

  lemma SuffixRest(t: seq<bv8>, i: nat)
    requires i + 1 < |t|
    ensures AfterSecond(t[i..], 0) == AfterSecond(t, i)
  {
    hide Byte1, Byte2, Code, Decode;
    var r := t[i..];
    assert r[1] == t[i + 1] && (|r| > 2 ==> r[2] == t[i + 2]) && (|r| > 3 ==> r[3] == t[i + 3]);
    assert |r| > 4 ==> r[4..] == t[i + 4..];
    assert DecodeFrom(r, 4) == DecodeFrom(t, i + 4);
  }

  lemma PrependTwice(done: seq<bv8>, x: bv8, d: Decoding)
    ensures Prepend(done, Prepend([x], d)) == Prepend(done + [x], d)
  {
    assert done + ([x] + d.output) == done + [x] + d.output;
  }

  method DecodeString(input: seq<bv8>) returns (ok: bool, output: seq<bv8>)
    ensures Decoding(ok, output) == Decode(input)
  {
    hide Decode, Code, Byte0, Byte1, Byte2, DecodeFrom;
    output := [];
    var i := 0;
    DecodeStart(input);
    while i < |input|
      invariant 0 <= i
      invariant Decode(input) == Prepend(output, DecodeFrom(input, i))
      decreases |input| - i
    {
      ghost var at := i;
      DecodeStep(input, i);
      var code2: bv8 := 0;
      var code0 := Code(input[i]);
      if code0 == NOP {
        return false, output;
      }
      i := i + 1;
      if !(i < |input|) {
        return false, output;
      }
      var code1 := Code(input[i]);
      if code1 == NOP {
        return false, output;
      }
      PrependTwice(output, Byte0(code0, code1), AfterSecond(input, at));
      output := output + [Byte0(code0, code1)];
      i := i + 1;
      if i < |input| {
        var c := input[i];
        if c == PAD {
          return code1 & 0x0f == 0, output;
        }
        code2 := Code(input[i]);
        if code2 == NOP {
          return false, output;
        }
        PrependTwice(output, Byte1(code1, code2), AfterThird(input, at));
        output := output + [Byte1(code1, code2)];
      }
      i := i + 1;
      if i < |input| {
        var c := input[i];
        if c == PAD {
          return code2 & 0x03 == 0, output;
        }
        var code3 := Code(input[i]);
        if code3 == NOP {
          return false, output;
        }
        PrependTwice(output, Byte2(code2, code3), DecodeFrom(input, at + 4));
        output := output + [Byte2(code2, code3)];
      }
      i := i + 1;
      DecodePastEnd(input, i);
    }
    DecodePastEnd(input, i);
    ok := true;
  }

  lemma DecodeStart(t: seq<bv8>)
    ensures Decode(t) == Prepend([], DecodeFrom(t, 0))
  {
    assert t[0..] == t;
  }

  lemma DecodePastEnd(t: seq<bv8>, i: nat)
    ensures i >= |t| ==> DecodeFrom(t, i) == Decoding(true, [])
  {
  }

  /** The bytes come back from their groups, and the groups from the bytes. */
  lemma BytesOfGroups(a: bv8, b: bv8, c: bv8)
    ensures Byte0(First(a), Second(a, b)) == a && Byte1(Second(a, b), Third(b, c)) == b
    ensures Byte2(Third(b, c), Fourth(c)) == c
    ensures Second(a, 0) & 0x0f == 0 && Third(b, 0) & 0x03 == 0
    ensures First(a) < 64 && Second(a, b) < 64 && Third(b, c) < 64 && Fourth(c) < 64
  {
  }

  lemma GroupsOfBytes(w: bv8, x: bv8, y: bv8, z: bv8)
    requires w < 64 && x < 64 && y < 64 && z < 64
    ensures First(Byte0(w, x)) == w && Second(Byte0(w, x), Byte1(x, y)) == x
    ensures Third(Byte1(x, y), Byte2(y, z)) == y && Fourth(Byte2(y, z)) == z
    ensures x & 0x0f == 0 ==> Second(Byte0(w, x), 0) == x
    ensures y & 0x03 == 0 ==> Third(Byte1(x, y), 0) == y
  {
  }

  predicate IsCode(c: bv8) {
    Code(c) != NOP && c != PAD
  }

  /** A full group of symbols, and the text behind it. */
  lemma DecodeGroup(t: seq<bv8>)
    requires |t| >= 4 && IsCode(t[0]) && IsCode(t[1]) && IsCode(t[2]) && IsCode(t[3])
    ensures Decode(t) == Decoding(Decode(t[4..]).ok,
              [Byte0(Code(t[0]), Code(t[1])), Byte1(Code(t[1]), Code(t[2])), Byte2(Code(t[2]), Code(t[3]))] +
              Decode(t[4..]).output)
  {
    hide Code, Byte0, Byte1, Byte2;
    var b0, b1 := Byte0(Code(t[0]), Code(t[1])), Byte1(Code(t[1]), Code(t[2]));
    var b2, rest := Byte2(Code(t[2]), Code(t[3])), Decode(t[4..]);
    FromFourth(t);
    hide DecodeFrom;
    assert AfterThird(t, 0) == Prepend([b2], rest);
    assert AfterSecond(t, 0) == Prepend([b1], AfterThird(t, 0));
    assert Decode(t) == Prepend([b0], AfterSecond(t, 0));
    hide Decode, AfterSecond, AfterThird;
    assert [b0] + ([b1] + ([b2] + rest.output)) == [b0, b1, b2] + rest.output;
  }

  lemma FromFourth(t: seq<bv8>)
    requires |t| >= 4
    ensures DecodeFrom(t, 4) == Decode(t[4..])
  {
    hide Code, Byte0, Byte1, Byte2;
  }

  /** A padded group, and no text behind it. */
  lemma DecodePadded(t: seq<bv8>)
    requires |t| == 4 && IsCode(t[0]) && IsCode(t[1])
    ensures t[2] == PAD ==> Decode(t) == Decoding(Code(t[1]) & 0x0f == 0, [Byte0(Code(t[0]), Code(t[1]))])
    ensures IsCode(t[2]) && t[3] == PAD ==>
              Decode(t) == Decoding(Code(t[2]) & 0x03 == 0,
                             [Byte0(Code(t[0]), Code(t[1])), Byte1(Code(t[1]), Code(t[2]))])
  {
    hide Code, Byte0, Byte1, Byte2, DecodeFrom;
    if IsCode(t[2]) && t[3] == PAD {
      assert AfterThird(t, 0) == Decoding(Code(t[2]) & 0x03 == 0, []);
      assert AfterSecond(t, 0) == Prepend([Byte1(Code(t[1]), Code(t[2]))], AfterThird(t, 0));
    }
  }

  /** The symbols of a group are no padding and decode to the group. */
  lemma SymbolsOfGroup(a: bv8, b: bv8, c: bv8)
    ensures var p, q := Symbol(First(a), false), Symbol(Second(a, b), false);
      IsCode(p) && IsCode(q) && Code(p) == First(a) && Code(q) == Second(a, b)
    ensures var p, q := Symbol(Third(b, c), false), Symbol(Fourth(c), false);
      IsCode(p) && IsCode(q) && Code(p) == Third(b, c) && Code(q) == Fourth(c)
  {
    hide Symbol, Code, First, Second, Third, Fourth;
    BytesOfGroups(a, b, c);
    CodeOfSymbol(First(a));
    CodeOfSymbol(Second(a, b));
    CodeOfSymbol(Third(b, c));
    CodeOfSymbol(Fourth(c));
    assert NOP >= 64;
  }

  /** The first group of an encoding. */
  lemma EncodeGroup(s: seq<bv8>)
    requires |s| >= 3
    ensures var e := Encode(s, false);
      && |e| >= 4 && e[4..] == Encode(s[3..], false)
      && e[..4] == [Symbol(First(s[0]), false), Symbol(Second(s[0], s[1]), false), Symbol(Third(s[1], s[2]), false),
                    Symbol(Fourth(s[2]), false)]
  {
    hide Symbol, First, Second, Third, Fourth;
  }

  /** Decoding undoes encoding, for every byte string. */
  lemma {:induction false} RoundTrip(s: seq<bv8>)
    ensures Decode(Encode(s, false)) == Decoding(true, s)
    decreases |s|
  {
    hide Encode, Decode, Symbol, Code, First, Second, Third, Fourth, Byte0, Byte1, Byte2, IsCode;
    if |s| < 3 {
      RoundTripTail(s);
    } else {
      var e := Encode(s, false);
      EncodeGroup(s);
      SymbolsOfGroup(s[0], s[1], s[2]);
      BytesOfGroups(s[0], s[1], s[2]);
      assert e[0] == e[..4][0] && e[1] == e[..4][1] && e[2] == e[..4][2] && e[3] == e[..4][3];
      DecodeGroup(e);
      RoundTrip(s[3..]);
      assert s == [s[0], s[1], s[2]] + s[3..];
    }
  }

  lemma RoundTripTail(s: seq<bv8>)
    requires |s| < 3
    ensures Decode(Encode(s, false)) == Decoding(true, s)
  {
    hide Decode, Symbol, Code, First, Second, Third, Fourth, Byte0, Byte1, Byte2;
    if s == [] {
      NothingDecoded();
    } else if |s| == 1 {
      EncodeShort(s);
      SymbolsOfGroup(s[0], 0, 0);
      BytesOfGroups(s[0], 0, 0);
      DecodePadded(Encode(s, false));
    } else if |s| == 2 {
      EncodeShort(s);
      SymbolsOfGroup(s[0], s[1], 0);
      BytesOfGroups(s[0], s[1], 0);
      DecodePadded(Encode(s, false));
    }
  }

  lemma NothingDecoded()
    ensures Decode([]) == Decoding(true, [])
  {
  }

  lemma EncodeShort(s: seq<bv8>)
    requires 1 <= |s| <= 2
    ensures |s| == 1 ==>
              Encode(s, false) == [Symbol(First(s[0]), false), Symbol(Second(s[0], 0), false), PAD, PAD]
    ensures |s| == 2 ==>
              Encode(s, false) ==
              [Symbol(First(s[0]), false), Symbol(Second(s[0], s[1]), false), Symbol(Third(s[1], 0), false), PAD]
  {
  }

  /** Whole groups of four, padded at the very end at most. */
  predicate Shaped(t: seq<bv8>) {
    && |t| % 4 == 0
    && (forall k :: 0 <= k < |t| && t[k] == PAD ==> |t| - 2 <= k)
    && (|t| >= 2 && t[|t| - 2] == PAD ==> t[|t| - 1] == PAD)
  }

  lemma ShapedGroup(t: seq<bv8>)
    requires |t| >= 4 && t[0] != PAD && t[1] != PAD && t[2] != PAD && t[3] != PAD
    ensures Shaped(t) <==> Shaped(t[4..])
  {
    var r := t[4..];
    assert forall k :: 0 <= k < |r| ==> r[k] == t[k + 4];
    assert forall k :: 4 <= k < |t| ==> t[k] == r[k - 4];
  }

  /** Where the padding begins, or the end. */
  function FirstPad(t: seq<bv8>): (p: nat)
    ensures p <= |t| && PAD !in t[..p] && (p < |t| ==> t[p] == PAD)
  {
    if t == [] || t[0] == PAD then 0 else 1 + FirstPad(t[1..])
  }

  /** Symbols up to the padding; a last group of two or three of them, with no bits to spare if it is padded. What
      follows the first `=` does not matter. */
  predicate WellFormed(t: seq<bv8>) {
    var p := FirstPad(t);
    && (forall k :: 0 <= k < p ==> Code(t[k]) != NOP)
    && if p == |t| then p % 4 != 1
       else (p % 4 == 2 && Code(t[p - 1]) & 0x0f == 0) || (p % 4 == 3 && Code(t[p - 1]) & 0x03 == 0)
  }

  /** Which texts a decoder accepts. */
  lemma {:induction false} AcceptedExactly(t: seq<bv8>)
    ensures Decode(t).ok <==> WellFormed(t)
    decreases |t|
  {
    hide Code, Byte0, Byte1, Byte2;
    if |t| >= 4 && IsCode(t[0]) && IsCode(t[1]) && IsCode(t[2]) && IsCode(t[3]) {
      DecodeGroup(t);
      AcceptedExactly(t[4..]);
      PadAfterGroup(t);
    } else {
      ShortText(t);
    }
  }

  lemma PadIsNoCode()
    ensures Code(PAD) == NOP
  {
  }

  lemma PadOfRest(t: seq<bv8>)
    requires |t| >= 4 && t[0] != PAD && t[1] != PAD && t[2] != PAD && t[3] != PAD
    ensures FirstPad(t) == 4 + FirstPad(t[4..])
  {
    assert t[1..][1..] == t[2..] && t[2..][1..] == t[3..] && t[3..][1..] == t[4..];
    assert FirstPad(t[2..]) == 2 + FirstPad(t[4..]);
  }

  lemma PadAfterGroup(t: seq<bv8>)
    requires |t| >= 4 && IsCode(t[0]) && IsCode(t[1]) && IsCode(t[2]) && IsCode(t[3])
    ensures WellFormed(t) <==> WellFormed(t[4..])
  {
    hide Code, FirstPad;
    var r, p := t[4..], FirstPad(t);
    PadOfRest(t);
    assert forall k :: 0 <= k < |r| ==> r[k] == t[k + 4];
    assert forall k :: 4 <= k < p ==> t[k] == r[k - 4];
  }

  /** The first group ends, or breaks off, at `b`. */
  ghost predicate StopsAt(t: seq<bv8>, b: nat) {
    b < 4 && b <= |t| && (forall k :: 0 <= k < b ==> IsCode(t[k])) && (b < |t| ==> !IsCode(t[b]))
  }

  predicate MayStop(t: seq<bv8>, b: nat)
    requires b <= |t|
  {
    if b == |t| then b != 1
    else t[b] == PAD && ((b == 2 && Code(t[1]) & 0x0f == 0) || (b == 3 && Code(t[2]) & 0x03 == 0))
  }

  lemma DecodeStops(t: seq<bv8>, b: nat)
    requires StopsAt(t, b)
    ensures Decode(t).ok <==> MayStop(t, b)
  {
    hide Code, Byte0, Byte1, Byte2, DecodeFrom;
    PadIsNoCode();
    if b >= 2 {
      assert IsCode(t[0]) && IsCode(t[1]);
      assert Decode(t).ok == AfterSecond(t, 0).ok;
      if b == 3 {
        assert IsCode(t[2]);
        assert AfterSecond(t, 0).ok == AfterThird(t, 0).ok;
      }
    }
  }

  lemma FormStops(t: seq<bv8>, b: nat)
    requires StopsAt(t, b)
    ensures WellFormed(t) <==> MayStop(t, b)
  {
    hide Code, FirstPad;
    var p := FirstPad(t);
    assert forall k :: 0 <= k < p ==> t[..p][k] == t[k];
  }

  lemma ShortText(t: seq<bv8>)
    requires !(|t| >= 4 && IsCode(t[0]) && IsCode(t[1]) && IsCode(t[2]) && IsCode(t[3]))
    ensures Decode(t).ok <==> WellFormed(t)
  {
    hide Decode, WellFormed, IsCode;
    var b :=
      if |t| == 0 || !IsCode(t[0]) then 0
      else if |t| == 1 || !IsCode(t[1]) then 1
      else if |t| == 2 || !IsCode(t[2]) then 2
      else 3;
    assert StopsAt(t, b);
    DecodeStops(t, b);
    FormStops(t, b);
  }

  /** An accepted text re-encodes to itself exactly when it is shaped; so the encodings are the shaped accepted texts. */
  lemma AcceptedIsEncoding(t: seq<bv8>)
    requires Decode(t).ok
    ensures Encode(Decode(t).output, false) == t <==> Shaped(t)
  {
    if Shaped(t) {
      ShapedReencodes(t);
    } else {
      EncodingIsShaped(Decode(t).output);
    }
  }

  /** "AA=" is accepted, but its byte encodes as "AA==". */
  lemma UnshapedIsAccepted()
    ensures Decode([65, 65, PAD]) == Decoding(true, [0]) && Encode([0], false) == [65, 65, PAD, PAD]
  {
    assert AfterSecond([65, 65, PAD], 0) == Decoding(true, []);
  }

  lemma {:induction false} EncodingIsShaped(s: seq<bv8>)
    ensures Shaped(Encode(s, false))
    decreases |s|
  {
    hide Encode, Symbol, Code, First, Second, Third, Fourth;
    if |s| < 3 {
      TailIsShaped(s);
    } else {
      var e := Encode(s, false);
      EncodeGroup(s);
      SymbolsOfGroup(s[0], s[1], s[2]);
      assert e[0] == e[..4][0] && e[1] == e[..4][1] && e[2] == e[..4][2] && e[3] == e[..4][3];
      EncodingIsShaped(s[3..]);
      ShapedGroup(e);
    }
  }

  lemma TailIsShaped(s: seq<bv8>)
    requires |s| < 3
    ensures Shaped(Encode(s, false))
  {
    hide Symbol, Code, First, Second, Third, Fourth;
    if |s| == 1 {
      SymbolsOfGroup(s[0], 0, 0);
    } else if |s| == 2 {
      SymbolsOfGroup(s[0], s[1], 0);
    }
  }

  lemma {:induction false} ShapedReencodes(t: seq<bv8>)
    requires Decode(t).ok && Shaped(t)
    ensures Encode(Decode(t).output, false) == t
    decreases |t|
  {
    hide Encode, Decode, Symbol, Code, First, Second, Third, Fourth, Byte0, Byte1, Byte2;
    FirstGroup(t);
    if t != [] {
      if t[2] == PAD || t[3] == PAD {
        PaddedReencodes(t);
      } else {
        var out, rest := Decode(t).output, t[4..];
        DecodeGroup(t);
        ShapedGroup(t);
        ShapedReencodes(rest);
        EncodeGroup(out);
        assert out[3..] == Decode(rest).output;
        SymbolOfCode(t[0]);
        SymbolOfCode(t[1]);
        SymbolOfCode(t[2]);
        SymbolOfCode(t[3]);
        GroupsOfBytes(Code(t[0]), Code(t[1]), Code(t[2]), Code(t[3]));
        var e := Encode(out, false);
        assert e == e[..4] + e[4..] && t == [t[0], t[1], t[2], t[3]] + rest;
      }
    } else {
      EmptyText();
    }
  }

  lemma EmptyText()
    ensures Encode(Decode([]).output, false) == []
  {
  }

  /** The first group of a shaped accepted text. */
  lemma FirstGroup(t: seq<bv8>)
    requires Decode(t).ok && Shaped(t)
    ensures t != [] ==> |t| >= 4 && IsCode(t[0]) && IsCode(t[1])
    ensures t != [] ==> (t[2] == PAD || t[3] == PAD ==> |t| == 4) && (t[2] == PAD ==> t[3] == PAD)
    ensures t != [] ==> (t[2] == PAD || IsCode(t[2])) && (t[3] == PAD || t[2] == PAD || IsCode(t[3]))
  {
    hide Decode, Code;
    if t != [] {
      AcceptedGroup(t);
      if t[2] == PAD {
        assert |t| - 2 <= 2;
      } else if t[3] == PAD {
        assert |t| - 2 <= 3;
      }
    }
  }

  lemma AcceptedGroup(t: seq<bv8>)
    requires Decode(t).ok && |t| >= 4 && t[0] != PAD && t[1] != PAD
    ensures IsCode(t[0]) && IsCode(t[1]) && (t[2] == PAD || IsCode(t[2])) && (t[3] == PAD || t[2] == PAD || IsCode(t[3]))
  {
    hide Byte0, Byte1, Byte2, Code, DecodeFrom;
    assert IsCode(t[0]) && IsCode(t[1]);
    assert AfterSecond(t, 0).ok;
    if t[2] != PAD {
      assert IsCode(t[2]);
      assert AfterThird(t, 0).ok;
    }
  }

  lemma PaddedReencodes(t: seq<bv8>)
    requires Decode(t).ok && |t| == 4 && IsCode(t[0]) && IsCode(t[1]) && t[3] == PAD
    requires t[2] == PAD || IsCode(t[2])
    ensures Encode(Decode(t).output, false) == t
  {
    hide Encode, Decode, Symbol, Code, First, Second, Third, Fourth, Byte0, Byte1, Byte2;
    DecodePadded(t);
    EncodeShort(Decode(t).output);
    SymbolOfCode(t[0]);
    SymbolOfCode(t[1]);
    if t[2] == PAD {
      GroupsOfBytes(Code(t[0]), Code(t[1]), 0, 0);
    } else {
      SymbolOfCode(t[2]);
      GroupsOfBytes(Code(t[0]), Code(t[1]), Code(t[2]), 0);
    }
  }
}
