/** Dotted subnet masks and their prefix lengths (redfish-core/lib/ethernet.hpp; prefix notation is that of section 3.1 of
    RFC 4632). */
module Netmasks {
  import opened Options
  import opened Captures
  import opened CStrings
  import opened Powers

  /** The octet that begins with `n` ones. */
  function Ones(n: nat): nat
    requires n <= 8
  {
    if n == 0 then 0
    else if n == 1 then 128
    else if n == 2 then 192
    else if n == 3 then 224
    else if n == 4 then 240
    else if n == 5 then 248
    else if n == 6 then 252
    else if n == 7 then 254
    else 255
  }

  /** How many of the first `b` bits of an address fall into its octet `k`. */
  function OnesIn(b: nat, k: nat): (n: nat)
    ensures n <= 8
  {
    if b <= 8 * k then 0 else if b >= 8 * k + 8 then 8 else b - 8 * k
  }

  /** The octets of the mask with `b` leading ones. */
  function Octets(b: nat): seq<nat> {
    [Ones(OnesIn(b, 0)), Ones(OnesIn(b, 1)), Ones(OnesIn(b, 2)), Ones(OnesIn(b, 3))]
  }

  const WORD: int := 0x1_0000_0000

  /** The 32-bit word that the mask text is made from: all ones, shifted left and cut to the word. */
  function MaskWord(bits: nat): nat
    requires 1 <= bits <= 32
  {
    0xffff_ffff * Pow2(32 - bits) % WORD
  }

  /** Shifting out, the word is what is missing to 2^32. */
  lemma MaskWordIs(bits: nat)
    requires 1 <= bits <= 32
    ensures MaskWord(bits) == WORD - Pow2(32 - bits)
  {
    LargePowers();
    Pow2Grows(32 - bits, 31);
    ShiftedOut(Pow2(32 - bits));
  }

  lemma ShiftedOut(p: nat)
    requires 1 <= p <= 0x8000_0000
    ensures 0xffff_ffff * p % WORD == WORD - p
  {
    assert 0xffff_ffff * p == (p - 1) * WORD + (WORD - p);
  }

  function Bytes(w: nat): seq<nat> {
    [w / 0x100_0000 % 256, w / 0x1_0000 % 256, w / 0x100 % 256, w % 256]
  }

  /** The bytes of the word are the octets of the mask. */
  lemma WordOctets(bits: nat)
    requires 1 <= bits <= 32
    ensures Bytes(MaskWord(bits)) == Octets(bits)
  {
    hide Pow2, MaskWord, Bytes;
    var q := (bits - 1) / 8;
    var n := bits - 8 * q;
    var p := Pow2(8 - n);
    MaskWordIs(bits);
    SmallPowers(8 - n);
    SmallPowers(0);
    SmallPowers(8);
    LargePowers();
    Pow2Sum(8 - n, 24 - 8 * q);
    assert OnesIn(bits, q) == n;
    if q == 0 {
      TopByte(p);
    } else if q == 1 {
      SecondByte(p);
    } else if q == 2 {
      ThirdByte(p);
    } else {
      LastByte(p);
    }
  }

  lemma TopByte(p: nat)
    requires 1 <= p <= 128
    ensures Bytes(WORD - p * 0x100_0000) == [256 - p, 0, 0, 0]
  {
    var w := WORD - p * 0x100_0000;
    assert w == (256 - p) * 0x100_0000;
    assert w / 0x100_0000 == 256 - p;
    assert w / 0x1_0000 == (256 - p) * 256 && w / 0x100 == (256 - p) * 0x1_0000;
  }

  lemma SecondByte(p: nat)
    requires 1 <= p <= 128
    ensures Bytes(WORD - p * 0x1_0000) == [255, 256 - p, 0, 0]
  {
  }

  lemma ThirdByte(p: nat)
    requires 1 <= p <= 128
    ensures Bytes(WORD - p * 0x100) == [255, 255, 256 - p, 0]
  {
  }

  lemma LastByte(p: nat)
    requires 1 <= p <= 128
    ensures Bytes(WORD - p) == [255, 255, 255, 256 - p]
  {
  }

  /** `std::to_string` of a byte. */
  function ToString(v: nat): string
    requires v < 256
  {
    if v < 10 then [Digit(v)]
    else if v < 100 then [Digit(v / 10), Digit(v % 10)]
    else [Digit(v / 100), Digit(v / 10 % 10), Digit(v % 10)]
  }

  function Digit(d: nat): (c: char)
    requires d < 10
    ensures IsDigit(c) && c as int - '0' as int == d
  {
    '0' + d as char
  }

  function GetNetmask(bits: nat): string
    requires 1 <= bits <= 32
  {
    var b := Bytes(MaskWord(bits));
    ToString(b[0]) + "." + ToString(b[1]) + "." + ToString(b[2]) + "." + ToString(b[3])
  }

  /** The position of the next dot, or the end. */
  function DotOrEnd(s: string): (e: nat)
    ensures e <= |s| && '.' !in s[..e] && (e < |s| ==> s[e] == '.')
  {
    if s == [] || s[0] == '.' then 0 else 1 + DotOrEnd(s[1..])
  }

  /** `boost::split` at the dots. */
  function Fields(s: string): seq<string>
    decreases |s|
  {
    var e := DotOrEnd(s);
    if e == |s| then [s] else [s[..e]] + Fields(s[e + 1..])
  }

  lemma FieldsOfDotted(a: string, rest: string)
    requires '.' !in a
    ensures Fields(a + "." + rest) == [a] + Fields(rest)
    ensures Fields(a) == [a]
  {
    var s := a + "." + rest;
    DotBehind(a, rest);
    assert s[..|a|] == a && s[|a| + 1..] == rest;
  }

  lemma {:induction false} DotBehind(a: string, rest: string)
    requires '.' !in a
    ensures DotOrEnd(a + "." + rest) == |a| == DotOrEnd(a)
    decreases |a|
  {
    if a != [] {
      assert (a + "." + rest)[1..] == a[1..] + "." + rest;
      DotBehind(a[1..], rest);
    }
  }

  predicate IsSpace(c: char) {
    c == ' ' || '\t' <= c <= '\r'
  }

  function SkipSpace(s: string, i: nat): (r: nat)
    requires i <= |s|
    ensures i <= r <= |s|
    decreases |s| - i
  {
    if i < |s| && IsSpace(s[i]) then SkipSpace(s, i + 1) else i
  }

  /** `strtol` in base ten: the value, and where reading stopped; nothing is read when there is no digit. */
  function Strtol(s: string): (r: (int, nat))
    ensures r.1 <= |s|
  {
    var i := SkipSpace(s, 0);
    var start := if i < |s| && (s[i] == '+' || s[i] == '-') then i + 1 else i;
    var e := DigitsEnd(s, start);
    if e == start then (0, 0) else
    var n: int := Decimal(s, start, e);
    var v := if s[i] == '-' then -n else n;
    (if v < INT64_MIN then INT64_MIN else if v > INT64_MAX then INT64_MAX else v, e)
  }

  /** The value of one field: a number that fills the field and fits a byte. */
  function FieldValue(f: string): (r: Option<nat>)
    ensures r.Some? ==> r.value <= 255
  {
    if f == [] then None else
    var c := CString(f);
    var (value, end) := Strtol(c);
    if end != |c| then None else if value < 0 || value > 255 then None else Some(value)
  }

  /** White space up to `b`, then a numeral for `v` to the end. */
  predicate ReadsAs(c: string, b: nat, v: int) {
    && b < |c| && (forall k :: 0 <= k < b ==> c[k] as int in {9, 10, 11, 12, 13, 32})
    && IsNumeral(c[b..]) && NumeralValue(c[b..]) == v
  }

  /** A field has a value when its C string is a numeral for a byte behind white space; one that begins with a NUL is
      zero. */
  lemma FieldReads(f: string, v: nat)
    ensures
      FieldValue(f) == Some(v) <==>
      f != [] && v <= 255 && if CString(f) == [] then v == 0 else exists b: nat :: ReadsAs(CString(f), b, v)
  {
    hide CString, Strtol, SkipSpace, ReadsAs;
    var c := CString(f);
    if c == [] {
      assert Strtol(c) == (0, 0) by { EmptyReads(); }
    } else if v <= 255 {
      var i := SkipSpace(c, 0);
      StrtolReads(c, i, v);
      if b: nat :| ReadsAs(c, b, v) {
        ReadsOnce(c, b, i, v);
      }
    }
  }

  lemma EmptyReads()
    ensures Strtol([]) == (0, 0)
  {
  }

  lemma {:induction false} SkipsSpace(c: string, i: nat)
    requires i <= |c|
    ensures var r := SkipSpace(c, i); (forall k :: i <= k < r ==> IsSpace(c[k])) && (r < |c| ==> !IsSpace(c[r]))
    decreases |c| - i
  {
    if i < |c| && IsSpace(c[i]) {
      SkipsSpace(c, i + 1);
    }
  }

  lemma SpacesAre(c: char)
    ensures IsSpace(c) <==> c as int in {9, 10, 11, 12, 13, 32}
  {
  }

  /** A numeral begins behind the white space, if anywhere. */
  lemma ReadsOnce(c: string, b: nat, i: nat, v: int)
    requires ReadsAs(c, b, v) && i == SkipSpace(c, 0)
    ensures b == i
  {
    hide NumeralValue;
    SkipsSpace(c, 0);
    assert !IsSpace(c[b..][0]);
    assert forall k :: 0 <= k < b ==> IsSpace(c[k]) by {
      forall k | 0 <= k < b
        ensures IsSpace(c[k])
      {
        SpacesAre(c[k]);
      }
    }
  }

  /** `strtol` reads all of a string for `v`, a byte, exactly when the string is a numeral behind its white space. */
  lemma StrtolReads(c: string, i: nat, v: nat)
    requires c != [] && i == SkipSpace(c, 0) && v <= 255
    ensures Strtol(c) == (v as int, |c|) <==> ReadsAs(c, i, v)
  {
    hide Decimal, Horner, IsNumeral, IsDigit, AllDigits;
    SkipsSpace(c, 0);
    forall k | 0 <= k < i
      ensures c[k] as int in {9, 10, 11, 12, 13, 32}
    {
      SpacesAre(c[k]);
    }
    if i < |c| {
      var start := if c[i] == '+' || c[i] == '-' then i + 1 else i;
      DecimalIsHorner(c, start, DigitsEnd(c, start));
      assert c[i..|c|] == c[i..];
      NumeralAt(c, i, start, |c|);
    }
  }

  ghost predicate IsOnes(v: nat) {
    exists n :: 0 <= n <= 8 && v == Ones(n)
  }

  ghost predicate IsMask(values: seq<nat>) {
    exists b :: 0 <= b <= 32 && values == Octets(b)
  }

  /** The first `n` bits of an octet, as a number. */
  function Top(v: nat, n: nat): nat
    requires n <= 8
  {
    if n == 0 then v / 256
    else if n == 1 then v / 128
    else if n == 2 then v / 64
    else if n == 3 then v / 32
    else if n == 4 then v / 16
    else if n == 5 then v / 8
    else if n == 6 then v / 4
    else if n == 7 then v / 2
    else v
  }

  /** `value & (1 << idx)` of a byte. */
  predicate Bit(v: nat, idx: nat)
    requires idx <= 7
  {
    Top(v, 8 - idx) % 2 == 1
  }

  lemma TopStep(v: nat, n: nat)
    requires n < 8
    ensures Top(v, n + 1) == 2 * Top(v, n) + (if Bit(v, 7 - n) then 1 else 0)
  {
    assert Top(v, n) == Top(v, n + 1) / 2 by {
      if n < 4 {
        assert n == 0 || n == 1 || n == 2 || n == 3;
      } else {
        assert n == 4 || n == 5 || n == 6 || n == 7;
      }
    }
  }

  /** The first `n` bits are `c` ones and then zeros. */
  ghost predicate Run(v: nat, n: nat, c: nat) {
    c <= n <= 8 && Top(v, n) == Top(Ones(c), n)
  }

  lemma RunStep(v: nat, n: nat, c: nat)
    requires n < 8 && Run(v, n, c)
    ensures !Bit(v, 7 - n) ==> Run(v, n + 1, c)
    ensures Bit(v, 7 - n) && c == n ==> Run(v, n + 1, c + 1)
  {
    TopStep(v, n);
    TopStep(Ones(c), n);
    TopStep(Ones(n + 1), n);
  }

  /** A one behind a zero: no octet of leading ones. */
  lemma RunFails(v: nat, n: nat, c: nat)
    requires c < n < 8 && Run(v, n, c) && Bit(v, 7 - n)
    ensures !IsOnes(v)
  {
    forall m | 0 <= m <= 8
      ensures v != Ones(m)
    {
      TopStep(v, n);
      OnesBits(m, n);
      OnesBits(c, n);
      OnesBits(c, n - 1);
    }
  }

  /** Bit by bit, an octet of leading ones. */
  lemma OnesBits(m: nat, n: nat)
    requires m <= 8 && n < 8
    ensures Bit(Ones(m), 7 - n) <==> n < m
  {
  }

  /** The bit loop over one octet. */
  method CountOnes(value: nat) returns (ok: bool, bits: nat)
    requires value <= 255
    ensures ok <==> IsOnes(value)
    ensures ok ==> bits <= 8 && value == Ones(bits)
  {
    hide Top, Bit, Ones;
    var firstZeroInByteHit := false;
    bits := 0;
    RunStarts(value);
    var bitIdx := 7;
    while bitIdx >= 0
      invariant -1 <= bitIdx <= 7 && Run(value, 7 - bitIdx, bits)
      invariant firstZeroInByteHit <==> bits < 7 - bitIdx
    {
      RunStep(value, 7 - bitIdx, bits);
      if Bit(value, bitIdx) {
        if firstZeroInByteHit {
          RunFails(value, 7 - bitIdx, bits);
          return false, bits;
        } else {
          bits := bits + 1;
        }
      } else {
        firstZeroInByteHit := true;
      }
      bitIdx := bitIdx - 1;
    }
    RunEnds(value, bits);
    ok := true;
  }

  lemma RunStarts(v: nat)
    requires v <= 255
    ensures Run(v, 0, 0)
  {
  }

  lemma RunEnds(v: nat, c: nat)
    requires Run(v, 8, c)
    ensures v == Ones(c) && IsOnes(v)
  {
  }

  /** The octets seen are the first ones of the mask with `bits` ones, and these end among them unless the last is full. */
  ghost predicate Masked(seen: seq<nat>, bits: nat, previous: int) {
    && |seen| <= 4 && bits <= 8 * |seen| && seen == Octets(bits)[..|seen|]
    && (previous == 255 <==> bits == 8 * |seen|) && (|seen| > 0 ==> previous == seen[|seen| - 1])
  }

  lemma MaskedStep(seen: seq<nat>, bits: nat, previous: int, n: nat)
    requires |seen| < 4 && Masked(seen, bits, previous) && n <= 8 && (previous == 255 || Ones(n) == 0)
    ensures Masked(seen + [Ones(n)], bits + n, Ones(n))
  {
    var k, b := |seen|, bits + n;
    assert n == 0 <==> Ones(n) == 0;
    assert forall i :: 0 <= i < k ==> OnesIn(b, i) == OnesIn(bits, i) && Octets(b)[i] == Octets(bits)[i] == seen[i];
    assert OnesIn(b, k) == n;
    assert Octets(b)[..k + 1] == seen + [Ones(n)];
  }

  /** What ends the loop early: an octet that is no run of ones, or ones behind an octet that is not full. */
  lemma NoMask(values: seq<nat>, k: nat)
    requires |values| == 4 && k < 4
    requires !IsOnes(values[k]) || (k > 0 && values[k - 1] != 255 && values[k] != 0)
    ensures !IsMask(values)
  {
    forall b | 0 <= b <= 32
      ensures values != Octets(b)
    {
      assert Octets(b)[k] == Ones(OnesIn(b, k));
      if k > 0 {
        assert Octets(b)[k - 1] == Ones(OnesIn(b, k - 1));
      }
    }
  }

  /** A mask's octets determine its length. */
  lemma OctetsInjective(a: nat, b: nat)
    requires a <= 32 && b <= 32 && Octets(a) == Octets(b)
    ensures a == b
  {
    forall k | 0 <= k < 4
      ensures OnesIn(a, k) == OnesIn(b, k)
    {
      assert Octets(a)[k] == Ones(OnesIn(a, k)) && Octets(b)[k] == Ones(OnesIn(b, k));
    }
  }

  /** The values of four proper fields. */
  ghost function Values(fields: seq<string>): Option<seq<nat>> {
    if |fields| == 4 && forall k :: 0 <= k < 4 ==> FieldValue(fields[k]).Some? then
      Some(seq(4, k requires 0 <= k < 4 => FieldValue(fields[k]).value))
    else None
  }

  /** `ipv4VerifyIpAndGetBitcount`, with and without the count. */
  method VerifyIpAndGetBitcount(ip: string, counting: bool) returns (ok: bool, bits: nat)
    ensures ok <==> Values(Fields(ip)).Some? && (counting ==> IsMask(Values(Fields(ip)).value))
    ensures ok && counting ==> bits <= 32 && Values(Fields(ip)).value == Octets(bits)
  {
    hide FieldValue, Fields, Ones, OnesIn;
    var fields := Fields(ip);
    bits := 0;
    if |fields| != 4 {
      return false, bits;
    }
    var previousValue: int := 255;
    ghost var seen: seq<nat> := [];
    for k := 0 to 4
      invariant |seen| == k && forall i :: 0 <= i < k ==> FieldValue(fields[i]) == Some(seen[i])
      invariant counting ==> Masked(seen, bits, previousValue)
    {
      var value := FieldValue(fields[k]);
      if value.None? {
        return false, bits;
      }
      if counting {
        if previousValue != 255 && value.value != 0 {
          Rejected(fields, k);
          return false, bits;
        }
        var good, ones := CountOnes(value.value);
        if !good {
          Rejected(fields, k);
          return false, bits + ones;
        }
        MaskedStep(seen, bits, previousValue, ones);
        bits := bits + ones;
      }
      seen := seen + [value.value];
      previousValue := value.value;
    }
    assert Values(fields).Some? && Values(fields).value == seen;
    assert counting ==> Octets(bits)[..4] == Octets(bits);
    ok := true;
  }

  lemma Rejected(fields: seq<string>, k: nat)
    requires |fields| == 4 && k < 4 && FieldValue(fields[k]).Some?
    requires
      || !IsOnes(FieldValue(fields[k]).value)
      || (k > 0 && FieldValue(fields[k - 1]).Some? && FieldValue(fields[k - 1]).value != 255 &&
          FieldValue(fields[k]).value != 0)
    ensures Values(fields).Some? ==> !IsMask(Values(fields).value)
  {
    hide FieldValue;
    if Values(fields).Some? {
      NoMask(Values(fields).value, k);
    }
  }

  /** A number written out is read back. */
  lemma FieldOfByte(v: nat)
    requires v < 256
    ensures FieldValue(ToString(v)) == Some(v) && '.' !in ToString(v)
  {
    hide FieldValue, ToString;
    var s := ToString(v);
    DigitsOfByte(v);
    FieldOfDigits(s);
    forall k | 0 <= k < |s|
      ensures s[k] != '.'
    {
      assert IsDigit(s[k]);
    }
  }

  lemma FieldOfDigits(s: string)
    requires s != [] && (forall k :: 0 <= k < |s| ==> IsDigit(s[k])) && Decimal(s, 0, |s|) <= 255
    ensures FieldValue(s) == Some(Decimal(s, 0, |s|))
  {
    hide Decimal, CString;
    DigitsAreWhole(s);
    DigitsToEnd(s, 0);
    assert IsDigit(s[0]);
    assert SkipSpace(s, 0) == 0;
  }

  lemma DigitsOfByte(v: nat)
    requires v < 256
    ensures var s := ToString(v);
      s != [] && (forall k :: 0 <= k < |s| ==> IsDigit(s[k])) && Decimal(s, 0, |s|) == v
  {
    var s := ToString(v);
    assert forall k :: 0 <= k < |s| ==> IsDigit(s[k]);
    assert Decimal(s, 0, 1) == s[0] as int - '0' as int;
    if v < 10 {
    } else if v < 100 {
      assert Decimal(s, 0, 2) == 10 * (v / 10) + v % 10;
    } else {
      assert Decimal(s, 0, 2) == 10 * (v / 100) + v / 10 % 10;
      assert v / 10 == 10 * (v / 100) + v / 10 % 10;
      assert Decimal(s, 0, 3) == 10 * Decimal(s, 0, 2) + v % 10;
    }
  }

  lemma {:induction false} DigitsAreWhole(s: string)
    requires forall k :: 0 <= k < |s| ==> IsDigit(s[k])
    ensures CString(s) == s
    decreases |s|
  {
    if s != [] {
      DigitsAreWhole(s[1..]);
    }
  }

  lemma {:induction false} DigitsToEnd(s: string, i: nat)
    requires i <= |s| && forall k :: 0 <= k < |s| ==> IsDigit(s[k])
    ensures DigitsEnd(s, i) == |s|
    decreases |s| - i
  {
    if i < |s| {
      DigitsToEnd(s, i + 1);
    }
  }

  /** The text of a mask has the four octets of the mask for its fields. */
  lemma NetmaskValues(bits: nat)
    requires 1 <= bits <= 32
    ensures Values(Fields(GetNetmask(bits))) == Some(Octets(bits))
  {
    hide FieldValue, ToString, Octets, MaskWord, Bytes, Fields;
    WordOctets(bits);
    var b := Bytes(MaskWord(bits));
    BytesFit(MaskWord(bits));
    var t0, t1, t2, t3 := ToString(b[0]), ToString(b[1]), ToString(b[2]), ToString(b[3]);
    FieldOfByte(b[0]);
    FieldOfByte(b[1]);
    FieldOfByte(b[2]);
    FieldOfByte(b[3]);
    assert GetNetmask(bits) == t0 + "." + (t1 + "." + (t2 + "." + t3));
    FieldsOfDotted(t0, t1 + "." + (t2 + "." + t3));
    FieldsOfDotted(t1, t2 + "." + t3);
    FieldsOfDotted(t2, t3);
    FieldsOfDotted(t3, []);
    assert Fields(GetNetmask(bits)) == [t0, t1, t2, t3];
    assert Values([t0, t1, t2, t3]).value == b;
  }

  lemma BytesFit(w: nat)
    ensures |Bytes(w)| == 4 && forall k :: 0 <= k < 4 ==> Bytes(w)[k] < 256
  {
  }

  /** Writing a mask and counting it back: the text of the mask for `bits` is accepted with the count `n` exactly when `n`
      is `bits`, and a text is accepted with the count `bits` exactly when its octets are the ones written for `bits`. */
  lemma NetmaskRoundTrip(bits: nat, n: nat, ip: string)
    requires 1 <= bits <= 32 && n <= 32
    ensures Values(Fields(GetNetmask(bits))) == Some(Octets(n)) <==> n == bits
    ensures Values(Fields(ip)) == Some(Octets(bits)) <==> Values(Fields(ip)) == Values(Fields(GetNetmask(bits)))
  {
    hide Octets, GetNetmask, Fields;
    NetmaskValues(bits);
    if Octets(n) == Octets(bits) {
      OctetsInjective(n, bits);
    }
  }
}
