/** C strings: text that ends at the first NUL of a buffer. */
module CStrings {
  const NUL: char := '\0'

  /** A buffer holding a C string. */
  ghost predicate Terminated(q: seq<char>) {
    q != [] && q[|q| - 1] == NUL
  }

  /** The text of a C string. */
  function CString(s: seq<char>): string {
    if s == [] || s[0] == NUL then [] else [s[0]] + CString(s[1..])
  }

  lemma {:induction false} CStringStops(a: string, rest: seq<char>)
    ensures CString(a + [NUL] + rest) == CString(a)
    ensures NUL !in a ==> CString(a) == a
    ensures NUL !in CString(a)
    decreases |a|
  {
    var all := a + [NUL] + rest;
    if a == [] {
      assert all[0] == NUL;
    } else {
      assert all[1..] == a[1..] + [NUL] + rest;
      CStringStops(a[1..], rest);
    }
  }

  lemma CStringAt(m: seq<char>, p: nat)
    requires p < |m| && Terminated(m)
    ensures CString(m[p..]) == if m[p] == NUL then [] else [m[p]] + CString(m[p + 1..])
  {
    if m[p] != NUL {
      assert m[p..][1..] == m[p + 1..];
    }
  }

  lemma {:induction false} CStringKeeps(a: string, b: seq<char>)
    requires NUL !in a
    ensures CString(a + b) == a + CString(b)
    decreases |a|
  {
    if a == [] {
      assert a + b == b;
    } else {
      assert (a + b)[1..] == a[1..] + b;
      CStringKeeps(a[1..], b);
    }
  }

  lemma {:induction false} CStringIsPart(a: seq<char>, c: char)
    ensures c in CString(a) ==> c in a
    decreases |a|
  {
    if a != [] && a[0] != NUL {
      CStringIsPart(a[1..], c);
    }
  }
}
