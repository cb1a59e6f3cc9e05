/** The C string primitives the two value types are built on: a `const char*`
    argument, `strlen`, the characters `strcpy` copies, and `strcmp`.

    A C string is the run of characters from a pointer up to (not including)
    the first NUL. A pointer argument is modelled as `CLiteral`: either the
    null pointer, or the characters of the memory it points at (`buf`), in
    which the string ends at the first `'\0'`, or at the end of `buf` when it
    holds none. */
module CStrings {

  /** A `const char*` argument: the null pointer, or the memory it addresses. */
  datatype CLiteral = Null | Chars(buf: seq<char>)

  /** No terminator inside: what every stored string content satisfies. */
  predicate NulFree(s: seq<char>) {
    forall i :: 0 <= i < |s| ==> s[i] != '\0'
  }

  /** The characters `strlen` counts and `strcpy` copies: the longest prefix
      of `buf` that stops at the first NUL. */
  function CStringOf(buf: seq<char>): (r: seq<char>)
    ensures NulFree(r)
    ensures |r| <= |buf| && r == buf[..|r|]
    ensures |r| == |buf| || buf[|r|] == '\0'
  {
    if |buf| == 0 || buf[0] == '\0' then []
    else [buf[0]] + CStringOf(buf[1..])
  }

  /** A prefix ending at the first NUL (or at the end) is the C string: the
      three properties of `CStringOf` pin it down. */
  lemma {:induction false} CStringOfUnique(buf: seq<char>, k: nat)
    requires k <= |buf| && NulFree(buf[..k])
    requires k == |buf| || buf[k] == '\0'
    ensures CStringOf(buf) == buf[..k]
  {
    if k > 0 {
      assert buf[..k][0] == buf[0];
      assert buf[1..][..k - 1] == buf[..k][1..];
      CStringOfUnique(buf[1..], k - 1);
      assert buf[..k] == [buf[0]] + buf[1..][..k - 1];
    }
  }

  /** Every NUL-free prefix of the memory lies inside the C string. */
  lemma {:induction false} CStringOfCovers(buf: seq<char>, k: nat)
    requires k <= |buf| && NulFree(buf[..k])
    ensures k <= |CStringOf(buf)| && CStringOf(buf)[..k] == buf[..k]
  {
    if k > 0 {
      assert buf[..k][0] == buf[0];
      assert buf[1..][..k - 1] == buf[..k][1..];
      CStringOfCovers(buf[1..], k - 1);
      assert buf[..k] == [buf[0]] + buf[1..][..k - 1];
    }
  }

  /** A terminated literal `s` followed by any bytes reads back as exactly `s`,
      and a NUL-free buffer is its own C string. */
  lemma CStringOfTerminated(s: seq<char>, rest: seq<char>)
    requires NulFree(s)
    ensures CStringOf(s + ['\0'] + rest) == s
    ensures CStringOf(s) == s
  {
    var buf := s + ['\0'] + rest;
    assert buf[..|s|] == s;
    CStringOfUnique(buf, |s|);
    assert s[..|s|] == s;
    CStringOfUnique(s, |s|);
  }

  /** `strlen`: scan until the terminator or the end of the memory. */
  method StrLen(buf: seq<char>) returns (n: nat)
    ensures n == |CStringOf(buf)|
    ensures n <= |buf| && NulFree(buf[..n])
  {
    n := 0;
    while n < |buf| && buf[n] != '\0'
      invariant n <= |buf|
      invariant NulFree(buf[..n])
    {
      assert buf[..n + 1] == buf[..n] + [buf[n]];
      n := n + 1;
    }
    CStringOfUnique(buf, n);
  }

  /** `strcmp` on two C strings, comparing characters by code point. C only
      fixes the sign of the result; this model returns the difference of the
      first pair of characters that differ, with the terminator counting as 0. */
  function StrCmp(a: seq<char>, b: seq<char>): (r: int)
    requires NulFree(a) && NulFree(b)
    ensures r == 0 <==> a == b
  {
    if |a| == 0 && |b| == 0 then 0
    else if |a| == 0 then 0 - (b[0] as int)
    else if |b| == 0 then a[0] as int
    else if a[0] != b[0] then (a[0] as int) - (b[0] as int)
    else
      assert a == [a[0]] + a[1..] && b == [b[0]] + b[1..];
      StrCmp(a[1..], b[1..])
  }

  /** `strcmp` orders its arguments oppositely when they are swapped. */
  lemma {:induction false} StrCmpAntisymmetric(a: seq<char>, b: seq<char>)
    requires NulFree(a) && NulFree(b)
    ensures StrCmp(b, a) == -StrCmp(a, b)
    decreases |a|
  {
    if |a| > 0 && |b| > 0 && a[0] == b[0] {
      StrCmpAntisymmetric(a[1..], b[1..]);
    }
  }
}
