/** The `String` class: an owned C-string buffer with a cached length.

    The heap buffer becomes a value: `contents` is what the buffer holds before
    its terminator, and `length` is the cached count that `getLength` returns.
    A null buffer and an allocated empty one cannot be told apart through the
    class's operations, so both are the empty value here. Deep copies are
    implicit: values never alias. */
module Strings {
  import opened CStrings

  datatype String = String(contents: seq<char>, length: nat)

  /** The class invariant: the contents came from `strlen`/`strcpy`, so they
      hold no terminator, and the cached length is their size. */
  predicate Valid(s: String) {
    NulFree(s.contents) && s.length == |s.contents|
  }

  type Str = s: String | Valid(s) witness String([], 0)

  /** The default constructor: no buffer, length 0. */
  function Empty(): (r: Str)
    ensures r.length == 0
  {
    String([], 0)
  }

  /** Construction from a `const char*`: a null pointer gives the empty value,
      otherwise the characters up to the first NUL are copied and counted. */
  function FromLiteral(lit: CLiteral): (r: Str)
    ensures lit.Null? ==> r.length == 0
    ensures lit.Chars? ==> r.length <= |lit.buf| && r.contents == lit.buf[..r.length]
    ensures lit.Chars? ==> r.length == |lit.buf| || lit.buf[r.length] == '\0'
  {
    match lit
    case Null => Empty()
    case Chars(buf) =>
      var c := CStringOf(buf);
      String(c, |c|)
  }

  /** A NUL-terminated literal stores exactly the characters before the NUL. */
  lemma FromTerminatedLiteral(s: seq<char>)
    requires NulFree(s)
    ensures FromLiteral(Chars(s + ['\0'])).contents == s
    ensures FromLiteral(Chars(s + ['\0'])).length == |s|
  {
    CStringOfTerminated(s, []);
    assert s + ['\0'] + [] == s + ['\0'];
  }

  /** The copy constructor: the cached length is taken over and the buffer is
      re-copied with `strcpy`; the copy equals its source. */
  function Copy(other: Str): (r: Str)
    ensures r == other
  {
    CStringOfTerminated(other.contents, []);
    String(CStringOf(other.contents), other.length)
  }

  /** Copy assignment. `aliased` stands for the `this != &other` guard: true
      when the target and the source are the same object, in which case
      nothing happens; otherwise the target's contents are replaced by a copy
      of the source's. */
  function Assign(target: Str, source: Str, aliased: bool): (r: Str)
    requires aliased ==> target == source
    ensures r == source
  {
    if aliased then target else Copy(source)
  }

  /** `getLength`: the cached length, which is the number of stored characters. */
  function GetLength(s: Str): (n: nat)
    ensures n == |s.contents|
  {
    s.length
  }

  /** `clear`: drop the buffer and reset the length. */
  function Clear(s: Str): (r: Str)
    ensures r.length == 0 && r.contents == []
  {
    Empty()
  }

  /** `operator+`: both operands are written into a fresh terminated buffer
      (`strcpy` then `strcat`, a null side counting as ""), and the result is
      constructed from that buffer, recounting its length with `strlen`. */
  function Concat(a: Str, b: Str): (r: Str)
    ensures r.contents == a.contents + b.contents
    ensures r.length == a.length + b.length
  {
    var joined := a.contents + b.contents;
    assert NulFree(joined) by {
      forall i | 0 <= i < |joined| ensures joined[i] != '\0' {
        if i >= |a.contents| {
          assert joined[i] == b.contents[i - |a.contents|];
        }
      }
    }
    FromTerminatedLiteral(joined);
    FromLiteral(Chars(joined + ['\0']))
  }

  /** `operator+=`: `*this = *this + other`. The right-hand side is a
      temporary, never the same object as the target. */
  function Append(a: Str, b: Str): (r: Str)
    ensures r.contents == a.contents + b.contents
    ensures r.length == a.length + b.length
  {
    Assign(a, Concat(a, b), false)
  }

  /** `operator==`: `strcmp` of the two buffers (a null buffer read as "")
      reports zero. */
  function Equals(a: Str, b: Str): (r: bool)
    ensures r <==> a.contents == b.contents
    ensures r <==> a == b
  {
    StrCmp(a.contents, b.contents) == 0
  }

  /** `operator!=`: the negation of `==`. */
  function NotEquals(a: Str, b: Str): (r: bool)
    ensures r <==> a.contents != b.contents
  {
    !Equals(a, b)
  }

  /** `a += b` leaves `a` equal to the old `a + b`. */
  lemma AppendIsConcat(a: Str, b: Str)
    ensures Append(a, b) == Concat(a, b)
  {
  }

  /** A null literal, the default constructor and the literal "" all give
      values equal to one another, each of length 0. */
  lemma NullLiteralIsEmpty()
    ensures FromLiteral(Null) == Empty()
    ensures Equals(FromLiteral(Null), FromLiteral(Chars(['\0'])))
    ensures GetLength(FromLiteral(Null)) == 0
  {
    FromTerminatedLiteral([]);
  }

  /** `==` is an equivalence relation and `!=` is its complement. */
  lemma EqualsIsEquivalence(a: Str, b: Str, c: Str)
    ensures Equals(a, a)
    ensures Equals(a, b) <==> Equals(b, a)
    ensures Equals(a, b) && Equals(b, c) ==> Equals(a, c)
    ensures NotEquals(a, b) <==> !Equals(a, b)
  {
  }

  /** The lengths of two literals add up under `+`. */
  lemma ConcatLiteralLengths(s: seq<char>, t: seq<char>)
    requires NulFree(s) && NulFree(t)
    ensures GetLength(Concat(FromLiteral(Chars(s + ['\0'])), FromLiteral(Chars(t + ['\0'])))) == |s| + |t|
  {
    FromTerminatedLiteral(s);
    FromTerminatedLiteral(t);
  }

  /** `+` is associative and has the empty value as identity on both sides. */
  lemma ConcatMonoid(a: Str, b: Str, c: Str)
    ensures Concat(Concat(a, b), c) == Concat(a, Concat(b, c))
    ensures Concat(Empty(), a) == a && Concat(a, Empty()) == a
  {
    assert (a.contents + b.contents) + c.contents == a.contents + (b.contents + c.contents);
    assert [] + a.contents == a.contents && a.contents + [] == a.contents;
  }

  /** Self-assignment leaves the value as it was, and so does `clear` applied
      twice instead of once. */
  lemma AssignSelfAndClearIdempotent(s: Str)
    ensures Assign(s, s, true) == s
    ensures Clear(Clear(s)) == Clear(s)
    ensures Equals(Clear(s), Empty())
  {
  }
}
