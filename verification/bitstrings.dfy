/** The `BitString` class: a `String` whose characters are all '0' or '1',
    read as an unsigned binary number, most significant bit first.

    Invalid input never raises an error: it silently yields the empty value,
    which is also the value of a legitimately empty bit string. */
module BitStrings {
  import opened CStrings
  import Strings

  predicate IsBit(c: char) {
    c == '0' || c == '1'
  }

  predicate IsBitSeq(s: seq<char>) {
    forall i :: 0 <= i < |s| ==> IsBit(s[i])
  }

  /** The class invariant on top of the `String` one. */
  type BitStr = s: Strings.Str | IsBitSeq(s.contents) witness Strings.String([], 0)

  lemma BitsAreNulFree(s: seq<char>)
    requires IsBitSeq(s)
    ensures NulFree(s)
  {
    forall i | 0 <= i < |s| ensures s[i] != '\0' {
      assert IsBit(s[i]);
    }
  }

  /** The value whose buffer holds exactly the digits `s`. */
  function OfBits(s: seq<char>): (r: BitStr)
    requires IsBitSeq(s)
    ensures r.contents == s
  {
    BitsAreNulFree(s);
    Strings.String(s, |s|)
  }

  // ---------------------------------------------------------------------
  // Validation and construction

  /** What `isValidBitString` accepts: a non-null pointer whose C string
      consists of binary digits only (the empty string included). */
  predicate ValidBitLiteral(lit: CLiteral) {
    lit.Chars? && IsBitSeq(CStringOf(lit.buf))
  }

  /** `isValidBitString`: reject null, then scan up to the terminator and
      reject the first character that is not '0' or '1'. */
  method IsValidBitString(lit: CLiteral) returns (ok: bool)
    ensures ok <==> ValidBitLiteral(lit)
  {
    if lit.Null? {
      return false;
    }
    var buf := lit.buf;
    var i := 0;
    while i < |buf| && buf[i] != '\0'
      invariant i <= |buf|
      invariant NulFree(buf[..i]) && IsBitSeq(buf[..i])
    {
      if buf[i] != '0' && buf[i] != '1' {
        assert buf[..i + 1] == buf[..i] + [buf[i]];
        CStringOfCovers(buf, i + 1);
        assert CStringOf(buf)[i] == buf[i];
        return false;
      }
      assert buf[..i + 1] == buf[..i] + [buf[i]];
      i := i + 1;
    }
    CStringOfUnique(buf, i);
    return true;
  }

  /** The default constructor. */
  function Empty(): (r: BitStr)
    ensures r.length == 0 && r.contents == []
  {
    Strings.Empty()
  }

  /** `clear`, inherited from `String`: the empty value is a valid bit string. */
  function Clear(b: BitStr): (r: BitStr)
    ensures r.length == 0 && r.contents == []
  {
    Strings.Clear(b)
  }

  /** The constructor from a `const char*`: a valid literal is stored just as
      a `String` would store it; anything else (null included) is cleared to
      the empty value. */
  function FromLiteral(lit: CLiteral): (r: BitStr)
    ensures ValidBitLiteral(lit) ==> r == Strings.FromLiteral(lit)
    ensures !ValidBitLiteral(lit) ==> r.length == 0 && r.contents == []
  {
    if lit.Chars? && IsBitSeq(CStringOf(lit.buf)) then
      Strings.FromLiteral(lit)
    else
      Clear(Empty())
  }

  /** A terminated literal is kept exactly when every character before the
      terminator is a binary digit; otherwise the result is empty. */
  lemma FromTerminatedLiteral(s: seq<char>)
    requires NulFree(s)
    ensures IsBitSeq(s) ==> FromLiteral(Chars(s + ['\0'])).contents == s
    ensures !IsBitSeq(s) ==> FromLiteral(Chars(s + ['\0'])) == Empty()
  {
    Strings.FromTerminatedLiteral(s);
    CStringOfTerminated(s, []);
    assert s + ['\0'] + [] == s + ['\0'];
  }

  /** A terminated literal of binary digits is stored as exactly those digits. */
  lemma BitLiteral(s: seq<char>)
    requires IsBitSeq(s)
    ensures FromLiteral(Chars(s + ['\0'])) == Strings.String(s, |s|)
  {
    BitsAreNulFree(s);
    FromTerminatedLiteral(s);
  }

  /** `isValidBitString` is true of "" and false of null, and a null literal
      gives the empty value. */
  lemma ValidityExamples()
    ensures ValidBitLiteral(Chars(['\0'])) && !ValidBitLiteral(Null)
    ensures FromLiteral(Null) == Empty()
  {
    CStringOfTerminated([], []);
    assert [] + ['\0'] + [] == ['\0'];
  }

  /** "1010" is stored with length 4. */
  lemma ValidLiteralExample()
    ensures FromLiteral(Chars("1010\0")).length == 4
  {
    var s := "1010";
    assert IsBitSeq(s) by {
      assert IsBit(s[0]) && IsBit(s[1]) && IsBit(s[2]) && IsBit(s[3]);
    }
    BitLiteral(s);
    assert s + ['\0'] == "1010\0";
  }

  /** "10a1" degrades to length 0. */
  lemma InvalidLiteralExample()
    ensures FromLiteral(Chars("10a1\0")).length == 0
  {
    var s := "10a1";
    assert !IsBit(s[2]);
    assert NulFree(s) by {
      assert s[0] != '\0' && s[1] != '\0' && s[2] != '\0' && s[3] != '\0';
    }
    FromTerminatedLiteral(s);
    assert s + ['\0'] == "10a1\0";
  }

  // ---------------------------------------------------------------------
  // The numeric reading of a bit string

  function Pow2(n: nat): (p: nat)
    ensures p >= 1
  {
    if n == 0 then 1 else 2 * Pow2(n - 1)
  }

  function BitValue(c: char): nat {
    if c == '1' then 1 else 0
  }

  /** The unsigned number a bit string denotes, most significant bit first. */
  function BitsToNat(s: seq<char>): nat {
    if |s| == 0 then 0 else 2 * BitsToNat(s[..|s| - 1]) + BitValue(s[|s| - 1])
  }

  /** An n-bit string denotes a number below 2^n. */
  lemma {:induction false} BitsToNatBound(s: seq<char>)
    ensures BitsToNat(s) < Pow2(|s|)
    decreases |s|
  {
    if |s| > 0 {
      BitsToNatBound(s[..|s| - 1]);
    }
  }

  /** Two bit strings of the same width that denote the same number are the
      same string. */
  lemma {:induction false} BitsToNatInjective(s: seq<char>, t: seq<char>)
    requires IsBitSeq(s) && IsBitSeq(t) && |s| == |t|
    requires BitsToNat(s) == BitsToNat(t)
    ensures s == t
    decreases |s|
  {
    if |s| > 0 {
      var n := |s| - 1;
      assert IsBit(s[n]) && IsBit(t[n]);
      assert BitValue(s[n]) == BitValue(t[n]);
      assert s[n] == t[n];
      BitsToNatInjective(s[..n], t[..n]);
      assert s == s[..n] + [s[n]] && t == t[..n] + [t[n]];
    }
  }

  // ---------------------------------------------------------------------
  // Negation

  /** One step of the ones'-complement pass: '0' becomes '1', every other
      character becomes '0'. */
  function FlipBit(c: char): char {
    if c == '0' then '1' else '0'
  }

  /** The ones'-complement pass over every position. */
  function Flip(s: seq<char>): (r: seq<char>)
    ensures |r| == |s| && IsBitSeq(r)
    ensures forall i :: 0 <= i < |s| ==> IsBit(s[i]) ==> r[i] != s[i]
  {
    seq(|s|, i requires 0 <= i < |s| => FlipBit(s[i]))
  }

  /** For binary digits the ones' complement is 2^n - 1 minus the value. */
  lemma {:induction false} FlipValue(s: seq<char>)
    requires IsBitSeq(s)
    ensures BitsToNat(Flip(s)) == Pow2(|s|) - 1 - BitsToNat(s)
    decreases |s|
  {
    if |s| > 0 {
      var n := |s| - 1;
      assert Flip(s)[..n] == Flip(s[..n]);
      FlipValue(s[..n]);
      assert IsBit(s[n]);
    }
  }

  /** The carry pass: add one from the rightmost position leftwards; a '1'
      becomes '0' and the carry moves on, anything else becomes '1' and the
      carry stops. A carry out of the leftmost position is dropped. */
  function AddOne(t: seq<char>): (r: seq<char>)
    ensures |r| == |t|
    ensures IsBitSeq(t) ==> IsBitSeq(r)
  {
    if |t| == 0 then []
    else if t[|t| - 1] == '1' then AddOne(t[..|t| - 1]) + ['0']
    else t[..|t| - 1] + ['1']
  }

  /** The carry pass adds one modulo 2^n. */
  lemma {:induction false} AddOneValue(t: seq<char>)
    requires IsBitSeq(t)
    ensures BitsToNat(AddOne(t)) == (BitsToNat(t) + 1) % Pow2(|t|)
    decreases |t|
  {
    if |t| > 0 {
      var n := |t| - 1;
      var p := t[..n];
      var r := AddOne(t);
      var v := BitsToNat(p);
      var m := Pow2(n);
      assert Pow2(|t|) == 2 * m;
      BitsToNatBound(p);
      assert IsBit(t[n]);
      assert r[..n] == r[..|r| - 1];
      if t[n] == '1' {
        assert BitsToNat(t) == 2 * v + 1;
        AddOneValue(p);
        assert r[..n] == AddOne(p);
        assert BitsToNat(r) == 2 * BitsToNat(AddOne(p));
        if v + 1 < m {
          ModSmall(v + 1, m);
          ModSmall(2 * v + 2, 2 * m);
        } else {
          ModSelf(m);
          ModSelf(2 * m);
        }
      } else {
        assert BitsToNat(t) == 2 * v;
        assert r[..n] == p;
        assert BitsToNat(r) == 2 * v + 1;
        ModSmall(2 * v + 1, 2 * m);
      }
    }
  }

  lemma ModSmall(x: int, m: int)
    requires 0 <= x < m
    ensures x % m == x
  {
  }

  lemma ModSelf(m: int)
    requires m > 0
    ensures m % m == 0
  {
  }

  /** Both passes together compute the two's complement 2^n - v modulo 2^n. */
  lemma NegateSeqValue(s: seq<char>)
    requires IsBitSeq(s)
    ensures BitsToNat(AddOne(Flip(s))) == (Pow2(|s|) - BitsToNat(s)) % Pow2(|s|)
  {
    var f := Flip(s);
    var p := Pow2(|s|);
    FlipValue(s);
    assert BitsToNat(f) + 1 == p - BitsToNat(s);
    AddOneValue(f);
    assert |f| == |s|;
  }

  /** `negate`: fixed-width two's complement in place. The width does not
      change, and an empty value is left alone. */
  function Negate(b: BitStr): (r: BitStr)
    ensures r.length == b.length
    ensures BitsToNat(r.contents) == (Pow2(b.length) - BitsToNat(b.contents)) % Pow2(b.length)
  {
    NegateSeqValue(b.contents);
    OfBits(AddOne(Flip(b.contents)))
  }

  /** A step of the carry loop at a '1': it becomes '0' and the carry moves
      one position left. */
  lemma CarryMoves(x: seq<char>, f: seq<char>, i: nat)
    requires i < |x| <= |f| && x[i] == '1'
    requires x[..i + 1] == f[..i + 1] && AddOne(f) == AddOne(x[..i + 1]) + x[i + 1..]
    ensures x[i := '0'][..i] == f[..i]
    ensures AddOne(f) == AddOne(x[i := '0'][..i]) + x[i := '0'][i..]
  {
    var p := x[..i + 1];
    var y := x[i := '0'];
    assert p[|p| - 1] == '1' && p[..|p| - 1] == x[..i];
    assert AddOne(p) == AddOne(x[..i]) + ['0'];
    assert y[..i] == x[..i] == p[..i];
    assert y[i..] == ['0'] + x[i + 1..];
  }

  /** A step of the carry loop at any other character: it becomes '1', the
      carry is absorbed and the buffer holds the sum. */
  lemma CarryStops(x: seq<char>, f: seq<char>, i: nat)
    requires i < |x| <= |f| && x[i] != '1'
    requires x[..i + 1] == f[..i + 1] && AddOne(f) == AddOne(x[..i + 1]) + x[i + 1..]
    ensures x[i := '1'] == AddOne(f)
  {
    var p := x[..i + 1];
    assert p[|p| - 1] == x[i] && p[..|p| - 1] == x[..i];
    assert AddOne(p) == x[..i] + ['1'];
    assert x[i := '1'] == x[..i] + ['1'] + x[i + 1..];
  }

  /** `negate` as the source writes it: a flip loop over the buffer, then a
      carry loop from the rightmost position that stops once the carry is
      absorbed. It computes exactly `Negate`. */
  method NegateInPlace(b: BitStr) returns (r: BitStr)
    ensures r == Negate(b)
  {
    var n := b.length;
    var a := new char[n](i requires 0 <= i < n => b.contents[i]);
    ghost var f := Flip(b.contents);
    var i := 0;
    while i < n
      invariant 0 <= i <= n
      invariant forall j :: 0 <= j < i ==> a[j] == f[j]
      invariant forall j :: i <= j < n ==> a[j] == b.contents[j]
    {
      a[i] := if a[i] == '0' then '1' else '0';
      i := i + 1;
    }
    assert a[..] == f;
    assert a[..n] == a[..] && a[n..] == [];

    var carry := true;
    i := n;
    while i > 0 && carry
      invariant 0 <= i <= n
      invariant carry ==> a[..i] == f[..i] && AddOne(f) == AddOne(a[..i]) + a[i..]
      invariant !carry ==> a[..] == AddOne(f)
    {
      ghost var before := a[..];
      assert before[..i] == a[..i] && before[i..] == a[i..];
      i := i - 1;
      if a[i] == '1' {
        CarryMoves(before, f, i);
        a[i] := '0';
        assert a[..] == before[i := '0'];
      } else {
        CarryStops(before, f, i);
        a[i] := '1';
        carry := false;
        assert a[..] == before[i := '1'];
      }
    }
    if carry {
      assert a[..0] == [] && a[0..] == a[..];
    }
    assert a[..] == AddOne(f);
    r := OfBits(a[..]);
  }

  /** Negating twice gives back the original bit pattern. */
  lemma NegateInvolutive(b: BitStr)
    ensures Negate(Negate(b)) == b
  {
    var c := Negate(b);
    var d := Negate(c);
    var p := Pow2(b.length);
    BitsToNatBound(b.contents);
    TwosComplementInvolutive(BitsToNat(b.contents), p);
    assert BitsToNat(d.contents) == BitsToNat(b.contents);
    BitsToNatInjective(d.contents, b.contents);
  }

  /** Modulo p, subtracting from p twice gives back any residue. */
  lemma TwosComplementInvolutive(v: int, p: int)
    requires 0 <= v < p
    ensures (p - (p - v) % p) % p == v
  {
    if v == 0 {
      ModSelf(p);
    } else {
      ModSmall(p - v, p);
      ModSmall(v, p);
    }
  }

  function Zeros(n: nat): (z: seq<char>)
    ensures |z| == n && IsBitSeq(z) && BitsToNat(z) == 0
  {
    if n == 0 then [] else Zeros(n - 1) + ['0']
  }

  /** An all-zeros value is its own negation: the carry runs off the left
      end and is dropped. The empty value is the case n = 0. */
  lemma NegateZeros(b: BitStr)
    requires b.contents == Zeros(b.length)
    ensures Negate(b) == b
  {
    var p := Pow2(b.length);
    ModSelf(p);
    assert BitsToNat(Negate(b).contents) == (p - 0) % p == 0;
    BitsToNatInjective(Negate(b).contents, b.contents);
  }

  /** "1010" negates to "0110": flipped to "0101", then one is added. */
  lemma NegateExample()
    ensures Negate(FromLiteral(Chars("1010\0"))).contents == "0110"
  {
    var s := "1010";
    assert IsBitSeq(s) by {
      assert IsBit(s[0]) && IsBit(s[1]) && IsBit(s[2]) && IsBit(s[3]);
    }
    BitLiteral(s);
    assert s + ['\0'] == "1010\0";
    var f := Flip(s);
    assert f == "0101";
    assert "010"[..2] == "01";
    assert AddOne("010") == "01" + ['1'] == "011";
    assert "0101"[..3] == "010";
    assert "0101"[3] == '1';
    assert AddOne("0101") == AddOne("010") + ['0'];
    assert "011" + ['0'] == "0110";
  }

  /** "0011" negated twice is "0011" again. */
  lemma NegateTwiceExample()
    ensures Negate(Negate(FromLiteral(Chars("0011\0")))).contents == "0011"
  {
    var s := "0011";
    assert IsBitSeq(s) by {
      assert IsBit(s[0]) && IsBit(s[1]) && IsBit(s[2]) && IsBit(s[3]);
    }
    BitLiteral(s);
    assert s + ['\0'] == "0011\0";
    NegateInvolutive(FromLiteral(Chars("0011\0")));
  }

  // ---------------------------------------------------------------------
  // Copy, assignment, concatenation, equality

  /** The copy constructor, inherited from `String`. */
  function Copy(other: BitStr): (r: BitStr)
    ensures r == other
  {
    Strings.Copy(other)
  }

  /** `operator=`, which delegates to the `String` assignment; `aliased`
      stands for self-assignment. */
  function Assign(target: BitStr, source: BitStr, aliased: bool): (r: BitStr)
    requires aliased ==> target == source
    ensures r == source
  {
    Strings.Assign(target, source, aliased)
  }

  /** `operator+`: the `String` concatenation's buffer is passed to the
      validating constructor, and the result is cleared again if it does not
      pass `isValidBitString`. */
  function Concat(a: BitStr, b: BitStr): (r: BitStr)
    ensures r.contents == a.contents + b.contents
    ensures r.length == a.length + b.length
  {
    var joined := Strings.Concat(a, b);
    ConcatStaysValid(a, b);
    var result := FromLiteral(Chars(joined.contents + ['\0']));
    if !ValidBitLiteral(Chars(result.contents + ['\0'])) then
      Clear(result)
    else
      result
  }

  /** Two valid operands always give a valid concatenation, so both the
      constructor's validation and the re-check after it pass: the `clear`
      on the re-check path never runs. */
  lemma ConcatStaysValid(a: BitStr, b: BitStr)
    ensures ValidBitLiteral(Chars(a.contents + b.contents + ['\0']))
    ensures FromLiteral(Chars(a.contents + b.contents + ['\0'])).contents == a.contents + b.contents
  {
    var s := a.contents + b.contents;
    assert IsBitSeq(s) by {
      forall i | 0 <= i < |s| ensures IsBit(s[i]) {
        if i >= |a.contents| {
          assert s[i] == b.contents[i - |a.contents|];
        }
      }
    }
    BitsAreNulFree(s);
    CStringOfTerminated(s, []);
    assert s + ['\0'] + [] == s + ['\0'];
    FromTerminatedLiteral(s);
  }

  /** `operator+=`: `*this = *this + other`. */
  function Append(a: BitStr, b: BitStr): (r: BitStr)
    ensures r.contents == a.contents + b.contents
    ensures r.length == a.length + b.length
  {
    Assign(a, Concat(a, b), false)
  }

  /** `a += b` leaves `a` equal to the old `a + b`. */
  lemma AppendIsConcat(a: BitStr, b: BitStr)
    ensures Append(a, b) == Concat(a, b)
  {
  }

  /** `operator==`, delegating to the `String` comparison. */
  function Equals(a: BitStr, b: BitStr): (r: bool)
    ensures r <==> a.contents == b.contents
  {
    Strings.Equals(a, b)
  }

  /** `operator!=`, delegating to the `String` comparison. */
  function NotEquals(a: BitStr, b: BitStr): (r: bool)
    ensures r <==> a.contents != b.contents
  {
    Strings.NotEquals(a, b)
  }

  /** "10" + "01" has length 4 and equals "1001". */
  lemma ConcatExample()
    ensures Concat(FromLiteral(Chars("10\0")), FromLiteral(Chars("01\0"))).length == 4
    ensures Equals(Concat(FromLiteral(Chars("10\0")), FromLiteral(Chars("01\0"))), FromLiteral(Chars("1001\0")))
  {
    var x, y, z := "10", "01", "1001";
    assert IsBitSeq(x) by { assert IsBit(x[0]) && IsBit(x[1]); }
    assert IsBitSeq(y) by { assert IsBit(y[0]) && IsBit(y[1]); }
    assert IsBitSeq(z) by { assert IsBit(z[0]) && IsBit(z[1]) && IsBit(z[2]) && IsBit(z[3]); }
    BitLiteral(x);
    BitLiteral(y);
    BitLiteral(z);
    assert x + ['\0'] == "10\0" && y + ['\0'] == "01\0" && z + ['\0'] == "1001\0";
    assert x + y == z;
  }

  /** "1010" differs from "0101", and so does "1010" negated, which is "0110". */
  lemma EqualityExample()
    ensures NotEquals(FromLiteral(Chars("1010\0")), FromLiteral(Chars("0101\0")))
    ensures NotEquals(Negate(FromLiteral(Chars("1010\0"))), FromLiteral(Chars("0101\0")))
  {
    var x, y := "1010", "0101";
    assert IsBitSeq(x) by { assert IsBit(x[0]) && IsBit(x[1]) && IsBit(x[2]) && IsBit(x[3]); }
    assert IsBitSeq(y) by { assert IsBit(y[0]) && IsBit(y[1]) && IsBit(y[2]) && IsBit(y[3]); }
    BitLiteral(x);
    BitLiteral(y);
    assert x + ['\0'] == "1010\0" && y + ['\0'] == "0101\0";
    NegateExample();
    assert "0110"[2] != y[2];
    assert x[0] != y[0];
  }
}
