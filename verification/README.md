# uspadd2: `String` and `BitString` as Dafny values

The repository is one C++ file, `uspadd2.cpp`, with two value classes:

- `String`: an owned, NUL-terminated character buffer with a cached `length`. It supports deep copy, assignment, `clear`, concatenation (`+`, `+=`) and equality (`==`, `!=` through `strcmp`). A null buffer counts as `""`.
- `BitString`: a `String` that may only hold the characters `'0'` and `'1'`. Construction from an invalid or null literal silently yields the empty value. `negate` computes fixed-width two's complement in place. `+` concatenates and then re-validates.

The model has three modules:

- `CStrings` (`cstrings.dfy`): the C primitives the classes rely on. A `const char*` argument is a `CLiteral`: either `Null` or `Chars(buf)`, the memory it points at. `CStringOf` is the run before the first NUL, which is what `strlen` counts and `strcpy` copies. `StrLen` is the `strlen` scan and `StrCmp` is `strcmp`.
- `Strings` (`strings.dfy`): `String` as an immutable value `String(contents, length)`. Its subset type `Str` carries the class invariant: no NUL in `contents` and `length == |contents|`. Mutating members (`operator=`, `clear`, `+=`) return the new value of the object.
- `BitStrings` (`bitstrings.dfy`): the subset type `BitStr` adds "every character is `'0'` or `'1'`". `BitsToNat` reads a bit string as an unsigned number, most significant bit first. `Negate` is the flip pass (`Flip`) followed by the carry pass (`AddOne`). It is proved to compute `(2^n - v) mod 2^n` and to be an involution. `NegateInPlace` runs the same two loops over an array and is proved to agree with `Negate`.

Self-assignment is decided by object identity in C++ (`this != &other`). Values have no identity, so `Assign` takes an `aliased` flag, and its precondition says aliased objects hold equal values.

`negate` is usually described as a bit flip followed by adding one, but the code does not check its input. Its flip pass turns every non-`'0'` character into `'0'`, and its carry pass turns every non-`'1'` character into `'1'`. `FlipBit` and `AddOne` follow the code. Because of the `BitStr` invariant the difference is never visible.

## Model

| member | source | states |
|---|---|---|
| CStrings.CStringOf | uspadd2.cpp:15-17 | the characters `strlen`/`strcpy` see: NUL-free, a prefix of the memory, ending at its first NUL or at its end |
| CStrings.CStringOfUnique | uspadd2.cpp:15-17 | any NUL-free prefix that ends at a NUL or at the end of memory is the C string |
| CStrings.CStringOfCovers | uspadd2.cpp:155-159 | every NUL-free prefix of the memory lies within the C string, so a scan to the terminator visits only C-string characters |
| CStrings.CStringOfTerminated | uspadd2.cpp:25-30 | a NUL-free string with a terminator (and anything after) reads back as itself; `strcpy` of a stored string copies it whole |
| CStrings.StrLen | uspadd2.cpp:15 | the `strlen` scan returns the length of the C string, and every character it passed is non-NUL |
| CStrings.StrCmp | uspadd2.cpp:77-79 | `strcmp` returns zero exactly when the two strings are identical |
| CStrings.StrCmpAntisymmetric | uspadd2.cpp:78 | swapping the arguments of `strcmp` negates its result |
| Strings.Empty | uspadd2.cpp:11 | the default constructor has length 0 |
| Strings.FromLiteral | uspadd2.cpp:13-23 | a null literal gives length 0; otherwise the stored contents are the literal's characters up to its first NUL, and `length` counts them |
| Strings.FromTerminatedLiteral | uspadd2.cpp:13-23 | a terminated literal `s` is stored as exactly `s` with length `|s|` |
| Strings.NullLiteralIsEmpty | uspadd2.cpp:11-23 | a null literal gives the default value, of length 0, equal to `String("")` |
| Strings.Copy | uspadd2.cpp:25-30 | the copy constructor yields a value equal to its source, with the same length |
| Strings.Assign | uspadd2.cpp:32-45 | after assignment the target equals the source, whether or not it is the same object |
| Strings.AssignSelfAndClearIdempotent | uspadd2.cpp:32-55 | self-assignment changes nothing; `clear` twice equals `clear` once; a cleared value equals the empty value |
| Strings.GetLength | uspadd2.cpp:47-49 | the cached length equals the number of stored characters |
| Strings.Clear | uspadd2.cpp:51-55 | `clear` leaves length 0 and no contents |
| Strings.Concat | uspadd2.cpp:61-70 | `a + b` holds `a`'s characters followed by `b`'s, and its recounted length is the sum of the lengths |
| Strings.ConcatLiteralLengths | uspadd2.cpp:61-70 | concatenating two constructed literals gives the sum of their lengths |
| Strings.ConcatMonoid | uspadd2.cpp:61-70 | `+` is associative, and the empty value is its identity on both sides |
| Strings.Append | uspadd2.cpp:72-75 | `a += b` leaves `a` holding the old contents followed by `b`'s, with the summed length |
| Strings.AppendIsConcat | uspadd2.cpp:72-75 | `a += b` leaves `a` equal to the old `a + b` |
| Strings.Equals | uspadd2.cpp:77-79 | `==` holds exactly when the contents are identical, and so exactly when the values are equal |
| Strings.NotEquals | uspadd2.cpp:81-83 | `!=` holds exactly when the contents differ |
| Strings.EqualsIsEquivalence | uspadd2.cpp:77-83 | `==` is reflexive, symmetric and transitive, and `!=` is its negation |
| BitStrings.IsValidBitString | uspadd2.cpp:153-161 | the validation loop accepts exactly a non-null literal whose C string consists only of '0' and '1' |
| BitStrings.Empty | uspadd2.cpp:88 | the default constructor is empty |
| BitStrings.Clear | uspadd2.cpp:51-55 | `clear` on a bit string leaves the empty value, which satisfies the bit invariant |
| BitStrings.FromLiteral | uspadd2.cpp:90-99 | a valid literal is stored just as `String` would store it; an invalid or null one gives the empty value |
| BitStrings.FromTerminatedLiteral | uspadd2.cpp:90-99 | a terminated literal is kept exactly when every character is a binary digit, and otherwise gives the empty value |
| BitStrings.BitLiteral | uspadd2.cpp:90-95 | a terminated literal of binary digits is stored as exactly those digits |
| BitStrings.ValidityExamples | uspadd2.cpp:153-161 | validation accepts `""` and rejects null, and a null literal gives the empty value |
| BitStrings.ValidLiteralExample | uspadd2.cpp:91-95 | `BitString("1010")` has length 4 |
| BitStrings.InvalidLiteralExample | uspadd2.cpp:96-98 | `BitString("10a1")` has length 0 |
| BitStrings.Flip | uspadd2.cpp:112-114 | the ones'-complement pass keeps the width, yields binary digits only, and changes every binary digit |
| BitStrings.FlipValue | uspadd2.cpp:112-114 | on n binary digits the flip pass yields the number 2^n - 1 - v |
| BitStrings.AddOne | uspadd2.cpp:116-125 | the carry pass keeps the width and keeps a bit string a bit string |
| BitStrings.AddOneValue | uspadd2.cpp:116-125 | on n binary digits the carry pass yields (v + 1) mod 2^n; the last carry is dropped |
| BitStrings.NegateSeqValue | uspadd2.cpp:112-125 | the two passes together yield (2^n - v) mod 2^n |
| BitStrings.Negate | uspadd2.cpp:109-126 | `negate` keeps the length and yields the number (2^n - v) mod 2^n |
| BitStrings.CarryMoves | uspadd2.cpp:117-120 | a carry step at '1' writes '0' and moves the carry left, keeping the loop's relation to the full sum |
| BitStrings.CarryStops | uspadd2.cpp:117-124 | a carry step at any other character writes '1', and the buffer then holds the full sum |
| BitStrings.NegateInPlace | uspadd2.cpp:109-126 | the in-place flip loop followed by the early-exit carry loop computes exactly `Negate` |
| BitStrings.NegateInvolutive | uspadd2.cpp:109-126 | negating twice gives back the original bit pattern |
| BitStrings.NegateZeros | uspadd2.cpp:116-125 | an all-zeros value, the empty one included, is its own negation because the carry runs off the left end |
| BitStrings.NegateExample | uspadd2.cpp:112-125 | `"1010"` negates to `"0110"` |
| BitStrings.NegateTwiceExample | uspadd2.cpp:109-126 | `"0011"` negated twice is `"0011"` |
| BitStrings.Copy | uspadd2.cpp:101 | the copy constructor yields a value equal to its source |
| BitStrings.Assign | uspadd2.cpp:103-106 | after assignment the target equals the source, and it is still a bit string |
| BitStrings.Concat | uspadd2.cpp:128-135 | `a + b` of two bit strings holds `a`'s digits followed by `b`'s, with the summed length |
| BitStrings.ConcatStaysValid | uspadd2.cpp:130-133 | the concatenated buffer passes both the constructor's validation and the re-check, so the `clear` on line 132 never runs |
| BitStrings.ConcatExample | uspadd2.cpp:128-135 | `"10" + "01"` has length 4 and equals `"1001"` |
| BitStrings.Append | uspadd2.cpp:137-140 | `a += b` leaves `a` holding the old digits followed by `b`'s |
| BitStrings.AppendIsConcat | uspadd2.cpp:137-140 | `a += b` leaves `a` equal to the old `a + b` |
| BitStrings.Equals | uspadd2.cpp:143-145 | `==` holds exactly when the digit sequences are identical |
| BitStrings.NotEquals | uspadd2.cpp:148-150 | `!=` holds exactly when the digit sequences differ |
| BitStrings.EqualityExample | uspadd2.cpp:143-150 | `"1010" != "0101"`, and `"1010"` negated (`"0110"`) also differs from `"0101"` |

## Left out

- `main` (uspadd2.cpp:164-180) only prints demo output through `iostream`.
- Heap management is not modelled: `new[]`/`delete[]`, destructors, and buffer sizing for `strcpy`/`strcat`. Values replace buffers, so copies never alias. Clearing one value therefore cannot affect a copy of it.
- The difference between a null `data` and an allocated empty buffer is not modelled. No public operation can observe it. In particular, `BitString::operator+` re-checks a null buffer after a failed construction (and `isValidBitString(nullptr)` is false), where the model re-checks `""`. Both paths end in the empty value.
- Inheritance hazards are not modelled: calling `String::operator=` or `String::operator+=` through a `String&` bound to a `BitString` could break the bit invariant. `BitStr` is a subset type, and its members only accept and return bit strings.
- Whether line 130 compiles (it reads protected `data` through a `String` temporary) is not modelled. The model follows the evident intent: concatenate, then validate.
- Allocation failure (`std::bad_alloc`) is not modelled.
- Strings.Concat: does not model `size_t` wrap-around of `length + other.length`, because lengths are unbounded naturals. A wrap would need a string of about 2^64 characters.
- CStrings.StrCmp: returns the difference of the first pair of differing characters, compared by code point. C fixes only the sign, and only the zero case is used.
- `BitString` negation without an explicit `size_t` loop index: the C++ loop `for (i = length; i-- > 0 && carry;)` is written as `while i > 0 && carry { i := i - 1; ... }`. When the carry is absorbed the C++ loop decrements `i` once more, but `i` is not used afterwards.
