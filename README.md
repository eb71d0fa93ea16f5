# cPowers String layer, modelled in Dafny

This project models the String layer of cPowers (`src/stringVector.c`). In that
library a `String` is a Vector of one-byte elements. Its `length` counts the
text, and a NUL terminator sits in the buffer just past the text. The model covers:

- construction from a C string (`initString`) and from another String (`initStringCp`);
- bounds-checked access (`String_charAt`);
- comparison with `strcmp` semantics (`String_cmp`);
- the hand-rolled integer parser (`String_toi`);
- the `strtok`-based tokenizer (`String_tok`).

Files and modules:

- `vector.dfy` (`Vectors`): the Vector functions the String layer calls (`initByteVector`,
  `Vector_at`, `Vector_clear`, `Vector_add`, `_Vector_resize`). They live outside this file, so
  their contracts are abstract. `Vector<T>` is a class with an `array<T>` buffer, whose size is
  the capacity (`_arrSize`), and a `length`. `Contents()` is the pure view of the first
  `length` elements.
- `cstring.dfy` (`CStrings`): `strlen`, the text a NUL-terminated buffer stands for, and
  `strcmp` as a sign, proved against an independent definition of byte-wise lexicographic order.
- `tokenize.dfy` (`Tokenize`): the token sequence `strtok` produces, its characterising
  lemmas, and `StrTok`, one resumable `strtok` call with its scanning loops.
- `numeric.dfy` (`Numeric`): the closed form of `String_toi` and lemmas that pin its
  boundary rules.
- `string_vector.dfy` (`StringVector`): the String operations themselves. `String` is
  `Vector<char>`, and `IsString` adds the terminator invariant.

`String_toi`'s accepted character ranges are modelled exactly as written: both bounds are strict
and the digit test comes first. The lemmas show what follows. `'0'` is never accepted. `'A'` is
rejected up to base 17, but from base 18 on it passes the digit test and has value 17.
Lower-case letters are rejected only up to base 42; in base 43, `"a"` parses to 42. In base 16
the accepted characters are `'1'`..`'?'` (so `':'` is 10) and `'B'`..`'F'`. So `"FF"` gives 255,
while `"A"` and `"10"` (base 10) give 0. These rules look unintended, but the model keeps them
and does not correct them.

Three further points about the C code, which the model follows:

- `initStringCp` copies only the `length` bytes of content. It asks for the source's `_arrSize`
  as capacity, and does not copy the rest of the buffer.
- `String_toi` accepts the characters strictly between `'0'` and `'0' + base`. That range
  leaves out `'0'` and does not stop at `'9'`.
- Only the copying, non-destructive tokenizer exists in this file, so it is the one modelled.

## Model

| member | source | states |
|---|---|---|
| `Vectors.Vector.Init` | src/stringVector.c:19 | the new vector holds exactly the given elements, with capacity at least the requested size and at least their number, in a fresh buffer |
| `Vectors.InitByteVector` | src/stringVector.c:19 | a fresh byte vector holds exactly the given bytes, has capacity at least the hint and more than the content, and has a NUL just past the content |
| `Vectors.Vector.At` | src/stringVector.c:35 | yields the element at `index` exactly when `index < length`, and signals V_E_RANGE otherwise |
| `Vectors.Vector.Clear` | src/stringVector.c:113 | afterwards the vector is empty and keeps its buffer |
| `Vectors.Vector.Add` | src/stringVector.c:121 | afterwards the contents are the old contents with the element appended, and capacity never shrinks |
| `Vectors.Vector.Resize` | src/stringVector.c:66 | capacity grows by at least `n` and the contents are unchanged |
| `CStrings.Strlen` | src/stringVector.c:18 | the result is the index of the first NUL, or the whole length when there is none |
| `CStrings.CStr` | src/stringVector.c:18 | the text is a NUL-free prefix that ends at the first NUL |
| `CStrings.CStrCut` | src/stringVector.c:116 | a NUL at index n ends the C string no later than n, so copying the terminator with the content changes nothing |
| `CStrings.Compare` | src/stringVector.c:39 | `strcmp` reduced to its sign: always -1, 0 or 1 |
| `CStrings.CompareZero` | src/stringVector.c:39 | `strcmp` is zero exactly when the two texts are equal |
| `CStrings.CompareAntisymmetric` | src/stringVector.c:39 | swapping the arguments flips the sign |
| `CStrings.CompareLess` | src/stringVector.c:39 | `strcmp` is negative exactly when the first text precedes the second in byte-wise lexicographic order (a proper prefix, or a smaller byte at the first difference) |
| `Tokenize.Run` | src/stringVector.c:117 | the leading run is delimiter-free and maximal (it ends at a delimiter or at the end) |
| `Tokenize.TokensSkip` | src/stringVector.c:117-124 | a delimiter contributes no token: the tokens from it are those from the next byte |
| `Tokenize.TokensSkipAll` | src/stringVector.c:117-124 | a stretch of delimiters contributes no token |
| `Tokenize.TokensTake` | src/stringVector.c:117-124 | a maximal delimiter-free run is the first token of the text that starts with it |
| `Tokenize.StrTok` | src/stringVector.c:117-124 | one `strtok` call finds no token exactly when only delimiters remain; otherwise it yields the first token of the rest, and resuming after it yields the remaining tokens |
| `Tokenize.TokensAreTokens` | src/stringVector.c:117-124 | every token is non-empty and contains no delimiter |
| `Tokenize.TokensConcat` | src/stringVector.c:117-124 | concatenating the tokens gives the source with every delimiter removed |
| `Tokenize.TokensSplit` | src/stringVector.c:117-124 | a delimiter splits the token sequence into those of the left part followed by those of the right part |
| `Tokenize.TokensOfToken` | src/stringVector.c:117-124 | a non-empty delimiter-free text is exactly one token |
| `Tokenize.TokensOfDelimiters` | src/stringVector.c:117-124 | a text of delimiters only has no token |
| `Tokenize.TokensExampleInner` | src/stringVector.c:117-124 | `"a,,b,c"` split on `","` gives `["a", "b", "c"]`, so consecutive delimiters give no empty token |
| `Tokenize.TokensExampleTail` | src/stringVector.c:117-124 | `",b,c"` split on `","` gives `["b", "c"]`, so a leading delimiter gives no empty token |
| `Tokenize.TokensExampleOuter` | src/stringVector.c:117-124 | `",a,"` split on `","` gives `["a"]`, so leading and trailing delimiters give no empty token |
| `Numeric.PositionalSumAppend` | src/stringVector.c:97 | appending a character shifts every earlier position's weight by one power of the base |
| `Numeric.PositionalSumIsHorner` | src/stringVector.c:93-105 | summing values times base^position from the right equals left-to-right positional reading |
| `Numeric.ToiIsHorner` | src/stringVector.c:93-105 | when every character is accepted, the parser's result is the text read in positional notation in that base |
| `Numeric.ToiAppend` | src/stringVector.c:93-105 | appending an accepted character multiplies the result by the base and adds the character's value |
| `Numeric.AcceptedFacts` | src/stringVector.c:96-99 | an accepted character has value at least 1, and only a base of at least 2 accepts any character |
| `Numeric.HornerPositive` | src/stringVector.c:96-99 | a non-empty, fully accepted text reads as a positive number |
| `Numeric.ToiZero` | src/stringVector.c:91-106 | the result is 0 exactly for the empty text and for a text with a rejected character |
| `Numeric.ToiRejectsZeroDigit` | src/stringVector.c:96-101 | a text containing `'0'` gives 0 in every base |
| `Numeric.ToiRejectsLetterA` | src/stringVector.c:96-101 | a text containing `'A'` gives 0 in every base up to 17 |
| `Numeric.ToiRejectsLowerCase` | src/stringVector.c:96-101 | a text containing a lower-case letter gives 0 in every base up to 42 |
| `Numeric.ToiRejectsUpperCase` | src/stringVector.c:96-101 | a text containing an upper-case letter gives 0 in every base up to 10 |
| `Numeric.DecimalDigits` | src/stringVector.c:96-99 | base 10 accepts exactly `'1'`..`'9'`, each with its decimal value |
| `Numeric.HexDigits` | src/stringVector.c:96-99 | base 16 accepts exactly `'1'`..`'?'` and `'B'`..`'F'`, with values counted from `'0'` and from `'A'` + 10 respectively |
| `Numeric.AcceptedAboveA` | src/stringVector.c:96-99 | a character above `'A'` is accepted exactly from base c - 54 on; apart from the digit test, its value is c - 55 |
| `Numeric.ToiExamples` | src/stringVector.c:91-106 | pinned values: `"FF"`/16 is 255, `"A"`/16 is 0, `"10"`/10 is 0, `"19"`/10 is 19, `"A"`/18 is 17, `"a"`/43 is 42, `""` is 0, byte 0x80 is 73 in base 74 and 0 in base 73 |
| `StringVector.InitString` | src/stringVector.c:17-20 | a fresh String whose length is the number of bytes before the terminator of `contents` and whose content is those bytes (NUL-free), or empty for NULL, with capacity at least 64 |
| `StringVector.InitStringCp` | src/stringVector.c:22-25 | a fresh String in its own buffer with the same content and length as the source, and capacity at least the source's |
| `StringVector.CharAt` | src/stringVector.c:34-36 | the byte at `index` exactly when `index < length`, and V_E_RANGE otherwise |
| `StringVector.StringCmp` | src/stringVector.c:38-40 | negative, zero or positive as the two texts compare byte-wise; zero exactly when the texts are equal |
| `StringVector.StringCmpAntisymmetric` | src/stringVector.c:38-40 | swapping the Strings flips the sign |
| `StringVector.Toi` | src/stringVector.c:91-106 | the scan from the last byte returns the closed form: the weighted sum when all bytes are accepted, 0 otherwise |
| `StringVector.AddTokens` | src/stringVector.c:117-125 | the strtok loop appends exactly the tokens of the text, in order, after what the container already held |
| `StringVector.Tok` | src/stringVector.c:111-128 | the container is cleared, then holds exactly the tokens of the String's text, in order; the String is unchanged |

## Left out

- `String_fgets` (src/stringVector.c:48-63): stream I/O through `fgets` and `feof`, which this model has no way to express. Its loop guard tests the error slot pointer `se` rather than `*se` (line 56). `!se` is false for every non-NULL slot, and the library's other functions write through `se` (lines 68 and 82), so for a normal caller the continuation loop (lines 56-61) never runs. A line of `_arrSize` bytes or more is then cut after the first `fgets`. The loop runs only when `se` is NULL.
- `String_catnprintf` and `String_nprintf` (src/stringVector.c:65-89): their substance is `vsnprintf` formatting of C varargs, a foreign library call. `Vectors.Vector.Resize` models the capacity growth they ask for.
- `deinitString` (src/stringVector.c:27-29) and `malloc`/`free` in `String_tok`: memory release has no counterpart in Dafny's garbage-collected heap. The unchecked `malloc` result is not modelled either.
- Allocation failure (`S_E_NOMEMS`): Dafny's `new` cannot fail, so no modelled operation signals it. The unchecked error slot `e` in `String_tok` and partially failed tokenizations are not modelled.
- StringVector.Toi: the result is an unbounded integer and `pow` is exact integer exponentiation. C `int` overflow, the double arithmetic of `pow` and the double-to-int conversion are not modelled; the result agrees with C only while every partial sum fits in an `int`.
- StringVector.Toi: characters are compared by their unsigned code. Where C's `char` is signed, bytes 0x80 and above are negative and always rejected. Under the model a character `c` above `'A'` is accepted exactly from base `c - 54` on (`Numeric.AcceptedAboveA`). So byte 0x80 is accepted from base 74, with value 73.
- StringVector.StringCmp: states only the sign of `strcmp`, which is all the C standard promises; the magnitude is implementation-defined.
- StringVector.StringCmp and StringVector.Tok: both require `IsString`, which means a NUL at `arr[length]`. `Vectors.Vector.Clear` and `Vectors.Vector.Add` do not restore that terminator, although any Vector function may be applied to a String (src/stringVector.c:9). A String changed that way falls outside these two contracts. The C `String_cmp` then compares whatever stale bytes `arr` holds.
- StringVector.CharAt: on a range error the C code dereferences the pointer `Vector_at` returns. The model returns the error alone and says nothing of that dereference.
- StringVector.Tok: each token is stored as a value. In the C code `Vector_add` copies the token's struct and `deinitString` then frees its buffer (src/stringVector.c:121-123), so the container ends up holding freed buffers. This is a defect; the model states the intended token sequence, not the aliasing.
- The Vector growth policy and the internals of `initByteVector`, `Vector_at`, `Vector_add`, `Vector_clear` and `_Vector_resize`: they are not part of this model. Their bodies here are one possible implementation; the contracts promise only what the String layer relies on.
- `test/stringTests.cpp` is a gtest harness. `StringVector.InitScenario` restates its length check for `"..."` (test/stringTests.cpp:26-30) as an assertion a caller can prove. It also shows that clearing a copy leaves the source intact. `StringVector.TokScenario` shows a caller tokenizing `"a,,b,c"`. Neither member has a contract of its own, so neither has a row above.
