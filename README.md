# MochiOS libc core: printf directives, conversions, free() and MLib macros

This project models four pieces of the MochiOS C library in Dafny and proves
properties of them:

- **free()** (`src/lib/libc/stdlib/free.c`). It releases a block of the user
  heap. The block leaves the used list. If it is the top-most block, its bytes
  go back by lowering the process break point. Otherwise `InsertFreeList` puts
  it into the address-sorted free list and merges it with the next and then the
  previous free block where they touch.
  - `FreeList.dfy` holds the value-level specification: blocks as
    `Area(addr, size)` with an abstract header size `h`, lists as sequences,
    and `Release` / `InsertFree`, with their lemmas.
  - `Free.dfy` holds the class `Heap`. Its fields `used`, `free` and
    `breakPoint` are the allocator's globals, and its methods `Free` and
    `InsertFreeList` update them in place.
- **The printf directive parser** (`src/lib/libc/stdio/Analyze.c`). It covers
  the flag run, the field width, the precision and the length modifier of one
  `%` directive. Each analyser reads a NUL-terminated format from a read index
  and returns a value and the new index.
- **The printf conversion engine** (`src/lib/libc/stdio/Convert.c`). It covers
  `%d %i %o %u %x %X %c %s %%`.
  - `ConvertSpec.dfy` defines the text each directive should produce, as pure
    functions on sequences. These cover digits, precision zero-fill, sign and
    `#` prefixes, and field padding. The file also holds the lemmas about that
    text: read-back round trips, layout and the error cases.
  - `Convert.dfy` holds the conversion routines as methods. They work over an
    `array<char>` destination, a ten-character staging `array<char>` and a
    `ConvertInfo` class that they update in place.
  - Every write goes through `PutChar`. It drops a character at an index at or
    past `size`, but the write index still counts it, as in `snprintf`.
    `Emit` states this for a whole text.
- **MLib macros** (`build/include/MLib/MLib.h`): `MLIB_ALIGN`,
  `MLIB_HAVE_FLAG`, `MLIB_MAX` and `MLIB_MIN`, over 32-bit words (`bv32`).

C integer behaviour is written out:
- `uint32_t` is the subtype `uint32` of `int`.
- `Wrap32` wraps modulo 2^32, and `ToInt32` reads a word back as `int32_t`.
- `Shrink` is the unsigned `width--`.
- An unspecified precision is the word `0xFFFFFFFF`, which is what `-1` stores
  in a `uint32_t` field.

## Model

| member | source | states |
|---|---|---|
| MLib.Align | build/include/MLib/MLib.h:24-25 | For a power-of-two alignment, the rounded value is a multiple of the alignment |
| MLib.AlignBounds | build/include/MLib/MLib.h:24-25 | Without overflow, `v <= ALIGN(v, a)` and `ALIGN(v, a) - v < a` |
| MLib.AlignIsLeast | build/include/MLib/MLib.h:24-25 | `ALIGN(v, a)` is below every multiple of `a` that is at least `v`: it is the least such multiple |
| MLib.AlignIdempotent | build/include/MLib/MLib.h:24-25 | Aligning twice is aligning once, and `ALIGN(v, a) == v` exactly when `v` is already aligned |
| MLib.HaveFlag | build/include/MLib/MLib.h:28-29 | Holds iff no bit of `flag` is missing from `value`, i.e. iff `value | flag == value` |
| MLib.HaveFlagBit | build/include/MLib/MLib.h:28-29 | When the flag test holds, every single bit of the flag is set in the value |
| MLib.Max | build/include/MLib/MLib.h:32-33 | The result is one of the two arguments and is at least both |
| MLib.Min | build/include/MLib/MLib.h:35-36 | The result is one of the two arguments and is at most both |
| Analyze.Word | src/lib/libc/stdio/Analyze.h:21-25 | The flag word has bit 0x01/0x02/0x04/0x08/0x10 set exactly when LEFT/SIGN/SPACE/ALT/ZERO is set, and no other bit |
| Analyze.FlagRunEnd | src/lib/libc/stdio/Analyze.c:38-85 | The index ends the maximal run of `- + space # 0` characters: every character before it is a flag character and the one at it is not |
| Analyze.AnalyzeFlag | src/lib/libc/stdio/Analyze.c:33-88 | The loop stops exactly at the end of the flag run, and the flag word is the one obtained by applying the run's characters in order |
| Analyze.ReadOneFlag | src/lib/libc/stdio/Analyze.c:40-84 | One loop step: applying the next flag character extends the consumed run by one |
| Analyze.ApplyFlag | src/lib/libc/stdio/Analyze.c:40-81 | Definition (no contract of its own): one flag character updates the word as the switch does. '-' sets LEFT and clears ZERO; '+' sets PLUS and clears SPACE; ' ' sets SPACE unless PLUS; '#' sets ALT; '0' sets ZERO unless LEFT. Its properties are the ApplyFlags* lemmas |
| Analyze.ApplyFlags | src/lib/libc/stdio/Analyze.c:38-85 | Definition (no contract of its own): the flag word after applying a run of flag characters in order. AnalyzeFlag is proved equal to it, and ApplyFlagBits and the ApplyFlags* lemmas state what it yields |
| Analyze.ApplyFlagBits | src/lib/libc/stdio/Analyze.c:41-76 | One character's effect on each flag. '-' sets LEFT and clears ZERO. '+' sets SIGN and clears SPACE. ' ' sets SPACE only without SIGN. '#' sets ALT. '0' sets ZERO only without LEFT |
| Analyze.ApplyFlagsSetOnly | src/lib/libc/stdio/Analyze.c:41-66 | After a run, LEFT, SIGN and ALT are set iff they were before or their character occurs in the run |
| Analyze.ApplyFlagsZero | src/lib/libc/stdio/Analyze.c:41-76 | After a run, ZERO is set iff no '-' occurs and ZERO was already set or a '0' occurs with LEFT unset at the start |
| Analyze.ApplyFlagsSpace | src/lib/libc/stdio/Analyze.c:47-61 | After a run, SPACE is set iff no '+' occurs and SPACE was already set or a ' ' occurs with SIGN unset at the start |
| Analyze.ApplyFlagsExclusive | src/lib/libc/stdio/Analyze.c:41-76 | LEFT and ZERO are never both set afterwards unless they were before, and likewise SIGN and SPACE |
| Analyze.DigitRunEnd | src/lib/libc/stdio/Analyze.c:179-194 | The index ends the maximal run of decimal digits |
| Analyze.DecimalValue | src/lib/libc/stdio/Analyze.c:179-193 | Definition (no contract of its own): the unbounded decimal value of a digit string. AnalyzeNumber's result is it modulo 2^32 (AccumulateMod), and ConvertSpec.DecimalDigitsRoundTrip reads the printed digits back through it |
| Analyze.AccumulateMod | src/lib/libc/stdio/Analyze.c:181-185 | Accumulating `value * 10 + digit` in a wrapping 32-bit word agrees with the exact value taken modulo 2^32 |
| Analyze.AnalyzeNumber | src/lib/libc/stdio/Analyze.c:171-197 | The index moves past the maximal digit run and the value is that run's decimal value modulo 2^32. With no digit the value is 0 and the index stays |
| Analyze.AnalyzePrecision | src/lib/libc/stdio/Analyze.c:213-232 | At '.', the index moves past the dot and the following digit run, and the precision is the run's value, 0 for a bare '.'. Otherwise precision and index are unchanged |
| Analyze.ParseLength | src/lib/libc/stdio/Analyze.c:107-154 | At most two characters are consumed. None are consumed iff the character is not h, l, t, z or L, and then the length is kept. What is consumed is exactly the code's spelling, and "hh"/"ll" win over "h"/"l" |
| Analyze.AnalyzeLength | src/lib/libc/stdio/Analyze.c:102-157 | The length code and index are those of ParseLength |
| ConvertSpec.ToInt32 | src/lib/libc/stdio/Convert.c:630 | A uint32_t read back as int lies in the int32 range |
| ConvertSpec.ParseDirective | src/lib/libc/stdio/Convert.c:96-113 | The directive record and specifier index after the four analysers, starting from zeroed fields and precision -1. The specifier is the character at the returned index |
| ConvertSpec.ParsedFlagsExclusive | src/lib/libc/stdio/Convert.c:96-100 | A parsed directive never has both LEFT and ZERO, nor both SIGN and SPACE |
| ConvertSpec.CStr | src/lib/libc/stdio/Convert.c:392 | strlen: the text is the prefix of the argument up to its first NUL, and contains no NUL |
| ConvertSpec.Put | src/lib/libc/stdio/Convert.c:738-751 | PutChar on the string: the length is unchanged |
| ConvertSpec.Emit | src/lib/libc/stdio/Convert.c:738-751 | A run of PutChar calls from one write index keeps the length of the string |
| ConvertSpec.EmitAt | src/lib/libc/stdio/Convert.c:738-751 | After emitting, position k holds the emitted character iff k is inside the written range and below `size`; otherwise it holds the old character |
| ConvertSpec.EmitAppend | src/lib/libc/stdio/Convert.c:738-751 | Emitting a + b is emitting a, then b from the advanced write index |
| ConvertSpec.EmitSnoc | src/lib/libc/stdio/Convert.c:738-751 | Proof step (unfolds Emit): emitting one more character is one more PutChar at the write index |
| ConvertSpec.Pad | src/lib/libc/stdio/Convert.c:630-632 | Padding of count n is max(n, 0) copies of the pad character |
| ConvertSpec.Reverse | src/lib/libc/stdio/Convert.c:703-705 | Reading the staging buffer backwards keeps its length |
| ConvertSpec.ReverseAt | src/lib/libc/stdio/Convert.c:703-705 | Proof step (unfolds Reverse): reading backwards puts the last staged character first, so position k holds `s[|s| - 1 - k]` |
| ConvertSpec.FieldLayout | src/lib/libc/stdio/Convert.c:603-654 | The field is max(width, length) long. Without LEFT the text ends the field after pad characters; with LEFT it starts the field, followed by pad characters. The pad character is '0' iff ZERO is set |
| ConvertSpec.Field | src/lib/libc/stdio/Convert.c:603-654 | Definition (no contract of its own): PutBuffer's field, i.e. the text padded to `(int) width - length` characters of '0' under ZERO or ' ' otherwise, on the right under LEFT and on the left otherwise. FieldLayout states its length and every character |
| ConvertSpec.DigitCharValue | src/lib/libc/stdio/Convert.c:62-63 | The conversion table maps digit d to a character that reads back as d, using only the requested letter case |
| ConvertSpec.Digits | src/lib/libc/stdio/Convert.c:281-287 | The do-while writes at least one digit |
| ConvertSpec.DigitsRoundTrip | src/lib/libc/stdio/Convert.c:281-287 | The digits read back in their base as the value |
| ConvertSpec.DigitsStep | src/lib/libc/stdio/Convert.c:281-287 | The read-back of the digits of v follows from that of v / base |
| ConvertSpec.DigitsLast | src/lib/libc/stdio/Convert.c:281-287 | One loop step. The digits of v are those of v / base (none when it is 0) followed by the digit v % base, and the quotient shrinks |
| ConvertSpec.DigitsStage | src/lib/libc/stdio/Convert.c:281-287 | The staging invariant. The digits still to come, followed by the staged characters reversed, are always the whole number, until the quotient is 0 |
| ConvertSpec.DigitsAlphabet | src/lib/libc/stdio/Convert.c:62-287 | Every digit is a table character whose value is below the base |
| ConvertSpec.DigitsLeadingZero | src/lib/libc/stdio/Convert.c:281-287 | The first digit is '0' iff the value is 0: no spurious leading zero |
| ConvertSpec.DecimalDigitsRoundTrip | src/lib/libc/stdio/Convert.c:281-287 | Decimal digits are characters '0'..'9' that the width/precision parser reads back as the value |
| ConvertSpec.DigitIsDecimal | src/lib/libc/stdio/Convert.c:62-63 | Decimal table digits are '0' + d |
| ConvertSpec.ValueOfZeros | src/lib/libc/stdio/Convert.c:290-292 | Zero fill reads as 0 |
| ConvertSpec.ValueOfLeadingZeros | src/lib/libc/stdio/Convert.c:290-292 | Zero fill in front of digits does not change their value |
| ConvertSpec.NumberBody | src/lib/libc/stdio/Convert.c:277-293 | Definition (no contract of its own): the digits zero-filled to the precision with the unsigned fill count, or nothing for value 0 at precision 0. NumberBodyValue, NumberBodyLength and NumberBodyFirst state its value, length and first character |
| ConvertSpec.Effective | src/lib/libc/stdio/Convert.c:263-274 | Only precision and ZERO change. An unspecified precision becomes 1 and keeps the flags. A given precision is kept and clears ZERO |
| ConvertSpec.NumberBodyShape | src/lib/libc/stdio/Convert.c:277-293 | Proof step (unfolds NumberBody): unless value and precision are both 0, the staged number is the zero fill followed by the digits |
| ConvertSpec.NumberBodyValue | src/lib/libc/stdio/Convert.c:277-293 | No characters at all iff precision and value are both 0. Otherwise the zero-filled digits read back as the value |
| ConvertSpec.PaddedDigitsValue | src/lib/libc/stdio/Convert.c:277-293 | Zero-filled digits are never empty and read back as the value |
| ConvertSpec.NumberBodyLength | src/lib/libc/stdio/Convert.c:277-293 | For a precision in int range, the number is max(precision, digit count) characters long |
| ConvertSpec.FillCount | src/lib/libc/stdio/Convert.c:290 | The uint32_t difference `precision - bufferLength` read as int is the true difference when the precision is in int range |
| ConvertSpec.NumberBodyFirst | src/lib/libc/stdio/Convert.c:277-293 | The first staged number character is a digit of the base |
| ConvertSpec.DigitsShort | src/lib/libc/stdio/Convert.c:281-287 | There are at most v/2 + 1 digits |
| ConvertSpec.SignedArgument | src/lib/libc/stdio/Convert.c:241-259 | The argument after the `hh`/`h`/int casts lies in the int32 range |
| ConvertSpec.Magnitude | src/lib/libc/stdio/Convert.c:281-287 | Definition (no contract of its own): the intended magnitude whose digits a signed conversion prints, the absolute value. SignedRoundTrip reads it back |
| ConvertSpec.MagnitudeAsWritten | src/lib/libc/stdio/Convert.c:281-287 | Definition (no contract of its own): what the source's `int32_t % uint32_t` digit loop prints, value mod 2^32. SignedNegativeAsWritten states where it differs from Magnitude |
| ConvertSpec.SignedLayout | src/lib/libc/stdio/Convert.c:296-351 | Definition (no contract of its own): the sign and the body, staged together and padded without ZERO, or the sign written first and the body padded to the width shrunk by it under ZERO. SignedTextLayout states the resulting layout |
| ConvertSpec.SignedText | src/lib/libc/stdio/Convert.c:209-354 | Definition (no contract of its own): `%d`/`%i` as intended, the corrected half of Findings row 1. SignedRoundTrip and SignedTextLayout state its value and layout, and ConvertSignedInteger emits it |
| ConvertSpec.SignedTextAsWritten | src/lib/libc/stdio/Convert.c:209-354 | Definition (no contract of its own): `%d`/`%i` as the source computes it, the as-written half of Findings row 1. SignedNegativeAsWritten and SignedMinusFive show where it goes wrong |
| ConvertSpec.SignedRoundTrip | src/lib/libc/stdio/Convert.c:277-351 | With the intended digits, the sign and the digits of a `%d`/`%i` read back as the argument |
| ConvertSpec.SignAndBody | src/lib/libc/stdio/Convert.c:296-347 | A sign of '-' for negatives, or '+'/' '/nothing otherwise, followed by the magnitude's digits reads back as the value |
| ConvertSpec.SignedValueOfParts | src/lib/libc/stdio/Convert.c:296-347 | Proof step (unfolds the sign case of ValueOf): a sign character before a digit string contributes exactly its sign |
| ConvertSpec.UnsignedTextLayout | src/lib/libc/stdio/Convert.c:495-580 | Right-aligned %o %u %x %X. The text ends with the zero-filled digits, which are empty iff precision and value are 0 and otherwise read back as the truncated argument. The '#' prefix stands right before them, or at the very start under ZERO |
| ConvertSpec.SignedTextLayout | src/lib/libc/stdio/Convert.c:277-351 | Right-aligned %d %i. The text ends with the digits of the magnitude, and the sign stands right before them, or at the very start under ZERO |
| ConvertSpec.PrefixedField | src/lib/libc/stdio/Convert.c:296-580 | A prefix staged with the body and padded as one, or written first with the body padded to the shrunk width, leaves the body at the end and the prefix in front of it or at the start |
| ConvertSpec.AltPrefix | src/lib/libc/stdio/Convert.c:515-540 | Definition (no contract of its own): the '#' prefix staged without ZERO, "0" for `o`, "0x"/"0X" for `x`/`X`, nothing for `u` |
| ConvertSpec.AltPrefixAsWritten | src/lib/libc/stdio/Convert.c:544-571 | Definition (no contract of its own): the '#' prefix written directly under ZERO, "x0"/"X0" for `x`/`X`, the as-written half of Findings row 2. HexPrefixAsWritten states its effect |
| ConvertSpec.UnsignedLayout | src/lib/libc/stdio/Convert.c:494-580 | Definition (no contract of its own): the prefix and the body, staged together and padded without ZERO, or the prefix written first and the body padded to the shrunk width under ZERO. UnsignedTextLayout states the layout |
| ConvertSpec.UnsignedText | src/lib/libc/stdio/Convert.c:415-583 | Definition (no contract of its own): `%o %u %x %X` as intended, the corrected half of Findings row 2. UnsignedTextLayout states its layout and value, and ConvertUnsignedInteger emits it |
| ConvertSpec.UnsignedTextAsWritten | src/lib/libc/stdio/Convert.c:415-583 | Definition (no contract of its own): `%o %u %x %X` as the source computes it, the as-written half of Findings row 2. HexFieldOf255 exhibits the difference |
| ConvertSpec.SignedNegativeAsWritten | src/lib/libc/stdio/Convert.c:277-287 | As written, a negative argument's digits read back as value + 2^32, which equals the value only for INT_MIN |
| ConvertSpec.SignedMinusFive | src/lib/libc/stdio/Convert.c:277-351 | As written, `%0d` of -5 stages the ten digits of 4294967291, which fill the buffer exactly, and prints "-4294967291"; the intended text is "-5". Plain `%d` of -5 would stage eleven characters, one more than the buffer holds |
| ConvertSpec.MinusFiveDigits | src/lib/libc/stdio/Convert.c:281-287 | The unsigned reinterpretation of -5 is 4294967291, whose decimal digits are "4294967291" |
| ConvertSpec.DecimalSnoc | src/lib/libc/stdio/Convert.c:281-287 | Appending one decimal digit to a number appends its character to the digits |
| ConvertSpec.HexPrefixAsWritten | src/lib/libc/stdio/Convert.c:544-571 | As written, `%#0x` without precision starts with "x0", while the intended text starts with "0x" |
| ConvertSpec.HexFieldOf255 | src/lib/libc/stdio/Convert.c:544-580 | `%#06x` of 255 is "x000ff" as written and "0x00ff" as intended |
| ConvertSpec.CharText | src/lib/libc/stdio/Convert.c:174-192 | Definition (no contract of its own): `%c`, one character in a space-padded field with ZERO ignored. CharTextLayout states its layout |
| ConvertSpec.StringText | src/lib/libc/stdio/Convert.c:369-398 | Definition (no contract of its own): `%s`, the string up to its NUL or "(null)", in a space-padded field. StringTextLayout states its layout |
| ConvertSpec.CharTextLayout | src/lib/libc/stdio/Convert.c:174-192 | `%c` is max(width, 1) long. The character is first under LEFT and last otherwise, and every other character is a space, since ZERO is ignored |
| ConvertSpec.StringTextLayout | src/lib/libc/stdio/Convert.c:369-398 | `%s` writes the argument up to its NUL, or "(null)" for a null pointer, space-padded to the width on the side LEFT chooses |
| ConvertSpec.Shrunk | src/lib/libc/stdio/Convert.c:321-348 | With ZERO set, the width drops by the length of the prefix written ahead of the padding; every other field, and the whole record without ZERO or without a prefix, is kept |
| ConvertSpec.RecordAfterFlags | src/lib/libc/stdio/Convert.c:209-583 | After a conversion the specifier, length and every flag but ZERO are unchanged; `%c`/`%s` clear ZERO; integer conversions keep ZERO iff no precision was given and always leave a precision set; other specifiers keep precision and width |
| ConvertSpec.RecordAfter | src/lib/libc/stdio/Convert.c:115-154 | Definition (no contract of its own): the record each specifier leaves behind after its conversion. RecordAfterFlags states what it changes, and Dispatch is proved to leave it |
| ConvertSpec.Rendered | src/lib/libc/stdio/Convert.c:115-154 | Definition (no contract of its own): the text the dispatch switch writes for a directive, one of SignedText, UnsignedText, CharText, StringText or "%", and nothing for float and unknown specifiers. Dispatch and Convert are proved to emit it |
| Convert.ConvertInfo.constructor | src/lib/libc/stdio/Convert.c:97-98 | A zeroed record with precision -1 |
| Convert.PutChar | src/lib/libc/stdio/Convert.c:738-751 | The string changes only at `idx`, and only when `idx < size` |
| Convert.Push | src/lib/libc/stdio/Convert.c:282-285 | Staging one character appends it to the staged text |
| Convert.PutPadding | src/lib/libc/stdio/Convert.c:630-650 | Emits max(count, 0) pad characters and advances the write index by that many |
| Convert.PutText | src/lib/libc/stdio/Convert.c:635-645 | Emits the buffer in order and advances the write index by its length |
| Convert.PutTextReverse | src/lib/libc/stdio/Convert.c:703-713 | Emits the staged buffer backwards and advances the write index by its length |
| Convert.PutBuffer | src/lib/libc/stdio/Convert.c:603-654 | Emits the padded field of the buffer and advances the write index by the field's length |
| Convert.PutBufferReverse | src/lib/libc/stdio/Convert.c:671-722 | Emits the padded field of the reversed staged buffer and advances the write index by its length |
| Convert.StageDigits | src/lib/libc/stdio/Convert.c:281-287 | After the do-while, the staged characters read backwards are the value's digits |
| Convert.StageZeros | src/lib/libc/stdio/Convert.c:290-292 | The precision loop adds the zero fill in front of the number as it will be read |
| Convert.StageNumber | src/lib/libc/stdio/Convert.c:277-293 | The staged text read backwards is the zero-filled number, or nothing for value 0 with precision 0 |
| Convert.PutDirect | src/lib/libc/stdio/Convert.c:329-570 | A prefix character goes straight to the destination, and the width drops by one, wrapping as an unsigned word |
| Convert.StageSign | src/lib/libc/stdio/Convert.c:296-319 | Stages the sign so that it reads in front of the number |
| Convert.PutSign | src/lib/libc/stdio/Convert.c:321-348 | Under ZERO the sign goes straight to the destination, and the width shrinks by its length |
| Convert.PutSignedNumber | src/lib/libc/stdio/Convert.c:263-351 | Writes the signed layout of the value for the record as it was on entry, and leaves the record with its width shrunk by the sign when ZERO is set |
| Convert.ConvertSignedInteger | src/lib/libc/stdio/Convert.c:209-354 | For 'd'/'i', consumes one argument, emits the intended signed text and leaves the record as SignedRecord: precision 1 if unset, ZERO cleared by a precision, width shrunk by the sign under ZERO. For any other specifier nothing changes |
| Convert.StagePrefix | src/lib/libc/stdio/Convert.c:515-542 | Stages the '#' prefix "0", "0x" or "0X" so that it reads in front of the digits |
| Convert.PutPrefix | src/lib/libc/stdio/Convert.c:544-577 | Under ZERO the '#' prefix goes straight to the destination, and the width shrinks by its length |
| Convert.PutUnsignedNumber | src/lib/libc/stdio/Convert.c:481-580 | Writes the unsigned layout of the value for the record as it was on entry, and leaves the record with its width shrunk by the ALT prefix when ZERO is set |
| Convert.ConvertUnsignedInteger | src/lib/libc/stdio/Convert.c:415-583 | For o/u/x/X, consumes one argument, emits the intended unsigned text and leaves the record as UnsignedRecord: precision 1 if unset, ZERO cleared by a precision, width shrunk by the ALT prefix under ZERO. For any other specifier nothing changes |
| Convert.ConvertCharacter | src/lib/libc/stdio/Convert.c:174-192 | Clears ZERO, consumes one argument and emits its `%c` field |
| Convert.ConvertString | src/lib/libc/stdio/Convert.c:369-398 | Clears ZERO, consumes one argument and emits its `%s` field, with "(null)" for NULL |
| Convert.AnalyzeDirective | src/lib/libc/stdio/Convert.c:95-113 | The fresh record and read index are the parsed directive |
| Convert.Dispatch | src/lib/libc/stdio/Convert.c:115-154 | Consumes an argument iff the specifier takes one, and emits the directive's rendered text: a single '%' for `%%`, nothing for float and unknown specifiers. The record is left as RecordAfter says |
| Convert.Convert | src/lib/libc/stdio/Convert.c:87-159 | Parses the directive and emits its text. The read index ends one past a known specifier and stays on an unknown one |
| FreeList.Join | src/lib/libc/stdlib/free.c:142-166 | Merging touching areas keeps the first address and the second end, and covers exactly the bytes of both |
| FreeList.OrderedByNeighbours | src/lib/libc/stdlib/free.c:101-104 | The free list is sorted with gaps iff each area ends strictly before the next one starts |
| FreeList.CoveredAppend | src/lib/libc/stdlib/free.c:142-178 | Byte counts add up over concatenation |
| FreeList.CoversAppend | src/lib/libc/stdlib/free.c:142-178 | A byte is covered by a concatenation iff it is covered by one of the parts |
| FreeList.SearchFrom | src/lib/libc/stdlib/free.c:117-135 | The walk from k stops at the first index whose neighbours bracket the area, or at the end |
| FreeList.InsertPosition | src/lib/libc/stdlib/free.c:117-135 | The search stops at the first i with previous < area < next, or at the end of the list |
| FreeList.InsertFree | src/lib/libc/stdlib/free.c:138-178 | The list shrinks, keeps its length or grows by at most one |
| FreeList.InsertPositionSplits | src/lib/libc/stdlib/free.c:117-135 | On a sorted list that the area fits into, every area before the position ends before it, and every one after starts after it |
| FreeList.InsertFreeOrdered | src/lib/libc/stdlib/free.c:101-178 | If the list was sorted with no two areas adjacent, it stays so after inserting with merges |
| FreeList.InsertFreeCovered | src/lib/libc/stdlib/free.c:142-178 | The free list covers exactly h + size more bytes |
| FreeList.InsertFreeBytes | src/lib/libc/stdlib/free.c:142-178 | A byte is free afterwards iff it was free before or lies in the released area |
| FreeList.InsertFreeAlone | src/lib/libc/stdlib/free.c:117-178 | With no touching neighbour, the area is linked in between the areas below it and those above it |
| FreeList.DisjointBytes | src/lib/libc/stdlib/free.c:142-143 | Two areas are disjoint iff they share no byte |
| FreeList.FitsBytes | src/lib/libc/stdlib/free.c:81 | An area fits beside a list iff none of its bytes is covered by the list |
| FreeList.BelowBytes | src/lib/libc/stdlib/free.c:68 | A list lies below the break point iff every byte it covers does |
| FreeList.InsertFreeKeepsApart | src/lib/libc/stdlib/free.c:81 | Insertion keeps the free list apart from other used areas and below the break point |
| FreeList.IndexOf | src/lib/libc/stdlib/free.c:59-65 | The first index of the used list whose header is at that address, or the length when there is none |
| FreeList.Release | src/lib/libc/stdlib/free.c:47-88 | Definition (no contract of its own): the state after free(ptr). Nothing changes for NULL. Otherwise the area leaves the used list, and the break point drops by its header and size when the area ends at the break point; else the area is inserted into the free list. ReleaseValid, ReleaseAccounts, ReleaseOnlyArea and ReleaseLowerThenTop state its properties, and Heap.Free is proved to compute it |
| FreeList.ReleaseValid | src/lib/libc/stdlib/free.c:47-88 | free() keeps the heap valid: sorted free list, disjoint used areas that do not meet free bytes, everything below the break point |
| FreeList.RemovePairwise | src/lib/libc/stdlib/free.c:65 | Removing an area from the used list keeps the rest pairwise disjoint |
| FreeList.ReleaseAccounts | src/lib/libc/stdlib/free.c:65-82 | The break point never rises, and the used bytes plus free bytes plus what the break point dropped equal the bytes before the call |
| FreeList.ReleaseOnlyArea | src/lib/libc/stdlib/free.c:68-75 | Freeing the only, top-most block empties the heap back to its base |
| FreeList.ReleaseLowerThenTop | src/lib/libc/stdlib/free.c:68-82 | Freeing a lower block puts it on the free list. Freeing the top block then only lowers the break point and leaves the lower block on the free list, even though it now ends at the break point |
| Free.Heap.constructor | src/lib/libc/stdlib/free.c:47-88 | An empty valid heap with its break point at the base |
| Free.Heap.Free | src/lib/libc/stdlib/free.c:47-88 | The new state is Release of the old one, so null changes nothing, the break point drops by h + size for the top block, and otherwise the block goes through InsertFree. The heap stays valid |
| Free.Heap.InsertFreeList | src/lib/libc/stdlib/free.c:108-182 | The search loop and the merges leave the free list equal to InsertFree of the old one, and change nothing else |

## Left out

- Concurrency: the spinlock around the body of `free` is not modelled, and
  each call is one atomic step.
- `LibMkProcSetBreakPoint` is a call into the kernel. It becomes a direct
  subtraction on `breakPoint`, and its result is ignored as in the code.
- The intrusive list primitives (`MLibListRemove`, `MLibListGetNextNode`,
  `MLibListInsertNext`, `MLibListInsertHead`) are not part of this model. The
  used and free lists are sequences in list order.
- `malloc` is not part of this model, so only the release side of the heap is
  covered. `malloc.h` is not part of this model either: the header size is
  an abstract positive `h`, and addresses are unbounded naturals with no
  32-bit pointer wrap-around. `h` stands for two C quantities at once. One is
  `offsetof(mallocArea_t, area)`, the step from payload to header
  (free.c:59). The other is `sizeof(mallocArea_t)`, by which the break point
  drops (free.c:73) and a merged area grows (free.c:147, free.c:164). The
  model assumes the two are equal, i.e. the structure has no padding after
  its flexible `area` member.
- Free.Heap.Free requires that `ptr` is null or the payload of a block on the
  used list. The C code trusts the caller for this and would corrupt the lists
  otherwise.
- `va_list`/`va_arg` are replaced by a sequence of arguments with an index.
  Integers are passed as their 32-bit word and strings as `CString` (null or
  a character sequence).
- Floating-point specifiers (`e E f F g G a A`) consume nothing and write
  nothing, as in the code. Floating point is not modelled.
- FreeList.Stops treats the missing previous area (NULL) as below every area, as `NULL < pArea` is for any non-null header. An area whose header sits at address 0, where the source compares `NULL < NULL` and walks on, is not modelled distinctly.
- The staging buffer over-read is not modelled. When more than ten characters
  are staged, PutChar drops the extra ones while `bufferLength` keeps counting,
  and `PutBufferReverse` then reads past the buffer. Examples are a precision
  above ten, an 11-digit octal value and a negative plain `%d` as written
  (eleven characters staged). With ZERO the same value stages exactly ten
  digits and the '-' is written directly, which is the case the model keeps.
  - Convert.Convert, Convert.Dispatch, Convert.ConvertSignedInteger,
    Convert.ConvertUnsignedInteger, Convert.PutSignedNumber and
    Convert.PutUnsignedNumber require that the staged text fits
    (`ArgumentsReady`, `SignedStaged`, `UnsignedStaged`).
  - Convert.StageNumber, Convert.StageDigits and Convert.StageZeros require
    the same.
- The format is a NUL-terminated sequence. Reading past the terminator cannot
  be expressed.
- Convert.AnalyzeDirective: a precision written as 4294967295 is
  indistinguishable from an unspecified one, as in the code.
- `%s` ignores the precision: the code never truncates, so neither does
  StringText.
- `#` with `o` always adds "0", and `#` with `x`/`X` always adds the prefix,
  even for the value 0. This follows the code rather than section 7.21.6.1
  of ISO/IEC 9899:2011.
- The `L` case of `AnalyzeLength` runs on into `default`, which does nothing,
  so it is modelled as a plain case.
- Convert.PutChar: the pointer arguments and `size_t` are modelled as an
  array and a natural, so the `int` write index cannot overflow.
- `MLIB_NUMOF` and `MLIB_SET_IFNOT_NULL` in `MLib.h`, and the prototypes in
  `MLibSplit.h`, `Convert.h` and `Analyze.h`, have no behaviour to model
  beyond the constants and the `ConvertInfo_t` record used here.

## Findings

| source | as written | input that shows it | evidently intended | confidence | as-written member | corrected member |
|---|---|---|---|---|---|---|
| src/lib/libc/stdio/Convert.c:281-287 | `tmp % base` and `tmp /= base` mix the `int32_t` value with the `uint32_t` base, so a negative value is divided as its unsigned reinterpretation value + 2^32 | `%0d` of -5 stages the ten digits of 4294967291 and gives "-4294967291"; plain `%d` of -5 stages eleven characters and over-reads the buffer; only INT_MIN reads back correctly | the digits of the magnitude, "-5" | not executed | ConvertSpec.SignedTextAsWritten (ConvertSpec.SignedNegativeAsWritten, ConvertSpec.SignedMinusFive) | ConvertSpec.SignedText (ConvertSpec.SignedRoundTrip, Convert.ConvertSignedInteger) |
| src/lib/libc/stdio/Convert.c:558-571 | under ZERO the `#` prefix for `x`/`X` is written straight to the output as 'x' then '0' (the order that suits the reversed staging buffer) | `%#06x` of 255 gives "x000ff" | "0x00ff", with "0x"/"0X" in front | not executed | ConvertSpec.UnsignedTextAsWritten (ConvertSpec.HexPrefixAsWritten, ConvertSpec.HexFieldOf255) | ConvertSpec.UnsignedText (ConvertSpec.UnsignedTextLayout, Convert.ConvertUnsignedInteger) |
