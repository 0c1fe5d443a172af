/** What one printf conversion writes: the parsed directive, the character
    stream each conversion produces, and how that stream lands in a bounded
    output string.  The imperative Convert module is proved against these
    functions.

    Two conversions are specified here as the evident intent and not as the
    source writes them (both are recorded as findings, with the as-written
    versions beside them): a negative %d/%i argument, and the "0x"/"0X"
    prefix of a zero-padded %#x/%#X. */
module ConvertSpec {
  import opened Analyze

  /** `precision` of a fresh conversion record: -1 stored in a uint32_t. */
  const UNSPECIFIED: uint32 := 0xFFFF_FFFF

  /** Size of the local buffer in which integer conversions stage their text. */
  const BUFFER_LENGTH_MAX: nat := 10

  /** The conversion record (ConvertInfo_t). */
  datatype Directive = Directive(flag: Flags, width: uint32, precision: uint32, length: uint32, specifier: char)

  /** `(int)` applied to a uint32_t: the two's complement reading. */
  function ToInt32(x: uint32): (r: int)
    ensures -0x8000_0000 <= r < 0x8000_0000
  {
    if x < 0x8000_0000 then x else x - UINT32_MODULUS
  }

  /** Storing an integer into a uint32_t. */
  function Wrap32(x: int): uint32 {
    x % UINT32_MODULUS
  }

  /** A uint32_t width decremented `n` times: below 0 it wraps around. */
  function Shrink(width: uint32, n: nat): uint32 {
    if n <= width then width - n else Wrap32(width - n)
  }

  // ---------------------------------------------------------------------
  // The directive after analysis
  // ---------------------------------------------------------------------

  /** The directive at `i` (just past the '%') and the index of its
      specifier: flags, width, precision and length modifier in that order,
      as Convert runs the four analysers on a cleared record. */
  function ParseDirective(fmt: seq<char>, i: nat): (r: (Directive, nat))
    requires Terminated(fmt) && i < |fmt|
    ensures i <= r.1 < |fmt| && r.0.specifier == fmt[r.1]
  {
    var e1 := FlagRunEnd(fmt, i);
    var e2 := DigitRunEnd(fmt, e1);
    var e3 := if fmt[e2] == '.' then DigitRunEnd(fmt, e2 + 1) else e2;
    var precision := if fmt[e2] == '.' then DecimalValue(fmt[e2 + 1..e3]) % UINT32_MODULUS else UNSPECIFIED;
    var (length, e4) := ParseLength(0, fmt, e3);
    (Directive(ApplyFlags(NO_FLAGS, fmt[i..e1]), DecimalValue(fmt[e1..e2]) % UINT32_MODULUS,
               precision, length, fmt[e4]), e4)
  }

  /** A parsed directive never asks for both left justification and zero
      padding, nor for both '+' and ' ' signs. */
  lemma ParsedFlagsExclusive(fmt: seq<char>, i: nat)
    requires Terminated(fmt) && i < |fmt|
    ensures !(ParseDirective(fmt, i).0.flag.left && ParseDirective(fmt, i).0.flag.zero)
    ensures !(ParseDirective(fmt, i).0.flag.sign && ParseDirective(fmt, i).0.flag.space)
  {
    ApplyFlagsExclusive(NO_FLAGS, fmt[i..FlagRunEnd(fmt, i)]);
  }

  /** The specifiers Convert knows; any other character ends the directive
      without being consumed. */
  predicate KnownSpecifier(c: char) {
    c in "diouxXeEfFgGaAcs%"
  }

  /** The specifiers that take an argument from the variadic list. */
  predicate TakesArgument(c: char) {
    c in "diouxXcs"
  }

  predicate IsUnsignedSpecifier(c: char) {
    c == 'o' || c == 'u' || c == 'x' || c == 'X'
  }

  // ---------------------------------------------------------------------
  // Arguments
  // ---------------------------------------------------------------------

  /** A char* argument. */
  datatype CString = Null | Chars(text: seq<char>)

  /** One variadic argument: a 32-bit word (int or unsigned int) or a string. */
  datatype Argument = Word(bits: uint32) | Str(s: CString)

  /** The argument has the kind the specifier reads with va_arg. */
  predicate ArgumentFits(specifier: char, arg: Argument) {
    (specifier in "diouxXc" ==> arg.Word?) && (specifier == 's' ==> arg.Str?)
  }

  /** strlen: the characters before the first NUL. */
  function CStr(s: seq<char>): (r: seq<char>)
    ensures |r| <= |s| && r == s[..|r|]
    ensures '\0' !in r
    ensures |r| < |s| ==> s[|r|] == '\0'
  {
    if s == [] || s[0] == '\0' then [] else [s[0]] + CStr(s[1..])
  }

  // ---------------------------------------------------------------------
  // Bounded output
  // ---------------------------------------------------------------------

  /** PutChar: the character lands only when the index is below `size`. */
  function Put(s: seq<char>, size: nat, idx: nat, c: char): (r: seq<char>)
    requires size <= |s|
    ensures |r| == |s|
  {
    if idx < size then s[idx := c] else s
  }

  /** The string after PutChar-ing `out` at write indices w, w+1, ... */
  function Emit(s: seq<char>, size: nat, w: nat, out: seq<char>): (r: seq<char>)
    requires size <= |s|
    ensures |r| == |s|
    decreases |out|
  {
    if out == [] then s
    else Put(Emit(s, size, w, out[..|out| - 1]), size, w + |out| - 1, out[|out| - 1])
  }

  /** Each character of the output is written at its own index when that
      index is below `size` and is dropped otherwise; nothing else changes. */
  lemma {:induction false} EmitAt(s: seq<char>, size: nat, w: nat, out: seq<char>, k: nat)
    requires size <= |s| && k < |s|
    ensures Emit(s, size, w, out)[k] == if w <= k < w + |out| && k < size then out[k - w] else s[k]
    decreases |out|
  {
    if out != [] {
      EmitAt(s, size, w, out[..|out| - 1], k);
    }
  }

  /** Emitting `a` then `b` is emitting `a + b`. */
  lemma {:induction false} EmitAppend(s: seq<char>, size: nat, w: nat, a: seq<char>, b: seq<char>)
    requires size <= |s|
    ensures Emit(s, size, w, a + b) == Emit(Emit(s, size, w, a), size, w + |a|, b)
    decreases |b|
  {
    if b == [] {
      assert a + b == a;
    } else {
      assert (a + b)[..|a + b| - 1] == a + b[..|b| - 1];
      EmitAppend(s, size, w, a, b[..|b| - 1]);
    }
  }

  /** Two writes in a row are one write of the two texts together. */
  lemma EmitThen(s0: seq<char>, size: nat, w: nat, a: seq<char>, s1: seq<char>, w1: nat, b: seq<char>, s2: seq<char>)
    requires size <= |s0| && w1 == w + |a|
    requires s1 == Emit(s0, size, w, a) && s2 == Emit(s1, size, w1, b)
    ensures s2 == Emit(s0, size, w, a + b)
  {
    EmitAppend(s0, size, w, a, b);
  }

  /** Emitting one more character. */
  lemma EmitSnoc(s: seq<char>, size: nat, w: nat, out: seq<char>, c: char)
    requires size <= |s|
    ensures Emit(s, size, w, out + [c]) == Put(Emit(s, size, w, out), size, w + |out|, c)
  {
    assert (out + [c])[..|out|] == out;
  }

  // ---------------------------------------------------------------------
  // Field padding
  // ---------------------------------------------------------------------

  /** `n` copies of `c`; none when `n` is not positive. */
  function Pad(n: int, c: char): (r: seq<char>)
    ensures |r| == if n > 0 then n else 0
    ensures forall k | 0 <= k < |r| :: r[k] == c
    decreases if n > 0 then n else 0
  {
    if n <= 0 then [] else Pad(n - 1, c) + [c]
  }

  /** One more pad character in front is one more pad character. */
  lemma PadCons(n: nat, c: char)
    ensures [c] + Pad(n, c) == Pad(n + 1, c)
  {
    var a, b := [c] + Pad(n, c), Pad(n + 1, c);
    assert |a| == |b|;
    forall k | 0 <= k < |a|
      ensures a[k] == b[k]
    {
    }
  }

  /** A sequence read back to front. */
  function Reverse(s: seq<char>): (r: seq<char>)
    ensures |r| == |s|
  {
    seq(|s|, k requires 0 <= k < |s| => s[|s| - 1 - k])
  }

  /** Pushing a character at the end of a staging buffer puts it at the
      front of the text read back to front. */
  lemma ReverseSnoc(s: seq<char>, c: char)
    ensures Reverse(s + [c]) == [c] + Reverse(s)
  {
    var a, b := Reverse(s + [c]), [c] + Reverse(s);
    assert |a| == |b|;
    forall k | 0 <= k < |a|
      ensures a[k] == b[k]
    {
      if k > 0 {
        assert b[k] == Reverse(s)[k - 1];
      }
    }
  }

  /** Character `k` of the reversed text is character `|s| - 1 - k` of the
      original. */
  lemma ReverseAt(s: seq<char>, k: nat)
    requires k < |s|
    ensures Reverse(s)[k] == s[|s| - 1 - k]
  {
  }

  function PadChar(f: Flags): char {
    if f.zero then '0' else ' '
  }

  /** The text `body` in a field of minimum width `width`: padded on the left
      unless the LEFT flag is set, with '0' under the ZERO flag and ' '
      otherwise.  The pad count is `(int) width - length`. */
  function Field(body: seq<char>, width: uint32, f: Flags): seq<char> {
    var pad := Pad(ToInt32(width) - |body|, PadChar(f));
    if f.left then body + pad else pad + body
  }

  /** The field is exactly as wide as the larger of `width` and the body,
      the body sits at its right end (left end under LEFT), and every other
      character is the pad character. */
  lemma FieldLayout(body: seq<char>, width: uint32, f: Flags)
    ensures var r := Field(body, width, f);
      && |r| == (if ToInt32(width) > |body| then ToInt32(width) else |body|)
      && (!f.left ==> r[|r| - |body|..] == body && forall k | 0 <= k < |r| - |body| :: r[k] == PadChar(f))
      && (f.left ==> r[..|body|] == body && forall k | |body| <= k < |r| :: r[k] == PadChar(f))
  {
    var r := Field(body, width, f);
    var pad := Pad(ToInt32(width) - |body|, PadChar(f));
    if f.left {
      assert r == body + pad;
      assert r[..|body|] == body;
    } else {
      assert r == pad + body;
      assert r[|r| - |body|..] == body;
    }
  }

  // ---------------------------------------------------------------------
  // Digits
  // ---------------------------------------------------------------------

  /** gNumConvTbl: digit `d` in upper or lower case. */
  function DigitChar(d: nat, upper: bool): char
    requires d < 16
  {
    if upper then "0123456789ABCDEF"[d] else "0123456789abcdef"[d]
  }

  /** The numeric value of a digit character; 16 for anything else. */
  function DigitValue(c: char): nat {
    if '0' <= c <= '9' then c as int - '0' as int
    else if 'a' <= c <= 'f' then c as int - 'a' as int + 10
    else if 'A' <= c <= 'F' then c as int - 'A' as int + 10
    else 16
  }

  lemma DigitCharValue(d: nat, upper: bool)
    requires d < 16
    ensures DigitValue(DigitChar(d, upper)) == d
    ensures upper ==> !('a' <= DigitChar(d, upper) <= 'z')
    ensures !upper ==> !('A' <= DigitChar(d, upper) <= 'Z')
  {
    if d == 0 {} else if d == 1 {} else if d == 2 {} else if d == 3 {}
    else if d == 4 {} else if d == 5 {} else if d == 6 {} else if d == 7 {}
    else if d == 8 {} else if d == 9 {} else if d == 10 {} else if d == 11 {}
    else if d == 12 {} else if d == 13 {} else if d == 14 {} else {}
  }

  /** The digits of `v` in `base`, most significant first, without leading
      zeros ("0" for zero). */
  function Digits(v: nat, base: nat, upper: bool): (r: seq<char>)
    requires 2 <= base <= 16
    ensures |r| >= 1
    decreases v
  {
    if v < base then [DigitChar(v, upper)]
    else Digits(v / base, base, upper) + [DigitChar(v % base, upper)]
  }

  /** The value of a digit string in `base`. */
  function ValueOf(s: seq<char>, base: nat): nat
    decreases |s|
  {
    if s == [] then 0 else base * ValueOf(s[..|s| - 1], base) + DigitValue(s[|s| - 1])
  }

  lemma ValueOfSnoc(s: seq<char>, c: char, base: nat)
    ensures ValueOf(s + [c], base) == base * ValueOf(s, base) + DigitValue(c)
  {
    assert (s + [c])[..|s|] == s;
  }

  lemma DivMod(v: nat, base: nat)
    requires 2 <= base
    ensures v == base * (v / base) + v % base
  {
  }

  lemma QuotientSmaller(v: nat, base: nat)
    requires 2 <= base <= v
    ensures 1 <= v / base < v
  {
  }

  /** Reading the digits back gives the value. */
  lemma {:induction false} DigitsRoundTrip(v: nat, base: nat, upper: bool)
    requires 2 <= base <= 16
    ensures ValueOf(Digits(v, base, upper), base) == v
    decreases v
  {
    if v < base {
      DigitCharValue(v, upper);
      ValueOfSnoc([], DigitChar(v, upper), base);
      assert [] + [DigitChar(v, upper)] == Digits(v, base, upper);
    } else {
      QuotientSmaller(v, base);
      DigitsRoundTrip(v / base, base, upper);
      DigitsStep(v, base, upper);
    }
  }

  lemma DigitsStep(v: nat, base: nat, upper: bool)
    requires 2 <= base <= 16 && v >= base
    requires ValueOf(Digits(v / base, base, upper), base) == v / base
    ensures ValueOf(Digits(v, base, upper), base) == v
  {
    DigitCharValue(v % base, upper);
    ValueOfSnoc(Digits(v / base, base, upper), DigitChar(v % base, upper), base);
    DivMod(v, base);
  }

  /** One step of the source's digit loop: the last digit is `v % base`,
      the rest are the digits of `v / base` (none once that is 0), and the
      quotient is smaller unless `v` is 0. */
  lemma DigitsLast(v: nat, base: nat, upper: bool, q: int, r: int)
    requires 2 <= base <= 16 && q == v / base && r == v % base
    ensures 0 <= q && 0 <= r < base
    ensures q == 0 <==> v < base
    ensures v == 0 || q < v
    ensures Digits(v, base, upper) == (if q == 0 then [] else Digits(q, base, upper)) + [DigitChar(r, upper)]
  {
    if v < base {
      assert q == 0 && r == v;
    } else {
      QuotientSmaller(v, base);
    }
  }

  /** The digit loop's step on the staged text: staging the last digit of
      `v` moves it from the digits still to come to the text read back to
      front. */
  lemma DigitsStage(digits: seq<char>, v: nat, base: nat, upper: bool, staged: seq<char>, q: int, r: int)
    requires 2 <= base <= 16 && q == v / base && r == v % base
    requires digits == Digits(v, base, upper) + Reverse(staged)
    ensures 0 <= q && 0 <= r < base
    ensures q != 0 ==> q < v && digits == Digits(q, base, upper) + Reverse(staged + [DigitChar(r, upper)])
    ensures q == 0 ==> digits == Reverse(staged + [DigitChar(r, upper)])
  {
    DigitsLast(v, base, upper, q, r);
    var c := DigitChar(r, upper);
    var rest := if q == 0 then [] else Digits(q, base, upper);
    ReverseSnoc(staged, c);
    assert rest + [c] + Reverse(staged) == rest + ([c] + Reverse(staged));
  }

  /** Every character of the digits is a digit of the base, in the
      requested case. */
  lemma {:induction false} DigitsAlphabet(v: nat, base: nat, upper: bool, k: nat)
    requires 2 <= base <= 16 && k < |Digits(v, base, upper)|
    ensures DigitValue(Digits(v, base, upper)[k]) < base
    ensures DigitChar(DigitValue(Digits(v, base, upper)[k]), upper) == Digits(v, base, upper)[k]
    decreases v
  {
    var r := Digits(v, base, upper);
    if v < base {
      DigitCharValue(v, upper);
    } else if k == |r| - 1 {
      DigitCharValue(v % base, upper);
    } else {
      QuotientSmaller(v, base);
      DigitsAlphabet(v / base, base, upper, k);
    }
  }

  /** Only zero is written with a leading '0'. */
  lemma {:induction false} DigitsLeadingZero(v: nat, base: nat, upper: bool)
    requires 2 <= base <= 16
    ensures Digits(v, base, upper)[0] == '0' <==> v == 0
    decreases v
  {
    if v < base {
      DigitCharValue(v, upper);
      assert DigitChar(0, upper) == '0';
    } else {
      QuotientSmaller(v, base);
      DigitsLeadingZero(v / base, base, upper);
    }
  }

  /** In base 10 the digits read back through the format analyser's own
      number reader: rendering with %u and reading a width back agree. */
  lemma {:induction false} DecimalDigitsRoundTrip(v: nat)
    ensures forall k | 0 <= k < |Digits(v, 10, true)| :: IsDigit(Digits(v, 10, true)[k])
    ensures DecimalValue(Digits(v, 10, true)) == v
    decreases v
  {
    var r := Digits(v, 10, true);
    DigitCharValue(v % 10, true);
    if v >= 10 {
      DecimalDigitsRoundTrip(v / 10);
      assert r[..|r| - 1] == Digits(v / 10, 10, true);
    }
    assert DigitChar(v % 10, true) == r[|r| - 1];
    DigitIsDecimal(v % 10);
  }

  lemma DigitIsDecimal(d: nat)
    requires d < 10
    ensures IsDigit(DigitChar(d, true))
    ensures DigitChar(d, true) as int - '0' as int == d
  {
    DigitCharValue(d, true);
  }

  /** A run of '0' characters reads as zero. */
  lemma {:induction false} ValueOfZeros(n: int, base: nat)
    ensures ValueOf(Pad(n, '0'), base) == 0
    decreases if n > 0 then n else 0
  {
    if n > 0 {
      assert Pad(n, '0')[..|Pad(n, '0')| - 1] == Pad(n - 1, '0');
      ValueOfZeros(n - 1, base);
    }
  }

  /** Leading zeros do not change the value of a digit string. */
  lemma {:induction false} ValueOfLeadingZeros(n: int, s: seq<char>, base: nat)
    ensures ValueOf(Pad(n, '0') + s, base) == ValueOf(s, base)
    decreases |s|
  {
    if s == [] {
      assert Pad(n, '0') + s == Pad(n, '0');
      ValueOfZeros(n, base);
    } else {
      var t := Pad(n, '0') + s;
      assert t[..|t| - 1] == Pad(n, '0') + s[..|s| - 1];
      ValueOfLeadingZeros(n, s[..|s| - 1], base);
    }
  }

  // ---------------------------------------------------------------------
  // Integer text
  // ---------------------------------------------------------------------

  /** The record as the integer conversions adjust it before staging: an
      unspecified precision becomes 1, and a given precision cancels the
      ZERO flag. */
  function Effective(d: Directive): (e: Directive)
    ensures e.width == d.width && e.length == d.length && e.specifier == d.specifier
    ensures e.precision != UNSPECIFIED
    ensures d.precision != UNSPECIFIED ==> e.precision == d.precision && !e.flag.zero
    ensures d.precision == UNSPECIFIED ==> e.precision == 1 && e.flag == d.flag
    ensures e.flag == d.flag.(zero := d.flag.zero && d.precision == UNSPECIFIED)
  {
    if d.precision == UNSPECIFIED then d.(precision := 1) else d.(flag := d.flag.(zero := false))
  }

  /** The digits of `value` zero-filled to `precision`; nothing at all for
      value 0 with precision 0.  The fill count is computed as the source
      does: a uint32_t difference read back as an int. */
  function NumberBody(value: nat, precision: uint32, base: nat, upper: bool): seq<char>
    requires 2 <= base <= 16
  {
    if precision == 0 && value == 0 then []
    else
      var digits := Digits(value, base, upper);
      Pad(ToInt32(Wrap32(precision - |digits|)), '0') + digits
  }

  /** The body for a value other than "0 at precision 0": the digits
      behind a zero fill. */
  lemma NumberBodyShape(value: nat, precision: uint32, base: nat, upper: bool)
    requires 2 <= base <= 16 && !(precision == 0 && value == 0)
    ensures NumberBody(value, precision, base, upper) ==
              Pad(ToInt32(Wrap32(precision - |Digits(value, base, upper)|)), '0') + Digits(value, base, upper)
  {
  }

  /** The precision rules: the body is empty exactly for value 0 at
      precision 0, and otherwise reads back as the value. */
  lemma NumberBodyValue(value: nat, precision: uint32, base: nat, upper: bool)
    requires 2 <= base <= 16
    ensures NumberBody(value, precision, base, upper) == [] <==> precision == 0 && value == 0
    ensures NumberBody(value, precision, base, upper) != [] ==>
              ValueOf(NumberBody(value, precision, base, upper), base) == value
  {
    if !(precision == 0 && value == 0) {
      var n := ToInt32(Wrap32(precision - |Digits(value, base, upper)|));
      NumberBodyShape(value, precision, base, upper);
      PaddedDigitsValue(n, value, base, upper);
    }
  }

  /** Digits behind any number of '0's still read back as the value. */
  lemma PaddedDigitsValue(n: int, value: nat, base: nat, upper: bool)
    requires 2 <= base <= 16
    ensures Pad(n, '0') + Digits(value, base, upper) != []
    ensures ValueOf(Pad(n, '0') + Digits(value, base, upper), base) == value
  {
    DigitsRoundTrip(value, base, upper);
    ValueOfLeadingZeros(n, Digits(value, base, upper), base);
  }

  /** For a 32-bit value and a precision below 2^31 the body is as long as
      the larger of the precision and the digit count. */
  lemma NumberBodyLength(value: nat, precision: uint32, base: nat, upper: bool)
    requires 2 <= base <= 16 && !(precision == 0 && value == 0)
    requires value < UINT32_MODULUS && precision < 0x8000_0000
    ensures |NumberBody(value, precision, base, upper)| ==
              (if precision > |Digits(value, base, upper)| then precision else |Digits(value, base, upper)|)
  {
    var digits := Digits(value, base, upper);
    NumberBodyShape(value, precision, base, upper);
    DigitsShort(value, base, upper);
    FillCount(precision, |digits|);
  }

  /** `(int)(precision - count)` is the plain difference when both are
      small enough. */
  lemma FillCount(precision: uint32, count: nat)
    requires precision < 0x8000_0000 && count <= 0x8000_0000
    ensures ToInt32(Wrap32(precision - count)) == precision - count
  {
  }

  /** The first character of a body is a digit of the base. */
  lemma NumberBodyFirst(value: nat, precision: uint32, base: nat, upper: bool)
    requires 2 <= base <= 16 && NumberBody(value, precision, base, upper) != []
    ensures DigitValue(NumberBody(value, precision, base, upper)[0]) < base
  {
    var digits := Digits(value, base, upper);
    var pad := Pad(ToInt32(Wrap32(precision - |digits|)), '0');
    if |pad| == 0 {
      DigitsAlphabet(value, base, upper, 0);
      assert NumberBody(value, precision, base, upper)[0] == digits[0];
    } else {
      assert NumberBody(value, precision, base, upper)[0] == '0';
    }
  }

  lemma QuotientHalf(v: nat, base: nat)
    requires base >= 2
    ensures v / base <= v / 2
  {
    var q := v / base;
    assert q * base <= v;
    assert q * 2 <= q * base;
  }

  /** A number has at most about half as many digits as its value. */
  lemma {:induction false} DigitsShort(v: nat, base: nat, upper: bool)
    requires 2 <= base <= 16
    ensures |Digits(v, base, upper)| <= v / 2 + 1
    decreases v
  {
    if v >= base {
      QuotientHalf(v, base);
      QuotientSmaller(v, base);
      DigitsShort(v / base, base, upper);
    }
  }

  /** The '#' prefix of the unsigned conversions. */
  function AltPrefix(specifier: char): string {
    if specifier == 'o' then "0"
    else if specifier == 'x' then "0x"
    else if specifier == 'X' then "0X"
    else ""
  }

  /** The '#' prefix as the zero-padded branch of the source writes it: the
      two characters of "0x"/"0X" come out in the opposite order. */
  function AltPrefixAsWritten(specifier: char): string {
    if specifier == 'o' then "0"
    else if specifier == 'x' then "x0"
    else if specifier == 'X' then "X0"
    else ""
  }

  function UnsignedBase(specifier: char): nat {
    if specifier == 'o' then 8 else if specifier == 'u' then 10 else 16
  }

  /** hh and h truncate the argument to 8 and 16 bits. */
  function UnsignedArgument(length: uint32, bits: uint32): nat {
    if length == LENGTH_CHAR then bits % 0x100
    else if length == LENGTH_SHORT then bits % 0x1_0000
    else bits
  }

  /** The text of %o %u %x %X for `value` under the adjusted record `e`,
      given the prefix the zero-padded branch writes straight to the output.
      Without ZERO the prefix is staged with the digits and the whole is
      padded; with ZERO the prefix goes out first and the width shrinks by
      its length (uint32_t arithmetic). */
  function UnsignedLayout(e: Directive, value: nat, directPrefix: string): seq<char>
    requires IsUnsignedSpecifier(e.specifier)
  {
    var body := NumberBody(value, e.precision, UnsignedBase(e.specifier), e.specifier != 'x');
    // the '#' prefix is staged with the digits, except under ZERO
    var prefix := if !e.flag.alt then "" else if e.flag.zero then directPrefix else AltPrefix(e.specifier);
    if e.flag.zero then prefix + Field(body, Shrink(e.width, |prefix|), e.flag)
    else Field(prefix + body, e.width, e.flag)
  }

  /** %o %u %x %X as intended. */
  function UnsignedText(d: Directive, bits: uint32): seq<char>
    requires IsUnsignedSpecifier(d.specifier)
  {
    UnsignedLayout(Effective(d), UnsignedArgument(d.length, bits), AltPrefix(d.specifier))
  }

  /** %o %u %x %X as the source writes them. */
  function UnsignedTextAsWritten(d: Directive, bits: uint32): seq<char>
    requires IsUnsignedSpecifier(d.specifier)
  {
    UnsignedLayout(Effective(d), UnsignedArgument(d.length, bits), AltPrefixAsWritten(d.specifier))
  }

  /** How many characters the unsigned conversion stages in its buffer. */
  function UnsignedStaged(e: Directive, value: nat): nat
    requires IsUnsignedSpecifier(e.specifier)
  {
    |NumberBody(value, e.precision, UnsignedBase(e.specifier), e.specifier != 'x')|
      + (if !e.flag.zero && e.flag.alt then |AltPrefix(e.specifier)| else 0)
  }

  /** hh and h convert the argument to int8_t / int16_t; otherwise it is an
      int32_t. */
  function SignedArgument(length: uint32, bits: uint32): (v: int)
    ensures -0x8000_0000 <= v < 0x8000_0000
  {
    if length == LENGTH_CHAR then (if bits % 0x100 < 0x80 then bits % 0x100 else bits % 0x100 - 0x100)
    else if length == LENGTH_SHORT then (if bits % 0x1_0000 < 0x8000 then bits % 0x1_0000 else bits % 0x1_0000 - 0x1_0000)
    else ToInt32(bits)
  }

  /** The number whose digits are printed for a signed value. */
  function Magnitude(value: int): nat {
    if value < 0 then -value else value
  }

  /** What the source's digit loop prints for a signed value: `tmp % base`
      with an int32_t `tmp` and a uint32_t `base` is computed on the
      unsigned reinterpretation of `tmp`. */
  function MagnitudeAsWritten(value: int): nat {
    value % UINT32_MODULUS
  }

  /** The sign character: '-' for negative values, else '+' under SIGN,
      else ' ' under SPACE, else nothing. */
  function SignPrefix(value: int, f: Flags): string {
    if value >= 0 then (if f.sign then "+" else if f.space then " " else "") else "-"
  }

  /** The text of %d %i for `value` under the adjusted record `e`, when
      `magnitude` is the number whose digits are printed.  Without ZERO the
      sign is staged with the digits and the whole is padded; with ZERO the
      sign goes out first and the width shrinks by its length. */
  function SignedLayout(e: Directive, value: int, magnitude: nat): seq<char> {
    var body := NumberBody(magnitude, e.precision, 10, true);
    var sign := SignPrefix(value, e.flag);
    if !e.flag.zero then Field(sign + body, e.width, e.flag)
    else sign + Field(body, Shrink(e.width, |sign|), e.flag)
  }

  /** %d %i as intended. */
  function SignedText(d: Directive, bits: uint32): seq<char> {
    var value := SignedArgument(d.length, bits);
    SignedLayout(Effective(d), value, Magnitude(value))
  }

  /** %d %i as the source writes them. */
  function SignedTextAsWritten(d: Directive, bits: uint32): seq<char> {
    var value := SignedArgument(d.length, bits);
    SignedLayout(Effective(d), value, MagnitudeAsWritten(value))
  }

  /** How many characters the signed conversion stages in its buffer. */
  function SignedStaged(e: Directive, value: int): nat {
    |NumberBody(Magnitude(value), e.precision, 10, true)|
      + (if !e.flag.zero then |SignPrefix(value, e.flag)| else 0)
  }

  /** The value of a signed decimal text: an optional sign, then digits. */
  function SignedValueOf(s: seq<char>): int {
    if s != [] && s[0] == '-' then -(ValueOf(s[1..], 10) as int)
    else if s != [] && (s[0] == '+' || s[0] == ' ') then ValueOf(s[1..], 10)
    else ValueOf(s, 10)
  }

  /** With the sign and zero-filled digits of the intended conversion,
      reading the text back gives the argument's value. */
  lemma SignedRoundTrip(d: Directive, bits: uint32)
    ensures var value := SignedArgument(d.length, bits);
            var body := NumberBody(Magnitude(value), Effective(d).precision, 10, true);
            body != [] ==> SignedValueOf(SignPrefix(value, Effective(d).flag) + body) == value
  {
    SignAndBody(SignedArgument(d.length, bits), Effective(d).flag, Effective(d).precision);
  }

  lemma SignAndBody(value: int, f: Flags, precision: uint32)
    ensures var body := NumberBody(Magnitude(value), precision, 10, true);
            body != [] ==> SignedValueOf(SignPrefix(value, f) + body) == value
  {
    var body := NumberBody(Magnitude(value), precision, 10, true);
    if body != [] {
      NumberBodyValue(Magnitude(value), precision, 10, true);
      NumberBodyFirst(Magnitude(value), precision, 10, true);
      SignedValueOfParts(SignPrefix(value, f), body);
    }
  }

  /** A sign character in front of a digit string reads as that sign. */
  lemma SignedValueOfParts(sign: string, body: seq<char>)
    requires body != [] && DigitValue(body[0]) < 10
    requires sign == "" || sign == "-" || sign == "+" || sign == " "
    ensures SignedValueOf(sign + body) == if sign == "-" then -(ValueOf(body, 10) as int) else ValueOf(body, 10)
  {
    if sign == "" {
      assert sign + body == body;
    } else {
      assert (sign + body)[1..] == body;
    }
  }

  /** Right-aligned %o %u %x %X: the text ends with the zero-filled digits,
      which read back as the (truncated) argument, and the '#' prefix sits
      right before them without ZERO, or at the very start with it. */
  lemma UnsignedTextLayout(d: Directive, bits: uint32)
    requires IsUnsignedSpecifier(d.specifier) && !d.flag.left
    ensures var e := Effective(d);
            var v := UnsignedArgument(d.length, bits);
            var body := NumberBody(v, e.precision, UnsignedBase(d.specifier), d.specifier != 'x');
            && PrefixedAt(UnsignedText(d, bits), if d.flag.alt then AltPrefix(d.specifier) else "", body, e.flag.zero)
            && (body == [] <==> e.precision == 0 && v == 0)
            && (body != [] ==> ValueOf(body, UnsignedBase(d.specifier)) == v)
  {
    var e := Effective(d);
    var v := UnsignedArgument(d.length, bits);
    var body := NumberBody(v, e.precision, UnsignedBase(d.specifier), d.specifier != 'x');
    var prefix := if d.flag.alt then AltPrefix(d.specifier) else "";
    NumberBodyValue(v, e.precision, UnsignedBase(d.specifier), d.specifier != 'x');
    PrefixedField(prefix, body, e.width, e.flag);
    assert UnsignedText(d, bits) == UnsignedLayout(e, v, AltPrefix(e.specifier));
  }

  /** Right-aligned %d %i: the text ends with the zero-filled digits of the
      magnitude, and the sign sits right before them without ZERO, or at the
      very start with it. */
  lemma SignedTextLayout(d: Directive, bits: uint32)
    requires !d.flag.left
    ensures var e := Effective(d);
            var v := SignedArgument(d.length, bits);
            PrefixedAt(SignedText(d, bits), SignPrefix(v, e.flag), NumberBody(Magnitude(v), e.precision, 10, true), e.flag.zero)
  {
    var e := Effective(d);
    var v := SignedArgument(d.length, bits);
    PrefixedField(SignPrefix(v, e.flag), NumberBody(Magnitude(v), e.precision, 10, true), e.width, e.flag);
  }

  /** `t` ends with `body`, and `prefix` stands at its very start (`zero`)
      or right before `body`. */
  predicate PrefixedAt(t: seq<char>, prefix: seq<char>, body: seq<char>, zero: bool)
  {
    && |prefix| + |body| <= |t|
    && t[|t| - |body|..] == body
    && (zero ==> t[..|prefix|] == prefix)
    && (!zero ==> t[|t| - |body| - |prefix|..|t| - |body|] == prefix)
  }

  /** A prefix and a body laid out right-aligned in the two ways of the
      integer conversions: staged together and padded as one, or (ZERO)
      the prefix first and the body padded to the remaining width. */
  lemma PrefixedField(prefix: seq<char>, body: seq<char>, width: uint32, f: Flags)
    requires !f.left
    ensures PrefixedAt(if f.zero then prefix + Field(body, Shrink(width, |prefix|), f) else Field(prefix + body, width, f),
                       prefix, body, f.zero)
  {
    if f.zero {
      var field := Field(body, Shrink(width, |prefix|), f);
      FieldLayout(body, Shrink(width, |prefix|), f);
      var t := prefix + field;
      assert t[|t| - |body|..] == field[|field| - |body|..];
      assert t[..|prefix|] == prefix;
    } else {
      var t := Field(prefix + body, width, f);
      FieldLayout(prefix + body, width, f);
      assert t[|t| - |prefix + body|..] == prefix + body;
      assert t[|t| - |body|..] == (prefix + body)[|prefix|..];
      assert t[|t| - |body| - |prefix|..|t| - |body|] == (prefix + body)[..|prefix|];
    }
  }

  // ---------------------------------------------------------------------
  // Where the source departs from the intended text
  // ---------------------------------------------------------------------

  /** For every negative argument the digits the source prints read back as
      the argument plus 2^32, never as the argument itself. */
  lemma SignedNegativeAsWritten(value: int, f: Flags, precision: uint32)
    requires -0x8000_0000 <= value < 0
    ensures var body := NumberBody(MagnitudeAsWritten(value), precision, 10, true);
            && body != []
            && SignedValueOf(SignPrefix(value, f) + body) == -(value + UINT32_MODULUS)
            && (SignedValueOf(SignPrefix(value, f) + body) == value <==> value == -0x8000_0000)
  {
    var m := MagnitudeAsWritten(value);
    assert m == value + UINT32_MODULUS;
    var body := NumberBody(m, precision, 10, true);
    NumberBodyValue(m, precision, 10, true);
    NumberBodyFirst(m, precision, 10, true);
    SignedValueOfParts(SignPrefix(value, f), body);
  }

  /** "%0d" of -5: the ten digits of 4294967291 fill the staging buffer
      exactly and the '-' goes straight out, so the source prints
      "-4294967291"; the intended text is "-5".  Plain "%d" of -5 would
      stage eleven characters, one more than the buffer holds. */
  lemma SignedMinusFive()
    ensures var d := Directive(Flags(false, false, false, false, true), 0, UNSPECIFIED, 0, 'd');
            && |NumberBody(MagnitudeAsWritten(-5), Effective(d).precision, 10, true)| == BUFFER_LENGTH_MAX
            && SignedTextAsWritten(d, 0xFFFF_FFFB) == "-4294967291"
            && SignedText(d, 0xFFFF_FFFB) == "-5"
    ensures |SignPrefix(-5, NO_FLAGS) + NumberBody(MagnitudeAsWritten(-5), 1, 10, true)| > BUFFER_LENGTH_MAX
  {
    var d := Directive(Flags(false, false, false, false, true), 0, UNSPECIFIED, 0, 'd');
    assert SignedArgument(0, 0xFFFF_FFFB) == -5;
    MinusFiveDigits();
    assert NumberBody(4294967291, 1, 10, true) == "4294967291";
    assert NumberBody(5, 1, 10, true) == "5";
  }

  lemma MinusFiveDigits()
    ensures MagnitudeAsWritten(-5) == 4294967291
    ensures Digits(4294967291, 10, true) == "4294967291"
  {
    assert Digits(4, 10, true) == "4";
    DecimalSnoc(4, 2, "4", "42");
    DecimalSnoc(42, 9, "42", "429");
    DecimalSnoc(429, 4, "429", "4294");
    DecimalSnoc(4294, 9, "4294", "42949");
    DecimalSnoc(42949, 6, "42949", "429496");
    DecimalSnoc(429496, 7, "429496", "4294967");
    DecimalSnoc(4294967, 2, "4294967", "42949672");
    DecimalSnoc(42949672, 9, "42949672", "429496729");
    DecimalSnoc(429496729, 1, "429496729", "4294967291");
  }

  /** One more decimal digit on the right of a number's digits. */
  lemma DecimalSnoc(v: nat, d: nat, s: seq<char>, t: seq<char>)
    requires 1 <= v && d < 10 && Digits(v, 10, true) == s && t == s + [DigitChar(d, true)]
    ensures Digits(v * 10 + d, 10, true) == t
  {
    DigitsLast(v * 10 + d, 10, true, v, d);
  }

  /** Under '#' and '0' (and no precision) the source's %x text starts
      with "x0" where "0x" is intended. */
  lemma HexPrefixAsWritten(d: Directive, bits: uint32)
    requires d.specifier == 'x' && d.flag.alt && d.flag.zero && d.precision == UNSPECIFIED
    ensures |UnsignedTextAsWritten(d, bits)| >= 2 && UnsignedTextAsWritten(d, bits)[..2] == "x0"
    ensures |UnsignedText(d, bits)| >= 2 && UnsignedText(d, bits)[..2] == "0x"
  {
    var e := Effective(d);
    var body := NumberBody(UnsignedArgument(d.length, bits), e.precision, 16, false);
    var rest := Field(body, Shrink(e.width, 2), e.flag);
    assert UnsignedTextAsWritten(d, bits) == "x0" + rest;
    assert UnsignedText(d, bits) == "0x" + rest;
  }

  /** "%#06x" of 255: the source prints "x000ff" for "0x00ff". */
  lemma HexFieldOf255()
    ensures var d := Directive(Flags(false, false, false, true, true), 6, UNSPECIFIED, 0, 'x');
            && UnsignedTextAsWritten(d, 255) == "x000ff"
            && UnsignedText(d, 255) == "0x00ff"
  {
    assert Digits(255, 16, false) == "ff";
    assert NumberBody(255, 1, 16, false) == "ff";
    assert Pad(2, '0') == "00";
  }

  // ---------------------------------------------------------------------
  // %c, %s and dispatch
  // ---------------------------------------------------------------------

  /** `(char)` of an int argument: its low 8 bits. */
  function CharOf(bits: uint32): char {
    (bits % 0x100) as char
  }

  /** %c: one character in its field; ZERO is ignored. */
  function CharText(d: Directive, bits: uint32): seq<char> {
    Field([CharOf(bits)], d.width, d.flag.(zero := false))
  }

  /** %s: the string up to its NUL, "(null)" for a NULL pointer, in its
      field; ZERO is ignored and so is the precision. */
  function StringText(d: Directive, p: CString): seq<char> {
    var text := match p
      case Null => "(null)"
      case Chars(s) => CStr(s);
    Field(text, d.width, d.flag.(zero := false))
  }

  /** %c: the character at the right end of its field (the left end under
      LEFT), every other character a space. */
  lemma CharTextLayout(d: Directive, bits: uint32)
    ensures var t := CharText(d, bits);
            && |t| == (if ToInt32(d.width) > 1 then ToInt32(d.width) else 1)
            && t[if d.flag.left then 0 else |t| - 1] == CharOf(bits)
            && forall k | 0 <= k < |t| && k != (if d.flag.left then 0 else |t| - 1) :: t[k] == ' '
  {
    var f := d.flag.(zero := false);
    FieldLayout([CharOf(bits)], d.width, f);
    var t := CharText(d, bits);
    if d.flag.left {
      assert t[..1] == [CharOf(bits)];
    } else {
      assert t[|t| - 1..] == [CharOf(bits)];
    }
  }

  /** %s: the string up to its NUL ("(null)" for a NULL pointer) in its
      field, padded with spaces whatever the flags say. */
  lemma StringTextLayout(d: Directive, p: CString)
    ensures var text := if p.Null? then "(null)" else CStr(p.text);
            var t := StringText(d, p);
            && |t| == (if ToInt32(d.width) > |text| then ToInt32(d.width) else |text|)
            && (!d.flag.left ==> t[|t| - |text|..] == text && forall k | 0 <= k < |t| - |text| :: t[k] == ' ')
            && (d.flag.left ==> t[..|text|] == text && forall k | |text| <= k < |t| :: t[k] == ' ')
  {
    var text := if p.Null? then "(null)" else CStr(p.text);
    FieldLayout(text, d.width, d.flag.(zero := false));
  }

  /** The record after an integer conversion has written `prefix`: under
      ZERO the prefix goes straight to the output and comes off the width
      (an unsigned decrement per character); otherwise it is unchanged. */
  function Shrunk(e: Directive, prefix: string): (r: Directive)
    ensures r.flag == e.flag && r.precision == e.precision && r.length == e.length && r.specifier == e.specifier
    ensures !e.flag.zero || prefix == [] ==> r == e
    ensures e.flag.zero && |prefix| <= e.width ==> r.width == e.width - |prefix|
  {
    if e.flag.zero then e.(width := Shrink(e.width, |prefix|)) else e
  }

  /** The record %d %i leave behind: adjusted, then shrunk by the sign
      written under ZERO. */
  function SignedRecord(d: Directive, bits: uint32): Directive {
    var e := Effective(d);
    Shrunk(e, SignPrefix(SignedArgument(d.length, bits), e.flag))
  }

  /** The record %o %u %x %X leave behind: adjusted, then shrunk by the '#'
      prefix written under ZERO. */
  function UnsignedRecord(d: Directive): Directive {
    var e := Effective(d);
    Shrunk(e, if e.flag.alt then AltPrefix(d.specifier) else "")
  }

  /** The record a directive leaves behind once its conversion has run. */
  function RecordAfter(d: Directive, args: seq<Argument>, i: nat): Directive
    requires ArgumentsReady(d, args, i)
  {
    match d.specifier
    case 'd' => SignedRecord(d, args[i].bits)
    case 'i' => SignedRecord(d, args[i].bits)
    case 'o' => UnsignedRecord(d)
    case 'u' => UnsignedRecord(d)
    case 'x' => UnsignedRecord(d)
    case 'X' => UnsignedRecord(d)
    case 'c' => d.(flag := d.flag.(zero := false))
    case 's' => d.(flag := d.flag.(zero := false))
    case _ => d
  }

  /** Rendered and RecordAfter by class of specifier. */
  lemma RenderedCases(d: Directive, args: seq<Argument>, i: nat)
    requires ArgumentsReady(d, args, i)
    ensures d.specifier == 'd' || d.specifier == 'i' ==>
              Rendered(d, args, i) == SignedText(d, args[i].bits) && RecordAfter(d, args, i) == SignedRecord(d, args[i].bits)
    ensures IsUnsignedSpecifier(d.specifier) ==>
              Rendered(d, args, i) == UnsignedText(d, args[i].bits) && RecordAfter(d, args, i) == UnsignedRecord(d)
    ensures d.specifier == 'c' ==>
              Rendered(d, args, i) == CharText(d, args[i].bits) && RecordAfter(d, args, i) == d.(flag := d.flag.(zero := false))
    ensures d.specifier == 's' ==>
              Rendered(d, args, i) == StringText(d, args[i].s) && RecordAfter(d, args, i) == d.(flag := d.flag.(zero := false))
    ensures d.specifier == '%' ==> Rendered(d, args, i) == "%" && RecordAfter(d, args, i) == d
    ensures !TakesArgument(d.specifier) && d.specifier != '%' ==> Rendered(d, args, i) == [] && RecordAfter(d, args, i) == d
  {
  }

  /** A conversion touches only ZERO among the flags; after %c and %s it is
      clear, and after an integer conversion it survives only where it was
      set and no precision was given;
      the length and specifier are kept, and an integer conversion always
      leaves a precision behind. */
  lemma RecordAfterFlags(d: Directive, args: seq<Argument>, i: nat)
    requires ArgumentsReady(d, args, i)
    ensures var r := RecordAfter(d, args, i);
            && r.specifier == d.specifier && r.length == d.length
            && r.flag.(zero := d.flag.zero) == d.flag
            && (d.specifier in "cs" ==> !r.flag.zero)
            && (d.specifier in "diouxX" ==> (r.flag.zero <==> d.flag.zero && d.precision == UNSPECIFIED))
            && (d.specifier in "diouxX" ==> r.precision != UNSPECIFIED)
            && (d.specifier !in "diouxX" ==> r.precision == d.precision && r.width == d.width)
  {
  }

  /** The arguments hold what the directive reads with va_arg, and an
      integer conversion's staged text fits its buffer. */
  predicate ArgumentsReady(d: Directive, args: seq<Argument>, i: nat) {
    TakesArgument(d.specifier) ==>
      && i < |args|
      && ArgumentFits(d.specifier, args[i])
      && ((d.specifier == 'd' || d.specifier == 'i') ==>
            SignedStaged(Effective(d), SignedArgument(d.length, args[i].bits)) <= BUFFER_LENGTH_MAX)
      && (IsUnsignedSpecifier(d.specifier) ==>
            UnsignedStaged(Effective(d), UnsignedArgument(d.length, args[i].bits)) <= BUFFER_LENGTH_MAX)
  }

  /** The stream Convert writes for a directive whose argument, if it takes
      one, is `args[i]`.  Floating-point specifiers write nothing, and so
      does an unknown specifier. */
  function Rendered(d: Directive, args: seq<Argument>, i: nat): seq<char>
    requires ArgumentsReady(d, args, i)
  {
    match d.specifier
    case 'd' => SignedText(d, args[i].bits)
    case 'i' => SignedText(d, args[i].bits)
    case 'o' => UnsignedText(d, args[i].bits)
    case 'u' => UnsignedText(d, args[i].bits)
    case 'x' => UnsignedText(d, args[i].bits)
    case 'X' => UnsignedText(d, args[i].bits)
    case 'c' => CharText(d, args[i].bits)
    case 's' => StringText(d, args[i].s)
    case '%' => "%"
    case _ => []
  }
}
