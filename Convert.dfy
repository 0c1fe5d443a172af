/** The printf conversion engine: one directive of a format string is
    analysed into a conversion record, and its argument is written through
    PutChar into a bounded output string.  Each method is proved to write
    exactly the stream that the ConvertSpec functions describe. */
module Convert {
  import opened Analyze
  import opened ConvertSpec

  /** The conversion record (ConvertInfo_t).  The analysers fill it in; the
      conversions then adjust it: the default precision, ZERO cleared, and
      the width reduced by a prefix written ahead of the field. */
  class ConvertInfo {
    var flag: Flags
    var width: uint32
    var precision: uint32
    var length: uint32
    var specifier: char

    /** A zeroed record whose precision is unspecified. */
    constructor ()
      ensures Value() == Directive(NO_FLAGS, 0, UNSPECIFIED, 0, '\0')
    {
      flag := NO_FLAGS;
      width := 0;
      precision := UNSPECIFIED;
      length := 0;
      specifier := '\0';
    }

    function Value(): Directive
      reads this
    {
      Directive(flag, width, precision, length, specifier)
    }
  }

  /** Stores `c` at `idx` when the index is below `size`; otherwise nothing. */
  method PutChar(str: array<char>, size: nat, idx: nat, c: char)
    requires size <= str.Length
    modifies str
    ensures str[..] == Put(old(str[..]), size, idx, c)
  {
    if idx < size {
      str[idx] := c;
    }
  }

  /** Stages one more character in a conversion's local buffer. */
  method Push(buffer: array<char>, bufferLength: nat, c: char) returns (bufferLength': nat)
    requires bufferLength < buffer.Length == BUFFER_LENGTH_MAX
    modifies buffer
    ensures bufferLength' == bufferLength + 1
    ensures buffer[..bufferLength'] == old(buffer[..bufferLength]) + [c]
  {
    ghost var before := buffer[..bufferLength];
    PutChar(buffer, BUFFER_LENGTH_MAX, bufferLength, c);
    bufferLength' := bufferLength + 1;
    assert buffer[..bufferLength'] == before + [c];
  }

  /** The field-padding loop: `count` copies of `pad`, none when `count`
      is not positive. */
  method PutPadding(str: array<char>, size: nat, writeIdx: nat, count: int, pad: char) returns (writeIdx': nat)
    requires size <= str.Length
    modifies str
    ensures str[..] == Emit(old(str[..]), size, writeIdx, Pad(count, pad))
    ensures writeIdx' == writeIdx + |Pad(count, pad)|
  {
    ghost var s0 := str[..];
    writeIdx' := writeIdx;
    var idx := 0;
    while idx < count
      invariant 0 <= idx && (idx == 0 || idx <= count)
      invariant str[..] == Emit(s0, size, writeIdx, Pad(idx, pad))
      invariant writeIdx' == writeIdx + idx
    {
      EmitSnoc(s0, size, writeIdx, Pad(idx, pad), pad);
      PutChar(str, size, writeIdx', pad);
      writeIdx' := writeIdx' + 1;
      idx := idx + 1;
    }
    assert Pad(idx, pad) == Pad(count, pad);
  }

  /** The text loop of PutBuffer: the characters in order. */
  method PutText(str: array<char>, size: nat, writeIdx: nat, buffer: seq<char>) returns (writeIdx': nat)
    requires size <= str.Length
    modifies str
    ensures str[..] == Emit(old(str[..]), size, writeIdx, buffer)
    ensures writeIdx' == writeIdx + |buffer|
  {
    ghost var s0 := str[..];
    writeIdx' := writeIdx;
    var idx := 0;
    while idx < |buffer|
      invariant 0 <= idx <= |buffer|
      invariant str[..] == Emit(s0, size, writeIdx, buffer[..idx])
      invariant writeIdx' == writeIdx + idx
    {
      EmitSnoc(s0, size, writeIdx, buffer[..idx], buffer[idx]);
      assert buffer[..idx + 1] == buffer[..idx] + [buffer[idx]];
      PutChar(str, size, writeIdx', buffer[idx]);
      writeIdx' := writeIdx' + 1;
      idx := idx + 1;
    }
    assert buffer[..idx] == buffer;
  }

  /** The text loop of PutBufferReverse: the staged characters from the
      last one down to the first. */
  method PutTextReverse(str: array<char>, size: nat, writeIdx: nat, staged: seq<char>) returns (writeIdx': nat)
    requires size <= str.Length
    modifies str
    ensures str[..] == Emit(old(str[..]), size, writeIdx, Reverse(staged))
    ensures writeIdx' == writeIdx + |staged|
  {
    ghost var s0 := str[..];
    ghost var text := Reverse(staged);
    writeIdx' := writeIdx;
    var idx: int := |staged| - 1;
    while idx >= 0
      invariant -1 <= idx < |staged|
      invariant writeIdx' == writeIdx + (|staged| - 1 - idx)
      invariant str[..] == Emit(s0, size, writeIdx, text[..|staged| - 1 - idx])
    {
      ghost var n := |staged| - 1 - idx;
      ReverseAt(staged, n);
      EmitSnoc(s0, size, writeIdx, text[..n], staged[idx]);
      assert text[..n + 1] == text[..n] + [staged[idx]];
      PutChar(str, size, writeIdx', staged[idx]);
      writeIdx' := writeIdx' + 1;
      idx := idx - 1;
    }
    assert text[..|staged|] == text;
  }

  /** Writes `buffer` in its field: pad characters, then the text, or the
      other way round under LEFT. */
  method PutBuffer(str: array<char>, size: nat, writeIdx: nat, buffer: seq<char>, info: ConvertInfo)
    returns (writeIdx': nat)
    requires size <= str.Length
    modifies str
    ensures str[..] == Emit(old(str[..]), size, writeIdx, Field(buffer, info.width, info.flag))
    ensures writeIdx' == writeIdx + |Field(buffer, info.width, info.flag)|
  {
    var flag, count := info.flag, ToInt32(info.width) - |buffer|;
    var pad := ' ';
    if flag.zero {
      pad := '0';
    }
    ghost var s0 := str[..];
    ghost var fill := Pad(count, pad);
    ghost var field := Field(buffer, info.width, flag);
    assert pad == PadChar(flag) && fill == Pad(ToInt32(info.width) - |buffer|, PadChar(flag));
    if !flag.left {
      assert field == fill + buffer;
      writeIdx' := PutPadding(str, size, writeIdx, count, pad);
      ghost var s1, w1 := str[..], writeIdx';
      writeIdx' := PutText(str, size, writeIdx', buffer);
      EmitThen(s0, size, writeIdx, fill, s1, w1, buffer, str[..]);
    } else {
      assert field == buffer + fill;
      writeIdx' := PutText(str, size, writeIdx, buffer);
      ghost var s1, w1 := str[..], writeIdx';
      writeIdx' := PutPadding(str, size, writeIdx', count, pad);
      EmitThen(s0, size, writeIdx, buffer, s1, w1, fill, str[..]);
    }
  }

  /** Writes the staged characters back to front, in their field.  The
      conversion's local buffer is only read here, so it is passed as the
      sequence of its first `bufferLength` characters. */
  method PutBufferReverse(str: array<char>, size: nat, writeIdx: nat, staged: seq<char>, info: ConvertInfo)
    returns (writeIdx': nat)
    requires size <= str.Length
    modifies str
    ensures str[..] == Emit(old(str[..]), size, writeIdx, Field(Reverse(staged), info.width, info.flag))
    ensures writeIdx' == writeIdx + |Field(Reverse(staged), info.width, info.flag)|
  {
    var flag, count := info.flag, ToInt32(info.width) - |staged|;
    var pad := ' ';
    if flag.zero {
      pad := '0';
    }
    ghost var s0 := str[..];
    ghost var text := Reverse(staged);
    ghost var fill := Pad(count, pad);
    ghost var field := Field(text, info.width, flag);
    assert pad == PadChar(flag) && fill == Pad(ToInt32(info.width) - |text|, PadChar(flag));
    if !flag.left {
      assert field == fill + text;
      writeIdx' := PutPadding(str, size, writeIdx, count, pad);
      ghost var s1, w1 := str[..], writeIdx';
      writeIdx' := PutTextReverse(str, size, writeIdx', staged);
      EmitThen(s0, size, writeIdx, fill, s1, w1, text, str[..]);
    } else {
      assert field == text + fill;
      writeIdx' := PutTextReverse(str, size, writeIdx, staged);
      ghost var s1, w1 := str[..], writeIdx';
      writeIdx' := PutPadding(str, size, writeIdx', count, pad);
      EmitThen(s0, size, writeIdx, text, s1, w1, fill, str[..]);
    }
  }


  /** The digit loop shared by the integer conversions: the digits of
      `value` are staged least significant first, so that the buffer read
      back to front is the digit string. */
  method StageDigits(buffer: array<char>, value: nat, base: nat, upper: bool) returns (bufferLength: nat)
    requires buffer.Length == BUFFER_LENGTH_MAX && 2 <= base <= 16
    requires |Digits(value, base, upper)| <= BUFFER_LENGTH_MAX
    modifies buffer
    ensures bufferLength == |Digits(value, base, upper)|
    ensures Reverse(buffer[..bufferLength]) == Digits(value, base, upper)
  {
    ghost var digits := Digits(value, base, upper);
    ghost var staged: seq<char> := [];
    bufferLength := 0;
    var tmp: nat := value;
    var more := true;
    while more
      invariant bufferLength == |staged| <= |digits|
      invariant buffer[..bufferLength] == staged
      invariant more ==> digits == Digits(tmp, base, upper) + Reverse(staged)
      invariant !more ==> digits == Reverse(staged)
      decreases tmp, more
    {
      var q: int, r: int := tmp / base, tmp % base;
      DigitsStage(digits, tmp, base, upper, staged, q, r);
      var c := DigitChar(r, upper);
      bufferLength := Push(buffer, bufferLength, c);
      staged := staged + [c];
      tmp := q;
      more := tmp != 0;
    }
  }

  /** The precision fill that follows the digit loop: `count` more '0's
      are staged, which puts them in front of the staged text read back to
      front. */
  method StageZeros(buffer: array<char>, bufferLength: nat, count: int) returns (bufferLength': nat)
    requires buffer.Length == BUFFER_LENGTH_MAX
    requires bufferLength + |Pad(count, '0')| <= BUFFER_LENGTH_MAX
    modifies buffer
    ensures bufferLength' == bufferLength + |Pad(count, '0')|
    ensures Reverse(buffer[..bufferLength']) == Pad(count, '0') + Reverse(old(buffer[..bufferLength]))
  {
    ghost var text := Reverse(buffer[..bufferLength]);
    ghost var staged := buffer[..bufferLength];
    bufferLength' := bufferLength;
    var idx := count;
    while idx > 0
      invariant (count > 0 ==> 0 <= idx <= count) && (count <= 0 ==> idx == count)
      invariant bufferLength' == bufferLength + |Pad(count - idx, '0')| == |staged|
      invariant buffer[..bufferLength'] == staged
      invariant Reverse(staged) == Pad(count - idx, '0') + text
    {
      bufferLength' := Push(buffer, bufferLength', '0');
      ReverseSnoc(staged, '0');
      PadCons(count - idx, '0');
      assert ['0'] + (Pad(count - idx, '0') + text) == (['0'] + Pad(count - idx, '0')) + text;
      staged := staged + ['0'];
      idx := idx - 1;
    }
    assert count - idx == count || Pad(count - idx, '0') == Pad(count, '0');
  }

  /** The digit loop and the precision fill together stage the number's
      body: nothing for 0 at precision 0, otherwise the digits behind
      `(int)(precision - digit count)` zeros. */
  method StageNumber(buffer: array<char>, value: nat, precision: uint32, base: nat, upper: bool)
    returns (bufferLength: nat)
    requires buffer.Length == BUFFER_LENGTH_MAX && 2 <= base <= 16
    requires |NumberBody(value, precision, base, upper)| <= BUFFER_LENGTH_MAX
    modifies buffer
    ensures bufferLength <= BUFFER_LENGTH_MAX
    ensures Reverse(buffer[..bufferLength]) == NumberBody(value, precision, base, upper)
  {
    ghost var body := NumberBody(value, precision, base, upper);
    bufferLength := 0;
    if precision == 0 && value == 0 {
      assert body == [];
      return;
    }
    NumberBodyShape(value, precision, base, upper);
    var count := StageDigits(buffer, value, base, upper);
    var fill := ToInt32(Wrap32(precision - count));
    ghost var digits := Reverse(buffer[..count]);
    assert body == Pad(fill, '0') + digits;
    assert count + |Pad(fill, '0')| == |body|;
    bufferLength := StageZeros(buffer, count, fill);
  }

  /** Writes one character straight to the output ahead of the field, and
      takes it off the field's width (a uint32_t decrement). */
  method PutDirect(str: array<char>, size: nat, writeIdx: nat, c: char, info: ConvertInfo) returns (writeIdx': nat)
    requires size <= str.Length
    modifies str, info
    ensures str[..] == Emit(old(str[..]), size, writeIdx, [c])
    ensures writeIdx' == writeIdx + 1
    ensures info.Value() == old(info.Value()).(width := Shrink(old(info.width), 1))
  {
    ghost var s0 := str[..];
    PutChar(str, size, writeIdx, c);
    writeIdx' := writeIdx + 1;
    info.width := Shrink(info.width, 1);
    EmitSnoc(s0, size, writeIdx, [], c);
    assert [] + [c] == [c];
  }

  /** Without ZERO the sign is staged behind the digits, so that it comes
      out first. */
  method StageSign(buffer: array<char>, bufferLength: nat, value: int, flag: Flags) returns (bufferLength': nat)
    requires buffer.Length == BUFFER_LENGTH_MAX
    requires bufferLength + |SignPrefix(value, flag)| <= BUFFER_LENGTH_MAX
    modifies buffer
    ensures bufferLength' == bufferLength + |SignPrefix(value, flag)|
    ensures Reverse(buffer[..bufferLength']) == SignPrefix(value, flag) + Reverse(old(buffer[..bufferLength]))
  {
    ghost var staged := buffer[..bufferLength];
    bufferLength' := bufferLength;
    if value >= 0 {
      if flag.sign {
        bufferLength' := Push(buffer, bufferLength, '+');
        ReverseSnoc(staged, '+');
      } else if flag.space {
        bufferLength' := Push(buffer, bufferLength, ' ');
        ReverseSnoc(staged, ' ');
      } else {
        assert "" + Reverse(staged) == Reverse(staged);
      }
    } else {
      bufferLength' := Push(buffer, bufferLength, '-');
      ReverseSnoc(staged, '-');
    }
  }

  /** With ZERO the sign goes straight to the output, and the field that
      follows is narrower by its length. */
  method PutSign(str: array<char>, size: nat, writeIdx: nat, value: int, info: ConvertInfo) returns (writeIdx': nat)
    requires size <= str.Length
    modifies str, info
    ensures str[..] == Emit(old(str[..]), size, writeIdx, SignPrefix(value, old(info.flag)))
    ensures writeIdx' == writeIdx + |SignPrefix(value, old(info.flag))|
    ensures info.Value() == old(info.Value()).(width := Shrink(old(info.width), |SignPrefix(value, old(info.flag))|))
  {
    writeIdx' := writeIdx;
    if value >= 0 {
      if info.flag.sign {
        writeIdx' := PutDirect(str, size, writeIdx, '+', info);
      } else if info.flag.space {
        writeIdx' := PutDirect(str, size, writeIdx, ' ', info);
      } else {
        assert info.width == Shrink(info.width, 0);
      }
    } else {
      writeIdx' := PutDirect(str, size, writeIdx, '-', info);
    }
  }

  /** The staging and output half of %d %i, once the record has been
      adjusted: the magnitude's digits are staged, then the sign is staged
      behind them, or written straight out under ZERO, and the buffer goes
      out back to front in its field. */
  method PutSignedNumber(str: array<char>, size: nat, writeIdx: nat, value: int, info: ConvertInfo)
    returns (writeIdx': nat)
    requires size <= str.Length && SignedStaged(info.Value(), value) <= BUFFER_LENGTH_MAX
    modifies str, info
    ensures str[..] == Emit(old(str[..]), size, writeIdx, SignedLayout(old(info.Value()), value, Magnitude(value)))
    ensures writeIdx' == writeIdx + |SignedLayout(old(info.Value()), value, Magnitude(value))|
    ensures info.Value() == Shrunk(old(info.Value()), SignPrefix(value, old(info.flag)))
  {
    var buffer := new char[BUFFER_LENGTH_MAX](_ => '\0');
    ghost var e := info.Value();
    ghost var s0 := str[..];
    ghost var text := SignedLayout(e, value, Magnitude(value));
    ghost var body := NumberBody(Magnitude(value), e.precision, 10, true);
    ghost var sign := SignPrefix(value, e.flag);
    var bufferLength := StageNumber(buffer, Magnitude(value), info.precision, 10, true);
    if !info.flag.zero {
      assert text == Field(sign + body, e.width, e.flag);
      bufferLength := StageSign(buffer, bufferLength, value, info.flag);
      assert Reverse(buffer[..bufferLength]) == sign + body;
      writeIdx' := PutBufferReverse(str, size, writeIdx, buffer[..bufferLength], info);
    } else {
      assert text == sign + Field(body, Shrink(e.width, |sign|), e.flag);
      ghost var w0 := info.width;
      assert w0 == e.width && info.flag == e.flag;
      writeIdx' := PutSign(str, size, writeIdx, value, info);
      assert info.width == Shrink(w0, |sign|);
      assert info.width == Shrink(e.width, |sign|) && info.flag == e.flag;
      ghost var s1, w1 := str[..], writeIdx';
      ghost var field := Field(body, info.width, info.flag);
      assert text == sign + field;
      writeIdx' := PutBufferReverse(str, size, writeIdx', buffer[..bufferLength], info);
      EmitThen(s0, size, writeIdx, sign, s1, w1, field, str[..]);
    }
  }

  /** %d %i.  The argument is read at its length; the number staged is its
      magnitude, so that a negative argument prints its own digits after
      the '-'. */
  method ConvertSignedInteger(str: array<char>, size: nat, args: seq<Argument>, argIdx: nat, writeIdx: nat,
                              info: ConvertInfo)
    returns (argIdx': nat, writeIdx': nat)
    requires size <= str.Length
    requires info.specifier == 'd' || info.specifier == 'i' ==>
      && argIdx < |args| && args[argIdx].Word?
      && SignedStaged(Effective(info.Value()), SignedArgument(info.length, args[argIdx].bits)) <= BUFFER_LENGTH_MAX
    modifies str, info
    ensures !(old(info.specifier) == 'd' || old(info.specifier) == 'i') ==>
      argIdx' == argIdx && writeIdx' == writeIdx && str[..] == old(str[..]) && info.Value() == old(info.Value())
    ensures old(info.specifier) == 'd' || old(info.specifier) == 'i' ==>
      && argIdx' == argIdx + 1
      && str[..] == Emit(old(str[..]), size, writeIdx, SignedText(old(info.Value()), args[argIdx].bits))
      && writeIdx' == writeIdx + |SignedText(old(info.Value()), args[argIdx].bits)|
      && info.Value() == SignedRecord(old(info.Value()), args[argIdx].bits)
  {
    argIdx', writeIdx' := argIdx, writeIdx;
    if !(info.specifier == 'd' || info.specifier == 'i') {
      return;
    }
    ghost var d := info.Value();
    var value := SignedArgument(info.length, args[argIdx].bits);
    argIdx' := argIdx + 1;
    if info.precision == UNSPECIFIED {
      info.precision := 1;
    } else {
      info.flag := info.flag.(zero := false);
    }
    assert info.Value() == Effective(d);
    writeIdx' := PutSignedNumber(str, size, writeIdx, value, info);
  }

  /** Without ZERO the '#' prefix is staged behind the digits, read back to
      front as "0", "0x" or "0X". */
  method StagePrefix(buffer: array<char>, bufferLength: nat, specifier: char) returns (bufferLength': nat)
    requires buffer.Length == BUFFER_LENGTH_MAX
    requires bufferLength + |AltPrefix(specifier)| <= BUFFER_LENGTH_MAX
    modifies buffer
    ensures bufferLength' == bufferLength + |AltPrefix(specifier)|
    ensures Reverse(buffer[..bufferLength']) == AltPrefix(specifier) + Reverse(old(buffer[..bufferLength]))
  {
    ghost var staged := buffer[..bufferLength];
    bufferLength' := bufferLength;
    match specifier {
      case 'o' =>
        bufferLength' := Push(buffer, bufferLength', '0');
        ReverseSnoc(staged, '0');
      case 'x' =>
        bufferLength' := Push(buffer, bufferLength', 'x');
        ReverseSnoc(staged, 'x');
        bufferLength' := Push(buffer, bufferLength', '0');
        ReverseSnoc(staged + ['x'], '0');
        assert ['0'] + (['x'] + Reverse(staged)) == "0x" + Reverse(staged);
      case 'X' =>
        bufferLength' := Push(buffer, bufferLength', 'X');
        ReverseSnoc(staged, 'X');
        bufferLength' := Push(buffer, bufferLength', '0');
        ReverseSnoc(staged + ['X'], '0');
        assert ['0'] + (['X'] + Reverse(staged)) == "0X" + Reverse(staged);
      case _ =>
        assert "" + Reverse(staged) == Reverse(staged);
    }
  }

  /** With ZERO the '#' prefix goes straight to the output, and the field
      that follows is narrower by its length.  The prefix written is the
      intended "0x" / "0X"; see AltPrefixAsWritten for the order in which
      the source's zero-padded branch writes the two characters. */
  method PutPrefix(str: array<char>, size: nat, writeIdx: nat, info: ConvertInfo) returns (writeIdx': nat)
    requires size <= str.Length
    modifies str, info
    ensures str[..] == Emit(old(str[..]), size, writeIdx, AltPrefix(old(info.specifier)))
    ensures writeIdx' == writeIdx + |AltPrefix(old(info.specifier))|
    ensures info.Value() == old(info.Value()).(width := Shrink(old(info.width), |AltPrefix(old(info.specifier))|))
  {
    ghost var s0 := str[..];
    ghost var width := info.width;
    writeIdx' := writeIdx;
    match info.specifier {
      case 'o' =>
        writeIdx' := PutDirect(str, size, writeIdx', '0', info);
      case 'x' =>
        writeIdx' := PutDirect(str, size, writeIdx', '0', info);
        writeIdx' := PutDirect(str, size, writeIdx', 'x', info);
        EmitAppend(s0, size, writeIdx, "0", "x");
        assert info.width == Shrink(width, 2);
      case 'X' =>
        writeIdx' := PutDirect(str, size, writeIdx', '0', info);
        writeIdx' := PutDirect(str, size, writeIdx', 'X', info);
        EmitAppend(s0, size, writeIdx, "0", "X");
        assert info.width == Shrink(width, 2);
      case _ =>
        assert info.width == Shrink(width, 0);
    }
  }

  /** The staging and output half of %o %u %x %X, once the record has
      been adjusted: the digits are staged, then the '#' prefix is staged
      behind them, or written straight out under ZERO, and the buffer goes
      out back to front in its field. */
  method PutUnsignedNumber(str: array<char>, size: nat, writeIdx: nat, value: nat, base: nat, upper: bool,
                           info: ConvertInfo)
    returns (writeIdx': nat)
    requires size <= str.Length && IsUnsignedSpecifier(info.specifier)
    requires base == UnsignedBase(info.specifier) && upper == (info.specifier != 'x')
    requires UnsignedStaged(info.Value(), value) <= BUFFER_LENGTH_MAX
    modifies str, info
    ensures str[..] == Emit(old(str[..]), size, writeIdx, UnsignedLayout(old(info.Value()), value, AltPrefix(old(info.specifier))))
    ensures writeIdx' == writeIdx + |UnsignedLayout(old(info.Value()), value, AltPrefix(old(info.specifier)))|
    ensures info.Value() == Shrunk(old(info.Value()), if old(info.flag.alt) then AltPrefix(old(info.specifier)) else "")
  {
    var buffer := new char[BUFFER_LENGTH_MAX](_ => '\0');
    ghost var e := info.Value();
    ghost var s0 := str[..];
    ghost var text := UnsignedLayout(e, value, AltPrefix(e.specifier));
    ghost var body := NumberBody(value, e.precision, UnsignedBase(e.specifier), e.specifier != 'x');
    var bufferLength := StageNumber(buffer, value, info.precision, base, upper);
    assert Reverse(buffer[..bufferLength]) == body;
    ghost var prefix := if e.flag.alt then AltPrefix(e.specifier) else "";
    if !info.flag.zero {
      assert text == Field(prefix + body, e.width, e.flag);
      if info.flag.alt {
        bufferLength := StagePrefix(buffer, bufferLength, info.specifier);
      } else {
        assert "" + body == body;
      }
      assert Reverse(buffer[..bufferLength]) == prefix + body;
      writeIdx' := PutBufferReverse(str, size, writeIdx, buffer[..bufferLength], info);
    } else {
      assert text == prefix + Field(body, Shrink(e.width, |prefix|), e.flag);
      ghost var w0 := info.width;
      assert w0 == e.width && info.flag == e.flag;
      writeIdx' := writeIdx;
      if info.flag.alt {
        assert AltPrefix(info.specifier) == prefix;
        writeIdx' := PutPrefix(str, size, writeIdx, info);
        assert info.width == Shrink(w0, |prefix|);
      } else {
        assert info.width == Shrink(w0, |prefix|);
      }
      assert info.flag == e.flag && str[..] == Emit(s0, size, writeIdx, prefix);
      ghost var s1, w1 := str[..], writeIdx';
      ghost var field := Field(body, info.width, info.flag);
      assert text == prefix + field;
      writeIdx' := PutBufferReverse(str, size, writeIdx', buffer[..bufferLength], info);
      EmitThen(s0, size, writeIdx, prefix, s1, w1, field, str[..]);
    }
  }

  /** %o %u %x %X.  The argument is read at its length; under ZERO with
      '#', the prefix goes straight to the output as "0", "0x" or "0X",
      ahead of the zero-padded field. */
  method ConvertUnsignedInteger(str: array<char>, size: nat, args: seq<Argument>, argIdx: nat, writeIdx: nat,
                                info: ConvertInfo)
    returns (argIdx': nat, writeIdx': nat)
    requires size <= str.Length
    requires IsUnsignedSpecifier(info.specifier) ==>
      && argIdx < |args| && args[argIdx].Word?
      && UnsignedStaged(Effective(info.Value()), UnsignedArgument(info.length, args[argIdx].bits)) <= BUFFER_LENGTH_MAX
    modifies str, info
    ensures !IsUnsignedSpecifier(old(info.specifier)) ==>
      argIdx' == argIdx && writeIdx' == writeIdx && str[..] == old(str[..]) && info.Value() == old(info.Value())
    ensures IsUnsignedSpecifier(old(info.specifier)) ==>
      && argIdx' == argIdx + 1
      && str[..] == Emit(old(str[..]), size, writeIdx, UnsignedText(old(info.Value()), args[argIdx].bits))
      && writeIdx' == writeIdx + |UnsignedText(old(info.Value()), args[argIdx].bits)|
      && info.Value() == UnsignedRecord(old(info.Value()))
  {
    argIdx', writeIdx' := argIdx, writeIdx;
    var base: nat, upper: bool;
    match info.specifier {
      case 'o' => base, upper := 8, true;
      case 'u' => base, upper := 10, true;
      case 'x' => base, upper := 16, false;
      case 'X' => base, upper := 16, true;
      case _ => return;
    }
    ghost var d := info.Value();
    var value := UnsignedArgument(info.length, args[argIdx].bits);
    argIdx' := argIdx + 1;
    if info.precision == UNSPECIFIED {
      info.precision := 1;
    } else {
      info.flag := info.flag.(zero := false);
    }
    assert info.Value() == Effective(d);
    writeIdx' := PutUnsignedNumber(str, size, writeIdx, value, base, upper, info);
  }

  /** %c: the low 8 bits of the int argument, in its field; ZERO is
      cleared first. */
  method ConvertCharacter(str: array<char>, size: nat, args: seq<Argument>, argIdx: nat, writeIdx: nat,
                          info: ConvertInfo)
    returns (argIdx': nat, writeIdx': nat)
    requires size <= str.Length && argIdx < |args| && args[argIdx].Word?
    modifies str, info
    ensures info.Value() == old(info.Value()).(flag := old(info.flag).(zero := false))
    ensures argIdx' == argIdx + 1
    ensures str[..] == Emit(old(str[..]), size, writeIdx, CharText(old(info.Value()), args[argIdx].bits))
    ensures writeIdx' == writeIdx + |CharText(old(info.Value()), args[argIdx].bits)|
  {
    info.flag := info.flag.(zero := false);
    var c := CharOf(args[argIdx].bits);
    argIdx' := argIdx + 1;
    writeIdx' := PutBuffer(str, size, writeIdx, [c], info);
  }

  /** %s: the string up to its NUL, or "(null)" for a NULL pointer, in its
      field; ZERO is cleared first. */
  method ConvertString(str: array<char>, size: nat, args: seq<Argument>, argIdx: nat, writeIdx: nat,
                       info: ConvertInfo)
    returns (argIdx': nat, writeIdx': nat)
    requires size <= str.Length && argIdx < |args| && args[argIdx].Str?
    modifies str, info
    ensures info.Value() == old(info.Value()).(flag := old(info.flag).(zero := false))
    ensures argIdx' == argIdx + 1
    ensures str[..] == Emit(old(str[..]), size, writeIdx, StringText(old(info.Value()), args[argIdx].s))
    ensures writeIdx' == writeIdx + |StringText(old(info.Value()), args[argIdx].s)|
  {
    info.flag := info.flag.(zero := false);
    var text: seq<char>;
    match args[argIdx].s {
      case Null => text := "(null)";
      case Chars(s) => text := CStr(s);
    }
    argIdx' := argIdx + 1;
    writeIdx' := PutBuffer(str, size, writeIdx, text, info);
  }

  /** The analysis half of Convert: a cleared record with an unspecified
      precision is filled in by the four analysers in turn, and the
      specifier is the character they stop at. */
  method AnalyzeDirective(fmt: seq<char>, readIdx: nat) returns (info: ConvertInfo, readIdx': nat)
    requires Terminated(fmt) && readIdx < |fmt|
    ensures fresh(info)
    ensures (info.Value(), readIdx') == ParseDirective(fmt, readIdx)
  {
    info := new ConvertInfo();
    var flagEnd, widthEnd, precisionEnd: nat;
    info.flag, flagEnd := AnalyzeFlag(info.flag, fmt, readIdx);
    info.width, widthEnd := AnalyzeNumber(fmt, flagEnd);
    info.precision, precisionEnd := AnalyzePrecision(info.precision, fmt, widthEnd);
    info.length, readIdx' := AnalyzeLength(info.length, fmt, precisionEnd);
    info.specifier := fmt[readIdx'];
    ghost var p := ParseDirective(fmt, readIdx);
    assert flagEnd == FlagRunEnd(fmt, readIdx) && widthEnd == DigitRunEnd(fmt, flagEnd);
    assert info.flag == p.0.flag && info.width == p.0.width;
    assert precisionEnd == if fmt[widthEnd] == '.' then DigitRunEnd(fmt, widthEnd + 1) else widthEnd;
    assert info.precision == p.0.precision;
    assert (info.length, readIdx') == ParseLength(0, fmt, precisionEnd);
    assert info.length == p.0.length && readIdx' == p.1;
    assert info.Value() == p.0;
  }

  /** The dispatch half of Convert: the conversion that the specifier
      selects.  The floating-point specifiers are accepted and produce
      nothing. */
  method Dispatch(str: array<char>, size: nat, args: seq<Argument>, argIdx: nat, writeIdx: nat, info: ConvertInfo)
    returns (argIdx': nat, writeIdx': nat)
    requires size <= str.Length && ArgumentsReady(info.Value(), args, argIdx)
    modifies str, info
    ensures argIdx' == (if TakesArgument(old(info.specifier)) then argIdx + 1 else argIdx)
    ensures str[..] == Emit(old(str[..]), size, writeIdx, Rendered(old(info.Value()), args, argIdx))
    ensures writeIdx' == writeIdx + |Rendered(old(info.Value()), args, argIdx)|
    ensures info.Value() == RecordAfter(old(info.Value()), args, argIdx)
  {
    argIdx', writeIdx' := argIdx, writeIdx;
    RenderedCases(info.Value(), args, argIdx);
    match info.specifier {
      case 'd' | 'i' =>
        argIdx', writeIdx' := ConvertSignedInteger(str, size, args, argIdx, writeIdx, info);
      case 'o' | 'u' | 'x' | 'X' =>
        argIdx', writeIdx' := ConvertUnsignedInteger(str, size, args, argIdx, writeIdx, info);
      case 'e' | 'E' | 'f' | 'F' | 'g' | 'G' | 'a' | 'A' =>
      case 'c' =>
        argIdx', writeIdx' := ConvertCharacter(str, size, args, argIdx, writeIdx, info);
      case 's' =>
        argIdx', writeIdx' := ConvertString(str, size, args, argIdx, writeIdx, info);
      case '%' =>
        ghost var s0 := str[..];
        PutChar(str, size, writeIdx, '%');
        writeIdx' := writeIdx + 1;
        EmitSnoc(s0, size, writeIdx, [], '%');
        assert [] + ['%'] == "%";
      case _ =>
    }
  }

  /** One directive: `readIdx` is just past its '%'.  The record is
      analysed, the conversion runs, and the read index moves past the
      specifier, except for an unknown specifier, which is left unread and
      produces nothing. */
  method Convert(str: array<char>, size: nat, fmt: seq<char>, args: seq<Argument>, argIdx: nat,
                 readIdx: nat, writeIdx: nat)
    returns (argIdx': nat, readIdx': nat, writeIdx': nat)
    requires size <= str.Length
    requires Terminated(fmt) && readIdx < |fmt|
    requires ArgumentsReady(ParseDirective(fmt, readIdx).0, args, argIdx)
    modifies str
    ensures var d := ParseDirective(fmt, readIdx).0;
            var e := ParseDirective(fmt, readIdx).1;
            && readIdx' == (if KnownSpecifier(d.specifier) then e + 1 else e)
            && argIdx' == (if TakesArgument(d.specifier) then argIdx + 1 else argIdx)
            && str[..] == Emit(old(str[..]), size, writeIdx, Rendered(d, args, argIdx))
            && writeIdx' == writeIdx + |Rendered(d, args, argIdx)|
  {
    var info;
    info, readIdx' := AnalyzeDirective(fmt, readIdx);
    if !KnownSpecifier(info.specifier) {
      return argIdx, readIdx', writeIdx;
    }
    argIdx', writeIdx' := Dispatch(str, size, args, argIdx, writeIdx, info);
    readIdx' := readIdx' + 1;
  }
}
