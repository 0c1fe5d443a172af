/** The analysers of a printf conversion specification: after the '%', a
    directive is read as flags, a minimum field width, a precision and a
    length modifier (section 7.21.6.1, paragraphs 4 to 7, of ISO/IEC
    9899:2011).  Each analyser reads the format from a read index and
    yields the value it found together with the advanced index.

    The format is a NUL-terminated character array: a sequence whose last
    element is '\0'.  No analyser reads past the terminator, since '\0' is
    neither a flag, a digit, '.' nor a length letter. */
module Analyze {

  /** The values of uint32_t. */
  type uint32 = x: int | 0 <= x < 0x1_0000_0000

  const UINT32_MODULUS: int := 0x1_0000_0000

  // Flag bits of the flag word (Analyze.h)
  const FLAG_LEFT: bv32 := 0x01
  const FLAG_SIGN: bv32 := 0x02
  const FLAG_SPACE: bv32 := 0x04
  const FLAG_ALT: bv32 := 0x08
  const FLAG_ZERO: bv32 := 0x10

  /** The flag word, one field per defined bit; no other bit is ever set. */
  datatype Flags = Flags(left: bool, sign: bool, space: bool, alt: bool, zero: bool)

  /** The flag word of a freshly cleared conversion record. */
  const NO_FLAGS := Flags(false, false, false, false, false)

  /** The uint32_t the source stores for a flag set. */
  function Word(f: Flags): (w: bv32)
    ensures w & FLAG_LEFT != 0 <==> f.left
    ensures w & FLAG_SIGN != 0 <==> f.sign
    ensures w & FLAG_SPACE != 0 <==> f.space
    ensures w & FLAG_ALT != 0 <==> f.alt
    ensures w & FLAG_ZERO != 0 <==> f.zero
    ensures w & !0x1F == 0
  {
    (if f.left then FLAG_LEFT else 0) | (if f.sign then FLAG_SIGN else 0) |
    (if f.space then FLAG_SPACE else 0) | (if f.alt then FLAG_ALT else 0) |
    (if f.zero then FLAG_ZERO else 0)
  }

  // Length modifier codes (Analyze.h); 0 means "no modifier"
  const LENGTH_CHAR: uint32 := 1
  const LENGTH_SHORT: uint32 := 2
  const LENGTH_LONG: uint32 := 3
  const LENGTH_LONGLONG: uint32 := 4
  const LENGTH_PTRDIFF: uint32 := 5
  const LENGTH_SIZE: uint32 := 6
  const LENGTH_LONGDOUBLE: uint32 := 7

  /** A format string as the analysers see it. */
  predicate Terminated(fmt: seq<char>) {
    |fmt| > 0 && fmt[|fmt| - 1] == '\0'
  }

  // ---------------------------------------------------------------------
  // Flags
  // ---------------------------------------------------------------------

  predicate IsFlagChar(c: char) {
    c == '-' || c == '+' || c == ' ' || c == '#' || c == '0'
  }

  /** The effect of one flag character on the flag word. */
  function ApplyFlag(flag: Flags, c: char): Flags {
    if c == '-' then flag.(left := true, zero := false)
    else if c == '+' then flag.(sign := true, space := false)
    else if c == ' ' then (if !flag.sign then flag.(space := true) else flag)
    else if c == '#' then flag.(alt := true)
    else if c == '0' then (if !flag.left then flag.(zero := true) else flag)
    else flag
  }

  /** The flag word after reading the flag characters `s` in order. */
  function ApplyFlags(flag: Flags, s: seq<char>): Flags
    decreases |s|
  {
    if s == [] then flag else ApplyFlag(ApplyFlags(flag, s[..|s| - 1]), s[|s| - 1])
  }

  /** The index just past the maximal run of flag characters starting at `i`. */
  function FlagRunEnd(fmt: seq<char>, i: nat): (e: nat)
    requires Terminated(fmt) && i < |fmt|
    ensures i <= e < |fmt|
    ensures forall k | i <= k < e :: IsFlagChar(fmt[k])
    ensures !IsFlagChar(fmt[e])
    decreases |fmt| - i
  {
    if IsFlagChar(fmt[i]) then FlagRunEnd(fmt, i + 1) else i
  }

  /** AnalyzeFlag: consumes the maximal run of flag characters at the read
      index and folds them into the flag word. */
  method AnalyzeFlag(flag: Flags, fmt: seq<char>, readIdx: nat) returns (flag': Flags, readIdx': nat)
    requires Terminated(fmt) && readIdx < |fmt|
    ensures readIdx' == FlagRunEnd(fmt, readIdx)
    ensures flag' == ApplyFlags(flag, fmt[readIdx..readIdx'])
  {
    flag', readIdx' := flag, readIdx;
    while true
      invariant readIdx <= readIdx' < |fmt|
      invariant FlagRunEnd(fmt, readIdx') == FlagRunEnd(fmt, readIdx)
      invariant flag' == ApplyFlags(flag, fmt[readIdx..readIdx'])
      decreases |fmt| - readIdx'
    {
      ghost var before := flag';
      var c := fmt[readIdx'];
      match c {
      case '-' =>
        flag' := flag'.(left := true);
        flag' := flag'.(zero := false);
      case '+' =>
        flag' := flag'.(sign := true);
        flag' := flag'.(space := false);
      case ' ' =>
        if !flag'.sign {
          flag' := flag'.(space := true);
        }
      case '#' =>
        flag' := flag'.(alt := true);
      case '0' =>
        if !flag'.left {
          flag' := flag'.(zero := true);
        }
      case _ =>
        return;
      }
      ReadOneFlag(flag, fmt, readIdx, readIdx', before, flag');
      readIdx' := readIdx' + 1;
    }
  }

  /** Folding in the flag character at `i` extends the run by one. */
  lemma ReadOneFlag(flag: Flags, fmt: seq<char>, start: nat, i: nat, before: Flags, after: Flags)
    requires start <= i < |fmt|
    requires before == ApplyFlags(flag, fmt[start..i])
    requires after == ApplyFlag(before, fmt[i])
    ensures after == ApplyFlags(flag, fmt[start..i + 1])
  {
    assert fmt[start..i + 1][..i - start] == fmt[start..i];
  }

  /** One flag character's effect on each bit of the flag word. */
  lemma ApplyFlagBits(flag: Flags, c: char)
    ensures ApplyFlag(flag, c).left <==> flag.left || c == '-'
    ensures ApplyFlag(flag, c).sign <==> flag.sign || c == '+'
    ensures ApplyFlag(flag, c).alt <==> flag.alt || c == '#'
    ensures ApplyFlag(flag, c).zero <==>
              c != '-' && (flag.zero || (c == '0' && !flag.left))
    ensures ApplyFlag(flag, c).space <==>
              c != '+' && (flag.space || (c == ' ' && !flag.sign))
  {
    if c == '-' {
    } else if c == '+' {
    } else if c == ' ' {
    } else if c == '#' {
    } else if c == '0' {
    } else {
    }
  }

  /** The effect of the flag run on the bits that are only ever set: LEFT,
      SIGN and ALT are set exactly when their character occurs. */
  lemma {:induction false} ApplyFlagsSetOnly(flag: Flags, s: seq<char>)
    ensures ApplyFlags(flag, s).left <==> flag.left || '-' in s
    ensures ApplyFlags(flag, s).sign <==> flag.sign || '+' in s
    ensures ApplyFlags(flag, s).alt <==> flag.alt || '#' in s
    decreases |s|
  {
    if s != [] {
      var init, c := s[..|s| - 1], s[|s| - 1];
      assert s == init + [c];
      ApplyFlagsSetOnly(flag, init);
      ApplyFlagBits(ApplyFlags(flag, init), c);
    }
  }

  /** '-' cancels ZERO and makes every later '0' ignored; otherwise ZERO is
      set by a '0' unless LEFT was already set. */
  lemma {:induction false} ApplyFlagsZero(flag: Flags, s: seq<char>)
    ensures ApplyFlags(flag, s).zero <==>
              '-' !in s && (flag.zero || ('0' in s && !flag.left))
    decreases |s|
  {
    if s != [] {
      var init, c := s[..|s| - 1], s[|s| - 1];
      assert s == init + [c];
      ApplyFlagsZero(flag, init);
      ApplyFlagsSetOnly(flag, init);
      ApplyFlagBits(ApplyFlags(flag, init), c);
    }
  }

  /** '+' cancels SPACE and makes every later ' ' ignored; otherwise SPACE is
      set by a ' ' unless SIGN was already set. */
  lemma {:induction false} ApplyFlagsSpace(flag: Flags, s: seq<char>)
    ensures ApplyFlags(flag, s).space <==>
              '+' !in s && (flag.space || (' ' in s && !flag.sign))
    decreases |s|
  {
    if s != [] {
      var init, c := s[..|s| - 1], s[|s| - 1];
      assert s == init + [c];
      ApplyFlagsSpace(flag, init);
      ApplyFlagsSetOnly(flag, init);
      ApplyFlagBits(ApplyFlags(flag, init), c);
    }
  }

  /** LEFT and ZERO are never both set afterwards if they were not before;
      likewise SIGN and SPACE. */
  lemma {:induction false} ApplyFlagsExclusive(flag: Flags, s: seq<char>)
    ensures !(flag.left && flag.zero) ==>
              !(ApplyFlags(flag, s).left && ApplyFlags(flag, s).zero)
    ensures !(flag.sign && flag.space) ==>
              !(ApplyFlags(flag, s).sign && ApplyFlags(flag, s).space)
    decreases |s|
  {
    if s != [] {
      ApplyFlagsExclusive(flag, s[..|s| - 1]);
      ApplyFlagBits(ApplyFlags(flag, s[..|s| - 1]), s[|s| - 1]);
    }
  }

  // ---------------------------------------------------------------------
  // Numbers
  // ---------------------------------------------------------------------

  predicate IsDigit(c: char) {
    '0' <= c <= '9'
  }

  /** The index just past the maximal run of decimal digits starting at `i`. */
  function DigitRunEnd(fmt: seq<char>, i: nat): (e: nat)
    requires Terminated(fmt) && i < |fmt|
    ensures i <= e < |fmt|
    ensures forall k | i <= k < e :: IsDigit(fmt[k])
    ensures !IsDigit(fmt[e])
    decreases |fmt| - i
  {
    if IsDigit(fmt[i]) then DigitRunEnd(fmt, i + 1) else i
  }

  /** The (unbounded) value of a string of decimal digits; 0 for "". */
  function DecimalValue(s: seq<char>): nat
    requires forall k | 0 <= k < |s| :: IsDigit(s[k])
    decreases |s|
  {
    if s == [] then 0
    else
      var d := s[|s| - 1];
      assert IsDigit(d);
      10 * DecimalValue(s[..|s| - 1]) + (d as int - '0' as int)
  }

  /** One step of the uint32 accumulation commutes with reduction mod 2^32. */
  lemma AccumulateMod(a: int, d: int)
    ensures ((a % UINT32_MODULUS) * 10 + d) % UINT32_MODULUS == (a * 10 + d) % UINT32_MODULUS
  {
    var q, r := a / UINT32_MODULUS, a % UINT32_MODULUS;
    assert a * 10 + d == (r * 10 + d) + (10 * q) * UINT32_MODULUS;
  }

  /** AnalyzeNumber: reads the maximal run of decimal digits and stores its
      value modulo 2^32 (the accumulator is a uint32_t); with no digit the
      value is 0 and the index does not move. */
  method AnalyzeNumber(fmt: seq<char>, readIdx: nat) returns (value: uint32, readIdx': nat)
    requires Terminated(fmt) && readIdx < |fmt|
    ensures readIdx' == DigitRunEnd(fmt, readIdx)
    ensures value == DecimalValue(fmt[readIdx..readIdx']) % UINT32_MODULUS
    ensures !IsDigit(fmt[readIdx]) ==> value == 0 && readIdx' == readIdx
  {
    value, readIdx' := 0, readIdx;
    while true
      invariant readIdx <= readIdx' < |fmt|
      invariant DigitRunEnd(fmt, readIdx') == DigitRunEnd(fmt, readIdx)
      invariant forall k | readIdx <= k < readIdx' :: IsDigit(fmt[k])
      invariant value == DecimalValue(fmt[readIdx..readIdx']) % UINT32_MODULUS
      decreases |fmt| - readIdx'
    {
      if '0' <= fmt[readIdx'] <= '9' {
        var run := fmt[readIdx..readIdx' + 1];
        assert run == fmt[readIdx..readIdx'] + [fmt[readIdx']];
        assert run[..|run| - 1] == fmt[readIdx..readIdx'];
        AccumulateMod(DecimalValue(fmt[readIdx..readIdx']), fmt[readIdx'] as int - '0' as int);
        value := (value * 10 + (fmt[readIdx'] as int - '0' as int)) % UINT32_MODULUS;
      } else {
        break;
      }
      readIdx' := readIdx' + 1;
    }
  }

  /** AnalyzePrecision: a '.' followed by a (possibly empty) number; a bare
      "." is precision 0.  Without a '.', precision and index are kept. */
  method AnalyzePrecision(precision: uint32, fmt: seq<char>, readIdx: nat) returns (precision': uint32, readIdx': nat)
    requires Terminated(fmt) && readIdx < |fmt|
    ensures fmt[readIdx] == '.' ==>
              readIdx' == DigitRunEnd(fmt, readIdx + 1) &&
              precision' == DecimalValue(fmt[readIdx + 1..readIdx']) % UINT32_MODULUS
    ensures fmt[readIdx] == '.' && !IsDigit(fmt[readIdx + 1]) ==> precision' == 0 && readIdx' == readIdx + 1
    ensures fmt[readIdx] != '.' ==> precision' == precision && readIdx' == readIdx
  {
    precision', readIdx' := precision, readIdx;
    if fmt[readIdx'] == '.' {
      precision' := 0;
      readIdx' := readIdx' + 1;
      precision', readIdx' := AnalyzeNumber(fmt, readIdx');
    }
  }

  // ---------------------------------------------------------------------
  // Length modifiers
  // ---------------------------------------------------------------------

  /** How each length modifier is written (section 7.21.6.1, paragraph 7). */
  function Spelling(length: uint32): string {
    if length == LENGTH_CHAR then "hh"
    else if length == LENGTH_SHORT then "h"
    else if length == LENGTH_LONG then "l"
    else if length == LENGTH_LONGLONG then "ll"
    else if length == LENGTH_PTRDIFF then "t"
    else if length == LENGTH_SIZE then "z"
    else if length == LENGTH_LONGDOUBLE then "L"
    else ""
  }

  predicate StartsLength(c: char) {
    c == 'h' || c == 'l' || c == 't' || c == 'z' || c == 'L'
  }

  /** The length code and index after reading a length modifier at `i`
      (`length` is kept when there is none).  What was consumed is exactly
      the spelling of the code found, and "hh"/"ll" win over "h"/"l". */
  function ParseLength(length: uint32, fmt: seq<char>, i: nat): (r: (uint32, nat))
    requires Terminated(fmt) && i < |fmt|
    ensures i <= r.1 <= i + 2 && r.1 < |fmt|
    ensures r.1 == i <==> !StartsLength(fmt[i])
    ensures r.1 == i ==> r.0 == length
    ensures r.1 > i ==> fmt[i..r.1] == Spelling(r.0)
    ensures r.1 > i && r.0 == LENGTH_SHORT ==> fmt[r.1] != 'h'
    ensures r.1 > i && r.0 == LENGTH_LONG ==> fmt[r.1] != 'l'
  {
    match fmt[i]
    case 'h' => if fmt[i + 1] == 'h' then (LENGTH_CHAR, i + 2) else (LENGTH_SHORT, i + 1)
    case 'l' => if fmt[i + 1] == 'l' then (LENGTH_LONGLONG, i + 2) else (LENGTH_LONG, i + 1)
    case 't' => assert fmt[i..i + 1] == [fmt[i]]; (LENGTH_PTRDIFF, i + 1)
    case 'z' => assert fmt[i..i + 1] == [fmt[i]]; (LENGTH_SIZE, i + 1)
    case 'L' => assert fmt[i..i + 1] == [fmt[i]]; (LENGTH_LONGDOUBLE, i + 1)
    case _ => (length, i)
  }

  /** AnalyzeLength: reads at most two characters of length modifier. */
  method AnalyzeLength(length: uint32, fmt: seq<char>, readIdx: nat) returns (length': uint32, readIdx': nat)
    requires Terminated(fmt) && readIdx < |fmt|
    ensures (length', readIdx') == ParseLength(length, fmt, readIdx)
  {
    length', readIdx' := length, readIdx;
    match fmt[readIdx'] {
    case 'h' =>
      if fmt[readIdx' + 1] == 'h' {
        length', readIdx' := LENGTH_CHAR, readIdx' + 2;
      } else {
        length', readIdx' := LENGTH_SHORT, readIdx' + 1;
      }
    case 'l' =>
      if fmt[readIdx' + 1] == 'l' {
        length', readIdx' := LENGTH_LONGLONG, readIdx' + 2;
      } else {
        length', readIdx' := LENGTH_LONG, readIdx' + 1;
      }
    case 't' =>
      length', readIdx' := LENGTH_PTRDIFF, readIdx' + 1;
    case 'z' =>
      length', readIdx' := LENGTH_SIZE, readIdx' + 1;
    case 'L' =>
      length', readIdx' := LENGTH_LONGDOUBLE, readIdx' + 1;
    case _ =>
    }
  }
}
