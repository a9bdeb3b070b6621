/** printf and strto* undo each other. */
module PrintParse {
  import opened Machine
  import opened Memory
  import opened CStringReader
  import opened Strto
  import opened PrintfIntegers

  // ----- Splitting a rendering -------------------------------------------------------------------

  lemma {:induction false} SkipsBlanks(text: seq<byte>, from: nat, end: nat)
    requires from <= end < |text|
    requires forall i :: from <= i < end ==> text[i] == SPACE
    requires !IsAsciiWhitespace(text[end])
    ensures SpaceEnd(text, from, IsAsciiWhitespace) == end
    decreases end - from
  {
    if from < end {
      SkipsBlanks(text, from + 1, end);
    }
  }

  lemma {:induction false} ReadsDigits(text: seq<byte>, from: nat, base: nat, end: nat)
    requires from <= end <= |text|
    requires forall i :: from <= i < end ==> IsDigit(text[i], base)
    requires end < |text| ==> !IsDigit(text[end], base)
    ensures DigitEnd(text, from, base) == end
    decreases end - from
  {
    if from < end {
      ReadsDigits(text, from + 1, base, end);
    }
  }

  /** A blank prefix is one more blank in front. */
  lemma BlankPrefix(before: nat, zeros: nat, digits: seq<byte>, after: nat)
    ensures Layout(before, [SPACE], zeros, digits, after) == Layout(before + 1, [], zeros, digits, after)
  {
    assert Repeat(SPACE, before) + [SPACE] == Repeat(SPACE, before + 1);
    assert Repeat(SPACE, before) + [SPACE] + Repeat(DIGIT_0, zeros) + digits + Repeat(SPACE, after)
           == Repeat(SPACE, before + 1) + [] + Repeat(DIGIT_0, zeros) + digits + Repeat(SPACE, after);
  }

  predicate Parses(prefix: seq<byte>, base: nat)
  {
    if base == 10 then prefix == [] || prefix == [MINUS] || prefix == [PLUS]
    else base == 16 && (prefix == [] || prefix == [DIGIT_0, LOWER_X] || prefix == [DIGIT_0, UPPER_X])
  }

  lemma LayoutAt(before: nat, prefix: seq<byte>, zeros: nat, digits: seq<byte>, after: nat)
    ensures var text := Layout(before, prefix, zeros, digits, after);
            var start := before + |prefix|;
            var end := start + zeros + |digits|;
            && |text| == end + after
            && (forall i :: 0 <= i < before ==> text[i] == SPACE)
            && (forall i :: 0 <= i < |prefix| ==> text[before + i] == prefix[i])
            && text[start..end] == Repeat(DIGIT_0, zeros) + digits
            && (forall i :: end <= i < |text| ==> text[i] == SPACE)
  {
  }

  /** The digits of a rendering are where the printer put them. */
  lemma LayoutDigits(before: nat, prefix: seq<byte>, zeros: nat, digits: seq<byte>, after: nat, base: nat)
    requires (base == 10 || base == 16) && digits != [] && AllDigits(digits, base)
    ensures var text := Layout(before, prefix, zeros, digits, after);
            var start := before + |prefix|;
            var end := start + zeros + |digits|;
            && end <= |text|
            && (forall i :: start <= i < end ==> IsDigit(text[i], base))
            && DigitEnd(text, start, base) == end
  {
    hide Layout, IsDigit;
    var text := Layout(before, prefix, zeros, digits, after);
    var start := before + |prefix|;
    var end := start + zeros + |digits|;
    LayoutAt(before, prefix, zeros, digits, after);
    BodyDigits(zeros, digits, base);
    var body := Repeat(DIGIT_0, zeros) + digits;
    assert forall i :: start <= i < end ==> text[i] == text[start..end][i - start];
    BlankIsNoDigit(base);
    ReadsDigits(text, start, base, end);
  }

  lemma BlankIsNoDigit(base: nat)
    ensures !IsDigit(SPACE, base)
  {
  }

  /** The parser splits a rendering where the printer put it together. */
  lemma LayoutSplits(before: nat, prefix: seq<byte>, zeros: nat, digits: seq<byte>, after: nat, base: nat)
    requires Parses(prefix, base) && digits != [] && AllDigits(digits, base)
    ensures var text := Layout(before, prefix, zeros, digits, after);
            var start := before + |prefix|;
            var end := start + zeros + |digits|;
            && SpaceEnd(text, 0, IsAsciiWhitespace) == before
            && end <= |text|
            && SplitAt(text, before, base) == Split(prefix == [MINUS], base, start, end)
            && text[start..end] == Repeat(DIGIT_0, zeros) + digits
  {
    hide Layout, AllDigits;
    var text := Layout(before, prefix, zeros, digits, after);
    var start := before + |prefix|;
    var end := start + zeros + |digits|;
    LayoutAt(before, prefix, zeros, digits, after);
    LayoutDigits(before, prefix, zeros, digits, after, base);
    assert IsDigit(text[start], base);
    if prefix != [] {
      assert text[before] == prefix[0];
      assert |prefix| == 2 ==> text[before + 1] == prefix[1];
    }
    SkipsBlanks(text, 0, before);
    if base == 16 && prefix == [] {
      NoHexPrefix(text, before, end);
    }
  }

  /** Digits alone never look like a hexadecimal prefix. */
  lemma NoHexPrefix(text: seq<byte>, start: nat, end: nat)
    requires start < end <= |text|
    requires forall i :: start <= i < end ==> IsDigit(text[i], 16)
    requires forall i :: end <= i < |text| ==> text[i] == SPACE
    ensures !HexPrefixAt(text, start)
  {
    NotDigits();
    if start + 1 < end {
      assert IsDigit(text[start + 1], 16);
    }
  }

  /** What the parser makes of a rendering. */
  lemma LayoutParses(before: nat, prefix: seq<byte>, zeros: nat, value: nat, upper: bool, after: nat,
                     base: nat, kind: Kind)
    requires (base == 10 || base == 16) && Parses(prefix, base)
    ensures var digits := Digits(value, base, upper);
            var text := Layout(before, prefix, zeros, digits, after);
            var (bits, erange) := Outcome(kind, prefix == [MINUS], value);
            ParseIntegral(text, base, kind) == Conversion(bits, erange, before + |prefix| + zeros + |digits|)
  {
    hide Layout, SplitAt, DigitEnd, SpaceEnd, Digits, AllDigits;
    var digits := Digits(value, base, upper);
    DigitsDenote(value, base, upper);
    LayoutSplits(before, prefix, zeros, digits, after, base);
    LeadingZeros(zeros, digits, base);
  }

  // ----- Round trips -----------------------------------------------------------------------------

  /** strtol base 10 of every %d, %i, %ld rendering: the value printed, without ERANGE, up to the last digit. */
  lemma SignedRoundTrip(arg: u64, longCount: nat, field: Field)
    ensures var text := RenderSigned(arg, longCount, field);
            var r := ParseIntegral(text, 10, Signed64);
            && r.value == SignedArg(arg, longCount) % TWO_64
            && !r.erange
            && (longCount > 0 ==> r.value == arg)
            && r.end <= |text| && forall i :: r.end <= i < |text| ==> text[i] == SPACE
  {
    hide Layout, ApplyWidth, ApplyPrecision, ParseIntegral, Digits, AllDigits;
    var value := SignedArg(arg, longCount);
    var magnitude: nat := if value < 0 then -value else value;
    var prefix, digits := SignText(value, field), Digits(magnitude, 10, false);
    DigitsDenote(magnitude, 10, false);
    var before, zeros, after := RenderedLayout(prefix, digits, 10, field);
    if prefix == [SPACE] {
      BlankPrefix(before, zeros, digits, after);
      LayoutParses(before + 1, [], zeros, magnitude, false, after, 10, Signed64);
      LayoutAt(before + 1, [], zeros, digits, after);
    } else {
      assert Parses(prefix, 10);
      LayoutParses(before, prefix, zeros, magnitude, false, after, 10, Signed64);
      LayoutAt(before, prefix, zeros, digits, after);
    }
  }

  /** strtoull base 10 of every %u, %lu rendering. */
  lemma UnsignedRoundTrip(arg: u64, longCount: nat, field: Field)
    ensures var text := RenderUnsigned(arg, longCount, field);
            var r := ParseIntegral(text, 10, Unsigned64);
            && r.value == UnsignedArg(arg, longCount) && !r.erange
            && r.end <= |text| && forall i :: r.end <= i < |text| ==> text[i] == SPACE
  {
    hide Layout, ApplyWidth, ApplyPrecision, ParseIntegral, Digits, AllDigits;
    var value := UnsignedArg(arg, longCount);
    var digits := Digits(value, 10, false);
    DigitsDenote(value, 10, false);
    assert [] + digits == digits;
    var before, zeros, after := RenderedLayout([], digits, 10, field);
    LayoutParses(before, [], zeros, value, false, after, 10, Unsigned64);
    LayoutAt(before, [], zeros, digits, after);
  }

  /** strtoull base 16 of every %x, %X, %lx, %lX rendering, with or without the 0x prefix. */
  lemma HexRoundTrip(arg: u64, longCount: nat, upper: bool, field: Field)
    ensures var text := RenderHex(arg, longCount, upper, field);
            var r := ParseIntegral(text, 16, Unsigned64);
            && r.value == UnsignedArg(arg, longCount) && !r.erange
            && r.end <= |text| && forall i :: r.end <= i < |text| ==> text[i] == SPACE
  {
    hide Layout, ApplyWidth, ApplyPrecision, ParseIntegral, Digits, AllDigits;
    var value := UnsignedArg(arg, longCount);
    var prefix, digits := HexPrefix(value, upper, field), Digits(value, 16, upper);
    DigitsDenote(value, 16, upper);
    var before, zeros, after := RenderedLayout(prefix, digits, 16, field);
    LayoutParses(before, prefix, zeros, value, upper, after, 16, Unsigned64);
    LayoutAt(before, prefix, zeros, digits, after);
  }

  /** The same field makes different values look different: %ld is injective. */
  lemma SignedRenderingsDiffer(a: u64, b: u64, longCount: nat, field: Field)
    requires longCount > 0 && RenderSigned(a, longCount, field) == RenderSigned(b, longCount, field)
    ensures a == b
  {
    SignedRoundTrip(a, longCount, field);
    SignedRoundTrip(b, longCount, field);
  }

  /** A minus sign and a magnitude of 2^64 or more: the proxy's strtoull answers 1, where C answers the maximum. */
  lemma NegativeOverflowAnswersOne(magnitude: nat)
    requires magnitude > U64_MAX
    ensures var text := [MINUS] + Digits(magnitude, 10, false);
            && ParseIntegral(text, 10, Unsigned64) == Conversion(1, true, |text|)
            && CParseIntegral(text, 10, Unsigned64) == Conversion(U64_MAX, true, |text|)
  {
    hide SplitAt, DigitEnd, SpaceEnd, Digits, AllDigits, Numeral, Layout, SubjectForm, IsDigit;
    var digits := Digits(magnitude, 10, false);
    var text := [MINUS] + digits;
    assert Layout(0, [MINUS], 0, digits, 0) == text by { BareLayout(digits); }
    DigitsDenote(magnitude, 10, false);
    LayoutSplits(0, [MINUS], 0, digits, 0, 10);
    SameSpaces(text, 0);
    assert Repeat(DIGIT_0, 0) + digits == digits;
  }

  /** With base 0 the prefix decides: 0x means hexadecimal, another leading 0 octal, anything else decimal. */
  lemma BaseFollowsPrefix(n: nat, upper: bool, kind: Kind)
    requires n < TWO_63
    ensures ParseIntegral([48, if upper then 88 else 120] + Digits(n, 16, upper), 0, kind).value == n
    ensures ParseIntegral([48] + Digits(n, 8, upper), 0, kind).value == n
    ensures n > 0 ==> ParseIntegral(Digits(n, 10, upper), 0, kind).value == n
  {
    HexadecimalFound(n, upper, kind);
    OctalFound(n, upper, kind);
    if n > 0 {
      DecimalFound(n, upper, kind);
    }
  }

  /** A text of digits alone, from a place on, is read to its end. */
  lemma DigitsToTheEnd(text: seq<byte>, from: nat, base: nat)
    requires from < |text| && 2 <= base <= 36 && AllDigits(text[from..], base)
    ensures DigitEnd(text, from, base) == |text|
    ensures IsDigit(text[from], base) && text[from..|text|] == text[from..]
  {
    forall i | from <= i < |text|
      ensures IsDigit(text[i], base)
    {
      assert text[i] == text[from..][i - from];
    }
    ReadsDigits(text, from, base, |text|);
  }

  lemma NoBlanksFirst(text: seq<byte>)
    requires text != [] && IsDigit(text[0], 36)
    ensures SpaceEnd(text, 0, IsAsciiWhitespace) == 0 && !IsSign(text[0])
  {
  }

  lemma HexadecimalFound(n: nat, upper: bool, kind: Kind)
    requires n < TWO_63
    ensures ParseIntegral([48, if upper then 88 else 120] + Digits(n, 16, upper), 0, kind).value == n
  {
    hide Digits, AllDigits, Numeral, DigitEnd, SpaceEnd;
    var digits := Digits(n, 16, upper);
    var text := [DIGIT_0, if upper then UPPER_X else LOWER_X] + digits;
    DigitsDenote(n, 16, upper);
    assert text[2..] == digits;
    DigitsToTheEnd(text, 2, 16);
    NoBlanksFirst(text);
    assert SplitAt(text, 0, 0) == Split(false, 16, 2, |text|);
  }

  lemma OctalFound(n: nat, upper: bool, kind: Kind)
    requires n < TWO_63
    ensures ParseIntegral([48] + Digits(n, 8, upper), 0, kind).value == n
  {
    hide Digits, AllDigits, Numeral, DigitEnd, SpaceEnd;
    var digits := Digits(n, 8, upper);
    var text := [DIGIT_0] + digits;
    DigitsDenote(n, 8, upper);
    LeadingZeros(1, digits, 8);
    BodyDigits(1, digits, 8);
    assert Repeat(DIGIT_0, 1) == [DIGIT_0] && text[0..] == text;
    DigitsToTheEnd(text, 0, 8);
    NoBlanksFirst(text);
    assert text[1] == digits[0] && IsDigit(digits[0], 8) by { FirstOf(digits, 8); }
    assert SplitAt(text, 0, 0) == Split(false, 8, 0, |text|);
  }

  lemma FirstOf(digits: seq<byte>, base: nat)
    requires digits != [] && AllDigits(digits, base)
    ensures IsDigit(digits[0], base)
  {
  }

  lemma DecimalFound(n: nat, upper: bool, kind: Kind)
    requires 0 < n < TWO_63
    ensures ParseIntegral(Digits(n, 10, upper), 0, kind).value == n
  {
    hide Digits, AllDigits, Numeral, DigitEnd, SpaceEnd;
    var text := Digits(n, 10, upper);
    DigitsDenote(n, 10, upper);
    assert text[0..] == text;
    DigitsToTheEnd(text, 0, 10);
    NoBlanksFirst(text);
    NoLeadingZero(n, upper);
    assert SplitAt(text, 0, 0) == Split(false, 10, 0, |text|);
  }

  lemma {:induction false} NoLeadingZero(n: nat, upper: bool)
    requires n > 0
    ensures Digits(n, 10, upper)[0] != DIGIT_0
    decreases n
  {
    if n >= 10 {
      NoLeadingZero(n / 10, upper);
    }
  }

  lemma BareLayout(digits: seq<byte>)
    ensures Layout(0, [MINUS], 0, digits, 0) == [MINUS] + digits
  {
    assert Repeat(SPACE, 0) == [] == Repeat(DIGIT_0, 0);
  }

  // ----- Through guest memory ----------------------------------------------------------------------

  predicate CharAt(bytes: map<int, byte>, addr: int, c: byte)
  {
    addr in bytes && bytes[addr] == c && c != 0
  }

  lemma {:induction false} StoredTextScans(bytes: map<int, byte>, addr: u64, text: seq<byte>, max: nat)
    requires |text| <= max && addr + |text| <= U64_MAX
    requires forall i :: 0 <= i < |text| ==> CharAt(bytes, addr + i, text[i])
    requires addr + |text| in bytes && bytes[addr + |text|] == 0
    ensures ScanCString(bytes, addr, max).Some? && ScanCString(bytes, addr, max).value.bytes == text
    decreases |text|
  {
    if text != [] {
      assert CharAt(bytes, addr + 0, text[0]);
      forall i | 0 <= i < |text[1..]|
        ensures CharAt(bytes, addr + 1 + i, text[1..][i])
      {
        var j := i + 1;
        assert CharAt(bytes, addr + j, text[j]);
      }
      StoredTextScans(bytes, addr + 1, text[1..], max - 1);
      assert text == [text[0]] + text[1..];
    }
  }

  lemma NoNulInLayout(before: nat, prefix: seq<byte>, zeros: nat, digits: seq<byte>, after: nat, base: nat)
    requires IsPrefix(prefix) && AllDigits(digits, base)
    ensures 0 !in Layout(before, prefix, zeros, digits, after)
  {
    assert !IsDigit(0, base);
    assert 0 !in digits;
  }

  /** A guest that prints a long into a buffer and parses it back gets the value it started from, and errno 0. */
  method PrintThenParse(mem: GuestMemory, buffer: u64, arg: u64, field: Field) returns (r: Option<CallResult>)
    requires buffer + |RenderSigned(arg, 1, field)| <= U64_MAX
    requires |RenderSigned(arg, 1, field)| <= MAX_GUEST_STRING_BYTES
    requires mem.heap.Mapped(buffer, |RenderSigned(arg, 1, field)| + 1)
    modifies mem
    ensures r == Some(CallResult(arg, 0))
  {
    hide ScanCString, ParseIntegral, Layout, ApplyWidth, ApplyPrecision, Digits;
    var text := RenderSigned(arg, 1, field);
    SignedHasNoNul(arg, 1, field);
    var ok := mem.WriteMemory(buffer, text + [0]);
    StoredReads(old(mem.heap), buffer, text + [0]);
    ghost var bytes := mem.heap.bytes;
    forall i | 0 <= i < |text|
      ensures CharAt(bytes, buffer + i, text[i])
    {
      assert bytes[buffer + i] == (text + [0])[i];
    }
    assert bytes[buffer + |text|] == (text + [0])[|text|];
    StoredTextScans(bytes, buffer, text, MAX_GUEST_STRING_BYTES);
    SignedRoundTrip(arg, 1, field);
    r := StrtoIntegral(mem, buffer, 0, 10, Signed64);
  }

  lemma SignedHasNoNul(arg: u64, longCount: nat, field: Field)
    ensures forall i :: 0 <= i < |RenderSigned(arg, longCount, field)| ==> RenderSigned(arg, longCount, field)[i] != 0
  {
    var value := SignedArg(arg, longCount);
    var magnitude: nat := if value < 0 then -value else value;
    DigitsDenote(magnitude, 10, false);
    var before, zeros, after := RenderedLayout(SignText(value, field), Digits(magnitude, 10, false), 10, field);
    NoNulInLayout(before, SignText(value, field), zeros, Digits(magnitude, 10, false), after, 10);
  }
}
