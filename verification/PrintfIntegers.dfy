/** The integer conversions of the guest printf: digits, precision and field width. */
module PrintfIntegers {
  import opened Machine
  import opened Strto

  datatype Field = Field(
    alternate: bool,
    zeroPad: bool,
    leftAlign: bool,
    showSign: bool,
    leadingSpace: bool,
    width: Option<nat>,
    precision: Option<nat>)

  function DigitChar(d: nat, upper: bool): byte
    requires d < 16
  {
    if d < 10 then DIGIT_0 + d else (if upper then 65 else 97) + (d - 10)
  }

  /** The numeral of n, most significant digit first. */
  function Digits(n: nat, base: nat, upper: bool): (s: seq<byte>)
    requires base == 8 || base == 10 || base == 16
    ensures s != []
  {
    if n < base then [DigitChar(n, upper)] else Digits(n / base, base, upper) + [DigitChar(n % base, upper)]
  }

  function Repeat(b: byte, n: nat): (s: seq<byte>)
    ensures |s| == n && forall i :: 0 <= i < n ==> s[i] == b
  {
    seq(n, _ => b)
  }

  /** The length of a sign or of a hexadecimal prefix. */
  function PrefixLen(text: seq<byte>): (k: nat)
    ensures k <= |text|
  {
    if text != [] && (text[0] == MINUS || text[0] == PLUS || text[0] == SPACE) then 1
    else if |text| >= 2 && text[0] == DIGIT_0 && (text[1] == LOWER_X || text[1] == UPPER_X) then 2
    else 0
  }

  function ApplyPrecision(text: seq<byte>, field: Field): seq<byte>
  {
    if field.precision.None? then text
    else
      var prefixLen := PrefixLen(text);
      var digitLen := |text| - prefixLen;
      if digitLen >= field.precision.value then text
      else text[..prefixLen] + Repeat(DIGIT_0, field.precision.value - digitLen) + text[prefixLen..]
  }

  function ApplyWidth(text: seq<byte>, field: Field): seq<byte>
  {
    if field.width.None? || |text| >= field.width.value then text
    else
      var padLen := field.width.value - |text|;
      if field.leftAlign then text + Repeat(SPACE, padLen)
      else if field.zeroPad && field.precision.None? then
        var prefixLen := PrefixLen(text);
        text[..prefixLen] + Repeat(DIGIT_0, padLen) + text[prefixLen..]
      else Repeat(SPACE, padLen) + text
  }

  /** The value a signed conversion prints: all 64 bits, or the low 32 without a length modifier. */
  function SignedArg(arg: u64, longCount: nat): int
  {
    if longCount > 0 then (if arg < TWO_63 then arg else arg - TWO_64)
    else
      var low := arg % TWO_32;
      if low < 0x8000_0000 then low else low - TWO_32
  }

  function UnsignedArg(arg: u64, longCount: nat): nat
  {
    if longCount > 0 then arg else arg % TWO_32
  }

  function SignText(value: int, field: Field): seq<byte>
  {
    if value < 0 then [MINUS]
    else if field.showSign then [PLUS]
    else if field.leadingSpace then [SPACE]
    else []
  }

  function RenderSigned(arg: u64, longCount: nat, field: Field): seq<byte>
  {
    var value := SignedArg(arg, longCount);
    var rendered := SignText(value, field) + Digits(if value < 0 then -value else value, 10, false);
    ApplyWidth(ApplyPrecision(rendered, field), field)
  }

  function RenderUnsigned(arg: u64, longCount: nat, field: Field): seq<byte>
  {
    ApplyWidth(ApplyPrecision(Digits(UnsignedArg(arg, longCount), 10, false), field), field)
  }

  function HexPrefix(value: nat, upper: bool, field: Field): seq<byte>
  {
    if field.alternate && value != 0 then [DIGIT_0, if upper then UPPER_X else LOWER_X] else []
  }

  function RenderHex(arg: u64, longCount: nat, upper: bool, field: Field): seq<byte>
  {
    var value := UnsignedArg(arg, longCount);
    ApplyWidth(ApplyPrecision(HexPrefix(value, upper, field) + Digits(value, 16, upper), field), field)
  }

  // ----- Numerals read back -------------------------------------------------------------------

  lemma DigitCharParses(d: nat, base: nat, upper: bool)
    requires (base == 8 || base == 10 || base == 16) && d < base
    ensures ParseDigit(DigitChar(d, upper)) == Some(d) && IsDigit(DigitChar(d, upper), base)
  {
  }

  /** A numeral consists of digits and denotes its number. */
  lemma {:induction false} DigitsDenote(n: nat, base: nat, upper: bool)
    requires base == 8 || base == 10 || base == 16
    ensures AllDigits(Digits(n, base, upper), base)
    ensures Numeral(Digits(n, base, upper), base) == n
  {
    var s := Digits(n, base, upper);
    DigitCharParses(n % base, base, upper);
    if n < base {
      assert s[..0] == [];
    } else {
      DigitsDenote(n / base, base, upper);
      assert s[..|s| - 1] == Digits(n / base, base, upper);
      assert n / base * base + n % base == n;
    }
  }

  /** Leading zeros do not change what a numeral denotes. */
  lemma {:induction false} LeadingZeros(z: nat, s: seq<byte>, base: nat)
    requires 2 <= base
    ensures Numeral(Repeat(DIGIT_0, z) + s, base) == Numeral(s, base)
    decreases |s|, z
  {
    var text := Repeat(DIGIT_0, z) + s;
    if s != [] {
      LeadingZeros(z, s[..|s| - 1], base);
      assert text[..|text| - 1] == Repeat(DIGIT_0, z) + s[..|s| - 1];
    } else if z > 0 {
      LeadingZeros(z - 1, s, base);
      assert text[..|text| - 1] == Repeat(DIGIT_0, z - 1) + s;
    }
  }

  // ----- The layout of every rendering ----------------------------------------------------------

  /** Blanks, a prefix, zeros, digits, blanks. */
  function Layout(before: nat, prefix: seq<byte>, zeros: nat, digits: seq<byte>, after: nat): seq<byte>
  {
    Repeat(SPACE, before) + prefix + Repeat(DIGIT_0, zeros) + digits + Repeat(SPACE, after)
  }

  predicate IsPrefix(prefix: seq<byte>)
  {
    prefix == [] || prefix == [MINUS] || prefix == [PLUS] || prefix == [SPACE]
    || prefix == [DIGIT_0, LOWER_X] || prefix == [DIGIT_0, UPPER_X]
  }

  lemma PrefixFound(prefix: seq<byte>, digits: seq<byte>, base: nat)
    requires IsPrefix(prefix) && digits != [] && base <= 16 && AllDigits(digits, base)
    ensures PrefixLen(prefix + digits) == |prefix|
  {
    assert IsDigit(digits[0], base);
    if |digits| > 1 {
      assert IsDigit(digits[1], base);
    }
  }

  function PrecisionZeros(field: Field, digitLen: nat): nat
  {
    if field.precision.Some? then SaturatingSub(field.precision.value, digitLen) else 0
  }

  lemma PrecisionAddsZeros(prefix: seq<byte>, digits: seq<byte>, base: nat, field: Field)
    requires IsPrefix(prefix) && digits != [] && base <= 16 && AllDigits(digits, base)
    ensures ApplyPrecision(prefix + digits, field)
            == prefix + (Repeat(DIGIT_0, PrecisionZeros(field, |digits|)) + digits)
  {
    hide PrefixLen, AllDigits;
    PrefixFound(prefix, digits, base);
    var text := prefix + digits;
    var zeros := Repeat(DIGIT_0, PrecisionZeros(field, |digits|));
    assert text[..|prefix|] == prefix && text[|prefix|..] == digits;
    if zeros == [] {
      assert zeros + digits == digits;
    } else {
      assert prefix + zeros + digits == prefix + (zeros + digits);
    }
  }

  lemma WidthAddsPadding(prefix: seq<byte>, body: seq<byte>, base: nat, field: Field)
    requires IsPrefix(prefix) && body != [] && base <= 16 && AllDigits(body, base)
    ensures var pad := if field.width.Some? then SaturatingSub(field.width.value, |prefix| + |body|) else 0;
            ApplyWidth(prefix + body, field) ==
            if field.leftAlign then prefix + body + Repeat(SPACE, pad)
            else if field.zeroPad && field.precision.None? then prefix + Repeat(DIGIT_0, pad) + body
            else Repeat(SPACE, pad) + (prefix + body)
  {
    hide PrefixLen, AllDigits;
    PrefixFound(prefix, body, base);
    var text := prefix + body;
    assert text[..|prefix|] == prefix && text[|prefix|..] == body;
    var pad := if field.width.Some? then SaturatingSub(field.width.value, |text|) else 0;
    if pad == 0 {
      assert text + Repeat(SPACE, 0) == text;
      assert prefix + Repeat(DIGIT_0, 0) + body == text;
      assert Repeat(SPACE, 0) + text == text;
    }
  }

  lemma BodyDigits(zeros: nat, digits: seq<byte>, base: nat)
    requires 1 <= base && AllDigits(digits, base)
    ensures AllDigits(Repeat(DIGIT_0, zeros) + digits, base)
  {
  }

  lemma LayoutCases(prefix: seq<byte>, zeros: nat, digits: seq<byte>, pad: nat)
    ensures Layout(0, prefix, zeros, digits, pad) == prefix + (Repeat(DIGIT_0, zeros) + digits) + Repeat(SPACE, pad)
    ensures Layout(0, prefix, zeros, digits, 0) == prefix + Repeat(DIGIT_0, zeros) + digits
    ensures Layout(pad, prefix, zeros, digits, 0) == Repeat(SPACE, pad) + (prefix + (Repeat(DIGIT_0, zeros) + digits))
  {
    assert Repeat(SPACE, 0) == [];
    assert Layout(pad, prefix, zeros, digits, 0) == Repeat(SPACE, pad) + prefix + Repeat(DIGIT_0, zeros) + digits;
    assert Layout(0, prefix, zeros, digits, pad)
           == prefix + Repeat(DIGIT_0, zeros) + digits + Repeat(SPACE, pad);
  }

  /** Precision and width only add zeros after the prefix and blanks around the whole, up to the width asked for. */
  lemma RenderedLayout(prefix: seq<byte>, digits: seq<byte>, base: nat, field: Field)
    returns (before: nat, zeros: nat, after: nat)
    requires IsPrefix(prefix) && digits != [] && 1 <= base <= 16 && AllDigits(digits, base)
    ensures ApplyWidth(ApplyPrecision(prefix + digits, field), field) == Layout(before, prefix, zeros, digits, after)
    ensures field.precision.Some? ==> zeros == PrecisionZeros(field, |digits|)
    ensures before + |prefix| + zeros + |digits| + after ==
            Max(if field.width.Some? then field.width.value else 0,
                |prefix| + PrecisionZeros(field, |digits|) + |digits|)
    ensures field.leftAlign ==> before == 0
    ensures !field.leftAlign ==> after == 0
    ensures field.zeroPad && field.precision.None? && !field.leftAlign ==> before == 0
  {
    hide ApplyPrecision, ApplyWidth, Layout, AllDigits;
    BodyDigits(PrecisionZeros(field, |digits|), digits, base);
    PrecisionAddsZeros(prefix, digits, base, field);
    zeros := PrecisionZeros(field, |digits|);
    var body := Repeat(DIGIT_0, zeros) + digits;
    WidthAddsPadding(prefix, body, base, field);
    var pad := if field.width.Some? then SaturatingSub(field.width.value, |prefix| + |body|) else 0;
    before, after := 0, 0;
    if field.leftAlign {
      after := pad;
    } else if field.zeroPad && field.precision.None? {
      assert body == digits;
      zeros := pad;
    } else {
      before := pad;
    }
    LayoutCases(prefix, zeros, digits, pad);
  }
}
