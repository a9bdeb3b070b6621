/** The integer conversions of printf against section 7.21.6.1 of ISO C17. */
module PrintfAgainstC {
  import opened Machine
  import opened Strto
  import opened PrintfIntegers
  import opened PrintParse

  const PERCENT := 37
  const LETTER_O := 111

  /** The length modifiers of C's integer conversions. */
  datatype Length = NoLength | H | HH | L | LL | J | Z | T

  datatype Spec = Decimal | Unsigned | Hex(upper: bool) | Octal

  // ----- What the code prints --------------------------------------------------------------------

  /** What the renderer keeps of a length modifier: h and hh are skipped. */
  function LongCount(m: Length): nat
  {
    match m
    case LL => 2
    case L | J | Z | T => 1
    case NoLength | H | HH => 0
  }

  /** A conversion that the renderer does not know comes out as it stands, without its flags. */
  function Printed(arg: u64, m: Length, spec: Spec, field: Field): seq<byte>
  {
    match spec
    case Decimal => RenderSigned(arg, LongCount(m), field)
    case Unsigned => RenderUnsigned(arg, LongCount(m), field)
    case Hex(upper) => RenderHex(arg, LongCount(m), upper, field)
    case Octal => [PERCENT, LETTER_O]
  }

  // ----- What C asks for ---------------------------------------------------------------------------

  /** The number of values of the argument's type where int has 32 bits and long has 64. */
  function TypeSize(m: Length): nat
  {
    match m
    case HH => 0x100
    case H => 0x1_0000
    case NoLength => TWO_32
    case L | LL | J | Z | T => TWO_64
  }

  function CUnsignedArg(arg: u64, m: Length): nat
  {
    arg % TypeSize(m)
  }

  function CSignedArg(arg: u64, m: Length): int
  {
    var low := arg % TypeSize(m);
    if low < TypeSize(m) / 2 then low else low - TypeSize(m)
  }

  /** The characters of C's numerals, each at the place of its value. */
  const LOWER_HEX := "0123456789abcdef"
  const UPPER_HEX := "0123456789ABCDEF"

  function CLetter(d: nat, upper: bool): byte
    requires d < 16
  {
    if upper then UPPER_HEX[d] as int else LOWER_HEX[d] as int
  }

  function CNumeral(n: nat, base: nat, upper: bool): (s: seq<byte>)
    requires base == 8 || base == 10 || base == 16
    ensures s != []
  {
    if n < base then [CLetter(n, upper)] else CNumeral(n / base, base, upper) + [CLetter(n % base, upper)]
  }

  /** The sign: '-' of a negative number; else '+' if the flag asks for it, else a blank if that flag does. */
  function CSign(v: int, field: Field): seq<byte>
  {
    if v < 0 then [45] else if field.showSign then [43] else if field.leadingSpace then [32] else []
  }

  /** The prefix of the alternate form: 0x or 0X, before nonzero values only. */
  function CHexPrefix(v: nat, upper: bool, field: Field): seq<byte>
  {
    if !field.alternate || v == 0 then [] else if upper then [48, 88] else [48, 120]
  }

  /** At least as many digits as the precision, which is 1 by default; zero has none of its own. */
  function CDigits(value: nat, base: nat, upper: bool, precision: Option<nat>): seq<byte>
    requires base == 8 || base == 10 || base == 16
  {
    var digits := if value == 0 then [] else CNumeral(value, base, upper);
    var least := if precision.Some? then precision.value else 1;
    Repeat(DIGIT_0, SaturatingSub(least, |digits|)) + digits
  }

  /** In octal the alternate form makes sure that the first digit is a zero. */
  function COctalDigits(value: nat, field: Field): seq<byte>
  {
    var digits := CDigits(value, 8, false, field.precision);
    if field.alternate && (digits == [] || digits[0] != DIGIT_0) then [DIGIT_0] + digits else digits
  }

  /** Padding to the field width: blanks behind, zeros after the prefix, or blanks in front. */
  function CField(prefix: seq<byte>, digits: seq<byte>, field: Field): seq<byte>
  {
    var pad := if field.width.Some? then SaturatingSub(field.width.value, |prefix| + |digits|) else 0;
    if field.leftAlign then prefix + digits + Repeat(SPACE, pad)
    else if field.zeroPad && field.precision.None? then prefix + Repeat(DIGIT_0, pad) + digits
    else Repeat(SPACE, pad) + (prefix + digits)
  }

  function Magnitude(v: int): nat
  {
    if v < 0 then -v else v
  }

  function CPrinted(arg: u64, m: Length, spec: Spec, field: Field): seq<byte>
  {
    match spec
    case Decimal =>
      var v := CSignedArg(arg, m);
      CField(CSign(v, field), CDigits(Magnitude(v), 10, false, field.precision), field)
    case Unsigned => CField([], CDigits(CUnsignedArg(arg, m), 10, false, field.precision), field)
    case Hex(upper) =>
      var v := CUnsignedArg(arg, m);
      CField(CHexPrefix(v, upper, field), CDigits(v, 16, upper, field.precision), field)
    case Octal => CField([], COctalDigits(CUnsignedArg(arg, m), field), field)
  }

  // ----- The same characters -------------------------------------------------------------------------

  lemma {:induction false} NumeralsAgree(n: nat, base: nat, upper: bool)
    requires base == 8 || base == 10 || base == 16
    ensures Digits(n, base, upper) == CNumeral(n, base, upper)
    decreases n
  {
    hide DigitChar, CLetter;
    LettersAgree(n % base, upper);
    if n < base {
      assert n % base == n;
    } else {
      NumeralsAgree(n / base, base, upper);
    }
  }

  lemma LettersAgree(d: nat, upper: bool)
    requires d < 16
    ensures DigitChar(d, upper) == CLetter(d, upper)
  {
  }

  lemma SignsAgree(v: int, field: Field)
    ensures SignText(v, field) == CSign(v, field)
  {
  }

  lemma PrefixesAgree(v: nat, upper: bool, field: Field)
    ensures HexPrefix(v, upper, field) == CHexPrefix(v, upper, field)
  {
  }

  // ----- The same value ------------------------------------------------------------------------------

  /** What the code prints of a value. */
  function Rendering(prefix: seq<byte>, value: nat, base: nat, upper: bool, field: Field): seq<byte>
    requires base == 10 || base == 16
  {
    ApplyWidth(ApplyPrecision(prefix + Digits(value, base, upper), field), field)
  }

  predicate NoDigitsAsked(value: nat, field: Field)
  {
    value == 0 && field.precision == Some(0)
  }

  lemma CDigitsAre(value: nat, base: nat, upper: bool, field: Field)
    requires base == 10 || base == 16
    requires !NoDigitsAsked(value, field)
    ensures var digits := Digits(value, base, upper);
            CDigits(value, base, upper, field.precision)
            == Repeat(DIGIT_0, PrecisionZeros(field, |digits|)) + digits
  {
    NumeralsAgree(value, base, upper);
    if value == 0 {
      var least := if field.precision.Some? then field.precision.value else 1;
      assert Digits(0, base, upper) == [DIGIT_0];
      assert Repeat(DIGIT_0, least) == Repeat(DIGIT_0, least - 1) + [DIGIT_0];
      assert Repeat(DIGIT_0, least) + [] == Repeat(DIGIT_0, least);
    }
  }

  predicate HasDigit(text: seq<byte>)
  {
    exists i :: 0 <= i < |text| && IsDigit(text[i], 16)
  }

  /** Asked for no digits, C prints none. */
  lemma CPrintsNoDigit(prefix: seq<byte>, base: nat, upper: bool, field: Field)
    requires (base == 10 || base == 16) && field.precision == Some(0) && !HasDigit(prefix)
    ensures !HasDigit(CField(prefix, CDigits(0, base, upper, field.precision), field))
  {
    assert CDigits(0, base, upper, field.precision) == [];
    var text := CField(prefix, [], field);
    var pad := if field.width.Some? then SaturatingSub(field.width.value, |prefix|) else 0;
    assert prefix + [] == prefix;
    forall i | 0 <= i < |text|
      ensures !IsDigit(text[i], 16)
    {
      assert text[i] == SPACE || text[i] in prefix;
    }
  }

  /** The code always prints a digit. */
  lemma CodePrintsDigit(prefix: seq<byte>, value: nat, base: nat, upper: bool, field: Field)
    requires (base == 10 || base == 16) && IsPrefix(prefix)
    ensures HasDigit(Rendering(prefix, value, base, upper, field))
  {
    hide ApplyWidth, ApplyPrecision, Digits, Layout;
    var digits := Digits(value, base, upper);
    DigitsDenote(value, base, upper);
    var before, zeros, after := RenderedLayout(prefix, digits, base, field);
    LayoutAt(before, prefix, zeros, digits, after);
    var text, start, end := Layout(before, prefix, zeros, digits, after), before + |prefix|,
                            before + |prefix| + zeros + |digits|;
    assert text[start + zeros] == text[start..end][zeros] == digits[0];
    assert IsDigit(digits[0], base);
  }

  /** A rendering is C's for the same value exactly unless it is of zero with an explicit precision of zero. */
  lemma RenderingMatchesC(prefix: seq<byte>, value: nat, base: nat, upper: bool, field: Field)
    requires (base == 10 || base == 16) && IsPrefix(prefix) && (value == 0 ==> !HasDigit(prefix))
    ensures Rendering(prefix, value, base, upper, field)
            == CField(prefix, CDigits(value, base, upper, field.precision), field)
            <==> !NoDigitsAsked(value, field)
  {
    if NoDigitsAsked(value, field) {
      hide Rendering, CField, CDigits;
      CodePrintsDigit(prefix, value, base, upper, field);
      CPrintsNoDigit(prefix, base, upper, field);
    } else {
      hide Digits, ApplyPrecision, ApplyWidth, AllDigits, CDigits;
      var digits := Digits(value, base, upper);
      DigitsDenote(value, base, upper);
      BodyDigits(PrecisionZeros(field, |digits|), digits, base);
      PrecisionAddsZeros(prefix, digits, base, field);
      WidthAddsPadding(prefix, Repeat(DIGIT_0, PrecisionZeros(field, |digits|)) + digits, base, field);
      CDigitsAre(value, base, upper, field);
    }
  }

  // ----- The same type ---------------------------------------------------------------------------------

  /** The value that the code prints is one of the type that the length modifier names. */
  predicate Fits(arg: u64, m: Length, spec: Spec)
  {
    if spec.Decimal? then
      0 <= SignedArg(arg, LongCount(m)) + TypeSize(m) / 2 < TypeSize(m)
    else
      UnsignedArg(arg, LongCount(m)) < TypeSize(m)
  }

  /** Only h and hh can name a type that does not hold the value. */
  lemma FitsMeaning(arg: u64, m: Length, spec: Spec)
    ensures spec.Decimal? ==> (Fits(arg, m, spec) <==> SignedArg(arg, LongCount(m)) == CSignedArg(arg, m))
    ensures !spec.Decimal? ==> (Fits(arg, m, spec) <==> UnsignedArg(arg, LongCount(m)) == CUnsignedArg(arg, m))
    ensures !m.H? && !m.HH? ==> Fits(arg, m, spec)
  {
    SignedArgs(arg, m);
    hide SignedArg, CSignedArg;
    if m.H? {
      ShortPart(arg);
      Narrowed(arg % TWO_32, arg % 0x1_0000, 0x1_0000);
    } else if m.HH? {
      CharPart(arg);
      Narrowed(arg % TWO_32, arg % 0x100, 0x100);
    } else if m.NoLength? {
      Narrowed(arg % TWO_32, arg % TWO_32, TWO_32);
    } else {
      assert arg % TWO_64 == arg;
    }
  }

  lemma SignedArgs(arg: u64, m: Length)
    ensures SignedArg(arg, LongCount(m))
            == if LongCount(m) > 0 then AsSigned(arg, TWO_64) else AsSigned(arg % TWO_32, TWO_32)
    ensures CSignedArg(arg, m) == AsSigned(arg % TypeSize(m), TypeSize(m))
  {
  }

  /** A number of the given size read as signed. */
  function AsSigned(low: nat, size: nat): int
  {
    if low < size / 2 then low else low - size
  }

  /** A 32-bit number and its low part are the same signed number exactly if that lies in the smaller range. */
  lemma Narrowed(low: nat, part: nat, size: nat)
    requires low < TWO_32 && part < size && (size == 0x100 || size == 0x1_0000 || size == TWO_32)
    requires low < size <==> low == part
    requires low >= TWO_32 - size / 2 <==> low - TWO_32 == part - size && part >= size / 2
    ensures AsSigned(low, TWO_32) == AsSigned(part, size) <==> 0 <= AsSigned(low, TWO_32) + size / 2 < size
  {
  }

  /** The low 16 bits of a register, as part of its low 32. */
  lemma ShortPart(arg: u64)
    ensures arg % TWO_32 < 0x1_0000 <==> arg % TWO_32 == arg % 0x1_0000
    ensures arg % TWO_32 >= TWO_32 - 0x8000 <==>
            arg % TWO_32 - TWO_32 == arg % 0x1_0000 - 0x1_0000 && arg % 0x1_0000 >= 0x8000
  {
    var high, low := arg / TWO_32, arg % TWO_32;
    var middle, part := low / 0x1_0000, low % 0x1_0000;
    ShortPartRemainder(high * (TWO_32 / 0x1_0000) + middle, part);
    assert (high * (TWO_32 / 0x1_0000) + middle) * 0x1_0000 + part == arg;
  }

  lemma ShortPartRemainder(q: int, r: int)
    requires 0 <= r < 0x1_0000
    ensures (q * 0x1_0000 + r) % 0x1_0000 == r
  {
  }

  lemma CharPart(arg: u64)
    ensures arg % TWO_32 < 0x100 <==> arg % TWO_32 == arg % 0x100
    ensures arg % TWO_32 >= TWO_32 - 0x80 <==>
            arg % TWO_32 - TWO_32 == arg % 0x100 - 0x100 && arg % 0x100 >= 0x80
  {
    var high, low := arg / TWO_32, arg % TWO_32;
    var middle, part := low / 0x100, low % 0x100;
    CharPartRemainder(high * (TWO_32 / 0x100) + middle, part);
    assert (high * (TWO_32 / 0x100) + middle) * 0x100 + part == arg;
  }

  lemma CharPartRemainder(q: int, r: int)
    requires 0 <= r < 0x100
    ensures (q * 0x100 + r) % 0x100 == r
  {
  }

  /** The decimal rendering depends on the value alone. */
  lemma SignedRendering(arg: u64, longCount: nat, field: Field)
    ensures var v := SignedArg(arg, longCount);
            RenderSigned(arg, longCount, field) == Rendering(SignText(v, field), Magnitude(v), 10, false, field)
  {
  }

  lemma SignedDiffers(v: int, v': int, field: Field)
    requires -TWO_63 <= v < TWO_63 && -TWO_63 <= v' < TWO_63 && v != v'
    ensures Rendering(SignText(v, field), Magnitude(v), 10, false, field)
            != Rendering(SignText(v', field), Magnitude(v'), 10, false, field)
  {
    hide Rendering, RenderSigned;
    var a, b: u64 := v % TWO_64, v' % TWO_64;
    assert SignedArg(a, 1) == v && SignedArg(b, 1) == v';
    SignedRendering(a, 1, field);
    SignedRendering(b, 1, field);
    if RenderSigned(a, 1, field) == RenderSigned(b, 1, field) {
      SignedRenderingsDiffer(a, b, 1, field);
    }
  }

  lemma UnsignedDiffers(v: u64, v': u64, field: Field)
    requires v != v'
    ensures Rendering([], v, 10, false, field) != Rendering([], v', 10, false, field)
  {
    hide ApplyWidth, ApplyPrecision, Digits, ParseIntegral;
    UnsignedRoundTrip(v, 1, field);
    UnsignedRoundTrip(v', 1, field);
    assert [] + Digits(v, 10, false) == Digits(v, 10, false);
    assert [] + Digits(v', 10, false) == Digits(v', 10, false);
  }

  lemma HexDiffers(v: u64, v': u64, upper: bool, field: Field)
    requires v != v'
    ensures Rendering(HexPrefix(v, upper, field), v, 16, upper, field)
            != Rendering(HexPrefix(v', upper, field), v', 16, upper, field)
  {
    hide ApplyWidth, ApplyPrecision, Digits, ParseIntegral;
    HexRoundTrip(v, 1, upper, field);
    HexRoundTrip(v', 1, upper, field);
  }

  lemma DecimalMatchesC(arg: u64, m: Length, field: Field)
    ensures Printed(arg, m, Decimal, field) == CPrinted(arg, m, Decimal, field)
            <==> Fits(arg, m, Decimal) && !NoDigitsAsked(Magnitude(SignedArg(arg, LongCount(m))), field)
  {
    hide Rendering, CField, CDigits, RenderSigned;
    var v, v' := SignedArg(arg, LongCount(m)), CSignedArg(arg, m);
    SignedRendering(arg, LongCount(m), field);
    SignsAgree(v', field);
    FitsMeaning(arg, m, Decimal);
    RenderingMatchesC(SignText(v', field), Magnitude(v'), 10, false, field);
    if v != v' {
      SignedDiffers(v, v', field);
      CodePrintsDigit(SignText(v, field), Magnitude(v), 10, false, field);
      if NoDigitsAsked(Magnitude(v'), field) {
        CPrintsNoDigit(SignText(v', field), 10, false, field);
      }
    }
  }

  lemma UnsignedMatchesC(arg: u64, m: Length, field: Field)
    ensures Printed(arg, m, Unsigned, field) == CPrinted(arg, m, Unsigned, field)
            <==> Fits(arg, m, Unsigned) && !NoDigitsAsked(UnsignedArg(arg, LongCount(m)), field)
  {
    hide ApplyWidth, ApplyPrecision, Digits, CField, CDigits;
    var v, v' := UnsignedArg(arg, LongCount(m)), CUnsignedArg(arg, m);
    FitsMeaning(arg, m, Unsigned);
    assert [] + Digits(v, 10, false) == Digits(v, 10, false);
    assert Printed(arg, m, Unsigned, field) == Rendering([], v, 10, false, field);
    hide Rendering;
    RenderingMatchesC([], v', 10, false, field);
    if v != v' {
      UnsignedDiffers(v, v', field);
      CodePrintsDigit([], v, 10, false, field);
      if NoDigitsAsked(v', field) {
        CPrintsNoDigit([], 10, false, field);
      }
    }
  }

  lemma HexMatchesC(arg: u64, m: Length, upper: bool, field: Field)
    ensures Printed(arg, m, Hex(upper), field) == CPrinted(arg, m, Hex(upper), field)
            <==> Fits(arg, m, Hex(upper)) && !NoDigitsAsked(UnsignedArg(arg, LongCount(m)), field)
  {
    hide ApplyWidth, ApplyPrecision, Digits, CField, CDigits;
    var v, v' := UnsignedArg(arg, LongCount(m)), CUnsignedArg(arg, m);
    FitsMeaning(arg, m, Hex(upper));
    PrefixesAgree(v', upper, field);
    assert Printed(arg, m, Hex(upper), field) == Rendering(HexPrefix(v, upper, field), v, 16, upper, field);
    hide Rendering;
    RenderingMatchesC(HexPrefix(v', upper, field), v', 16, upper, field);
    if v != v' {
      HexDiffers(v, v', upper, field);
      CodePrintsDigit(HexPrefix(v, upper, field), v, 16, upper, field);
      if NoDigitsAsked(v', field) {
        CPrintsNoDigit(HexPrefix(v', upper, field), 16, upper, field);
      }
    }
  }

  /** Octal is never printed: C prints no percent sign there. */
  lemma OctalNeverMatches(arg: u64, m: Length, field: Field)
    ensures Printed(arg, m, Octal, field) != CPrinted(arg, m, Octal, field)
  {
    hide Digits;
    var value := CUnsignedArg(arg, m);
    DigitsDenote(value, 8, false);
    NumeralsAgree(value, 8, false);
    var digits := COctalDigits(value, field);
    forall i | 0 <= i < |digits|
      ensures digits[i] != PERCENT
    {
      assert digits[i] != DIGIT_0 ==> digits[i] in Digits(value, 8, false);
    }
    assert PERCENT !in CField([], digits, field);
    assert PERCENT in Printed(arg, m, Octal, field);
  }

  /** For every argument, length modifier, integer conversion and field: the code prints what C asks for exactly
      if the conversion is not octal, the value is one of the type that the modifier names, and it is not zero
      under an explicit precision of zero. */
  lemma IntegersMatchC(arg: u64, m: Length, spec: Spec, field: Field)
    ensures var value := if spec.Decimal? then Magnitude(SignedArg(arg, LongCount(m)))
                         else UnsignedArg(arg, LongCount(m));
            Printed(arg, m, spec, field) == CPrinted(arg, m, spec, field)
            <==> !spec.Octal? && Fits(arg, m, spec) && !(value == 0 && field.precision == Some(0))
  {
    hide Printed, CPrinted, Fits;
    match spec
    case Decimal => DecimalMatchesC(arg, m, field);
    case Unsigned => UnsignedMatchesC(arg, m, field);
    case Hex(upper) => HexMatchesC(arg, m, upper, field);
    case Octal => OctalNeverMatches(arg, m, field);
  }

  // ----- What a reader sees of the flags ---------------------------------------------------------------

  predicate Shows(text: seq<byte>, c: char)
  {
    exists i :: 0 <= i < |text| && text[i] == c as int
  }

  /** A character that is neither a blank nor a digit shows exactly if it is in the prefix. */
  lemma ShownIffInPrefix(prefix: seq<byte>, value: nat, base: nat, upper: bool, field: Field, c: char)
    requires (base == 10 || base == 16) && IsPrefix(prefix)
    requires c as int < 256 && c as int != SPACE && c as int != DIGIT_0 && !IsDigit(c as int, base)
    ensures Shows(Rendering(prefix, value, base, upper, field), c) <==> c as int in prefix
  {
    hide ApplyWidth, ApplyPrecision, Digits;
    var digits := Digits(value, base, upper);
    DigitsDenote(value, base, upper);
    var before, zeros, after := RenderedLayout(prefix, digits, base, field);
    LayoutAt(before, prefix, zeros, digits, after);
    var text := Layout(before, prefix, zeros, digits, after);
    if c as int in prefix {
      var i :| 0 <= i < |prefix| && prefix[i] == c as int;
      assert text[before + i] == c as int;
    }
    forall i | 0 <= i < |text| && text[i] == c as int
      ensures c as int in prefix
    {
      CharacterOf(before, prefix, zeros, digits, after, i);
    }
  }

  lemma CharacterOf(before: nat, prefix: seq<byte>, zeros: nat, digits: seq<byte>, after: nat, i: nat)
    requires i < |Layout(before, prefix, zeros, digits, after)|
    ensures var b := Layout(before, prefix, zeros, digits, after)[i];
            b == SPACE || b == DIGIT_0 || b in prefix || b in digits
  {
  }

  /** In a signed conversion '-' shows exactly for negative values, '+' exactly for others if the flag is given;
      without a field width and precision the text starts with the sign or the blank asked for, if any. */
  lemma SignShown(arg: u64, m: Length, field: Field)
    ensures var v, text := SignedArg(arg, LongCount(m)), Printed(arg, m, Decimal, field);
            && (Shows(text, '-') <==> v < 0)
            && (Shows(text, '+') <==> v >= 0 && field.showSign)
            && (field.width.None? && field.precision.None? ==>
                  (text[0] == ' ' as int <==> v >= 0 && !field.showSign && field.leadingSpace))
  {
    hide Rendering, RenderSigned;
    var v := SignedArg(arg, LongCount(m));
    SignedRendering(arg, LongCount(m), field);
    ShownIffInPrefix(SignText(v, field), Magnitude(v), 10, false, field, '-');
    ShownIffInPrefix(SignText(v, field), Magnitude(v), 10, false, field, '+');
    if field.width.None? && field.precision.None? {
      BareRendering(SignText(v, field), Magnitude(v), 10, false, field);
      DigitsDenote(Magnitude(v), 10, false);
      assert IsDigit(Digits(Magnitude(v), 10, false)[0], 10);
    }
  }

  lemma BareRendering(prefix: seq<byte>, value: nat, base: nat, upper: bool, field: Field)
    requires (base == 10 || base == 16) && field.width.None? && field.precision.None?
    ensures Rendering(prefix, value, base, upper, field) == prefix + Digits(value, base, upper)
  {
  }

  /** In a hexadecimal conversion an x shows exactly with the alternate flag and a nonzero value, and it and all
      letters have the case of the conversion. */
  lemma HexShown(arg: u64, m: Length, upper: bool, field: Field)
    ensures var v, text := UnsignedArg(arg, LongCount(m)), Printed(arg, m, Hex(upper), field);
            && (Shows(text, 'x') <==> !upper && field.alternate && v != 0)
            && (Shows(text, 'X') <==> upper && field.alternate && v != 0)
            && forall i :: 0 <= i < |text| ==>
                 if upper then !('a' as int <= text[i] <= 'z' as int) else !('A' as int <= text[i] <= 'Z' as int)
  {
    hide ApplyWidth, ApplyPrecision, Digits;
    var v := UnsignedArg(arg, LongCount(m));
    var prefix := HexPrefix(v, upper, field);
    assert Printed(arg, m, Hex(upper), field) == Rendering(prefix, v, 16, upper, field);
    ShownIffInPrefix(prefix, v, 16, upper, field, 'x');
    ShownIffInPrefix(prefix, v, 16, upper, field, 'X');
    var digits := Digits(v, 16, upper);
    DigitsDenote(v, 16, upper);
    LettersHaveCase(v, upper);
    var before, zeros, after := RenderedLayout(prefix, digits, 16, field);
    var text := Layout(before, prefix, zeros, digits, after);
    forall i | 0 <= i < |text|
      ensures if upper then !('a' as int <= text[i] <= 'z' as int) else !('A' as int <= text[i] <= 'Z' as int)
    {
      CharacterOf(before, prefix, zeros, digits, after, i);
    }
  }

  lemma {:induction false} LettersHaveCase(n: nat, upper: bool)
    ensures forall b :: b in Digits(n, 16, upper) ==>
              if upper then !('a' as int <= b <= 'z' as int) else !('A' as int <= b <= 'Z' as int)
    decreases n
  {
    if n >= 16 {
      LettersHaveCase(n / 16, upper);
    }
  }

  // ----- Failing inputs --------------------------------------------------------------------------------

  /** 70000 under a short modifier: the code prints all of it, C prints what a short holds, 4464. */
  lemma ShortModifierIgnored(field: Field)
    ensures SignedArg(70000, LongCount(H)) == 70000 && CSignedArg(70000, H) == 4464
    ensures Printed(70000, H, Decimal, field) != CPrinted(70000, H, Decimal, field)
  {
    hide Printed, CPrinted;
    DecimalMatchesC(70000, H, field);
  }

  /** Zero under precision zero: the code prints a digit, C prints none. */
  lemma ZeroDigitPrinted(m: Length, field: Field)
    requires field.precision == Some(0)
    ensures HasDigit(Printed(0, m, Decimal, field)) && !HasDigit(CPrinted(0, m, Decimal, field))
  {
    hide Rendering, CField, CDigits, RenderSigned;
    SignedRendering(0, LongCount(m), field);
    CodePrintsDigit(SignText(0, field), 0, 10, false, field);
    CPrintsNoDigit(SignText(0, field), 10, false, field);
  }
}
