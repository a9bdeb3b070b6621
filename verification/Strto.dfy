/** strtol, strtoul and friends over guest strings, against section 7.22.1.4 of ISO C17. */
module Strto {
  import opened Machine
  import opened Memory
  import opened CStringReader

  datatype Kind = Signed64 | Unsigned64

  datatype CallResult = CallResult(returnValue: u64, errno: nat)

  const ERANGE := 34

  const VERTICAL_TAB := 11
  const SPACE := 32
  const PLUS := 43
  const MINUS := 45
  const DIGIT_0 := 48
  const UPPER_X := 88
  const LOWER_X := 120

  // ----- Characters -------------------------------------------------------------------------

  /** Space, tab, line feed, form feed and carriage return. */
  predicate IsAsciiWhitespace(b: byte)
  {
    b == SPACE || b == 9 || b == 10 || b == 12 || b == 13
  }

  /** isspace of the C locale: blank, and the five control characters from tab to carriage return. */
  predicate IsCSpace(b: byte)
  {
    b == 32 || 9 <= b <= 13
  }

  /** The code skips C's white space except for the vertical tab. */
  lemma AllButVerticalTab(b: byte)
    ensures IsAsciiWhitespace(b) <==> IsCSpace(b) && b != 11
  {
  }

  function ParseDigit(b: byte): Option<nat>
  {
    if 48 <= b <= 57 then Some(b - 48)
    else if 97 <= b <= 122 then Some(b - 97 + 10)
    else if 65 <= b <= 90 then Some(b - 65 + 10)
    else None
  }

  /** The digits and letters of C, each at the place of its value. */
  const LOWER_DIGITS := "0123456789abcdefghijklmnopqrstuvwxyz"
  const UPPER_DIGITS := "0123456789ABCDEFGHIJKLMNOPQRSTUVWXYZ"

  /** A byte has a value exactly if it is one of these, in either case, and then its place is the value. */
  lemma DigitsAreCs(b: byte, v: nat)
    ensures ParseDigit(b) == Some(v)
            <==> v < 36 && (LOWER_DIGITS[v] as int == b || UPPER_DIGITS[v] as int == b)
  {
    if v < 36 {
      DigitPlaces(v);
    }
  }

  lemma DigitPlaces(v: nat)
    requires v < 36
    ensures LOWER_DIGITS[v] as int == if v < 10 then 48 + v else 97 + (v - 10)
    ensures UPPER_DIGITS[v] as int == if v < 10 then 48 + v else 65 + (v - 10)
  {
  }

  predicate IsDigit(b: byte, base: nat)
  {
    ParseDigit(b).Some? && ParseDigit(b).value < base
  }

  predicate AllDigits(s: seq<byte>, base: nat)
  {
    forall i :: 0 <= i < |s| ==> IsDigit(s[i], base)
  }

  function Numeral(s: seq<byte>, base: nat): nat
  {
    if s == [] then 0
    else
      var last := ParseDigit(s[|s| - 1]);
      Numeral(s[..|s| - 1], base) * base + if last.Some? then last.value else 0
  }

  // ----- The subject sequence ---------------------------------------------------------------

  predicate IsSign(b: byte)
  {
    b == PLUS || b == MINUS
  }

  /** 0x and at least one hexadecimal digit. */
  predicate HexForm(s: seq<byte>)
  {
    |s| >= 3 && s[0] == DIGIT_0 && (s[1] == LOWER_X || s[1] == UPPER_X) && AllDigits(s[2..], 16)
  }

  /** An integer constant without suffix, or a string of digits of the given base. */
  predicate UnsignedForm(s: seq<byte>, base: nat)
  {
    s != [] &&
    if base == 0 then
      HexForm(s) || AllDigits(s, if s[0] == DIGIT_0 then 8 else 10)
    else
      AllDigits(s, base) || (base == 16 && HexForm(s))
  }

  /** The expected form of the subject sequence: an optional sign and an unsigned form. */
  predicate SubjectForm(s: seq<byte>, base: nat)
  {
    s != [] && if IsSign(s[0]) then UnsignedForm(s[1..], base) else UnsignedForm(s, base)
  }

  function UnsignedValue(s: seq<byte>, base: nat): nat
    requires UnsignedForm(s, base)
  {
    if (base == 0 || base == 16) && HexForm(s) then Numeral(s[2..], 16)
    else if base == 0 then Numeral(s, if s[0] == DIGIT_0 then 8 else 10)
    else Numeral(s, base)
  }

  function WithSign(negative: bool, magnitude: int): int
  {
    if negative then -magnitude else magnitude
  }

  /** The integer a subject sequence denotes. */
  function SubjectValue(s: seq<byte>, base: nat): int
    requires SubjectForm(s, base)
  {
    WithSign(s[0] == MINUS, UnsignedValue(if IsSign(s[0]) then s[1..] else s, base))
  }

  // ----- Finding the subject ------------------------------------------------------------------

  predicate ValidBase(base: nat)
  {
    base == 0 || 2 <= base <= 36
  }

  function DigitEnd(text: seq<byte>, from: nat, base: nat): (end: nat)
    requires from <= |text|
    ensures from <= end <= |text|
    ensures AllDigits(text[from..end], base)
    ensures end < |text| ==> !IsDigit(text[end], base)
    decreases |text| - from
  {
    if from < |text| && IsDigit(text[from], base) then
      var end := DigitEnd(text, from + 1, base);
      assert text[from..end] == [text[from]] + text[from + 1..end];
      end
    else from
  }

  function SpaceEnd(text: seq<byte>, from: nat, isSpace: byte -> bool): (end: nat)
    requires from <= |text|
    ensures from <= end <= |text|
    ensures forall i :: from <= i < end ==> isSpace(text[i])
    ensures end < |text| ==> !isSpace(text[end])
    decreases |text| - from
  {
    if from < |text| && isSpace(text[from]) then SpaceEnd(text, from + 1, isSpace) else from
  }

  predicate HexPrefixAt(text: seq<byte>, i: nat)
  {
    && i + 2 < |text|
    && text[i] == DIGIT_0 && (text[i + 1] == LOWER_X || text[i + 1] == UPPER_X) && IsDigit(text[i + 2], 16)
  }

  /** How a text is split after its leading white space: sign, radix, and the range of its digits. */
  datatype Split = Split(negative: bool, radix: nat, start: nat, end: nat)

  function SplitAt(text: seq<byte>, i: nat, base: nat): (r: Split)
    requires i <= |text| && ValidBase(base)
    ensures i <= r.start <= r.end <= |text|
    ensures 2 <= r.radix <= 36
  {
    var j := if i < |text| && IsSign(text[i]) then i + 1 else i;
    var negative := i < |text| && text[i] == MINUS;
    var hex := (base == 0 || base == 16) && HexPrefixAt(text, j);
    var radix :=
      if hex then 16
      else if base != 0 then base
      else if j < |text| && text[j] == DIGIT_0 then 8
      else 10;
    var start := if hex then j + 2 else j;
    Split(negative, radix, start, DigitEnd(text, start, radix))
  }

  lemma NotDigits()
    ensures forall base :: !IsDigit(PLUS, base) && !IsDigit(MINUS, base)
    ensures !IsDigit(LOWER_X, 16) && !IsDigit(UPPER_X, 16)
    ensures !IsDigit(LOWER_X, 10) && !IsDigit(UPPER_X, 10)
    ensures !IsDigit(LOWER_X, 8) && !IsDigit(UPPER_X, 8)
  {
  }

  lemma DigitsStopAt(text: seq<byte>, from: nat, base: nat, end: nat)
    requires from <= end <= |text| && AllDigits(text[from..end], base)
    ensures end <= DigitEnd(text, from, base)
  {
    assert forall i :: from <= i < end ==> text[from..end][i - from] == text[i];
  }

  /** No unsigned form at j reaches beyond the digits found there. */
  lemma UnsignedFormEndsBy(text: seq<byte>, j: nat, base: nat, end: nat)
    requires j <= end <= |text| && ValidBase(base)
    requires UnsignedForm(text[j..end], base)
    ensures var hex := (base == 0 || base == 16) && HexPrefixAt(text, j);
            var start := if hex then j + 2 else j;
            var radix := if hex then 16 else if base != 0 then base else if text[j] == DIGIT_0 then 8 else 10;
            start < end <= DigitEnd(text, start, radix) || (hex && end == j + 1)
  {
    var s := text[j..end];
    NotDigits();
    if (base == 0 || base == 16) && HexForm(s) {
      assert s[2..][0] == text[j + 2];
      assert text[j + 2..end] == s[2..];
      DigitsStopAt(text, j + 2, 16, end);
    } else {
      var radix := if base != 0 then base else if text[j] == DIGIT_0 then 8 else 10;
      DigitsStopAt(text, j, radix, end);
      assert end > j + 1 ==> s[1] == text[j + 1];
    }
  }

  /** The split finds the longest prefix of the expected form, and its value; or there is none. */
  lemma SplitIsLongest(text: seq<byte>, i: nat, base: nat)
    requires i <= |text| && ValidBase(base)
    ensures var r := SplitAt(text, i, base);
            if r.start < r.end then
              && SubjectForm(text[i..r.end], base)
              && SubjectValue(text[i..r.end], base)
                 == WithSign(r.negative, Numeral(text[r.start..r.end], r.radix))
              && forall end :: r.end < end <= |text| ==> !SubjectForm(text[i..end], base)
            else
              forall end :: i <= end <= |text| ==> !SubjectForm(text[i..end], base)
  {
    var r := SplitAt(text, i, base);
    var j := if i < |text| && IsSign(text[i]) then i + 1 else i;
    NotDigits();
    if r.start < r.end {
      SplitHasForm(text, i, base);
    }
    forall end | i <= end <= |text| && SubjectForm(text[i..end], base)
      ensures r.start < r.end && end <= r.end
    {
      assert text[i..end][0] == text[i];
      if IsSign(text[i]) {
        assert text[i..end][1..] == text[j..end];
      }
      UnsignedFormEndsBy(text, j, base, end);
    }
  }

  lemma SplitHasForm(text: seq<byte>, i: nat, base: nat)
    requires i <= |text| && ValidBase(base)
    requires SplitAt(text, i, base).start < SplitAt(text, i, base).end
    ensures var r := SplitAt(text, i, base);
            && SubjectForm(text[i..r.end], base)
            && SubjectValue(text[i..r.end], base)
               == WithSign(r.negative, Numeral(text[r.start..r.end], r.radix))
  {
    var r := SplitAt(text, i, base);
    var j := if i < |text| && IsSign(text[i]) then i + 1 else i;
    var s := text[j..r.end];
    NotDigits();
    if (base == 0 || base == 16) && HexPrefixAt(text, j) {
      assert s[2..] == text[r.start..r.end];
      assert HexForm(s);
    } else {
      assert s == text[r.start..r.end];
      assert IsDigit(s[0], r.radix);
      assert |s| > 1 ==> IsDigit(s[1], r.radix);
    }
    assert text[i..r.end][0] == text[i];
    if j == i + 1 {
      assert text[i..r.end][1..] == s;
    } else {
      assert text[i..r.end] == s;
    }
  }

  // ----- The result -----------------------------------------------------------------------------

  function Limit(kind: Kind, negative: bool): nat
  {
    match kind
    case Signed64 => if negative then TWO_63 else TWO_63 - 1
    case Unsigned64 => U64_MAX
  }

  /** What the proxy answers for a magnitude: its register value and whether it reports ERANGE. */
  function Outcome(kind: Kind, negative: bool, magnitude: nat): (u64, bool)
  {
    var limit := Limit(kind, negative);
    var value := Min(magnitude, limit);
    (if negative then (TWO_64 - value) % TWO_64 else value, magnitude > limit)
  }

  function Clamp(v: int, lo: int, hi: int): int
  {
    if v < lo then lo else if v > hi then hi else v
  }

  /** What C asks for: the value converted, or the nearest limit with ERANGE when it is not representable. */
  function CConverted(kind: Kind, negative: bool, magnitude: nat): (u64, bool)
  {
    var v := WithSign(negative, magnitude);
    match kind
    case Signed64 => (Clamp(v, -TWO_63, TWO_63 - 1) % TWO_64, v < -TWO_63 || v > TWO_63 - 1)
    case Unsigned64 => if magnitude > U64_MAX then (U64_MAX, true) else (v % TWO_64, false)
  }

  /** The proxy clamps as C does, except for negative magnitudes beyond the unsigned range. */
  lemma OutcomeMatchesC(kind: Kind, negative: bool, magnitude: nat)
    ensures Outcome(kind, negative, magnitude) == CConverted(kind, negative, magnitude)
            <==> !(kind.Unsigned64? && negative && magnitude > U64_MAX)
  {
    if kind.Unsigned64? && negative && magnitude > U64_MAX {
      assert Outcome(kind, negative, magnitude).0 == 1;
    }
  }

  datatype Conversion = Conversion(value: u64, erange: bool, end: nat)

  const NO_CONVERSION := Conversion(0, false, 0)

  function Convert(text: seq<byte>, base: nat, from: nat, result: (bool, nat) -> (u64, bool)): Conversion
    requires ValidBase(base) && from <= |text|
  {
    var r := SplitAt(text, from, base);
    if r.start == r.end then NO_CONVERSION
    else
      var (value, erange) := result(r.negative, Numeral(text[r.start..r.end], r.radix));
      Conversion(value, erange, r.end)
  }

  /** The proxy's conversion of a text. */
  function ParseIntegral(text: seq<byte>, base: nat, kind: Kind): Conversion
    requires ValidBase(base)
  {
    Convert(text, base, SpaceEnd(text, 0, IsAsciiWhitespace), (negative, m) => Outcome(kind, negative, m))
  }

  /** The conversion C asks for. */
  function CParseIntegral(text: seq<byte>, base: nat, kind: Kind): Conversion
    requires ValidBase(base)
  {
    Convert(text, base, SpaceEnd(text, 0, IsCSpace), (negative, m) => CConverted(kind, negative, m))
  }

  /** The conversion C asks for, in C's own terms: white space, then the longest subject sequence of the expected
      form, then its value, or the limit nearest to it with ERANGE; without a subject sequence nothing. */
  lemma CParseMeaning(text: seq<byte>, base: nat, kind: Kind, i: nat, end: nat)
    requires ValidBase(base)
    requires i <= end <= |text|
    requires (forall j :: 0 <= j < i ==> IsCSpace(text[j])) && (i < |text| ==> !IsCSpace(text[i]))
    ensures var c := CParseIntegral(text, base, kind);
            && ((forall e :: i <= e <= |text| ==> !SubjectForm(text[i..e], base)) ==>
                  c.value == 0 && !c.erange && c.end == 0)
            && (SubjectForm(text[i..end], base)
                && (forall e :: end < e <= |text| ==> !SubjectForm(text[i..e], base)) ==>
                  var v := SubjectValue(text[i..end], base);
                  && c.end == end
                  && if kind.Signed64? then SignedResult(c, v) else UnsignedResult(c, v))
  {
    hide SubjectForm, SubjectValue, Numeral, DigitEnd;
    SpacesEndAt(text, 0, i);
    SplitIsLongest(text, i, base);
    var r := CSplit(text, base);
    if SubjectForm(text[i..end], base) && forall e :: end < e <= |text| ==> !SubjectForm(text[i..e], base) {
      assert r.start < r.end && r.end == end;
    }
  }

  lemma {:induction false} SpacesEndAt(text: seq<byte>, from: nat, i: nat)
    requires from <= i <= |text|
    requires (forall j :: from <= j < i ==> IsCSpace(text[j])) && (i < |text| ==> !IsCSpace(text[i]))
    ensures SpaceEnd(text, from, IsCSpace) == i
    decreases i - from
  {
    if from < i {
      SpacesEndAt(text, from + 1, i);
    }
  }

  /** A long: the value itself in two's complement, or the nearest limit. */
  predicate SignedResult(c: Conversion, v: int)
  {
    if v > 0x7FFF_FFFF_FFFF_FFFF then c.value == 0x7FFF_FFFF_FFFF_FFFF && c.erange
    else if v < -0x8000_0000_0000_0000 then c.value == 0x8000_0000_0000_0000 && c.erange
    else !c.erange && c.value == (if v < 0 then v + 0x1_0000_0000_0000_0000 else v)
  }

  /** An unsigned long: the value, negated if it had a minus sign, or the limit if its magnitude is too large. */
  predicate UnsignedResult(c: Conversion, v: int)
  {
    if v > U64_MAX || v < -U64_MAX then c.value == 0xFFFF_FFFF_FFFF_FFFF && c.erange
    else !c.erange && c.value == (if v < 0 then v + 0x1_0000_0000_0000_0000 else v)
  }

  /** The white space the proxy skips ends at a vertical tab. */
  predicate StopsAtVerticalTab(text: seq<byte>)
  {
    var i := SpaceEnd(text, 0, IsAsciiWhitespace);
    i < |text| && text[i] == VERTICAL_TAB
  }

  lemma {:induction false} SameSpaces(text: seq<byte>, from: nat)
    requires from <= |text|
    requires var i := SpaceEnd(text, from, IsAsciiWhitespace); i < |text| ==> text[i] != VERTICAL_TAB
    ensures SpaceEnd(text, from, IsCSpace) == SpaceEnd(text, from, IsAsciiWhitespace)
    decreases |text| - from
  {
    if from < |text| && IsAsciiWhitespace(text[from]) {
      SameSpaces(text, from + 1);
    }
  }

  /** The text, after C's white space, has a sign, a magnitude and a subject. */
  function CSplit(text: seq<byte>, base: nat): (r: Split)
    requires ValidBase(base)
    ensures r.start <= r.end <= |text|
  {
    SplitAt(text, SpaceEnd(text, 0, IsCSpace), base)
  }

  /** A vertical tab stands in front of the number, or it is unsigned with a minus sign before 2^64 or more. */
  predicate Departs(text: seq<byte>, base: nat, kind: Kind)
    requires ValidBase(base)
  {
    var r := CSplit(text, base);
    StopsAtVerticalTab(text)
    || (kind.Unsigned64? && r.negative && Numeral(text[r.start..r.end], r.radix) > U64_MAX)
  }

  /** For every text read and every base: the proxy converts it as C does, exactly if there is no number or
      neither departure. */
  lemma ParseMatchesC(text: seq<byte>, base: nat, kind: Kind)
    requires ValidBase(base)
    ensures var r := CSplit(text, base);
            ParseIntegral(text, base, kind) == CParseIntegral(text, base, kind)
            <==> r.start == r.end || !Departs(text, base, kind)
  {
    var i := SpaceEnd(text, 0, IsAsciiWhitespace);
    var r := CSplit(text, base);
    if StopsAtVerticalTab(text) {
      assert SplitAt(text, i, base).start == SplitAt(text, i, base).end;
    } else {
      SameSpaces(text, 0);
      OutcomeMatchesC(kind, r.negative, Numeral(text[r.start..r.end], r.radix));
    }
  }

  // ----- What the import reads ---------------------------------------------------------------------

  /** The C string at an address: its bytes up to the NUL, however many. */
  ghost predicate CStringAt(bytes: map<int, byte>, addr: u64, text: seq<byte>)
  {
    && addr + |text| < TWO_64 && addr + |text| in bytes && bytes[addr + |text|] == 0
    && forall i :: 0 <= i < |text| ==> addr + i in bytes && bytes[addr + i] == text[i] && text[i] != 0
  }

  /** A bounded scan sees the first bytes of the string. */
  lemma {:induction false} ScanSeesPrefix(bytes: map<int, byte>, addr: u64, text: seq<byte>, max: nat)
    requires CStringAt(bytes, addr, text)
    ensures ScanCString(bytes, addr, max) == Some(Scan(text[..Min(|text|, max)], |text| >= max))
    decreases |text|
  {
    if text != [] && max > 0 {
      assert addr + 0 in bytes && bytes[addr + 0] == text[0];
      forall i | 0 <= i < |text[1..]|
        ensures addr + 1 + i in bytes && bytes[addr + 1 + i] == text[1..][i] && text[1..][i] != 0
      {
        assert text[1..][i] == text[i + 1] && bytes[addr + (i + 1)] == text[i + 1];
      }
      ScanSeesPrefix(bytes, addr + 1, text[1..], max - 1);
      assert [text[0]] + text[1..][..Min(|text| - 1, max - 1)] == text[..Min(|text|, max)];
    }
  }

  lemma {:induction false} SpaceEndOfPrefix(text: seq<byte>, n: nat, from: nat, isSpace: byte -> bool)
    requires from <= n <= |text|
    ensures SpaceEnd(text[..n], from, isSpace) == Min(n, SpaceEnd(text, from, isSpace))
    decreases n - from
  {
    if from < n && isSpace(text[from]) {
      SpaceEndOfPrefix(text, n, from + 1, isSpace);
    }
  }

  lemma {:induction false} DigitEndOfPrefix(text: seq<byte>, n: nat, from: nat, base: nat)
    requires from <= n <= |text|
    ensures DigitEnd(text[..n], from, base) == Min(n, DigitEnd(text, from, base))
    decreases n - from
  {
    if from < n && IsDigit(text[from], base) {
      DigitEndOfPrefix(text, n, from + 1, base);
    }
  }

  /** Cutting a text behind its subject, or one that has none, does not change how it splits. */
  lemma PrefixSplits(text: seq<byte>, n: nat, i: nat, base: nat)
    requires i <= n <= |text| && ValidBase(base)
    ensures var r, cut := SplitAt(text, i, base), SplitAt(text[..n], i, base);
            && (r.start < r.end <= n ==> cut == r && text[..n][r.start..r.end] == text[r.start..r.end])
            && (r.start == r.end ==> cut.start == cut.end)
  {
    hide DigitEnd, IsDigit;
    var r, cut := SplitAt(text, i, base), SplitAt(text[..n], i, base);
    var j := if i < |text| && IsSign(text[i]) then i + 1 else i;
    FirstDigit(text, r.start, r.radix);
    FirstDigit(text[..n], cut.start, cut.radix);
    var hex := base == 0 || base == 16;
    if r.start < r.end <= n {
      assert hex ==> HexPrefixAt(text[..n], j) == HexPrefixAt(text, j);
      DigitEndOfPrefix(text, n, r.start, r.radix);
      assert text[..n][r.start..r.end] == text[r.start..r.end];
    }
    if r.start == r.end && i < n {
      assert hex ==> !HexPrefixAt(text, j) && !HexPrefixAt(text[..n], j);
      ZeroIsDigit();
    }
  }

  lemma ZeroIsDigit()
    ensures IsDigit(DIGIT_0, 8)
  {
  }

  lemma FirstDigit(text: seq<byte>, from: nat, base: nat)
    requires from <= |text|
    ensures from < DigitEnd(text, from, base) <==> from < |text| && IsDigit(text[from], base)
  {
  }

  /** Reading only the first bytes converts as C converts the whole, exactly if C's subject lies within them
      and none of the other departures occurs; or if C finds nothing to convert. */
  lemma PrefixMatchesC(text: seq<byte>, n: nat, base: nat, kind: Kind)
    requires ValidBase(base) && n <= |text|
    ensures ParseIntegral(text[..n], base, kind) == CParseIntegral(text, base, kind)
            <==> var r := CSplit(text, base);
                 r.start == r.end || (r.end <= n && !Departs(text, base, kind))
  {
    hide SplitAt, SpaceEnd, DigitEnd, Numeral;
    var cut, r := text[..n], CSplit(text, base);
    var i, j := SpaceEnd(text, 0, IsCSpace), SpaceEnd(text, 0, IsAsciiWhitespace);
    ParseMatchesC(cut, base, kind);
    SpaceEndOfPrefix(text, n, 0, IsCSpace);
    SpaceEndOfPrefix(text, n, 0, IsAsciiWhitespace);
    if i <= n {
      PrefixSplits(text, n, i, base);
    } else {
      NothingLeft(cut, base);
    }
    SpacesInOrder(text);
  }

  /** C's white space reaches at least as far as the proxy's. */
  lemma SpacesInOrder(text: seq<byte>)
    ensures SpaceEnd(text, 0, IsAsciiWhitespace) <= SpaceEnd(text, 0, IsCSpace)
  {
    var i := SpaceEnd(text, 0, IsCSpace);
    assert i < |text| ==> !IsCSpace(text[i]);
  }

  /** At the end of a text there is nothing to convert. */
  lemma NothingLeft(text: seq<byte>, base: nat)
    requires ValidBase(base)
    ensures SplitAt(text, |text|, base).start == SplitAt(text, |text|, base).end
  {
  }

  /** What the import answers: register, errno (0 for none), and how far behind nptr the end pointer is. */
  datatype Answer = Answer(value: u64, errno: nat, end: nat)

  function Answered(c: Conversion): Answer
  {
    Answer(c.value, if c.erange then ERANGE else 0, c.end)
  }

  /** The answer of the import for what it has read; the base is compared as a whole register. */
  function ImportAnswer(read: seq<byte>, base: u64, kind: Kind): Answer
  {
    if ValidBase(base) then Answered(ParseIntegral(read, base, kind)) else Answer(0, EINVAL, 0)
  }

  /** The answer C asks for; the base is an int, the low half of its register, and the errno of a result out of
      range is 34 on Darwin. */
  function CAnswer(text: seq<byte>, base: u64, kind: Kind): Answer
    requires ValidBase(base % TWO_32)
  {
    var c := CParseIntegral(text, base % TWO_32, kind);
    Answer(c.value, if c.erange then 34 else 0, c.end)
  }

  /** A base that C does not allow: nothing is converted, the end pointer is nptr, and errno is 22. */
  lemma BadBaseRefused(read: seq<byte>, base: u64, kind: Kind)
    requires base == 1 || base > 36
    ensures ImportAnswer(read, base, kind) == Answer(0, 22, 0)
  {
  }

  /** For every C string in memory, however long, every base that C allows and both kinds: value, errno and end
      pointer of the import are C's exactly if the base fills its register cleanly and C finds no number, or its
      subject ends within the first 2^20 bytes, no vertical tab stands in front of it, and it is not a minus sign
      and a magnitude of 2^64 or more in an unsigned conversion. */
  lemma ImportMatchesC(bytes: map<int, byte>, nptr: u64, text: seq<byte>, base: u64, kind: Kind)
    requires CStringAt(bytes, nptr, text) && ValidBase(base % TWO_32)
    ensures var scan := ScanCString(bytes, nptr, MAX_GUEST_STRING_BYTES);
            var r := CSplit(text, base % TWO_32);
            && scan.Some?
            && (ImportAnswer(scan.value.bytes, base, kind) == CAnswer(text, base, kind)
                <==> base < TWO_32
                     && (r.start == r.end
                         || (r.end <= MAX_GUEST_STRING_BYTES && !Departs(text, base % TWO_32, kind))))
  {
    hide ParseIntegral, CParseIntegral, ScanCString, CSplit, Departs;
    ScanSeesPrefix(bytes, nptr, text, MAX_GUEST_STRING_BYTES);
    var n := Min(|text|, MAX_GUEST_STRING_BYTES);
    PrefixMatchesC(text, n, base % TWO_32, kind);
    AnsweredAsC(ParseIntegral(text[..n], base % TWO_32, kind), CParseIntegral(text, base % TWO_32, kind));
    if base >= TWO_32 {
      assert ImportAnswer(text[..n], base, kind).errno == EINVAL;
    } else {
      assert base % TWO_32 == base;
    }
  }

  lemma AnsweredAsC(c: Conversion, c': Conversion)
    ensures Answered(c) == Answer(c'.value, if c'.erange then 34 else 0, c'.end) <==> c == c'
  {
  }

  // ----- Texts that the import converts differently ------------------------------------------------

  /** A run of blanks and then one digit. */
  function Blanks(n: nat): seq<byte>
  {
    seq(n, _ => SPACE)
  }

  lemma {:induction false} BlanksSkipped(n: nat, b: byte, from: nat, isSpace: byte -> bool)
    requires from <= n && isSpace(SPACE) && !isSpace(b)
    ensures SpaceEnd(Blanks(n) + [b], from, isSpace) == n
    decreases n - from
  {
    if from < n {
      BlanksSkipped(n, b, from + 1, isSpace);
    }
  }

  /** A digit behind n blanks. */
  lemma DigitBehindBlanks(n: nat, digit: nat, base: nat, kind: Kind)
    requires base == 10 && 1 <= digit < 10
    ensures CParseIntegral(Blanks(n) + [DIGIT_0 + digit], base, kind) == Conversion(digit, false, n + 1)
    ensures CSplit(Blanks(n) + [DIGIT_0 + digit], base) == Split(false, 10, n, n + 1)
  {
    var text := Blanks(n) + [DIGIT_0 + digit];
    BlanksSkipped(n, DIGIT_0 + digit, 0, IsCSpace);
    assert text[n] == DIGIT_0 + digit && IsDigit(text[n], 10);
    assert SplitAt(text, n, 10) == Split(false, 10, n, n + 1);
    assert text[n..n + 1] == [DIGIT_0 + digit];
    assert [DIGIT_0 + digit][..0] == [];
    assert Numeral([DIGIT_0 + digit], 10) == digit;
  }

  /** Behind 2^20 blanks or more the import no longer sees the number that C converts. */
  lemma LongBlanksDiffer(n: nat, digit: nat, kind: Kind)
    requires n >= 0x10_0000 && 1 <= digit < 10
    ensures var text := Blanks(n) + [DIGIT_0 + digit];
            ParseIntegral(text[..MAX_GUEST_STRING_BYTES], 10, kind) != CParseIntegral(text, 10, kind)
  {
    hide ParseIntegral, CParseIntegral, CSplit, Departs;
    DigitBehindBlanks(n, digit, 10, kind);
    PrefixMatchesC(Blanks(n) + [DIGIT_0 + digit], MAX_GUEST_STRING_BYTES, 10, kind);
  }

  /** A vertical tab and a digit: C converts the digit, the import nothing. */
  lemma VerticalTabDiffers(digit: nat, kind: Kind)
    requires 1 <= digit < 10
    ensures ParseIntegral([VERTICAL_TAB, DIGIT_0 + digit], 10, kind) == NO_CONVERSION
    ensures CParseIntegral([VERTICAL_TAB, DIGIT_0 + digit], 10, kind) == Conversion(digit, false, 2)
  {
    var text: seq<byte> := [VERTICAL_TAB, DIGIT_0 + digit];
    assert SpaceEnd(text, 0, IsCSpace) == SpaceEnd(text, 1, IsCSpace) == 1;
    assert SplitAt(text, 1, 10) == Split(false, 10, 1, 2);
    assert text[1..2] == [DIGIT_0 + digit] && [DIGIT_0 + digit][..0] == [];
  }

  // ----- The loops --------------------------------------------------------------------------------

  lemma OverflowTest(value: nat, limit: nat, digit: nat, base: nat)
    requires 2 <= base && digit <= limit
    ensures value > (limit - digit) / base <==> value * base + digit > limit
  {
    var q := (limit - digit) / base;
    assert limit - digit == q * base + (limit - digit) % base;
    if value > q {
      assert value * base >= (q + 1) * base;
    } else {
      assert value * base <= q * base;
    }
  }

  lemma OverflowSticks(m: nat, limit: nat, digit: nat, base: nat)
    requires 2 <= base && m > limit
    ensures m * base + digit > limit
  {
    assert m * base >= m;
  }

  lemma OneMoreDigit(text: seq<byte>, start: nat, idx: nat, base: nat)
    requires start <= idx < |text| && IsDigit(text[idx], base)
    ensures Numeral(text[start..idx + 1], base) == Numeral(text[start..idx], base) * base + ParseDigit(text[idx]).value
  {
    assert text[start..idx + 1][..idx - start] == text[start..idx];
  }

  /** Accumulates digits with an overflow flag that sticks while the remaining digits are still consumed. */
  method ReadDigits(text: seq<byte>, start: nat, radix: nat, limit: nat) returns (idx: nat, value: nat, overflow: bool)
    requires start <= |text| && 2 <= radix <= 36 && limit >= 36 * 36
    ensures idx == DigitEnd(text, start, radix)
    ensures var m := Numeral(text[start..idx], radix);
            value == Min(m, limit) && (overflow <==> m > limit)
  {
    idx, value, overflow := start, 0, false;
    assert text[start..start] == [];
    while idx < |text| && ParseDigit(text[idx]).Some? && ParseDigit(text[idx]).value < radix
      invariant start <= idx <= |text|
      invariant DigitEnd(text, idx, radix) == DigitEnd(text, start, radix)
      invariant var m := Numeral(text[start..idx], radix);
                value == Min(m, limit) && (overflow <==> m > limit)
    {
      var digit := ParseDigit(text[idx]).value;
      ghost var m := Numeral(text[start..idx], radix);
      OneMoreDigit(text, start, idx, radix);
      OverflowTest(value, limit, digit, radix);
      if overflow {
        OverflowSticks(m, limit, digit, radix);
        LimitOverflows(limit, digit, radix);
      }
      if value > SaturatingSub(limit, digit) / radix {
        overflow := true;
        value := limit;
      } else if !overflow {
        value := value * radix + digit;
      }
      idx := idx + 1;
    }
  }

  lemma LimitOverflows(limit: nat, digit: nat, base: nat)
    requires 2 <= base && digit <= limit && limit > 0
    ensures limit > (limit - digit) / base
  {
    var q := (limit - digit) / base;
    assert q * base <= limit - digit;
    if q >= limit {
      AtLeastDouble(q, limit, base);
    }
  }

  lemma AtLeastDouble(q: nat, limit: nat, base: nat)
    requires q >= limit && base >= 2
    ensures q * base >= 2 * limit
  {
    assert q * base >= q * 2;
  }

  /** Skips white space, the sign and a hexadecimal prefix, and settles the radix. */
  method FindDigits(text: seq<byte>, base: nat) returns (negative: bool, radix: nat, idx: nat)
    requires ValidBase(base)
    ensures idx <= |text| && 2 <= radix <= 36
    ensures SplitAt(text, SpaceEnd(text, 0, IsAsciiWhitespace), base)
            == Split(negative, radix, idx, DigitEnd(text, idx, radix))
  {
    idx := 0;
    while idx < |text| && IsAsciiWhitespace(text[idx])
      invariant idx <= |text|
      invariant SpaceEnd(text, idx, IsAsciiWhitespace) == SpaceEnd(text, 0, IsAsciiWhitespace)
    {
      idx := idx + 1;
    }
    negative := false;
    if idx < |text| && text[idx] == MINUS {
      idx := idx + 1;
      negative := true;
    } else if idx < |text| && text[idx] == PLUS {
      idx := idx + 1;
    }
    radix := base;
    if radix == 0 {
      if HexPrefixAt(text, idx) {
        radix := 16;
        idx := idx + 2;
      } else if idx < |text| && text[idx] == DIGIT_0 {
        radix := 8;
      } else {
        radix := 10;
      }
    } else if radix == 16 && HexPrefixAt(text, idx) {
      idx := idx + 2;
    }
  }

  method StrtoText(text: seq<byte>, base: nat, kind: Kind) returns (r: Conversion)
    requires ValidBase(base)
    ensures r == ParseIntegral(text, base, kind)
  {
    hide SplitAt, DigitEnd, Numeral, SpaceEnd;
    var negative, radix, digitsStart := FindDigits(text, base);
    var idx, value, overflow := ReadDigits(text, digitsStart, radix, Limit(kind, negative));
    if idx == digitsStart {
      return NO_CONVERSION;
    }
    var returnValue: u64;
    if kind.Signed64? && overflow && negative {
      returnValue := TWO_63;
    } else if kind.Signed64? && overflow {
      returnValue := TWO_63 - 1;
    } else if negative {
      returnValue := (TWO_64 - value) % TWO_64;
    } else {
      returnValue := value;
    }
    r := Conversion(returnValue, overflow, idx);
  }

  /** Where endptr must point after a conversion of the string at nptr. */
  function EndPointer(nptr: u64, end: nat): (p: u64)
    ensures nptr + end < TWO_64 ==> p == nptr + end
  {
    SaturatingAdd(nptr, end)
  }

  /** The import as a whole: reads the string, converts it, and stores the end pointer unless endptr is null. */
  method StrtoIntegral(mem: GuestMemory, nptr: u64, endptr: u64, base: u64, kind: Kind) returns (r: Option<CallResult>)
    modifies mem
    ensures var scan := ScanCString(old(mem.heap.bytes), nptr, MAX_GUEST_STRING_BYTES);
            if scan.None? || (endptr != 0 && !old(mem.heap).Mapped(endptr, 8)) then
              r == None && mem.heap == old(mem.heap)
            else
              var answer := ImportAnswer(scan.value.bytes, base, kind);
              && r == Some(CallResult(answer.value, answer.errno))
              && mem.heap == (if endptr == 0 then old(mem.heap)
                              else old(mem.heap).Stored(endptr, LeBytes(EndPointer(nptr, answer.end), 8)))
  {
    hide ScanCString, ParseIntegral, LeBytes;
    var scan := ReadCStringBytesWithTruncation(mem, nptr, MAX_GUEST_STRING_BYTES);
    if scan.None? {
      return None;
    }
    var c := NO_CONVERSION;
    if ValidBase(base) {
      c := StrtoText(scan.value.bytes, base, kind);
    }
    if endptr != 0 {
      var ok := mem.WriteMemory(endptr, LeBytes(EndPointer(nptr, c.end), 8));
      if !ok {
        return None;
      }
    }
    r := Some(CallResult(c.value, if !ValidBase(base) then EINVAL else if c.erange then ERANGE else 0));
  }
}
