/** The tracing decoder of std::string objects, which tries the layouts in another order than the proxy does. */
module LibcppTrace {
  import opened Machine
  import opened Memory
  import opened LibcppString

  datatype Traced = Traced(bytes: seq<byte>, layout: Layout)

  function TraceHeader(h: Heap, header: Header): Traced
  {
    var word0, word1, word2 := Word(header, 0), Word(header, 1), Word(header, 2);
    if word2 >= ALT_LONG_FLAG && ReadGuestBytes(h, word0, word1).Some? then
      Traced(ReadGuestBytes(h, word0, word1).value, AlternateLong)
    else if word0 % 2 != 0 && ReadGuestBytes(h, word2, word1).Some? then
      Traced(ReadGuestBytes(h, word2, word1).value, DefaultLong)
    else if header[23] < 128 && header[23] <= SHORT_MAX then
      Traced(header[..header[23]], AlternateShort)
    else if IsDefaultShort(header) then
      Traced(header[1..1 + header[0] / 2], DefaultShort)
    else
      Traced([], Unknown)
  }

  /** What the tracer calls the layout, by the flag bits and the length byte. */
  lemma TracedLayout(h: Heap, header: Header)
    ensures var layout := TraceHeader(h, header).layout;
            if header[23] >= 128 && ReadGuestBytes(h, Word(header, 0), Word(header, 1)).Some? then
              layout == AlternateLong
            else if header[0] % 2 == 1 && ReadGuestBytes(h, Word(header, 2), Word(header, 1)).Some? then
              layout == DefaultLong
            else if header[23] <= 22 then layout == AlternateShort
            else layout == if header[0] % 2 == 0 && header[0] <= 45 then DefaultShort else Unknown
  {
    hide LeWord;
    HeaderBits(header);
  }

  /** An unreadable header counts as all zero. */
  function TraceString(h: Heap, obj: u64): Traced
  {
    match h.Read(obj, STRING_OBJECT_SIZE)
    case None => TraceHeader(h, Zeros(24))
    case Some(header) => TraceHeader(h, header)
  }

  /** Where the proxy refuses an unreadable object, the tracer sees an empty string. */
  lemma UnreadableTracesAsEmpty(h: Heap, obj: u64)
    requires !h.Mapped(obj, STRING_OBJECT_SIZE)
    ensures DecodeString(h, obj).None? && TraceString(h, obj) == Traced([], AlternateShort)
  {
    hide LeWord;
    HeaderBits(Zeros(24));
  }

  /** What the tracer finds behind a header that it takes for the default long layout. */
  function DefaultLongReading(h: Heap, header: Header): Option<seq<byte>>
  {
    ReadGuestBytes(h, Word(header, 2), Word(header, 1))
  }

  /** The headers on which both decoders see the same text. */
  predicate Agreement(h: Heap, header: Header, layout: Layout)
  {
    match layout
    case AlternateLong => true
    case DefaultLong => true
    case AlternateShort =>
      // the tracer takes an odd first byte for the default long layout, if it can read bytes there
      header[0] % 2 == 0 || DefaultLongReading(h, header).None?
      || (header[23] <= SHORT_MAX && DefaultLongReading(h, header) == Some(header[..header[23]]))
    case DefaultShort =>
      // the tracer believes the last byte before it looks at the first one
      header[23] > SHORT_MAX
      || (2 * header[23] == header[0] && forall i :: 0 <= i <= header[23] ==> header[i] == header[0])
    case Unknown =>
      header[23] > SHORT_MAX || header[23] == 0
  }

  /** Guest user space ends far below the addresses that a short string's length byte turns into. */
  predicate NothingMappedAbove(h: Heap, limit: int)
  {
    forall a :: a in h.bytes ==> a < limit
  }

  /** A text equals its own shift by one exactly when all bytes involved are the same. */
  lemma ShiftedText(header: Header, a: nat, n: nat)
    requires a <= SHORT_MAX && n <= SHORT_MAX
    ensures header[..a] == header[1..1 + n] <==> a == n && forall i :: 0 <= i <= n ==> header[i] == header[0]
  {
    if header[..a] == header[1..1 + n] {
      assert |header[..a]| == a && |header[1..1 + n]| == n;
      AllEqual(header, n);
    }
  }

  lemma {:induction false} AllEqual(header: Header, n: nat)
    requires n <= SHORT_MAX && header[..n] == header[1..1 + n]
    ensures forall i :: 0 <= i <= n ==> header[i] == header[0]
  {
    if n > 0 {
      assert header[..n - 1] == header[..n][..n - 1] == header[1..1 + n][..n - 1] == header[1..n];
      AllEqual(header, n - 1);
      assert header[n] == header[1..1 + n][n - 1] == header[..n][n - 1] == header[n - 1];
    }
  }

  lemma SecondWordZero(header: Header)
    ensures Word(header, 1) == 0 <==> forall i :: 8 <= i < 16 ==> header[i] == 0
  {
    LeWordZero(header[8..16]);
    assert forall i :: 0 <= i < 8 ==> header[8..16][i] == header[i + 8];
    if forall i :: 0 <= i < 8 ==> header[8..16][i] == 0 {
      assert forall i :: 8 <= i < 16 ==> header[i] == header[8..16][i - 8];
    }
  }

  /** For every header the proxy can decode, the tracer sees the same text exactly under Agreement. */
  lemma TracerAgrees(h: Heap, header: Header)
    requires DecodeHeader(h, header).Some?
    ensures var d := DecodeHeader(h, header).value;
            TraceHeader(h, header).bytes == d.bytes <==> Agreement(h, header, d.layout)
  {
    hide LeWord;
    HeaderBits(header);
    var d := DecodeHeader(h, header).value;
    match d.layout {
      case AlternateLong =>
      case DefaultLong =>
      case AlternateShort =>
      case DefaultShort =>
        if header[23] <= SHORT_MAX {
          ShiftedText(header, header[23], header[0] / 2);
        }
      case Unknown =>
    }
  }

  /** The same of an object in memory. */
  lemma ObjectTracerAgrees(h: Heap, obj: u64)
    requires DecodeString(h, obj).Some?
    ensures h.Mapped(obj, 24)
    ensures var d := DecodeString(h, obj).value;
            TraceString(h, obj).bytes == d.bytes <==> Agreement(h, h.Slice(obj, 24), d.layout)
  {
    TracerAgrees(h, h.Slice(obj, 24));
  }

  /** Where nothing is mapped at or above 2^56, a short string's length byte leaves nothing to read but nothing:
      agreement on alternate short strings then rests on the header bytes alone. */
  lemma UserSpaceAgreement(h: Heap, header: Header)
    requires NothingMappedAbove(h, Pow256(7)) && IsAlternateShort(header)
    ensures Agreement(h, header, AlternateShort) <==>
            header[23] == 0 || header[0] % 2 == 0 || exists i :: 8 <= i < 16 && header[i] != 0
  {
    hide LeWord;
    if header[23] > 0 {
      WordSize();
      LeWordTopByte(header[16..24]);
      SecondWordZero(header);
      var ptr, len := Word(header, 2), Word(header, 1);
      assert ptr >= Pow256(7);
      if 0 < len {
        assert ptr !in h.bytes && Within(ptr, ptr, len);
      }
    }
  }

  /** Whatever is mapped, a short string as the proxy writes it, of 1 to 8 bytes with an odd first one,
      is traced as empty. */
  lemma OddShortStringsTraceAsEmpty(h: Heap, text: seq<byte>)
    requires 1 <= |text| <= 8 && text[0] % 2 == 1
    ensures DecodeHeader(h, AlternateShortHeader(text)) == Some(DecodedString(text, AlternateShort, None, SHORT_MAX))
    ensures TraceHeader(h, AlternateShortHeader(text)).bytes == []
  {
    hide LeWord;
    var header := AlternateShortHeader(text);
    AlternateShortDecodes(h, text);
    HeaderBits(header);
    WordSize();
    LeWordTopByte(header[16..24]);
    SecondWordZero(header);
  }

  /** A zero-padded default short string is always traced as empty, although the proxy reads it. */
  lemma DefaultShortStringsTraceAsEmpty(h: Heap, text: seq<byte>)
    requires 1 <= |text| <= SHORT_MAX
    ensures DecodeHeader(h, DefaultShortHeader(text)).Some?
    ensures DecodeHeader(h, DefaultShortHeader(text)).value.bytes == text
    ensures TraceHeader(h, DefaultShortHeader(text)).bytes == []
  {
    hide LeWord;
    DefaultShortDecodes(h, text);
    HeaderBits(DefaultShortHeader(text));
  }

  /** Short strings the proxy writes: traced exactly if empty, even-first, or if nothing else can be read
      where the tracer looks; in user space that means a nonzero byte among the ninth to the sixteenth. */
  lemma TracerReadsWrittenStrings(h: Heap, text: seq<byte>)
    requires |text| <= SHORT_MAX
    ensures var long := DefaultLongReading(h, AlternateShortHeader(text));
            TraceHeader(h, AlternateShortHeader(text)).bytes == text
            <==> text == [] || text[0] % 2 == 0 || long.None? || long == Some(text)
    ensures NothingMappedAbove(h, Pow256(7)) ==>
              (TraceHeader(h, AlternateShortHeader(text)).bytes == text
               <==> text == [] || text[0] % 2 == 0 || exists i :: 8 <= i < Min(16, |text|) && text[i] != 0)
  {
    hide LeWord;
    var header := AlternateShortHeader(text);
    AlternateShortDecodes(h, text);
    TracerAgrees(h, header);
    assert header[..|text|] == text;
    assert forall i :: 0 <= i < |text| ==> header[i] == text[i];
    assert forall i :: |text| <= i < 23 ==> header[i] == 0;
    if NothingMappedAbove(h, Pow256(7)) {
      UserSpaceAgreement(h, header);
    }
  }

  /** Long strings the proxy writes are always traced in full. */
  lemma TracerReadsWrittenLongStrings(h: Heap, dataPtr: u64, len: u64, allocLen: nat)
    requires allocLen < TWO_63 && LOWEST_BLOCK <= dataPtr && len <= MAX_STRING_LEN && h.Mapped(dataPtr, len)
    ensures TraceHeader(h, AlternateLongHeader(dataPtr, len, allocLen)) == Traced(h.Slice(dataPtr, len), AlternateLong)
  {
    hide LeWord, LeBytes;
    WordsOfHeader(dataPtr, len, allocLen + ALT_LONG_FLAG);
  }
}
