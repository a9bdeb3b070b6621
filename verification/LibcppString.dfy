/** std::string objects in guest memory: four header layouts to read, two of them written. */
module LibcppString {
  import opened Machine
  import opened Memory

  const STRING_OBJECT_SIZE := 24
  const SHORT_MAX := 22
  const MAX_STRING_LEN := 0x1_0000
  const ALT_LONG_FLAG := TWO_63
  const NPOS := U64_MAX

  datatype Layout = AlternateLong | AlternateShort | DefaultShort | DefaultLong | Unknown

  datatype DecodedString = DecodedString(bytes: seq<byte>, layout: Layout, dataPtr: Option<nat>, capacity: nat)

  type Header = s: seq<byte> | |s| == 24 witness seq(24, _ => 0)

  function Word(header: Header, i: nat): nat
    requires i < 3
  {
    LeWord(header[8 * i..8 * i + 8])
  }

  /** Bytes behind a guest pointer, capped; the zero page is refused. */
  function ReadGuestBytes(h: Heap, ptr: nat, len: nat): (r: Option<seq<byte>>)
    ensures r.Some? ==> |r.value| == len <= MAX_STRING_LEN
  {
    if ptr < LOWEST_BLOCK || len > MAX_STRING_LEN then None
    else if len == 0 then Some([])
    else h.Read(ptr, len)
  }

  function DecodeLong(h: Heap, dataPtr: nat, len: nat, capacity: nat, layout: Layout): Option<DecodedString>
  {
    match ReadGuestBytes(h, dataPtr, len)
    case None => None
    case Some(bytes) => Some(DecodedString(bytes, layout, Some(dataPtr), Max(capacity, len)))
  }

  predicate IsAlternateShort(header: Header)
  {
    var len := header[23] % 128;
    && header[23] < 128
    && len <= SHORT_MAX
    && if len == 0 then header[0] == 0 else forall i :: len <= i < 23 ==> header[i] == 0
  }

  predicate IsDefaultShort(header: Header)
  {
    header[0] % 2 == 0 && header[0] / 2 <= SHORT_MAX
  }

  /** Reads a header, trying the alternate long layout first, then both short ones, then the default long one. */
  function DecodeHeader(h: Heap, header: Header): (r: Option<DecodedString>)
    ensures r.Some? ==> |r.value.bytes| <= MAX_STRING_LEN
  {
    var word0, word1, word2 := Word(header, 0), Word(header, 1), Word(header, 2);
    if word2 >= ALT_LONG_FLAG then
      DecodeLong(h, word0, word1, SaturatingSub(word2 - ALT_LONG_FLAG, 1), AlternateLong)
    else if IsAlternateShort(header) then
      Some(DecodedString(header[..header[23] % 128], AlternateShort, None, SHORT_MAX))
    else if IsDefaultShort(header) then
      Some(DecodedString(header[1..1 + header[0] / 2], DefaultShort, None, SHORT_MAX))
    else if word0 % 2 != 0 then
      DecodeLong(h, word2, word1, SaturatingSub(word0 - 1, 1), DefaultLong)
    else
      Some(DecodedString([], Unknown, None, 0))
  }

  function DecodeString(h: Heap, obj: u64): (r: Option<DecodedString>)
    ensures r.Some? ==> |r.value.bytes| <= MAX_STRING_LEN
  {
    match h.Read(obj, STRING_OBJECT_SIZE)
    case None => None
    case Some(header) => DecodeHeader(h, header)
  }

  /** Where a header keeps what, and which layout it is taken for: the flag in the last bit of byte 23 first, then
      the length in byte 23 if zeros fill the rest, then the doubled length in byte 0, then the flag in bit 0. */
  lemma HeaderMeaning(h: Heap, header: Header)
    ensures var d := DecodeHeader(h, header);
            var zeroPadded := if header[23] == 0 then header[0] == 0
                              else forall i :: header[23] <= i < 23 ==> header[i] == 0;
            var w0, w1, w2 := LeWord(header[0..8]), LeWord(header[8..16]), LeWord(header[16..24]);
            if header[23] >= 128 then LongAt(h, d, AlternateLong, w0, w1, Max(w2 - TWO_63 - 1, 0))
            else if header[23] <= 22 && zeroPadded then
              d == Some(DecodedString(header[..header[23]], AlternateShort, None, 22))
            else if header[0] % 2 == 0 && header[0] <= 45 then
              d == Some(DecodedString(header[1..1 + header[0] / 2], DefaultShort, None, 22))
            else if header[0] % 2 == 1 then LongAt(h, d, DefaultLong, w2, w1, Max(w0 - 2, 0))
            else d == Some(DecodedString([], Unknown, None, 0))
  {
    hide LeWord;
    HeaderBits(header);
  }

  /** A long string: length bytes behind the data pointer, refused in the zero page and beyond 64 KiB. */
  ghost predicate LongAt(h: Heap, d: Option<DecodedString>, layout: Layout, dataPtr: nat, len: nat, capacity: nat)
  {
    if 0x1000 <= dataPtr && len <= 0x1_0000 && (len == 0 || h.Mapped(dataPtr, len)) then
      && d.Some? && d.value.layout == layout && d.value.dataPtr == Some(dataPtr)
      && d.value.capacity == Max(capacity, len) && |d.value.bytes| == len
      && forall i :: 0 <= i < len ==> d.value.bytes[i] == h.bytes[dataPtr + i]
    else
      d.None?
  }

  // ----- Encoding the four layouts -------------------------------------------------------

  function Zeros(n: nat): (s: seq<byte>)
    ensures |s| == n && forall i :: 0 <= i < n ==> s[i] == 0
  {
    seq(n, _ => 0)
  }

  function AlternateShortHeader(bytes: seq<byte>): Header
    requires |bytes| <= SHORT_MAX
  {
    bytes + Zeros(23 - |bytes|) + [|bytes|]
  }

  function AlternateLongHeader(dataPtr: u64, len: u64, allocLen: nat): Header
    requires allocLen < TWO_63
  {
    ThreeWords(dataPtr, len, allocLen + ALT_LONG_FLAG)
  }

  function DefaultShortHeader(bytes: seq<byte>): Header
    requires |bytes| <= SHORT_MAX
  {
    [2 * |bytes|] + bytes + Zeros(23 - |bytes|)
  }

  /** The default long layout keeps the capacity even, with its low bit as the flag. */
  function DefaultLongHeader(dataPtr: u64, len: u64, allocLen: nat): Header
    requires allocLen % 2 == 0 && allocLen < TWO_64
  {
    ThreeWords(allocLen + 1, len, dataPtr)
  }

  lemma WordsOfHeader(a: u64, b: u64, c: u64)
    ensures var header: Header := ThreeWords(a, b, c);
            && Word(header, 0) == a && Word(header, 1) == b && Word(header, 2) == c
            && header[0] == a % 256 && header[23] == c / Pow256(7)
  {
    hide LeBytes;
    ThreeWordsRead(a, b, c);
    var header: Header := ThreeWords(a, b, c);
    LeWordTopByte(header[16..24]);
    LeWordLowByte(header[0..8]);
  }

  lemma HeaderBits(header: Header)
    ensures Word(header, 2) >= ALT_LONG_FLAG <==> header[23] >= 128
    ensures Word(header, 0) % 2 == header[0] % 2
    ensures Word(header, 0) < TWO_64 && Word(header, 1) < TWO_64 && Word(header, 2) < TWO_64
  {
    LeWordTopByte(header[16..24]);
    LeWordTopByte(header[0..8]);
    LeWordTopByte(header[8..16]);
    LeWordLowByte(header[0..8]);
  }

  /** Alternate short strings decode to any bytes at all, odd first bytes and embedded NULs included. */
  lemma AlternateShortDecodes(h: Heap, bytes: seq<byte>)
    requires |bytes| <= SHORT_MAX
    ensures DecodeHeader(h, AlternateShortHeader(bytes))
            == Some(DecodedString(bytes, AlternateShort, None, SHORT_MAX))
  {
    hide LeWord;
    var header := AlternateShortHeader(bytes);
    HeaderBits(header);
    assert header[..|bytes|] == bytes;
  }

  lemma AlternateLongDecodes(h: Heap, dataPtr: u64, len: u64, allocLen: nat)
    requires allocLen < TWO_63 && LOWEST_BLOCK <= dataPtr && len <= MAX_STRING_LEN && h.Mapped(dataPtr, len)
    ensures DecodeHeader(h, AlternateLongHeader(dataPtr, len, allocLen))
            == Some(DecodedString(h.Slice(dataPtr, len), AlternateLong, Some(dataPtr),
                                  Max(SaturatingSub(allocLen, 1), len)))
  {
    hide LeWord, LeBytes;
    WordsOfHeader(dataPtr, len, allocLen + ALT_LONG_FLAG);
  }

  /** Zero-padded default short strings decode to any bytes at all. */
  lemma DefaultShortDecodes(h: Heap, bytes: seq<byte>)
    requires |bytes| <= SHORT_MAX
    ensures DecodeHeader(h, DefaultShortHeader(bytes)).Some?
    ensures DecodeHeader(h, DefaultShortHeader(bytes)).value.bytes == bytes
    ensures DecodeHeader(h, DefaultShortHeader(bytes)).value.layout
            == if bytes == [] then AlternateShort else DefaultShort
  {
    hide LeWord;
    var header := DefaultShortHeader(bytes);
    HeaderBits(header);
    assert header[1..1 + |bytes|] == bytes;
  }

  /** Default long strings decode when the top byte of the data pointer is clear. */
  lemma DefaultLongDecodes(h: Heap, dataPtr: u64, len: u64, allocLen: nat)
    requires allocLen % 2 == 0 && allocLen < TWO_64
    requires LOWEST_BLOCK <= dataPtr < Pow256(7) && len <= MAX_STRING_LEN && h.Mapped(dataPtr, len)
    ensures DecodeHeader(h, DefaultLongHeader(dataPtr, len, allocLen))
            == Some(DecodedString(h.Slice(dataPtr, len), DefaultLong, Some(dataPtr),
                                  Max(SaturatingSub(allocLen, 1), len)))
  {
    hide LeWord, LeBytes;
    WordSize();
    WordsOfHeader(allocLen + 1, len, dataPtr);
    HeaderBits(DefaultLongHeader(dataPtr, len, allocLen));
  }

  // ----- Writing -------------------------------------------------------------------------

  function Capped(bytes: seq<byte>): (r: seq<byte>)
    ensures r <= bytes && |r| <= 0x1_0000
    ensures |bytes| <= 0x1_0000 ==> r == bytes
    ensures |bytes| > 0x1_0000 ==> |r| == 0x1_0000
  {
    bytes[..Min(|bytes|, MAX_STRING_LEN)]
  }

  function AlignUp16(value: nat): (r: nat)
    ensures value <= r < value + 16 && r % 16 == 0
  {
    value + 15 - (value + 15) % 16
  }

  /** The capacity a string of len bytes has after being written with a minimum capacity. */
  function WrittenCapacity(len: nat, minCapacity: nat): (capacity: nat)
    ensures len <= 22 && minCapacity <= 22 ==> capacity == 22
    ensures len > 22 || minCapacity > 22 ==>
              var wanted := Max(Min(minCapacity, 0x1_0000), len);
              wanted <= capacity < wanted + 16 && (capacity + 1) % 16 == 0
  {
    var wanted := Max(Min(minCapacity, MAX_STRING_LEN), len);
    if wanted <= SHORT_MAX then SHORT_MAX else AlignUp16(wanted + 1) - 1
  }

  /** What data() and c_str() answer. */
  function DataPointer(obj: u64, d: DecodedString): nat
  {
    if d.dataPtr.Some? then d.dataPtr.value
    else if d.layout == DefaultShort then SaturatingAdd(obj, 1)
    else obj
  }

  /** Whatever its layout, a string that decodes has its bytes where data() points. */
  lemma DataPointerHolds(h: Heap, obj: u64)
    requires DecodeString(h, obj).Some? && DecodeString(h, obj).value.bytes != []
    ensures var d := DecodeString(h, obj).value;
            h.Mapped(DataPointer(obj, d), |d.bytes|) && h.Slice(DataPointer(obj, d), |d.bytes|) == d.bytes
  {
    hide LeWord;
    var d := DecodeString(h, obj).value;
    var header := h.Slice(obj, STRING_OBJECT_SIZE);
    if d.layout == AlternateShort {
      SliceOfSlice(h, obj, STRING_OBJECT_SIZE, 0, |d.bytes|);
      assert header[0..|d.bytes|] == header[..|d.bytes|];
    } else if d.layout == DefaultShort {
      SliceOfSlice(h, obj, STRING_OBJECT_SIZE, 1, |d.bytes|);
    }
  }

  /** A string as the writer leaves it: decodable, terminated where c_str() points, its capacity backed by storage. */
  ghost predicate StringIs(h: Heap, obj: u64, bytes: seq<byte>, capacity: nat)
  {
    DecodeString(h, obj).Some? &&
    var d := DecodeString(h, obj).value;
    && d.bytes == bytes && d.capacity == capacity
    && (d.layout == AlternateShort || d.layout == AlternateLong)
    && h.Mapped(DataPointer(obj, d), |bytes| + 1)
    && h.Slice(DataPointer(obj, d), |bytes| + 1) == bytes + [0]
    && (if d.dataPtr.Some? then
          && d.dataPtr.value % 16 == 0
          && d.dataPtr.value in h.blocks && h.blocks[d.dataPtr.value] == capacity + 1
          && ZerosAt(h, d.dataPtr.value + |bytes|, capacity + 1 - |bytes|)
        else capacity == 22)
  }

  ghost predicate ZerosAt(h: Heap, addr: int, n: int)
  {
    forall a :: addr <= a < addr + n ==> a in h.bytes && h.bytes[a] == 0
  }

  /** Nothing that was mapped changes outside the header at obj, every live block survives,
      and a long string's data lies in memory that was unused before. */
  ghost predicate RewrittenAt(before: Heap, after: Heap, obj: u64)
  {
    && before.Mapped(obj, STRING_OBJECT_SIZE)
    && (forall a :: a in before.bytes ==>
          a in after.bytes && (!Within(a, obj, STRING_OBJECT_SIZE) ==> after.bytes[a] == before.bytes[a]))
    && (forall b :: b in before.blocks ==> b in after.blocks && after.blocks[b] == before.blocks[b])
    && DecodeString(after, obj).Some?
    && (DecodeString(after, obj).value.dataPtr.Some? ==>
          var d := DecodeString(after, obj).value;
          && after.Mapped(d.dataPtr.value, |d.bytes| + 1)
          && forall a :: Within(a, d.dataPtr.value, |d.bytes| + 1) ==> a !in before.bytes)
  }

  lemma WrittenShort(h: Heap, obj: u64, bytes: seq<byte>)
    requires |bytes| <= SHORT_MAX && h.Mapped(obj, STRING_OBJECT_SIZE)
    ensures var h' := h.Stored(obj, AlternateShortHeader(bytes));
            StringIs(h', obj, bytes, SHORT_MAX) && RewrittenAt(h, h', obj)
  {
    hide DecodeHeader;
    StoredReads(h, obj, AlternateShortHeader(bytes));
    SliceOfSlice(h.Stored(obj, AlternateShortHeader(bytes)), obj, STRING_OBJECT_SIZE, 0, |bytes| + 1);
    assert AlternateShortHeader(bytes)[0..|bytes| + 1] == bytes + [0];
    AlternateShortDecodes(h.Stored(obj, AlternateShortHeader(bytes)), bytes);
  }

  lemma WrittenLong(h: Heap, filled: Heap, obj: u64, bytes: seq<byte>, dataPtr: u64, allocLen: nat)
    requires h.Mapped(obj, STRING_OBJECT_SIZE)
    requires |bytes| <= MAX_STRING_LEN && |bytes| < allocLen < TWO_63
    requires FreshBlock(h, filled, dataPtr, allocLen)
    requires filled.Mapped(dataPtr, |bytes| + 1) && filled.Slice(dataPtr, |bytes| + 1) == bytes + [0]
    requires dataPtr % 16 == 0 && ZerosAt(filled, dataPtr + |bytes|, allocLen - |bytes|)
    ensures filled.Mapped(obj, STRING_OBJECT_SIZE)
    ensures var h' := filled.Stored(obj, AlternateLongHeader(dataPtr, |bytes|, allocLen));
            StringIs(h', obj, bytes, allocLen - 1) && RewrittenAt(h, h', obj)
  {
    hide DecodeHeader, AlternateLongHeader;
    var header := AlternateLongHeader(dataPtr, |bytes|, allocLen);
    FreshBlockApart(h, filled, dataPtr, allocLen, obj, STRING_OBJECT_SIZE);
    StoredReads(filled, obj, header);
    StoredElsewhere(filled, obj, header, dataPtr, |bytes| + 1);
    SliceOfSlice(filled.Stored(obj, header), dataPtr, |bytes| + 1, 0, |bytes|);
    assert (bytes + [0])[0..|bytes|] == bytes;
    AlternateLongDecodes(filled.Stored(obj, header), dataPtr, |bytes|, allocLen);
  }

  /** The text followed by zeros up to the end of the block. */
  function Storage(text: seq<byte>, allocLen: nat): (s: seq<byte>)
    requires |text| < allocLen
    ensures |s| == allocLen
  {
    text + [0] + Zeros(allocLen - |text| - 1)
  }

  lemma StorageFilled(h: Heap, extended: Heap, dataPtr: u64, text: seq<byte>, allocLen: nat)
    requires |text| < allocLen && FreshBlock(h, extended, dataPtr, allocLen)
    ensures extended.Mapped(dataPtr, allocLen)
    ensures var filled := extended.Stored(dataPtr, Storage(text, allocLen));
            && FreshBlock(h, filled, dataPtr, allocLen)
            && filled.Mapped(dataPtr, |text| + 1) && filled.Slice(dataPtr, |text| + 1) == text + [0]
            && ZerosAt(filled, dataPtr + |text|, allocLen - |text|)
  {
    var filled := extended.Stored(dataPtr, Storage(text, allocLen));
    assert filled.bytes.Keys == extended.bytes.Keys;
    assert filled.Slice(dataPtr, |text| + 1) == text + [0];
  }

  /** Writes a fresh image of the string; on failure of the allocator nothing changes. */
  method WriteString(mem: GuestMemory, obj: u64, bytes: seq<byte>, minCapacity: nat) returns (ok: bool)
    requires mem.heap.Mapped(obj, STRING_OBJECT_SIZE)
    modifies mem
    ensures ok ==> && StringIs(mem.heap, obj, Capped(bytes), WrittenCapacity(|Capped(bytes)|, minCapacity))
                   && RewrittenAt(old(mem.heap), mem.heap, obj)
    ensures !ok ==>
              mem.heap == old(mem.heap) && WrittenCapacity(|Capped(bytes)|, minCapacity) > SHORT_MAX
  {
    hide DecodeHeader, RewrittenAt, StringIs, AlternateLongHeader, Storage;
    var text := Capped(bytes);
    var capacity := Max(Min(minCapacity, MAX_STRING_LEN), |text|);
    ghost var h0 := mem.heap;
    if |text| <= SHORT_MAX && capacity <= SHORT_MAX {
      ok := mem.WriteMemory(obj, AlternateShortHeader(text));
      if ok {
        WrittenShort(h0, obj, text);
      }
      return;
    }
    var allocLen := AlignUp16(capacity + 1);
    var block := mem.AllocateMemory(allocLen, 16);
    if block.None? {
      return false;
    }
    var dataPtr := block.value;
    ghost var h1 := mem.heap;
    StorageFilled(h0, h1, dataPtr, text, allocLen);
    ok := mem.WriteMemory(dataPtr, Storage(text, allocLen));
    if !ok {
      assert false;
    }
    WrittenLong(h0, mem.heap, obj, text, dataPtr, allocLen);
    ok := mem.WriteMemory(obj, AlternateLongHeader(dataPtr, |text|, allocLen));
  }
}
