/** Scatter and gather over guest segments. */
module Iovecs {
  import opened Machine
  import opened Memory

  const DARWIN_IOVEC_SIZE := 16
  const MAX_GUEST_IOV := 1024
  const MAX_GUEST_IOV_BYTES := 16 * 1024 * 1024
  const EFAULT := 14

  datatype Iovec = Iovec(base: u64, len: u64)

  datatype Result<+T> = Ok(value: T) | Err(errno: nat)

  // ----- The iovec array --------------------------------------------------------------------

  function EncodeIovec(iov: Iovec): (s: seq<byte>)
    ensures |s| == DARWIN_IOVEC_SIZE
  {
    LeBytes(iov.base, 8) + LeBytes(iov.len, 8)
  }

  function EncodeIovecs(iovecs: seq<Iovec>): (s: seq<byte>)
    ensures |s| == DARWIN_IOVEC_SIZE * |iovecs|
  {
    if iovecs == [] then [] else EncodeIovecs(iovecs[..|iovecs| - 1]) + EncodeIovec(iovecs[|iovecs| - 1])
  }

  function TotalLen(iovecs: seq<Iovec>): nat
  {
    if iovecs == [] then 0 else TotalLen(iovecs[..|iovecs| - 1]) + iovecs[|iovecs| - 1].len
  }

  function DecodeIovec(s: seq<byte>): Iovec
    requires |s| == DARWIN_IOVEC_SIZE
  {
    LeWordTopByte(s[0..8]);
    LeWordTopByte(s[8..16]);
    Iovec(LeWord(s[0..8]), LeWord(s[8..16]))
  }

  /** An entry is the base address and then the length, each in eight bytes. */
  lemma EntryLayout(s: seq<byte>)
    requires |s| == 16
    ensures var iov := DecodeIovec(s);
            LeWord(s[0..8]) == iov.base && LeWord(s[8..16]) == iov.len
  {
  }

  lemma EncodeThenDecode(iov: Iovec)
    ensures DecodeIovec(EncodeIovec(iov)) == iov
  {
    var s := EncodeIovec(iov);
    assert s[0..8] == LeBytes(iov.base, 8);
    assert s[8..16] == LeBytes(iov.len, 8);
    hide LeBytes, LeWord;
    WordSize();
    LeWordOfBytes(iov.base, 8);
    LeWordOfBytes(iov.len, 8);
  }

  lemma DecodeThenEncode(s: seq<byte>)
    requires |s| == DARWIN_IOVEC_SIZE
    ensures EncodeIovec(DecodeIovec(s)) == s
  {
    hide LeBytes, LeWord;
    LeBytesOfWord(s[0..8]);
    LeBytesOfWord(s[8..16]);
    assert s == s[0..8] + s[8..16];
  }

  /** The segments of a guest array of iovecs: refused when there are too many, or together too long. */
  method ReadGuestIovecs(mem: GuestMemory, iovPtr: u64, iovcnt: u64) returns (r: Result<seq<Iovec>>)
    ensures match r
            case Ok(iovecs) =>
              && |iovecs| == iovcnt <= 1024 && TotalLen(iovecs) <= 0x100_0000
              && (iovcnt > 0 ==> iovPtr != 0
                                 && mem.heap.Read(iovPtr, DARWIN_IOVEC_SIZE * iovcnt) == Some(EncodeIovecs(iovecs)))
            case Err(errno) =>
              if iovcnt > 1024 then errno == 22
              else if iovPtr == 0 || !mem.heap.Mapped(iovPtr, DARWIN_IOVEC_SIZE * iovcnt) then errno == 14
              else
                && errno == 22
                && exists iovecs: seq<Iovec> ::
                     && |iovecs| <= iovcnt && TotalLen(iovecs) > 0x100_0000
                     && mem.heap.Slice(iovPtr, DARWIN_IOVEC_SIZE * iovcnt)[..DARWIN_IOVEC_SIZE * |iovecs|]
                        == EncodeIovecs(iovecs)
  {
    hide LeWord, LeBytes;
    if iovcnt > MAX_GUEST_IOV {
      return Err(EINVAL);
    }
    if iovcnt == 0 {
      return Ok([]);
    }
    if iovPtr == 0 {
      return Err(EFAULT);
    }
    var bytesRead := mem.heap.Read(iovPtr, DARWIN_IOVEC_SIZE * iovcnt);
    if bytesRead.None? {
      return Err(EFAULT);
    }
    var bytes := bytesRead.value;
    var iovecs: seq<Iovec> := [];
    var total := 0;
    for idx := 0 to iovcnt
      invariant |iovecs| == idx && total == TotalLen(iovecs) <= MAX_GUEST_IOV_BYTES
      invariant EncodeIovecs(iovecs) == bytes[..DARWIN_IOVEC_SIZE * idx]
    {
      var offset := idx * DARWIN_IOVEC_SIZE;
      var entry := bytes[offset..offset + DARWIN_IOVEC_SIZE];
      var iov := DecodeIovec(entry);
      DecodeThenEncode(entry);
      ghost var before := iovecs;
      iovecs := iovecs + [iov];
      assert iovecs[..|iovecs| - 1] == before;
      assert bytes[..offset] + entry == bytes[..offset + DARWIN_IOVEC_SIZE];
      total := total + iov.len;
      if total > MAX_GUEST_IOV_BYTES {
        assert mem.heap.Slice(iovPtr, DARWIN_IOVEC_SIZE * iovcnt)[..DARWIN_IOVEC_SIZE * |iovecs|]
               == EncodeIovecs(iovecs);
        return Err(EINVAL);
      }
    }
    assert bytes[..|bytes|] == bytes;
    r := Ok(iovecs);
  }

  lemma EncodingSplits(iovecs: seq<Iovec>)
    requires iovecs != []
    ensures var last := |iovecs| - 1;
            var e := EncodeIovecs(iovecs);
            && e[..DARWIN_IOVEC_SIZE * last] == EncodeIovecs(iovecs[..last])
            && DecodeIovec(e[DARWIN_IOVEC_SIZE * last..]) == iovecs[last]
  {
    hide EncodeIovec, DecodeIovec;
    var last := |iovecs| - 1;
    assert EncodeIovecs(iovecs)[DARWIN_IOVEC_SIZE * last..] == EncodeIovec(iovecs[last]);
    EncodeThenDecode(iovecs[last]);
  }

  /** The array determines its segments. */
  lemma {:induction false} EncodingInjective(a: seq<Iovec>, b: seq<Iovec>)
    requires EncodeIovecs(a) == EncodeIovecs(b)
    ensures a == b
    decreases |a|
  {
    hide EncodeIovec, DecodeIovec;
    assert |a| == |b|;
    if a != [] {
      var last := |a| - 1;
      EncodingSplits(a);
      EncodingSplits(b);
      EncodingInjective(a[..last], b[..last]);
      assert a == a[..last] + [a[last]] && b == b[..last] + [b[last]];
    }
  }

  /** The i-th entry of an array lies at 16 * i. */
  lemma {:induction false} EntryAt(iovecs: seq<Iovec>, i: nat)
    requires i < |iovecs|
    ensures var entry := EncodeIovecs(iovecs)[16 * i..16 * i + 16];
            LeWord(entry[0..8]) == iovecs[i].base && LeWord(entry[8..16]) == iovecs[i].len
    decreases |iovecs|
  {
    hide EncodeIovec, DecodeIovec, LeWord;
    var last := |iovecs| - 1;
    var e := EncodeIovecs(iovecs);
    if i == last {
      EncodeThenDecode(iovecs[i]);
      assert e[16 * i..16 * i + 16] == EncodeIovec(iovecs[i]);
      EntryLayout(EncodeIovec(iovecs[i]));
    } else {
      EntryAt(iovecs[..last], i);
      assert e[16 * i..16 * i + 16] == EncodeIovecs(iovecs[..last])[16 * i..16 * i + 16];
    }
  }

  // ----- Gather ----------------------------------------------------------------------------

  predicate Usable(h: Heap, iov: Iovec)
  {
    iov.len == 0 || (iov.base != 0 && h.Mapped(iov.base, iov.len))
  }

  /** The bytes of a segment; an empty one may point anywhere. */
  function SegmentBytes(h: Heap, iov: Iovec): (s: seq<byte>)
    requires Usable(h, iov)
    ensures |s| == iov.len
  {
    if iov.len == 0 then [] else h.Slice(iov.base, iov.len)
  }

  /** A segment can be used if it is empty, or starts above null and is mapped; its bytes are those at its addresses. */
  lemma SegmentMeaning(h: Heap, iov: Iovec)
    ensures Usable(h, iov) <==> iov.len == 0 || (iov.base > 0 && h.Mapped(iov.base, iov.len))
    ensures Usable(h, iov) ==> forall i :: 0 <= i < iov.len ==> SegmentBytes(h, iov)[i] == h.bytes[iov.base + i]
  {
  }

  predicate AllUsable(h: Heap, iovecs: seq<Iovec>)
  {
    forall i :: 0 <= i < |iovecs| ==> Usable(h, iovecs[i])
  }

  method ReadGuestIovecBytes(mem: GuestMemory, iovecs: seq<Iovec>) returns (r: Result<seq<seq<byte>>>)
    ensures match r
            case Ok(buffers) =>
              && AllUsable(mem.heap, iovecs) && |buffers| == |iovecs|
              && forall i :: 0 <= i < |iovecs| ==> buffers[i] == SegmentBytes(mem.heap, iovecs[i])
            case Err(errno) => !AllUsable(mem.heap, iovecs) && errno == 14
  {
    var buffers := [];
    for i := 0 to |iovecs|
      invariant |buffers| == i
      invariant forall j :: 0 <= j < i ==>
                  Usable(mem.heap, iovecs[j]) && buffers[j] == SegmentBytes(mem.heap, iovecs[j])
    {
      var iov := iovecs[i];
      if iov.len == 0 {
        buffers := buffers + [[]];
        continue;
      }
      if iov.base == 0 {
        return Err(EFAULT);
      }
      var data := mem.heap.Read(iov.base, iov.len);
      if data.None? {
        return Err(EFAULT);
      }
      buffers := buffers + [data.value];
    }
    r := Ok(buffers);
  }

  // ----- Scatter ---------------------------------------------------------------------------

  /** Every buffer is as long as its segment, as the callers size them. */
  predicate LongEnough(iovecs: seq<Iovec>, buffers: seq<seq<byte>>)
  {
    forall i :: 0 <= i < |iovecs| && i < |buffers| ==> iovecs[i].len <= |buffers[i]|
  }

  lemma LongEnoughTail(iovecs: seq<Iovec>, buffers: seq<seq<byte>>)
    requires iovecs != [] && buffers != [] && LongEnough(iovecs, buffers)
    ensures LongEnough(iovecs[1..], buffers[1..])
    ensures iovecs[0].len <= |buffers[0]|
  {
  }

  /** Writing a byte budget over the segments in order, up to the first segment that cannot be written. */
  function Scattered(h: Heap, iovecs: seq<Iovec>, buffers: seq<seq<byte>>, remaining: nat): (Heap, bool)
    requires LongEnough(iovecs, buffers)
    decreases |iovecs|
  {
    if remaining == 0 || iovecs == [] || buffers == [] then (h, true)
    else
      LongEnoughTail(iovecs, buffers);
      var n := Min(remaining, iovecs[0].len);
      if n == 0 then Scattered(h, iovecs[1..], buffers[1..], remaining)
      else if iovecs[0].base == 0 || !h.Mapped(iovecs[0].base, n) then (h, false)
      else Scattered(h.Stored(iovecs[0].base, buffers[0][..n]), iovecs[1..], buffers[1..], remaining - n)
  }

  method WriteGuestIovecBytes(mem: GuestMemory, iovecs: seq<Iovec>, buffers: seq<seq<byte>>, count: nat)
    returns (r: Result<()>)
    requires LongEnough(iovecs, buffers)
    modifies mem
    ensures var (after, ok) := Scattered(old(mem.heap), iovecs, buffers, count);
            mem.heap == after && r == if ok then Ok(()) else Err(14)
  {
    var remaining: nat := count;
    var pairs := Min(|iovecs|, |buffers|);
    assert iovecs[0..] == iovecs && buffers[0..] == buffers;
    for i := 0 to pairs
      invariant LongEnough(iovecs[i..], buffers[i..])
      invariant Scattered(mem.heap, iovecs[i..], buffers[i..], remaining)
                == Scattered(old(mem.heap), iovecs, buffers, count)
    {
      assert iovecs[i..][1..] == iovecs[i + 1..] && buffers[i..][1..] == buffers[i + 1..];
      LongEnoughTail(iovecs[i..], buffers[i..]);
      if remaining == 0 {
        break;
      }
      var writeLen := Min(remaining, iovecs[i].len);
      if writeLen == 0 {
        continue;
      }
      if iovecs[i].base == 0 {
        return Err(EFAULT);
      }
      var ok := mem.WriteMemory(iovecs[i].base, buffers[i][..writeLen]);
      if !ok {
        return Err(EFAULT);
      }
      remaining := remaining - writeLen;
    }
    r := Ok(());
  }

  /** The concatenated segments. */
  function Gathered(h: Heap, iovecs: seq<Iovec>): seq<byte>
    requires AllUsable(h, iovecs)
  {
    if iovecs == [] then []
    else
      assert AllUsable(h, iovecs[1..]);
      SegmentBytes(h, iovecs[0]) + Gathered(h, iovecs[1..])
  }

  predicate InSegment(iovecs: seq<Iovec>, a: int)
  {
    exists i :: 0 <= i < |iovecs| && Within(a, iovecs[i].base, iovecs[i].len)
  }

  predicate Disjoint(iovecs: seq<Iovec>)
  {
    forall i, j :: 0 <= i < j < |iovecs| ==> Apart(iovecs[i].base, iovecs[i].len, iovecs[j].base, iovecs[j].len)
  }

  predicate BuffersFit(iovecs: seq<Iovec>, buffers: seq<seq<byte>>)
  {
    |buffers| == |iovecs| && forall i :: 0 <= i < |iovecs| ==> |buffers[i]| == iovecs[i].len
  }

  /** Same mapped addresses, and no byte changed outside the segments. */
  ghost predicate OnlySegmentsChanged(h: Heap, h': Heap, iovecs: seq<Iovec>)
  {
    && h'.blocks == h.blocks
    && (forall a :: a in h'.bytes <==> a in h.bytes)
    && (forall a :: a in h.bytes && !InSegment(iovecs, a) ==> h'.bytes[a] == h.bytes[a])
  }

  lemma InTail(iovecs: seq<Iovec>, a: int)
    requires iovecs != []
    ensures InSegment(iovecs, a) <==> Within(a, iovecs[0].base, iovecs[0].len) || InSegment(iovecs[1..], a)
  {
    if InSegment(iovecs, a) && !Within(a, iovecs[0].base, iovecs[0].len) {
      var i :| 0 <= i < |iovecs| && Within(a, iovecs[i].base, iovecs[i].len);
      assert iovecs[1..][i - 1] == iovecs[i];
    } else if InSegment(iovecs[1..], a) {
      var i :| 0 <= i < |iovecs[1..]| && Within(a, iovecs[1..][i].base, iovecs[1..][i].len);
      assert iovecs[i + 1] == iovecs[1..][i];
    }
  }

  /** Disjoint segments share no address. */
  lemma NotLater(iovecs: seq<Iovec>, i: nat, a: int)
    requires i < |iovecs| && Disjoint(iovecs) && Within(a, iovecs[i].base, iovecs[i].len)
    ensures !InSegment(iovecs[i + 1..], a)
  {
    var later := iovecs[i + 1..];
    forall j | 0 <= j < |later|
      ensures !Within(a, later[j].base, later[j].len)
    {
      assert later[j] == iovecs[i + 1 + j];
      assert Apart(iovecs[i].base, iovecs[i].len, iovecs[i + 1 + j].base, iovecs[i + 1 + j].len);
    }
  }

  /** The part of each segment that a byte budget reaches. */
  function Trimmed(iovecs: seq<Iovec>, count: nat): (t: seq<Iovec>)
    ensures |t| == |iovecs|
    ensures forall i :: 0 <= i < |t| ==> t[i].base == iovecs[i].base && t[i].len <= Min(count, iovecs[i].len)
  {
    if iovecs == [] then []
    else
      var n := Min(count, iovecs[0].len);
      [Iovec(iovecs[0].base, n)] + Trimmed(iovecs[1..], count - n)
  }

  /** The budget left for a segment is what the segments before it do not use up. */
  lemma {:induction false} TrimmedAt(iovecs: seq<Iovec>, count: nat, i: nat)
    requires i < |iovecs|
    ensures Trimmed(iovecs, count)[i].len == Min(iovecs[i].len, SaturatingSub(count, TotalLen(iovecs[..i])))
    decreases i
  {
    hide TotalLen, Trimmed;
    TrimmedUnfolds(iovecs, count);
    if i == 0 {
      NoneBefore(iovecs);
    } else {
      TrimmedAt(iovecs[1..], count - Min(count, iovecs[0].len), i - 1);
      assert iovecs[1..][..i - 1] == iovecs[..i][1..];
      TotalFromFront(iovecs[..i]);
    }
  }

  lemma TrimmedUnfolds(iovecs: seq<Iovec>, count: nat)
    requires iovecs != []
    ensures var n := Min(count, iovecs[0].len);
            Trimmed(iovecs, count) == [Iovec(iovecs[0].base, n)] + Trimmed(iovecs[1..], count - n)
  {
  }

  lemma NoneBefore(iovecs: seq<Iovec>)
    ensures TotalLen(iovecs[..0]) == 0
  {
  }

  lemma {:induction false} TotalFromFront(iovecs: seq<Iovec>)
    requires iovecs != []
    ensures TotalLen(iovecs) == iovecs[0].len + TotalLen(iovecs[1..])
    decreases |iovecs|
  {
    if |iovecs| > 1 {
      var init := iovecs[..|iovecs| - 1];
      TotalFromFront(init);
      assert iovecs[1..][..|iovecs| - 2] == init[1..];
    }
  }

  lemma SameKeysUsable(h: Heap, h': Heap)
    requires h'.bytes.Keys == h.bytes.Keys
    ensures forall iov :: Usable(h', iov) <==> Usable(h, iov)
  {
    assert forall a :: a in h'.bytes.Keys <==> a in h.bytes.Keys;
  }

  /** Where the byte at an address comes from: the last of the segments written that contains it, or from before. */
  ghost predicate LastWriteWins(h: Heap, h': Heap, segments: seq<Iovec>, buffers: seq<seq<byte>>)
    requires |segments| <= |buffers| && forall i :: 0 <= i < |segments| ==> segments[i].len <= |buffers[i]|
  {
    && h'.blocks == h.blocks && h'.bytes.Keys == h.bytes.Keys
    && (forall a :: a in h.bytes && !InSegment(segments, a) ==> h'.bytes[a] == h.bytes[a])
    && forall i, a :: 0 <= i < |segments| && a in h.bytes && Within(a, segments[i].base, segments[i].len)
                      && !InSegment(segments[i + 1..], a) ==>
         h'.bytes[a] == buffers[i][a - segments[i].base]
  }

  /** The heap after one segment has been written. */
  function Written(h: Heap, part: Iovec, buffer: seq<byte>): (h': Heap)
    requires part.len <= |buffer|
    ensures h'.bytes.Keys == h.bytes.Keys && h'.blocks == h.blocks
  {
    if part.len == 0 then h else h.Stored(part.base, buffer[..part.len])
  }

  /** One segment written in front of others. */
  lemma WrittenInFront(h: Heap, h': Heap, segments: seq<Iovec>, buffers: seq<seq<byte>>)
    requires 0 < |segments| <= |buffers| && forall i :: 0 <= i < |segments| ==> segments[i].len <= |buffers[i]|
    requires LastWriteWins(Written(h, segments[0], buffers[0]), h', segments[1..], buffers[1..])
    ensures LastWriteWins(h, h', segments, buffers)
  {
    hide InSegment;
    var h1 := Written(h, segments[0], buffers[0]);
    assert h1.bytes.Keys == h.bytes.Keys;
    forall a
      ensures InSegment(segments, a) <==> Within(a, segments[0].base, segments[0].len) || InSegment(segments[1..], a)
    {
      InTail(segments, a);
    }
    forall i, a | 0 <= i < |segments| && a in h.bytes && Within(a, segments[i].base, segments[i].len)
                  && !InSegment(segments[i + 1..], a)
      ensures h'.bytes[a] == buffers[i][a - segments[i].base]
    {
      if i > 0 {
        assert segments[1..][i - 1] == segments[i] && segments[1..][i..] == segments[i + 1..];
        assert buffers[1..][i - 1] == buffers[i];
      }
    }
  }

  lemma NothingWritten(h: Heap, segments: seq<Iovec>, buffers: seq<seq<byte>>)
    requires |segments| <= |buffers| && forall i :: 0 <= i < |segments| ==> segments[i].len == 0
    ensures LastWriteWins(h, h, segments, buffers)
  {
  }

  /** The parts of the segments that have a buffer and are reached by the count. */
  function Reached(iovecs: seq<Iovec>, buffers: seq<seq<byte>>, count: nat): (t: seq<Iovec>)
    requires LongEnough(iovecs, buffers)
    ensures |t| == Min(|iovecs|, |buffers|) && forall i :: 0 <= i < |t| ==> t[i].len <= |buffers[i]|
  {
    Trimmed(iovecs[..Min(|iovecs|, |buffers|)], count)
  }

  lemma ReachedUnfolds(h: Heap, iovecs: seq<Iovec>, buffers: seq<seq<byte>>, count: nat)
    requires LongEnough(iovecs, buffers) && iovecs != [] && buffers != [] && count > 0
    ensures LongEnough(iovecs[1..], buffers[1..])
    ensures var n := Min(count, iovecs[0].len);
            var part := Iovec(iovecs[0].base, n);
            && n <= |buffers[0]|
            && Reached(iovecs, buffers, count) == [part] + Reached(iovecs[1..], buffers[1..], count - n)
            && Scattered(h, iovecs, buffers, count)
               == (if !Usable(h, part) then (h, false)
                   else Scattered(Written(h, part, buffers[0]), iovecs[1..], buffers[1..], count - n))
  {
    LongEnoughTail(iovecs, buffers);
    var pairs := Min(|iovecs|, |buffers|);
    assert iovecs[..pairs][1..] == iovecs[1..][..pairs - 1];
  }

  /** How many of the segments, from the first on, are usable. */
  function UsablePrefix(h: Heap, iovecs: seq<Iovec>): (k: nat)
    ensures k <= |iovecs| && AllUsable(h, iovecs[..k])
    ensures k < |iovecs| ==> !Usable(h, iovecs[k])
  {
    if iovecs == [] || !Usable(h, iovecs[0]) then 0
    else
      assert forall j :: 0 < j <= |iovecs| ==> iovecs[..j][1..] == iovecs[1..][..j - 1];
      var k := UsablePrefix(h, iovecs[1..]) + 1;
      assert iovecs[..k] == [iovecs[0]] + iovecs[1..][..k - 1];
      k
  }

  lemma {:induction false} SamePrefix(h: Heap, h': Heap, iovecs: seq<Iovec>)
    requires h'.bytes.Keys == h.bytes.Keys
    ensures UsablePrefix(h', iovecs) == UsablePrefix(h, iovecs)
  {
    SameKeysUsable(h, h');
    if iovecs != [] {
      SamePrefix(h, h', iovecs[1..]);
    }
  }

  /** Whatever the segments and the count: the write goes through the parts reached in order and stops with
      EFAULT exactly at the first that is not usable; what was written before stays, the last write winning
      where segments overlap, and nothing else changes. */
  lemma {:induction false} ScatterMeaning(h: Heap, iovecs: seq<Iovec>, buffers: seq<seq<byte>>, count: nat)
    requires LongEnough(iovecs, buffers)
    ensures var reached := Reached(iovecs, buffers, count);
            var k := UsablePrefix(h, reached);
            var (h', ok) := Scattered(h, iovecs, buffers, count);
            && (ok <==> k == |reached|)
            && LastWriteWins(h, h', reached[..k], buffers)
    decreases |iovecs|
  {
    hide LastWriteWins, Usable, Scattered, Reached, Written, UsablePrefix, LongEnough;
    var reached := Reached(iovecs, buffers, count);
    var k := UsablePrefix(h, reached);
    if iovecs == [] || buffers == [] || count == 0 {
      NothingReached(h, iovecs, buffers, count);
    } else {
      ReachedUnfolds(h, iovecs, buffers, count);
      if Usable(h, reached[0]) {
        var h1 := Written(h, reached[0], buffers[0]);
        SamePrefix(h, h1, reached[1..]);
        PrefixUnfolds(h, reached);
        ScatterMeaning(h1, iovecs[1..], buffers[1..], count - Min(count, iovecs[0].len));
        assert reached[..k][1..] == reached[1..][..k - 1];
        WrittenInFront(h, Scattered(h, iovecs, buffers, count).0, reached[..k], buffers);
      } else {
        PrefixUnfolds(h, reached);
        NothingWritten(h, [], buffers);
      }
    }
  }

  lemma PrefixUnfolds(h: Heap, iovecs: seq<Iovec>)
    requires iovecs != []
    ensures UsablePrefix(h, iovecs) == if Usable(h, iovecs[0]) then 1 + UsablePrefix(h, iovecs[1..]) else 0
  {
  }

  lemma NothingReached(h: Heap, iovecs: seq<Iovec>, buffers: seq<seq<byte>>, count: nat)
    requires LongEnough(iovecs, buffers) && (iovecs == [] || buffers == [] || count == 0)
    ensures var reached := Reached(iovecs, buffers, count);
            var k := UsablePrefix(h, reached);
            && k == |reached| && LastWriteWins(h, h, reached[..k], buffers)
            && Scattered(h, iovecs, buffers, count) == (h, true)
  {
    var reached := Reached(iovecs, buffers, count);
    NothingWritten(h, reached, buffers);
    assert reached[..|reached|] == reached;
  }

  /** The parts reached, one after another, are the first count bytes of the buffers. */
  lemma {:induction false} FirstBytes(h: Heap, iovecs: seq<Iovec>, buffers: seq<seq<byte>>, count: nat)
    requires BuffersFit(iovecs, buffers) && AllUsable(h, Trimmed(iovecs, count))
    requires forall i :: 0 <= i < |iovecs| ==>
               var part := Trimmed(iovecs, count)[i]; SegmentBytes(h, part) == buffers[i][..part.len]
    ensures Gathered(h, Trimmed(iovecs, count)) == Concat(buffers)[..Min(count, |Concat(buffers)|)]
    decreases |iovecs|
  {
    hide Usable, SegmentBytes;
    var t := Trimmed(iovecs, count);
    if iovecs != [] {
      var n := Min(count, iovecs[0].len);
      var rest := Trimmed(iovecs[1..], count - n);
      assert t[1..] == rest;
      forall i | 0 <= i < |rest|
        ensures Usable(h, rest[i]) && SegmentBytes(h, rest[i]) == buffers[1..][i][..rest[i].len]
      {
        assert rest[i] == t[i + 1] && buffers[1..][i] == buffers[i + 1];
      }
      FirstBytes(h, iovecs[1..], buffers[1..], count - n);
      assert Gathered(h, t) == SegmentBytes(h, t[0]) + Gathered(h, rest);
      PrefixOfBoth(buffers[0], Concat(buffers[1..]), count);
    }
  }

  lemma PrefixOfBoth(head: seq<byte>, tail: seq<byte>, count: nat)
    ensures var n := Min(count, |head|);
            (head + tail)[..Min(count, |head + tail|)] == head[..n] + tail[..Min(count - n, |tail|)]
  {
  }

  /** Scattering over disjoint parts succeeds exactly if every part that the count reaches is usable, puts
      exactly the first count bytes of the concatenated buffers there, and changes nothing else. */
  lemma ScatterFills(h: Heap, iovecs: seq<Iovec>, buffers: seq<seq<byte>>, count: nat)
    requires BuffersFit(iovecs, buffers) && Disjoint(Trimmed(iovecs, count))
    ensures var reached := Trimmed(iovecs, count);
            var (h', ok) := Scattered(h, iovecs, buffers, count);
            && OnlySegmentsChanged(h, h', reached)
            && (ok <==> AllUsable(h, reached))
            && (ok ==> AllUsable(h', reached)
                       && Gathered(h', reached) == Concat(buffers)[..Min(count, |Concat(buffers)|)])
  {
    hide Scattered, Trimmed, SegmentBytes, Gathered;
    var reached := Trimmed(iovecs, count);
    var (h', ok) := Scattered(h, iovecs, buffers, count);
    assert iovecs[..|iovecs|] == iovecs;
    assert Reached(iovecs, buffers, count) == reached;
    ScatterMeaning(h, iovecs, buffers, count);
    var k := UsablePrefix(h, reached);
    SameKeysUsable(h, h');
    forall a | InSegment(reached[..k], a)
      ensures InSegment(reached, a)
    {
      var i :| 0 <= i < k && Within(a, reached[..k][i].base, reached[..k][i].len);
      assert reached[i] == reached[..k][i];
    }
    if ok {
      assert reached[..k] == reached;
      forall i | 0 <= i < |iovecs|
        ensures SegmentBytes(h', reached[i]) == buffers[i][..reached[i].len]
      {
        PartWritten(h, h', reached, buffers, i);
      }
      FirstBytes(h', iovecs, buffers, count);
    } else {
      assert !Usable(h, reached[k]);
    }
  }

  lemma PartWritten(h: Heap, h': Heap, segments: seq<Iovec>, buffers: seq<seq<byte>>, i: nat)
    requires |segments| <= |buffers| && forall j :: 0 <= j < |segments| ==> segments[j].len <= |buffers[j]|
    requires LastWriteWins(h, h', segments, buffers) && Disjoint(segments)
    requires i < |segments| && Usable(h, segments[i])
    ensures Usable(h', segments[i]) && SegmentBytes(h', segments[i]) == buffers[i][..segments[i].len]
  {
    SameKeysUsable(h, h');
    var part := segments[i];
    forall a | Within(a, part.base, part.len)
      ensures !InSegment(segments[i + 1..], a)
    {
      NotLater(segments, i, a);
    }
  }

  /** A count that covers the buffers trims nothing. */
  lemma {:induction false} NothingTrimmed(iovecs: seq<Iovec>, buffers: seq<seq<byte>>, count: nat)
    requires BuffersFit(iovecs, buffers) && |Concat(buffers)| <= count
    ensures Trimmed(iovecs, count) == iovecs
    decreases |iovecs|
  {
    if iovecs != [] {
      NothingTrimmed(iovecs[1..], buffers[1..], count - iovecs[0].len);
    }
  }

  /** Over disjoint segments a full scatter followed by a gather returns the buffers. */
  lemma ScatterThenGather(h: Heap, iovecs: seq<Iovec>, buffers: seq<seq<byte>>, count: nat)
    requires BuffersFit(iovecs, buffers) && AllUsable(h, iovecs) && Disjoint(iovecs)
    requires |Concat(buffers)| <= count
    ensures var (h', ok) := Scattered(h, iovecs, buffers, count);
            && ok && AllUsable(h', iovecs)
            && forall i :: 0 <= i < |iovecs| ==> SegmentBytes(h', iovecs[i]) == buffers[i]
  {
    NothingTrimmed(iovecs, buffers, count);
    ScatterFills(h, iovecs, buffers, count);
    var (h', ok) := Scattered(h, iovecs, buffers, count);
    SameParts(h', iovecs, buffers);
  }

  lemma {:induction false} SameParts(h: Heap, iovecs: seq<Iovec>, buffers: seq<seq<byte>>)
    requires BuffersFit(iovecs, buffers) && AllUsable(h, iovecs)
    requires Gathered(h, iovecs) == Concat(buffers)
    ensures forall i :: 0 <= i < |iovecs| ==> SegmentBytes(h, iovecs[i]) == buffers[i]
    decreases |iovecs|
  {
    if iovecs != [] {
      var n := iovecs[0].len;
      assert AllUsable(h, iovecs[1..]);
      assert Gathered(h, iovecs)[..n] == SegmentBytes(h, iovecs[0]) && Concat(buffers)[..n] == buffers[0];
      assert Gathered(h, iovecs)[n..] == Gathered(h, iovecs[1..]) && Concat(buffers)[n..] == Concat(buffers[1..]);
      SameParts(h, iovecs[1..], buffers[1..]);
      forall i | 0 <= i < |iovecs|
        ensures SegmentBytes(h, iovecs[i]) == buffers[i]
      {
        if i > 0 {
          assert iovecs[1..][i - 1] == iovecs[i] && buffers[1..][i - 1] == buffers[i];
        }
      }
    }
  }

  /** Writing back what was gathered changes nothing, overlapping segments or not, whatever the count. */
  lemma {:induction false} GatherThenScatter(h: Heap, iovecs: seq<Iovec>, buffers: seq<seq<byte>>, count: nat)
    requires AllUsable(h, iovecs) && |buffers| == |iovecs|
    requires forall i :: 0 <= i < |iovecs| ==> buffers[i] == SegmentBytes(h, iovecs[i])
    ensures LongEnough(iovecs, buffers)
    ensures Scattered(h, iovecs, buffers, count) == (h, true)
    decreases |iovecs|
  {
    if iovecs != [] && count > 0 {
      var n := Min(count, iovecs[0].len);
      assert Usable(h, iovecs[0]);
      assert AllUsable(h, iovecs[1..]);
      if n > 0 {
        var h1 := h.Stored(iovecs[0].base, buffers[0][..n]);
        assert h1.bytes.Keys == h.bytes.Keys;
        assert h1.bytes == h.bytes;
      }
      GatherThenScatter(h, iovecs[1..], buffers[1..], count - n);
    }
  }

  // ----- Preview -----------------------------------------------------------------------------

  /** The first 128 bytes of the concatenated buffers. */
  method PreviewIovecBytes(buffers: seq<seq<byte>>) returns (preview: seq<byte>)
    ensures var all := Concat(buffers);
            preview == all[..Min(128, |all|)]
  {
    preview := [];
    assert buffers[0..] == buffers;
    for i := 0 to |buffers|
      invariant |preview| <= 128
      invariant var rest := Concat(buffers[i..]);
                preview + rest[..Min(128 - |preview|, |rest|)] == Concat(buffers)[..Min(128, |Concat(buffers)|)]
    {
      ghost var rest := Concat(buffers[i..]);
      assert buffers[i..][1..] == buffers[i + 1..];
      assert rest == buffers[i] + Concat(buffers[i + 1..]);
      if |preview| >= 128 {
        assert preview + rest[..0] == preview;
        return;
      }
      var remaining := 128 - |preview|;
      ghost var before := preview;
      preview := preview + buffers[i][..Min(|buffers[i]|, remaining)];
      PreviewStep(before, buffers[i], Concat(buffers[i + 1..]));
    }
    assert preview + [][..Min(128 - |preview|, 0)] == preview;
  }

  lemma PreviewStep(seen: seq<byte>, part: seq<byte>, rest: seq<byte>)
    requires |seen| <= 128
    ensures var now := seen + part[..Min(|part|, 128 - |seen|)];
            seen + (part + rest)[..Min(128 - |seen|, |part + rest|)] == now + rest[..Min(128 - |now|, |rest|)]
  {
  }
}
