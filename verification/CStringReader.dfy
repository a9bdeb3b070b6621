/** Reading a NUL-terminated guest string in chunks, with the same outcome as one byte at a time. */
module CStringReader {
  import opened Machine
  import opened Memory

  const CSTRING_READ_CHUNK_BYTES := 4096
  const MAX_GUEST_STRING_BYTES := 1024 * 1024

  function ByteAt(addr: u64, offset: nat): u64
  {
    SaturatingAdd(addr, offset)
  }

  /** The bytes before the terminator are as scanned. */
  ghost predicate Seen(bytes: map<int, byte>, addr: u64, text: seq<byte>)
  {
    forall i :: 0 <= i < |text| ==>
      ByteAt(addr, i) in bytes && bytes[ByteAt(addr, i)] == text[i] && text[i] != 0
  }

  /** What a scan means, address by address: it is truncated exactly when none of the first max bytes is NUL,
      and it fails exactly when an unmapped byte comes before the terminator. */
  lemma {:induction false} ScanMeaning(bytes: map<int, byte>, addr: u64, max: nat)
    ensures var r := ScanCString(bytes, addr, max);
            match r
            case Some(scan) =>
              && Seen(bytes, addr, scan.bytes)
              && |scan.bytes| <= max
              && (scan.truncated <==> |scan.bytes| == max)
              && (!scan.truncated ==> var end := ByteAt(addr, |scan.bytes|); end in bytes && bytes[end] == 0)
            case None =>
              exists text: seq<byte> ::
                |text| < max && Seen(bytes, addr, text) && ByteAt(addr, |text|) !in bytes
    decreases max
  {
    if max == 0 {
    } else if addr !in bytes {
      var text: seq<byte> := [];
      assert Seen(bytes, addr, text) && ByteAt(addr, |text|) !in bytes;
    } else if bytes[addr] != 0 {
      var next := SaturatingAdd(addr, 1);
      ScanMeaning(bytes, next, max - 1);
      match ScanCString(bytes, next, max - 1) {
        case Some(rest) =>
          SeenOneMore(bytes, addr, rest.bytes);
        case None =>
          var text: seq<byte> :| |text| < max - 1 && Seen(bytes, next, text) && ByteAt(next, |text|) !in bytes;
          SeenOneMore(bytes, addr, text);
          assert ByteAt(addr, |[bytes[addr]] + text|) == ByteAt(next, |text|);
      }
    }
  }

  lemma SeenOneMore(bytes: map<int, byte>, addr: u64, text: seq<byte>)
    requires addr in bytes && bytes[addr] != 0 && Seen(bytes, SaturatingAdd(addr, 1), text)
    ensures Seen(bytes, addr, [bytes[addr]] + text)
  {
    var all := [bytes[addr]] + text;
    forall i | 0 <= i < |all|
      ensures ByteAt(addr, i) in bytes && bytes[ByteAt(addr, i)] == all[i] && all[i] != 0
    {
      if i > 0 {
        assert ByteAt(SaturatingAdd(addr, 1), i - 1) == ByteAt(addr, i);
        assert all[i] == text[i - 1];
      }
    }
  }

  function FirstNul(chunk: seq<byte>): (k: nat)
    ensures k <= |chunk|
    ensures forall i :: 0 <= i < k ==> chunk[i] != 0
    ensures k < |chunk| ==> chunk[k] == 0
  {
    if chunk == [] || chunk[0] == 0 then 0 else 1 + FirstNul(chunk[1..])
  }

  lemma ScanStep(bytes: map<int, byte>, addr: u64, max: nat)
    requires max > 0 && addr in bytes
    ensures ScanCString(bytes, addr, max) ==
            if bytes[addr] == 0 then Some(Scan([], false))
            else Continue([bytes[addr]], ScanCString(bytes, SaturatingAdd(addr, 1), max - 1))
  {
  }

  /** Scanning over a whole mapped chunk. */
  lemma {:induction false} ChunkScan(h: Heap, addr: u64, n: nat, max: nat)
    requires h.Mapped(addr, n) && n <= max
    ensures var chunk := h.Slice(addr, n);
            ScanCString(h.bytes, addr, max) == AfterChunk(h, addr, chunk, max)
    decreases n
  {
    hide ScanCString;
    var chunk := h.Slice(addr, n);
    if n == 0 {
      ContinueNothing(ScanCString(h.bytes, addr, max));
    } else {
      assert chunk == [h.bytes[addr]] + chunk[1..];
      ScanStep(h.bytes, addr, max);
      assert chunk[0] == h.bytes[addr] && chunk[..0] == [];
      if n == 1 {
        assert chunk == [h.bytes[addr]] && chunk[1..] == [];
        assert chunk[0] != 0 ==> FirstNul(chunk) == 1;
      }
      if n > 1 && h.bytes[addr] != 0 {
        ChunkScan(h, addr + 1, n - 1, max - 1);
        assert h.Slice(addr + 1, n - 1) == chunk[1..];
        AfterOneMore(h, addr, chunk, max);
      }
    }
  }

  /** The outcome of a scan whose first bytes are the chunk. */
  function AfterChunk(h: Heap, addr: u64, chunk: seq<byte>, max: nat): Option<Scan>
    requires |chunk| <= max
  {
    var k := FirstNul(chunk);
    if k < |chunk| then Some(Scan(chunk[..k], false))
    else Continue(chunk, ScanCString(h.bytes, SaturatingAdd(addr, |chunk|), max - |chunk|))
  }

  lemma AfterOneMore(h: Heap, addr: u64, chunk: seq<byte>, max: nat)
    requires 1 < |chunk| <= max && chunk[0] != 0 && addr + |chunk| <= TWO_64
    ensures AfterChunk(h, addr, chunk, max) == Continue([chunk[0]], AfterChunk(h, addr + 1, chunk[1..], max - 1))
  {
    hide ScanCString;
    var k := FirstNul(chunk);
    assert k == 1 + FirstNul(chunk[1..]);
    assert chunk == [chunk[0]] + chunk[1..];
    if k < |chunk| {
      assert chunk[..k] == [chunk[0]] + chunk[1..][..k - 1];
    } else {
      assert SaturatingAdd(addr + 1, |chunk| - 1) == SaturatingAdd(addr, |chunk|);
      ContinueTwice([chunk[0]], chunk[1..], ScanCString(h.bytes, SaturatingAdd(addr, |chunk|), max - |chunk|));
    }
  }

  lemma ContinueNothing(rest: Option<Scan>)
    ensures Continue([], rest) == rest
  {
    if rest.Some? {
      assert [] + rest.value.bytes == rest.value.bytes;
    }
  }

  lemma ContinueTwice(a: seq<byte>, b: seq<byte>, rest: Option<Scan>)
    ensures Continue(a, Continue(b, rest)) == Continue(a + b, rest)
  {
    if rest.Some? {
      assert a + (b + rest.value.bytes) == (a + b) + rest.value.bytes;
    }
  }

  /** One chunk of the fallback: byte by byte, up to a terminator or an unmapped byte. */
  method ScanBytes(mem: GuestMemory, chunkAddr: u64, chunkLen: nat, seen: seq<byte>, ghost max: nat)
    returns (failed: bool, done: bool, bytes: seq<byte>)
    requires chunkLen <= max
    ensures var scan := Continue(seen, ScanCString(mem.heap.bytes, chunkAddr, max));
            && (failed ==> scan.None?)
            && (!failed && done ==> scan == Some(Scan(bytes, false)))
            && (!failed && !done ==>
                  scan == Continue(bytes, ScanCString(mem.heap.bytes, ByteAt(chunkAddr, chunkLen), max - chunkLen)))
  {
    failed, done, bytes := false, false, seen;
    for subOffset := 0 to chunkLen
      invariant Continue(seen, ScanCString(mem.heap.bytes, chunkAddr, max))
                == Continue(bytes, ScanCString(mem.heap.bytes, ByteAt(chunkAddr, subOffset), max - subOffset))
    {
      ghost var rest := ScanCString(mem.heap.bytes, ByteAt(chunkAddr, subOffset + 1), max - subOffset - 1);
      var b := mem.heap.Read(ByteAt(chunkAddr, subOffset), 1);
      if b.None? {
        failed := true;
        return;
      }
      if b.value[0] == 0 {
        assert bytes + [] == bytes;
        done := true;
        return;
      }
      assert SaturatingAdd(ByteAt(chunkAddr, subOffset), 1) == ByteAt(chunkAddr, subOffset + 1);
      ContinueTwice(bytes, [b.value[0]], rest);
      bytes := bytes + [b.value[0]];
    }
  }

  /** The chunked reader has the outcome of the byte-at-a-time scan, on every memory with any unmapped holes. */
  method ReadCStringBytesWithTruncation(mem: GuestMemory, addr: u64, maxLen: nat) returns (r: Option<Scan>)
    ensures r == ScanCString(mem.heap.bytes, addr, maxLen)
  {
    var bytes := [];
    var offset := 0;
    ghost var whole := ScanCString(mem.heap.bytes, addr, maxLen);
    ContinueNothing(whole);
    while offset < maxLen
      invariant offset <= maxLen
      invariant whole == Continue(bytes, ScanCString(mem.heap.bytes, ByteAt(addr, offset), maxLen - offset))
    {
      var chunkLen := Min(CSTRING_READ_CHUNK_BYTES, maxLen - offset);
      var chunkAddr := SaturatingAdd(addr, offset);
      ghost var rest := ScanCString(mem.heap.bytes, ByteAt(chunkAddr, chunkLen), maxLen - offset - chunkLen);
      var chunk := mem.heap.Read(chunkAddr, chunkLen);
      if chunk.Some? {
        ChunkScan(mem.heap, chunkAddr, chunkLen, maxLen - offset);
        var nulIndex := FirstNul(chunk.value);
        if nulIndex < chunkLen {
          return Some(Scan(bytes + chunk.value[..nulIndex], false));
        }
        ContinueTwice(bytes, chunk.value, rest);
        bytes := bytes + chunk.value;
      } else {
        var failed, done;
        failed, done, bytes := ScanBytes(mem, chunkAddr, chunkLen, bytes, maxLen - offset);
        if failed {
          return None;
        }
        if done {
          return Some(Scan(bytes, false));
        }
      }
      assert ByteAt(chunkAddr, chunkLen) == ByteAt(addr, offset + chunkLen);
      offset := offset + chunkLen;
    }
    assert bytes + [] == bytes;
    r := Some(Scan(bytes, offset >= maxLen));
  }
}
