/** std::vector<char> objects in guest memory: a 24-byte {begin, end, capacity-end} header and a heap buffer. */
module LibcppVector {
  import opened Machine
  import opened Memory

  const VECTOR_OBJECT_SIZE := 24
  const MAX_VECTOR_LEN := 0x1_0000

  datatype DecodedVector = DecodedVector(begin: nat, end: nat, len: nat, capacity: nat)

  const EMPTY_VECTOR := DecodedVector(0, 0, 0, 0)

  function DecodeVector(h: Heap, obj: u64): Option<DecodedVector>
  {
    match h.Read(obj, VECTOR_OBJECT_SIZE)
    case None => None
    case Some(header) =>
      var begin, end, cap := LeWord(header[0..8]), LeWord(header[8..16]), LeWord(header[16..24]);
      if begin == 0 && end == 0 && cap == 0 then
        Some(EMPTY_VECTOR)
      else if begin < LOWEST_BLOCK || end < begin || cap < end then
        None
      else if end - begin > MAX_VECTOR_LEN || cap - begin > MAX_VECTOR_LEN then
        None
      else
        Some(DecodedVector(begin, end, end - begin, cap - begin))
  }

  /** The header is begin, end and capacity end, in this order, each in eight bytes. */
  lemma DecodesExactly(h: Heap, obj: u64)
    ensures DecodeVector(h, obj).Some? ==> h.Mapped(obj, 24)
    ensures h.Mapped(obj, 24) ==>
              var header := h.Slice(obj, 24);
              var begin, end, cap := LeWord(header[0..8]), LeWord(header[8..16]), LeWord(header[16..24]);
              if (begin == 0 && end == 0 && cap == 0) || (0x1000 <= begin <= end <= cap <= begin + 0x1_0000) then
                DecodeVector(h, obj) == Some(DecodedVector(begin, end, end - begin, cap - begin))
              else
                DecodeVector(h, obj).None?
  {
    hide LeWord;
  }

  /**
   * The header at `obj` is mapped and decodes, and either it is all zero or
   * [begin, cap) is exactly one live block lying apart from the header.
   */
  ghost predicate Constructed(h: Heap, obj: u64)
  {
    DecodeVector(h, obj).Some? &&
    var v := DecodeVector(h, obj).value;
    v.begin == 0 ||
    (&& 1 <= v.capacity
     && h.Mapped(v.begin, v.capacity)
     && v.begin in h.blocks && h.blocks[v.begin] == v.capacity
     && Apart(obj, VECTOR_OBJECT_SIZE, v.begin, v.capacity))
  }

  ghost function Decoded(h: Heap, obj: u64): DecodedVector
    requires Constructed(h, obj)
  {
    DecodeVector(h, obj).value
  }

  /** The bytes of [begin, end). */
  ghost function Contents(h: Heap, obj: u64): seq<byte>
    requires Constructed(h, obj)
  {
    if Decoded(h, obj).begin == 0 then [] else h.Slice(Decoded(h, obj).begin, Decoded(h, obj).len)
  }

  /** The addresses an object owns: its header and its buffer. */
  ghost predicate Owns(h: Heap, obj: u64, a: int)
    requires Constructed(h, obj)
  {
    var v := Decoded(h, obj);
    Within(a, obj, VECTOR_OBJECT_SIZE) || (v.begin != 0 && Within(a, v.begin, v.capacity))
  }

  ghost predicate Separate(h: Heap, x: u64, y: u64)
    requires Constructed(h, x) && Constructed(h, y)
  {
    forall a :: !(Owns(h, x, a) && Owns(h, y, a))
  }

  /** A step on the object at `obj` touches only what that object owned, and grows only into unused memory. */
  ghost predicate TouchesOnly(before: Heap, after: Heap, obj: u64)
    requires Constructed(before, obj) && Constructed(after, obj)
  {
    && (forall a :: a in before.bytes && !Owns(before, obj, a) ==>
          a in after.bytes && after.bytes[a] == before.bytes[a] && !Owns(after, obj, a))
    && (forall b :: b in before.blocks && b != 0 && b != Decoded(before, obj).begin ==>
          b in after.blocks && after.blocks[b] == before.blocks[b] && b != Decoded(after, obj).begin)
  }

  /** Building an object at obj touches only its header and unused memory; every live block survives. */
  ghost predicate BuiltAt(before: Heap, after: Heap, obj: u64)
    requires Constructed(after, obj)
  {
    && (forall a :: a in before.bytes && !Within(a, obj, VECTOR_OBJECT_SIZE) ==>
          a in after.bytes && after.bytes[a] == before.bytes[a] && !Owns(after, obj, a))
    && (forall b :: b in before.blocks && b != 0 ==>
          b in after.blocks && after.blocks[b] == before.blocks[b] && b != Decoded(after, obj).begin)
  }

  lemma ConstructedShape(h: Heap, obj: u64)
    requires Constructed(h, obj)
    ensures var v := Decoded(h, obj);
            && h.Mapped(obj, VECTOR_OBJECT_SIZE)
            && v.len <= v.capacity <= MAX_VECTOR_LEN
            && v.end == v.begin + v.len
            && (v.begin == 0 ==> v == EMPTY_VECTOR)
            && (v.begin != 0 ==> LOWEST_BLOCK <= v.begin && v.begin + v.capacity < TWO_64)
            && |Contents(h, obj)| == v.len
            && (forall a :: Owns(h, obj, a) ==> a in h.bytes)
  {
    var header := h.Slice(obj, VECTOR_OBJECT_SIZE);
    WordSize();
    LeBytesOfWord(header[0..8]);
    LeBytesOfWord(header[8..16]);
    LeBytesOfWord(header[16..24]);
  }

  lemma HeaderDecodes(h: Heap, obj: u64, begin: nat, len: nat, capacity: nat)
    requires h.Mapped(obj, VECTOR_OBJECT_SIZE)
    requires len <= capacity <= MAX_VECTOR_LEN && begin + capacity <= U64_MAX
    requires if begin == 0 then capacity == 0 else LOWEST_BLOCK <= begin
    ensures DecodeVector(Rewritten(h, obj, begin, len, capacity), obj)
            == Some(DecodedVector(begin, begin + len, len, capacity))
  {
    hide LeWord, ThreeWords;
    var header := ThreeWords(begin, begin + len, begin + capacity);
    StoredReads(h, obj, header);
    ThreeWordsRead(begin, begin + len, begin + capacity);
  }

  /** Rewriting the header of an object around a buffer it owns. */
  lemma HeaderRewritten(h: Heap, obj: u64, begin: nat, len: nat, capacity: nat)
    requires h.Mapped(obj, VECTOR_OBJECT_SIZE)
    requires len <= capacity <= MAX_VECTOR_LEN
    requires LOWEST_BLOCK <= begin && 1 <= capacity && begin + capacity <= U64_MAX
    requires h.Mapped(begin, capacity) && begin in h.blocks && h.blocks[begin] == capacity
    requires Apart(obj, VECTOR_OBJECT_SIZE, begin, capacity)
    ensures var h' := Rewritten(h, obj, begin, len, capacity);
            && Constructed(h', obj)
            && Decoded(h', obj) == DecodedVector(begin, begin + len, len, capacity)
            && Contents(h', obj) == h.Slice(begin, len)
  {
    HeaderDecodes(h, obj, begin, len, capacity);
    var header := ThreeWords(begin, begin + len, begin + capacity);
    StoredElsewhere(h, obj, header, begin, capacity);
    StoredElsewhere(h, obj, header, begin, len);
  }

  lemma HeaderZeroed(h: Heap, obj: u64)
    requires h.Mapped(obj, VECTOR_OBJECT_SIZE)
    ensures var h' := Rewritten(h, obj, 0, 0, 0);
            Constructed(h', obj) && Decoded(h', obj) == EMPTY_VECTOR && Contents(h', obj) == []
  {
    HeaderDecodes(h, obj, 0, 0, 0);
  }

  /** The heap after the header at obj is rewritten. */
  ghost function Rewritten(h: Heap, obj: u64, begin: nat, len: nat, capacity: nat): Heap
  {
    h.Stored(obj, ThreeWords(begin, begin + len, begin + capacity))
  }

  /** Storing only inside the header leaves every other address alone. */
  lemma HeaderOnlyTouched(h: Heap, h': Heap, obj: u64, header: seq<byte>)
    requires Constructed(h, obj) && Constructed(h', obj)
    requires |header| == VECTOR_OBJECT_SIZE && h' == h.Stored(obj, header)
    requires Decoded(h', obj).begin == Decoded(h, obj).begin
    requires Decoded(h', obj).capacity == Decoded(h, obj).capacity
    ensures TouchesOnly(h, h', obj)
  {
    hide DecodeVector;
  }

  /** Rewriting only the length in the header keeps the buffer and disturbs nothing else. */
  lemma LengthRewritten(h: Heap, obj: u64, newLen: nat)
    requires Constructed(h, obj) && newLen <= Decoded(h, obj).capacity
    ensures h.Mapped(obj, VECTOR_OBJECT_SIZE)
    ensures Decoded(h, obj).begin + Decoded(h, obj).capacity <= U64_MAX
    ensures var v := Decoded(h, obj);
            var h' := Rewritten(h, obj, v.begin, newLen, v.capacity);
            && Constructed(h', obj)
            && Decoded(h', obj) == DecodedVector(v.begin, v.begin + newLen, newLen, v.capacity)
            && Contents(h', obj) == (if v.begin == 0 then [] else h.Slice(v.begin, newLen))
            && TouchesOnly(h, h', obj)
  {
    hide DecodeVector, ThreeWords;
    ConstructedShape(h, obj);
    var v := Decoded(h, obj);
    if v.begin == 0 {
      HeaderZeroed(h, obj);
    } else {
      HeaderRewritten(h, obj, v.begin, newLen, v.capacity);
    }
    HeaderOnlyTouched(h, Rewritten(h, obj, v.begin, newLen, v.capacity), obj,
                      ThreeWords(v.begin, v.begin + newLen, v.begin + v.capacity));
  }

  /** Pointing a header at a fresh block. */
  lemma Installed(h: Heap, filled: Heap, obj: u64, begin: u64, len: nat, capacity: nat)
    requires h.Mapped(obj, VECTOR_OBJECT_SIZE)
    requires len <= capacity <= MAX_VECTOR_LEN && capacity > 0
    requires FreshBlock(h, filled, begin, capacity)
    ensures filled.Mapped(obj, VECTOR_OBJECT_SIZE) && filled.Mapped(begin, len)
    ensures var h' := Rewritten(filled, obj, begin, len, capacity);
            && Constructed(h', obj)
            && Decoded(h', obj) == DecodedVector(begin, begin + len, len, capacity)
            && Contents(h', obj) == filled.Slice(begin, len)
            && BuiltAt(h, h', obj)
  {
    hide DecodeVector, ThreeWords;
    FreshBlockApart(h, filled, begin, capacity, obj, VECTOR_OBJECT_SIZE);
    HeaderRewritten(filled, obj, begin, len, capacity);
  }

  lemma BuiltTouchesOnly(h: Heap, h': Heap, obj: u64)
    requires Constructed(h, obj) && Constructed(h', obj) && BuiltAt(h, h', obj)
    ensures TouchesOnly(h, h', obj)
  {
    hide DecodeVector;
  }

  lemma HeaderZeroedFrame(h: Heap, obj: u64)
    requires h.Mapped(obj, VECTOR_OBJECT_SIZE)
    ensures var h' := Rewritten(h, obj, 0, 0, 0);
            && Constructed(h', obj) && Decoded(h', obj) == EMPTY_VECTOR && Contents(h', obj) == []
            && BuiltAt(h, h', obj)
  {
    hide DecodeVector, ThreeWords;
    HeaderZeroed(h, obj);
  }

  lemma TouchesTransitive(h0: Heap, h1: Heap, h2: Heap, obj: u64)
    requires Constructed(h0, obj) && Constructed(h1, obj) && Constructed(h2, obj)
    requires TouchesOnly(h0, h1, obj) && TouchesOnly(h1, h2, obj)
    ensures TouchesOnly(h0, h2, obj)
  {
    hide DecodeVector, Constructed;
  }

  /** Writing into the spare part of the buffer changes neither the header nor the contents. */
  lemma SpareWritten(h: Heap, obj: u64, data: seq<byte>)
    requires Constructed(h, obj) && Decoded(h, obj).begin != 0
    requires Decoded(h, obj).len + |data| <= Decoded(h, obj).capacity
    ensures var v := Decoded(h, obj);
            var h' := h.Stored(v.end, data);
            && h.Mapped(v.end, |data|)
            && Constructed(h', obj) && Decoded(h', obj) == v
            && h'.Slice(v.begin, v.len + |data|) == Contents(h, obj) + data
            && TouchesOnly(h, h', obj)
  {
    hide LeWord;
    ConstructedShape(h, obj);
    var v := Decoded(h, obj);
    var h' := h.Stored(v.end, data);
    StoredElsewhere(h, v.end, data, obj, VECTOR_OBJECT_SIZE);
    assert h'.bytes.Keys == h.bytes.Keys;
    assert h'.Slice(v.begin, v.len + |data|) == Contents(h, obj) + data;
  }

  /** Storing data behind the contents and then lengthening the header appends the data. */
  lemma Appended(h: Heap, obj: u64, data: seq<byte>)
    requires Constructed(h, obj) && Decoded(h, obj).begin != 0
    requires Decoded(h, obj).len + |data| <= Decoded(h, obj).capacity
    ensures var v := Decoded(h, obj);
            var h1 := h.Stored(v.end, data);
            var h2 := Rewritten(h1, obj, v.begin, v.len + |data|, v.capacity);
            && h.Mapped(v.end, |data|) && h1.Mapped(obj, VECTOR_OBJECT_SIZE)
            && v.begin + v.capacity <= U64_MAX
            && Became(h, h2, obj, Contents(h, obj) + data, v.capacity)
  {
    hide DecodeVector, ThreeWords;
    var v := Decoded(h, obj);
    SpareWritten(h, obj, data);
    var h1 := h.Stored(v.end, data);
    LengthRewritten(h1, obj, v.len + |data|);
    TouchesTransitive(h, h1, Rewritten(h1, obj, v.begin, v.len + |data|, v.capacity), obj);
  }

  method WriteVectorHeader(mem: GuestMemory, obj: u64, begin: nat, len: nat, capacity: nat) returns (ok: bool)
    modifies mem
    ensures mem.freed == old(mem.freed)
    ensures ok <==> && begin + len <= U64_MAX
                    && begin + capacity <= U64_MAX
                    && old(mem.heap).Mapped(obj, VECTOR_OBJECT_SIZE)
    ensures mem.heap == if ok then Rewritten(old(mem.heap), obj, begin, len, capacity) else old(mem.heap)
  {
    if begin + len > U64_MAX || begin + capacity > U64_MAX {
      return false;
    }
    ok := mem.WriteMemory(obj, ThreeWords(begin, begin + len, begin + capacity));
  }

  method ConstructVector(mem: GuestMemory, obj: u64) returns (ok: bool)
    modifies mem
    ensures mem.freed == old(mem.freed)
    ensures ok <==> old(mem.heap).Mapped(obj, VECTOR_OBJECT_SIZE)
    ensures mem.heap == if ok then Rewritten(old(mem.heap), obj, 0, 0, 0) else old(mem.heap)
    ensures ok ==> && Constructed(mem.heap, obj) && BuiltAt(old(mem.heap), mem.heap, obj)
                   && Contents(mem.heap, obj) == [] && Decoded(mem.heap, obj) == EMPTY_VECTOR
  {
    ok := WriteVectorHeader(mem, obj, 0, 0, 0);
    if ok {
      HeaderZeroedFrame(old(mem.heap), obj);
    }
  }

  /** The header does not decode, or the object is constructed. */
  ghost predicate Sane(h: Heap, obj: u64)
  {
    DecodeVector(h, obj).Some? ==> Constructed(h, obj)
  }

  /** The object was constructed before and has become one with the given contents and capacity. */
  ghost predicate Became(before: Heap, after: Heap, obj: u64, contents: seq<byte>, capacity: nat)
  {
    && Constructed(before, obj) && Constructed(after, obj) && TouchesOnly(before, after, obj)
    && Contents(after, obj) == contents && Decoded(after, obj).capacity == capacity
  }

  method ClearVector(mem: GuestMemory, obj: u64) returns (ok: bool)
    requires Sane(mem.heap, obj)
    modifies mem
    ensures mem.freed == old(mem.freed)
    ensures ok <==> old(Constructed(mem.heap, obj))
    ensures ok ==> && Became(old(mem.heap), mem.heap, obj, [], old(Decoded(mem.heap, obj).capacity))
                   && Decoded(mem.heap, obj).begin == old(Decoded(mem.heap, obj).begin)
    ensures !ok ==> mem.heap == old(mem.heap)
  {
    hide LeWord, ThreeWords;
    var decoded := DecodeVector(mem.heap, obj);
    if decoded.None? {
      return false;
    }
    var v := decoded.value;
    ConstructedShape(mem.heap, obj);
    LengthRewritten(mem.heap, obj, 0);
    ok := WriteVectorHeader(mem, obj, v.begin, 0, v.capacity);
  }

  function Popped(s: seq<byte>): (r: seq<byte>)
    ensures |r| == Max(|s| - 1, 0) && r <= s
  {
    if s == [] then [] else s[..|s| - 1]
  }

  method PopVector(mem: GuestMemory, obj: u64) returns (ok: bool)
    requires Sane(mem.heap, obj)
    modifies mem
    ensures mem.freed == old(mem.freed)
    ensures ok <==> old(Constructed(mem.heap, obj))
    ensures ok ==> && Became(old(mem.heap), mem.heap, obj, Popped(old(Contents(mem.heap, obj))),
                             old(Decoded(mem.heap, obj).capacity))
                   && Decoded(mem.heap, obj).begin == old(Decoded(mem.heap, obj).begin)
    ensures !ok ==> mem.heap == old(mem.heap)
  {
    hide LeWord, ThreeWords;
    var decoded := DecodeVector(mem.heap, obj);
    if decoded.None? {
      return false;
    }
    var v := decoded.value;
    ConstructedShape(mem.heap, obj);
    var newLen := SaturatingSub(v.len, 1);
    LengthRewritten(mem.heap, obj, newLen);
    ok := WriteVectorHeader(mem, obj, v.begin, newLen, v.capacity);
  }

  lemma UnchangedTouchesOnly(h: Heap, obj: u64)
    requires Constructed(h, obj)
    ensures TouchesOnly(h, h, obj)
  {
    hide LeWord;
    ConstructedShape(h, obj);
  }

  /** The capacity that a request for `requested` leads to. */
  function ReservedCapacity(capacity: nat, requested: nat): (r: nat)
    ensures r == capacity || r == requested || r == 0x1_0000
    ensures r >= capacity && (requested <= 0x1_0000 ==> r >= requested)
    ensures r > capacity ==> r <= requested && (requested > 0x1_0000 ==> r == 0x1_0000)
    ensures requested > 0x1_0000 ==> r >= 0x1_0000
  {
    Max(Min(requested, MAX_VECTOR_LEN), capacity)
  }

  /**
   * Moves the contents into a larger block when the request exceeds the capacity.
   * `moved` counts the bytes copied by the move.
   */
  method ReserveVector(mem: GuestMemory, obj: u64, requested: nat) returns (ok: bool, ghost moved: nat)
    requires Sane(mem.heap, obj)
    modifies mem
    ensures mem.freed == old(mem.freed)
    ensures ok ==>
              && old(Constructed(mem.heap, obj))
              && var v := old(Decoded(mem.heap, obj));
                 var grown := ReservedCapacity(v.capacity, requested);
                 && Became(old(mem.heap), mem.heap, obj, old(Contents(mem.heap, obj)), grown)
                 && (grown == v.capacity ==> mem.heap == old(mem.heap))
                 && (grown > v.capacity ==> Decoded(mem.heap, obj).begin % 16 == 0)
                 && moved == (if grown > v.capacity then v.len else 0)
    ensures !ok ==>
              && mem.heap == old(mem.heap) && moved == 0
              && (old(Constructed(mem.heap, obj)) ==>
                    ReservedCapacity(old(Decoded(mem.heap, obj).capacity), requested)
                    > old(Decoded(mem.heap, obj).capacity))
  {
    hide LeWord, ThreeWords;
    moved := 0;
    var decoded := DecodeVector(mem.heap, obj);
    if decoded.None? {
      return false, 0;
    }
    var v := decoded.value;
    ConstructedShape(mem.heap, obj);
    var capacity := Max(Min(requested, MAX_VECTOR_LEN), v.capacity);
    if capacity == v.capacity {
      UnchangedTouchesOnly(mem.heap, obj);
      return true, 0;
    }
    ghost var h0 := mem.heap;
    var block := mem.AllocateMemory(Max(capacity, 1), 16);
    if block.None? {
      return false, 0;
    }
    var begin := block.value;
    ghost var h1 := mem.heap;
    if v.len > 0 {
      var bytes := mem.heap.Read(v.begin, v.len);
      if bytes.None? {
        assert false;
      }
      ok := mem.WriteMemory(begin, bytes.value);
      if !ok {
        assert false;
      }
      StoredReads(h1, begin, bytes.value);
    }
    Installed(h0, mem.heap, obj, begin, v.len, capacity);
    ok := WriteVectorHeader(mem, obj, begin, v.len, capacity);
    BuiltTouchesOnly(h0, mem.heap, obj);
    moved := v.len;
  }

  method ResizeVector(mem: GuestMemory, obj: u64, requested: nat, fill: byte) returns (ok: bool)
    requires Sane(mem.heap, obj)
    modifies mem
    ensures mem.freed == old(mem.freed)
    ensures var newLen := Min(requested, MAX_VECTOR_LEN);
            && (ok ==>
                  && old(Constructed(mem.heap, obj))
                  && Became(old(mem.heap), mem.heap, obj, Resized(old(Contents(mem.heap, obj)), newLen, fill),
                            Max(old(Decoded(mem.heap, obj).capacity), newLen)))
            && (!ok ==>
                  && mem.heap == old(mem.heap)
                  && (old(Constructed(mem.heap, obj)) ==> newLen > old(Decoded(mem.heap, obj).capacity)))
    ensures ok ==>
              var was, now := old(Contents(mem.heap, obj)), Contents(mem.heap, obj);
              && |now| == Min(requested, 0x1_0000)
              && forall i :: 0 <= i < |now| ==> now[i] == if i < |was| then was[i] else fill
  {
    hide DecodeVector, ThreeWords, TouchesOnly, Rewritten;
    var decoded := DecodeVector(mem.heap, obj);
    if decoded.None? {
      return false;
    }
    ghost var h0 := mem.heap;
    var v0 := decoded.value;
    ConstructedShape(mem.heap, obj);
    UnchangedTouchesOnly(mem.heap, obj);
    var newLen := Min(requested, MAX_VECTOR_LEN);
    if newLen > v0.capacity {
      ghost var moved;
      ok, moved := ReserveVector(mem, obj, newLen);
      if !ok {
        return;
      }
    }
    ghost var h1 := mem.heap;
    ConstructedShape(mem.heap, obj);
    var v := DecodeVector(mem.heap, obj).value;
    if newLen > v.len {
      var fillBytes := seq(newLen - v.len, _ => fill);
      Appended(mem.heap, obj, fillBytes);
      ok := mem.WriteMemory(v.end, fillBytes);
      if !ok {
        return;
      }
    } else {
      LengthRewritten(mem.heap, obj, newLen);
    }
    ok := WriteVectorHeader(mem, obj, v.begin, newLen, Max(v.capacity, newLen));
    TouchesTransitive(h0, h1, mem.heap, obj);
  }

  /** The capacity push_back asks for when the buffer is full. */
  function GrownCapacity(capacity: nat, newLen: nat): (r: nat)
    ensures capacity > 0 && newLen <= 2 * capacity <= 0x1_0000 ==> r == 2 * capacity
    ensures capacity == 0 && newLen == 1 ==> r == 1
    ensures newLen <= 0x1_0000 ==> newLen <= r
    ensures r <= 0x1_0000
  {
    Min(Max(Max(2 * capacity, 1), newLen), MAX_VECTOR_LEN)
  }

  method PushVector(mem: GuestMemory, obj: u64, b: byte) returns (ok: bool, ghost moved: nat)
    requires Sane(mem.heap, obj)
    modifies mem
    ensures mem.freed == old(mem.freed)
    ensures ok ==>
              && old(Constructed(mem.heap, obj))
              && var v := old(Decoded(mem.heap, obj));
                 && v.len < MAX_VECTOR_LEN
                 && Became(old(mem.heap), mem.heap, obj, old(Contents(mem.heap, obj)) + [b],
                           if v.len < v.capacity then v.capacity else GrownCapacity(v.capacity, v.len + 1))
                 && moved == (if v.len < v.capacity then 0 else v.len)
    ensures !ok ==>
              && mem.heap == old(mem.heap) && moved == 0
              && (old(Constructed(mem.heap, obj)) ==>
                    old(Decoded(mem.heap, obj).len) == old(Decoded(mem.heap, obj).capacity))
  {
    hide DecodeVector, ThreeWords, TouchesOnly, Rewritten;
    moved := 0;
    var decoded := DecodeVector(mem.heap, obj);
    if decoded.None? {
      return false, 0;
    }
    ghost var h0 := mem.heap;
    var v0 := decoded.value;
    ConstructedShape(mem.heap, obj);
    UnchangedTouchesOnly(mem.heap, obj);
    var newLen := v0.len + 1;
    if newLen > MAX_VECTOR_LEN {
      return false, 0;
    }
    if newLen > v0.capacity {
      var capacity := Min(Max(Max(2 * v0.capacity, 1), newLen), MAX_VECTOR_LEN);
      ok, moved := ReserveVector(mem, obj, capacity);
      if !ok {
        return;
      }
    }
    ghost var h1 := mem.heap;
    ConstructedShape(mem.heap, obj);
    var v := DecodeVector(mem.heap, obj).value;
    Appended(mem.heap, obj, [b]);
    ok := mem.WriteMemory(v.end, [b]);
    if !ok {
      return;
    }
    ok := WriteVectorHeader(mem, obj, v.begin, newLen, Max(v.capacity, newLen));
    TouchesTransitive(h0, h1, mem.heap, obj);
  }

  method DestroyVector(mem: GuestMemory, obj: u64) returns (ok: bool)
    requires Sane(mem.heap, obj)
    modifies mem
    ensures mem.freed == old(mem.freed)
                         + if old(Constructed(mem.heap, obj)) && old(Decoded(mem.heap, obj)).begin != 0
                           then [old(Decoded(mem.heap, obj)).begin] else []
    ensures ok <==> old(Constructed(mem.heap, obj))
    ensures ok ==> Became(old(mem.heap), mem.heap, obj, [], 0) && Decoded(mem.heap, obj) == EMPTY_VECTOR
    ensures !ok ==> mem.heap == old(mem.heap)
  {
    hide ThreeWords, LeWord;
    var decoded := DecodeVector(mem.heap, obj);
    if decoded.None? {
      return false;
    }
    ghost var h0 := mem.heap;
    var v := decoded.value;
    ConstructedShape(mem.heap, obj);
    if v.begin != 0 {
      mem.FreeMemory(v.begin);
    }
    ghost var h1 := mem.heap;
    assert h1.Mapped(obj, VECTOR_OBJECT_SIZE);
    ok := WriteVectorHeader(mem, obj, 0, 0, 0);
    HeaderZeroedFrame(h1, obj);
    FreedTouchesOnly(h0, h1, mem.heap, obj);
  }

  lemma FreedTouchesOnly(h0: Heap, h1: Heap, h2: Heap, obj: u64)
    requires Constructed(h0, obj) && Constructed(h2, obj)
    requires h1 == h0 || (Decoded(h0, obj).begin != 0 && h1 == h0.Released(Decoded(h0, obj).begin))
    requires BuiltAt(h1, h2, obj)
    ensures TouchesOnly(h0, h2, obj)
  {
    hide DecodeVector;
  }

  /** The header at dest is storage that source does not use, unless both are the same object. */
  ghost predicate CopyTarget(h: Heap, dest: u64, source: u64)
  {
    && h.Mapped(dest, VECTOR_OBJECT_SIZE)
    && (dest != source && Constructed(h, source) ==>
          forall a :: Within(a, dest, VECTOR_OBJECT_SIZE) ==> !Owns(h, source, a))
  }

  method CopyVector(mem: GuestMemory, dest: u64, source: u64) returns (ok: bool)
    requires Sane(mem.heap, source) && CopyTarget(mem.heap, dest, source)
    modifies mem
    ensures mem.freed == old(mem.freed)
    ensures ok ==>
              && old(Constructed(mem.heap, source))
              && Constructed(mem.heap, dest) && BuiltAt(old(mem.heap), mem.heap, dest)
              && Contents(mem.heap, dest) == old(Contents(mem.heap, source))
              && Decoded(mem.heap, dest).capacity == |old(Contents(mem.heap, source))|
              && Decoded(mem.heap, dest).begin % 16 == 0
    ensures !ok ==>
              && mem.heap == old(mem.heap)
              && (old(Constructed(mem.heap, source)) ==> old(Contents(mem.heap, source)) != [])
  {
    hide DecodeVector, ThreeWords;
    var decoded := DecodeVector(mem.heap, source);
    if decoded.None? {
      return false;
    }
    ghost var h0 := mem.heap;
    var v := decoded.value;
    ConstructedShape(mem.heap, source);
    if v.len == 0 {
      ok := WriteVectorHeader(mem, dest, 0, 0, 0);
      HeaderZeroedFrame(h0, dest);
      return;
    }
    var block := mem.AllocateMemory(v.len, 16);
    if block.None? {
      return false;
    }
    var begin := block.value;
    ghost var h1 := mem.heap;
    FreshBlockApart(h0, h1, begin, v.len, v.begin, v.len);
    var bytes := mem.heap.Read(v.begin, v.len);
    if bytes.None? {
      assert false;
    }
    ok := mem.WriteMemory(begin, bytes.value);
    if !ok {
      return;
    }
    StoredReads(h1, begin, bytes.value);
    Installed(h0, mem.heap, dest, begin, v.len, v.len);
    ok := WriteVectorHeader(mem, dest, begin, v.len, v.len);
  }

  /** An object keeps its contents when no address it owns changes and its block stays live. */
  lemma VectorKept(h: Heap, h': Heap, obj: u64, other: u64)
    requires Constructed(h', obj) && Constructed(h, other)
    requires forall a :: Owns(h, other, a) ==> a in h'.bytes && h'.bytes[a] == h.bytes[a] && !Owns(h', obj, a)
    requires var b := Decoded(h, other).begin;
             b != 0 ==> b in h'.blocks && h'.blocks[b] == h.blocks[b]
    ensures Constructed(h', other) && Decoded(h', other) == Decoded(h, other)
    ensures Contents(h', other) == Contents(h, other)
    ensures Separate(h', obj, other) && Separate(h', other, obj)
  {
    hide LeWord, LeBytes;
    ConstructedShape(h, other);
    var v := Decoded(h, other);
    assert forall a :: Within(a, other, VECTOR_OBJECT_SIZE) ==> Owns(h, other, a);
    assert h'.Slice(other, VECTOR_OBJECT_SIZE) == h.Slice(other, VECTOR_OBJECT_SIZE);
    if v.begin != 0 {
      assert forall a :: Within(a, v.begin, v.capacity) ==> Owns(h, other, a);
      assert h'.Slice(v.begin, v.len) == h.Slice(v.begin, v.len);
    }
  }

  /** A step on one object leaves every separate object as it was, and still separate. */
  lemma OtherVectorUntouched(h: Heap, h': Heap, obj: u64, other: u64)
    requires Constructed(h, obj) && Constructed(h', obj) && TouchesOnly(h, h', obj)
    requires Constructed(h, other) && Separate(h, obj, other)
    ensures Constructed(h', other) && Decoded(h', other) == Decoded(h, other)
    ensures Contents(h', other) == Contents(h, other)
    ensures Separate(h', obj, other) && Separate(h', other, obj)
  {
    hide DecodeVector;
    ConstructedShape(h, other);
    ConstructedShape(h, obj);
    assert Decoded(h, other).begin != 0 ==> Owns(h, other, Decoded(h, other).begin);
    VectorKept(h, h', obj, other);
  }

  /** So does the construction of an object on storage that the other one does not own. */
  lemma OtherVectorUntouchedByBirth(h: Heap, h': Heap, obj: u64, other: u64)
    requires Constructed(h', obj) && BuiltAt(h, h', obj) && Constructed(h, other)
    requires forall a :: Within(a, obj, VECTOR_OBJECT_SIZE) ==> !Owns(h, other, a)
    ensures Constructed(h', other) && Decoded(h', other) == Decoded(h, other)
    ensures Contents(h', other) == Contents(h, other)
    ensures Separate(h', obj, other) && Separate(h', other, obj)
  {
    hide DecodeVector;
    ConstructedShape(h, other);
    VectorKept(h, h', obj, other);
  }

  /** The source of an assignment lies outside what the target owns, be it constructed or not. */
  ghost predicate ApartFrom(h: Heap, source: u64, dest: u64)
    requires Constructed(h, dest)
  {
    && (forall a :: Within(a, source, VECTOR_OBJECT_SIZE) ==> !Owns(h, dest, a))
    && (Constructed(h, source) ==> Separate(h, dest, source))
  }

  lemma UndecodableUntouched(h: Heap, h': Heap, obj: u64, other: u64)
    requires Constructed(h, obj) && Constructed(h', obj) && TouchesOnly(h, h', obj)
    requires h.Mapped(other, VECTOR_OBJECT_SIZE) && ApartFrom(h, other, obj)
    ensures DecodeVector(h', other) == DecodeVector(h, other)
  {
    assert h'.Slice(other, VECTOR_OBJECT_SIZE) == h.Slice(other, VECTOR_OBJECT_SIZE);
  }

  /** Assigning to itself does nothing; otherwise the target is destroyed first, and stays empty if the copy fails. */
  method AssignVector(mem: GuestMemory, dest: u64, source: u64) returns (ok: bool)
    requires Sane(mem.heap, dest) && Sane(mem.heap, source) && mem.heap.Mapped(source, VECTOR_OBJECT_SIZE)
    requires dest != source && Constructed(mem.heap, dest) ==> ApartFrom(mem.heap, source, dest)
    modifies mem
    ensures mem.freed == old(mem.freed)
                         + if dest != source && old(Constructed(mem.heap, dest))
                              && old(Decoded(mem.heap, dest)).begin != 0
                           then [old(Decoded(mem.heap, dest)).begin] else []
    ensures dest == source ==> ok && mem.heap == old(mem.heap)
    ensures dest != source && !old(Constructed(mem.heap, dest)) ==> !ok && mem.heap == old(mem.heap)
    ensures dest != source && old(Constructed(mem.heap, dest)) ==>
              if ok then
                && old(Constructed(mem.heap, source))
                && var s := old(Contents(mem.heap, source));
                   Became(old(mem.heap), mem.heap, dest, s, |s|)
              else
                && Became(old(mem.heap), mem.heap, dest, [], 0)
                && (old(Constructed(mem.heap, source)) ==> old(Contents(mem.heap, source)) != [])
  {
    hide DecodeVector, ThreeWords;
    if dest == source {
      return true;
    }
    ghost var h0 := mem.heap;
    ok := DestroyVector(mem, dest);
    if !ok {
      return;
    }
    ghost var h1 := mem.heap;
    UndecodableUntouched(h0, h1, dest, source);
    if Constructed(h0, source) {
      OtherVectorUntouched(h0, h1, dest, source);
    }
    StillTarget(h1, dest, source);
    ok := CopyVector(mem, dest, source);
    if ok {
      BuiltTouchesOnly(h1, mem.heap, dest);
      TouchesTransitive(h0, h1, mem.heap, dest);
    }
  }

  lemma StillTarget(h: Heap, dest: u64, source: u64)
    requires Constructed(h, dest)
    requires Constructed(h, source) ==> Separate(h, dest, source)
    ensures CopyTarget(h, dest, source)
  {
    ConstructedShape(h, dest);
    assert forall a :: Within(a, dest, VECTOR_OBJECT_SIZE) ==> Owns(h, dest, a);
  }
}
