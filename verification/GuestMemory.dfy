/** Byte-addressed guest memory with a block allocator: what the GuestMemory trait offers to the libc++ helpers. */
module Memory {
  import opened Machine

  const LOWEST_BLOCK := 0x1000

  predicate Within(a: int, addr: int, n: int)
  {
    addr <= a < addr + n
  }

  /** The address ranges [a, a+m) and [b, b+n) have nothing in common. */
  predicate Apart(a: int, m: int, b: int, n: int)
  {
    a + m <= b || b + n <= a
  }

  /** Memory contents; `bytes` holds every mapped (hence used) address, `blocks` every live allocation. */
  datatype Heap = Heap(bytes: map<int, byte>, blocks: map<int, nat>) {

    predicate Mapped(addr: int, n: int)
    {
      && 0 <= addr
      && addr + n <= TWO_64
      && forall a :: addr <= a < addr + n ==> a in bytes
    }

    function Slice(addr: int, n: nat): (s: seq<byte>)
      requires Mapped(addr, n)
      ensures |s| == n
      ensures forall i :: 0 <= i < n ==> s[i] == bytes[addr + i]
    {
      seq(n, i requires 0 <= i < n => bytes[addr + i])
    }

    /** A read succeeds exactly when the whole range is mapped. */
    function Read(addr: int, n: nat): (r: Option<seq<byte>>)
      ensures r.Some? ==> |r.value| == n
    {
      if Mapped(addr, n) then Some(Slice(addr, n)) else None
    }

    function Stored(addr: int, data: seq<byte>): Heap
    {
      this.(bytes := map a | a in bytes :: if Within(a, addr, |data|) then data[a - addr] else bytes[a])
    }

    function Released(base: int): Heap
    {
      if base in blocks then
        Heap(map a | a in bytes && !Within(a, base, blocks[base]) :: bytes[a], blocks - {base})
      else
        this
    }
  }

  /** after is before plus one block at addr, whose end is a valid address and which overlaps nothing mapped. */
  ghost predicate FreshBlock(before: Heap, after: Heap, addr: int, size: nat)
  {
    && LOWEST_BLOCK <= addr
    && addr + size <= U64_MAX
    && (forall a :: Within(a, addr, size) ==> a !in before.bytes)
    && addr !in before.blocks
    && after.blocks == before.blocks[addr := size]
    && (forall a :: a in after.bytes <==> a in before.bytes || Within(a, addr, size))
    && (forall a :: a in before.bytes ==> after.bytes[a] == before.bytes[a])
  }

  lemma FreshBlockApart(before: Heap, after: Heap, addr: int, size: nat, a: int, n: nat)
    requires FreshBlock(before, after, addr, size) && size > 0
    requires before.Mapped(a, n) && n > 0
    ensures Apart(a, n, addr, size)
    ensures after.Mapped(a, n) && after.Slice(a, n) == before.Slice(a, n)
    ensures after.Mapped(addr, size)
  {
    var overlap := Max(a, addr);
    assert !(Within(overlap, a, n) && Within(overlap, addr, size));
  }

  lemma StoredReads(h: Heap, addr: int, data: seq<byte>)
    requires h.Mapped(addr, |data|)
    ensures forall a, n :: h.Stored(addr, data).Mapped(a, n) <==> h.Mapped(a, n)
    ensures h.Stored(addr, data).Slice(addr, |data|) == data
  {
    assert h.Stored(addr, data).bytes.Keys == h.bytes.Keys;
  }

  lemma StoredElsewhere(h: Heap, addr: int, data: seq<byte>, a: int, n: nat)
    requires h.Mapped(addr, |data|) && h.Mapped(a, n) && Apart(a, n, addr, |data|)
    ensures h.Stored(addr, data).Mapped(a, n)
    ensures h.Stored(addr, data).Slice(a, n) == h.Slice(a, n)
  {
  }

  lemma SliceOfSlice(h: Heap, addr: int, n: nat, from: nat, m: nat)
    requires h.Mapped(addr, n) && from + m <= n
    ensures h.Mapped(addr + from, m)
    ensures h.Slice(addr, n)[from..from + m] == h.Slice(addr + from, m)
  {
  }

  datatype Scan = Scan(bytes: seq<byte>, truncated: bool)

  /**
   * The C string at addr, looked at one byte at a time and no further than max bytes:
   * nothing if an unmapped byte comes before the terminator.
   */
  function ScanCString(bytes: map<int, byte>, addr: u64, max: nat): Option<Scan>
    decreases max
  {
    if max == 0 then Some(Scan([], true))
    else if addr !in bytes then None
    else if bytes[addr] == 0 then Some(Scan([], false))
    else
      match ScanCString(bytes, SaturatingAdd(addr, 1), max - 1)
      case None => None
      case Some(rest) => Some(Scan([bytes[addr]] + rest.bytes, rest.truncated))
  }

  /** The outcome of a scan, put behind bytes already seen. */
  function Continue(seen: seq<byte>, rest: Option<Scan>): Option<Scan>
  {
    match rest
    case None => None
    case Some(scan) => Some(Scan(seen + scan.bytes, scan.truncated))
  }

  /** A scan that succeeds on part of memory has the same result on all of it. */
  lemma {:induction false} ScanMonotone(part: map<int, byte>, whole: map<int, byte>, addr: u64, max: nat)
    requires forall a :: a in part ==> a in whole && whole[a] == part[a]
    requires ScanCString(part, addr, max).Some?
    ensures ScanCString(whole, addr, max) == ScanCString(part, addr, max)
    decreases max
  {
    if max > 0 && part[addr] != 0 {
      ScanMonotone(part, whole, SaturatingAdd(addr, 1), max - 1);
    }
  }

  class GuestMemory {
    var heap: Heap
    var freed: seq<int>  // what has been asked to be freed so far

    constructor (heap: Heap)
      ensures this.heap == heap && freed == []
    {
      this.heap, freed := heap, [];
    }

    /** Fails, changing nothing, unless the whole range is mapped. */
    method WriteMemory(addr: int, data: seq<byte>) returns (ok: bool)
      modifies this`heap
      ensures ok <==> old(heap).Mapped(addr, |data|)
      ensures heap == if ok then old(heap).Stored(addr, data) else old(heap)
    {
      ok := heap.Mapped(addr, |data|);
      if ok {
        heap := heap.Stored(addr, data);
      }
    }

    /** May fail at will, and may answer with any unused block whatever, holding any bytes. */
    method AllocateMemory(size: nat, alignment: nat) returns (addr: Option<u64>)
      requires size > 0 && alignment > 0
      modifies this`heap
      ensures addr.None? ==> heap == old(heap)
      ensures addr.Some? ==> FreshBlock(old(heap), heap, addr.value, size) && addr.value % alignment == 0
    {
      var base: u64 := *;
      var contents: map<int, byte> := *;
      var usable := && LOWEST_BLOCK <= base
                    && base + size <= U64_MAX
                    && base % alignment == 0
                    && base !in heap.blocks
                    && (forall a :: base <= a < base + size ==> a !in heap.bytes && a in contents);
      if usable {
        var block := map a | base <= a < base + size :: contents[a];
        heap := Heap(heap.bytes + block, heap.blocks[base := size]);
        addr := Some(base);
      } else {
        addr := None;
      }
    }

    /** Frees a block, or does nothing, as the trait's default does; callers ignore the outcome. */
    method FreeMemory(base: int)
      modifies this
      ensures heap == old(heap) || heap == old(heap).Released(base)
      ensures freed == old(freed) + [base]
    {
      freed := freed + [base];
      var obeyed: bool := *;
      if obeyed {
        heap := heap.Released(base);
      }
    }
  }
}
