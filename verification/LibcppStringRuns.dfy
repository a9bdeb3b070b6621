/** The std::string imports, one by one and in whole guest programs, against plain byte sequences. */
module LibcppStringRuns {
  import opened Machine
  import opened Memory
  import opened LibcppString
  import opened CStringReader

  // ----- What each operation does to a byte sequence --------------------------------------

  /** s without the bytes at positions in [pos, pos + len). */
  function Erased(s: seq<byte>, pos: nat, len: nat): seq<byte>
  {
    if s == [] then []
    else if pos > 0 then [s[0]] + Erased(s[1..], pos - 1, len)
    else if len > 0 then Erased(s[1..], 0, len - 1)
    else s
  }

  lemma SlicesShift(s: seq<byte>, from: nat, end: nat)
    requires from <= end <= |s| && 0 < end
    ensures from > 0 ==> s[..from] + s[end..] == [s[0]] + (s[1..][..from - 1] + s[1..][end - 1..])
    ensures from == 0 ==> s[..from] + s[end..] == s[1..][..0] + s[1..][end - 1..]
  {
  }

  lemma {:induction false} ErasedIsTwoSlices(s: seq<byte>, pos: nat, len: nat)
    ensures var from := Min(pos, |s|);
            Erased(s, pos, len) == s[..from] + s[Min(from + len, |s|)..]
  {
    if s != [] {
      var from := Min(pos, |s|);
      var end := Min(from + len, |s|);
      if pos > 0 {
        ErasedIsTwoSlices(s[1..], pos - 1, len);
        SlicesShift(s, from, end);
      } else if len > 0 {
        ErasedIsTwoSlices(s[1..], 0, len - 1);
        SlicesShift(s, 0, end);
      }
    }
  }

  // ----- Capacity -----------------------------------------------------------------------

  /** The largest capacity this writer produces. */
  const LARGEST_WRITTEN := 0x1_000F

  /** Rewriting a string with its own capacity never lowers it, exactly up to the largest capacity ever written. */
  lemma CapacityKept(len: nat, capacity: nat)
    requires len <= MAX_STRING_LEN
    ensures WrittenCapacity(len, capacity) >= capacity <==> capacity <= LARGEST_WRITTEN
    ensures WrittenCapacity(len, capacity) <= LARGEST_WRITTEN
    ensures WrittenCapacity(len, capacity) >= len
  {
  }

  /** A capacity this writer produced survives every further rewrite that the contents fit in. */
  lemma CapacityStable(len: nat, len': nat, minCapacity: nat)
    requires len <= MAX_STRING_LEN
    requires len' <= WrittenCapacity(len, minCapacity) && len' <= MAX_STRING_LEN
    ensures var capacity := WrittenCapacity(len, minCapacity);
            WrittenCapacity(len', capacity) == capacity
  {
    var capacity := WrittenCapacity(len, minCapacity);
    if capacity > SHORT_MAX {
      assert (capacity + 1) % 16 == 0;
      if capacity > MAX_STRING_LEN {
        assert capacity == LARGEST_WRITTEN;
      }
    }
  }

  /** Only a string that others have built can decode to a larger capacity, and any rewrite then lowers it. */
  lemma ForeignCapacityLowered(h: Heap, obj: u64, dataPtr: u64, len: u64, allocLen: nat, len': nat)
    requires LARGEST_WRITTEN + 1 < allocLen < TWO_63 && len' <= MAX_STRING_LEN
    requires LOWEST_BLOCK <= dataPtr && len <= MAX_STRING_LEN && h.Mapped(dataPtr, len)
    requires h.Mapped(obj, STRING_OBJECT_SIZE)
    requires h.Slice(obj, STRING_OBJECT_SIZE) == AlternateLongHeader(dataPtr, len, allocLen)
    ensures DecodeString(h, obj).Some? && DecodeString(h, obj).value.capacity == allocLen - 1
    ensures WrittenCapacity(len', allocLen - 1) == LARGEST_WRITTEN < allocLen - 1
  {
    hide AlternateLongHeader;
    AlternateLongDecodes(h, dataPtr, len, allocLen);
  }

  // ----- The operations -------------------------------------------------------------------

  /** After a rewrite of obj: the old string if it failed, else the new bytes with the capacity that follows. */
  ghost predicate Rewrote(h: Heap, h': Heap, obj: u64, ok: bool, bytes: seq<byte>, minCapacity: nat)
  {
    if ok then StringIs(h', obj, bytes, WrittenCapacity(|bytes|, minCapacity)) && RewrittenAt(h, h', obj)
    else h' == h && WrittenCapacity(|bytes|, minCapacity) > SHORT_MAX
  }

  method AppendString(mem: GuestMemory, obj: u64, suffix: seq<byte>) returns (ok: bool)
    modifies mem
    ensures match old(DecodeString(mem.heap, obj))
            case None => !ok && mem.heap == old(mem.heap)
            case Some(d) => Rewrote(old(mem.heap), mem.heap, obj, ok, Capped(d.bytes + suffix), d.capacity)
  {
    hide DecodeHeader, StringIs, RewrittenAt;
    var decoded := DecodeString(mem.heap, obj);
    if decoded.None? {
      return false;
    }
    var available := SaturatingSub(MAX_STRING_LEN, |decoded.value.bytes|);
    var bytes := decoded.value.bytes + suffix[..Min(|suffix|, available)];
    assert bytes == Capped(decoded.value.bytes + suffix) && Capped(bytes) == bytes;
    ok := WriteString(mem, obj, bytes, decoded.value.capacity);
  }

  method EraseString(mem: GuestMemory, obj: u64, pos: u64, len: u64) returns (ok: bool)
    modifies mem
    ensures match old(DecodeString(mem.heap, obj))
            case None => !ok && mem.heap == old(mem.heap)
            case Some(d) => Rewrote(old(mem.heap), mem.heap, obj, ok, Erased(d.bytes, pos, len), d.capacity)
  {
    hide DecodeHeader, StringIs, RewrittenAt;
    var decoded := DecodeString(mem.heap, obj);
    if decoded.None? {
      return false;
    }
    var text := decoded.value.bytes;
    var from := Min(pos, |text|);
    var end := if len == NPOS then |text| else Min(SaturatingAdd(from, len), |text|);
    ErasedIsTwoSlices(text, pos, len);
    assert Capped(text[..from] + text[end..]) == text[..from] + text[end..];
    ok := WriteString(mem, obj, text[..from] + text[end..], decoded.value.capacity);
  }

  method ClearString(mem: GuestMemory, obj: u64) returns (ok: bool)
    modifies mem
    ensures match old(DecodeString(mem.heap, obj))
            case None => !ok && mem.heap == old(mem.heap)
            case Some(d) => Rewrote(old(mem.heap), mem.heap, obj, ok, [], d.capacity)
  {
    hide DecodeHeader, StringIs, RewrittenAt;
    var decoded := DecodeString(mem.heap, obj);
    if decoded.None? {
      return false;
    }
    ok := WriteString(mem, obj, [], decoded.value.capacity);
  }

  method ReserveString(mem: GuestMemory, obj: u64, requested: u64) returns (ok: bool)
    modifies mem
    ensures match old(DecodeString(mem.heap, obj))
            case None => !ok && mem.heap == old(mem.heap)
            case Some(d) => Rewrote(old(mem.heap), mem.heap, obj, ok, d.bytes, Max(requested, d.capacity))
  {
    hide DecodeHeader, StringIs, RewrittenAt;
    var decoded := DecodeString(mem.heap, obj);
    if decoded.None? {
      return false;
    }
    var capacity := Max(Min(requested, MAX_STRING_LEN), decoded.value.capacity);
    assert Capped(decoded.value.bytes) == decoded.value.bytes;
    ok := WriteString(mem, obj, decoded.value.bytes, capacity);
  }

  method ResizeString(mem: GuestMemory, obj: u64, requested: u64, fill: byte) returns (ok: bool)
    modifies mem
    ensures match old(DecodeString(mem.heap, obj))
            case None => !ok && mem.heap == old(mem.heap)
            case Some(d) =>
              Rewrote(old(mem.heap), mem.heap, obj, ok,
                      Resized(d.bytes, Min(requested, MAX_STRING_LEN), fill), d.capacity)
    ensures ok ==>
              && old(DecodeString(mem.heap, obj)).Some? && DecodeString(mem.heap, obj).Some?
              && var was, now := old(DecodeString(mem.heap, obj)).value.bytes, DecodeString(mem.heap, obj).value.bytes;
                 && |now| == Min(requested, 0x1_0000)
                 && forall i :: 0 <= i < |now| ==> now[i] == if i < |was| then was[i] else fill
  {
    hide DecodeHeader, StringIs, RewrittenAt;
    var decoded := DecodeString(mem.heap, obj);
    if decoded.None? {
      return false;
    }
    var newLen := Min(requested, MAX_STRING_LEN);
    var bytes := Resized(decoded.value.bytes, newLen, fill);
    assert Capped(bytes) == bytes;
    ok := WriteString(mem, obj, bytes, decoded.value.capacity);
    if ok {
      StringIsText(mem.heap, obj, bytes, WrittenCapacity(|bytes|, decoded.value.capacity));
    }
  }

  lemma StringIsText(h: Heap, obj: u64, bytes: seq<byte>, capacity: nat)
    requires StringIs(h, obj, bytes, capacity)
    ensures DecodeString(h, obj).Some?
    ensures DecodeString(h, obj).value.bytes == bytes && DecodeString(h, obj).value.capacity == capacity
  {
  }

  /** Bytes named by a pointer and a length; a pointer into the zero page names none. */
  function ReadCapped(bytes: map<int, byte>, ptr: u64, len: nat): (r: Option<seq<byte>>)
    ensures ptr < 0x1000 ==> r == Some([])
    ensures ptr >= 0x1000 ==>
              var n := Min(len, 0x1_0000);
              && (r.Some? <==> ptr + n <= TWO_64 && forall i :: ptr <= i < ptr + n ==> i in bytes)
              && (r.Some? ==> |r.value| == n && forall i :: 0 <= i < n ==> r.value[i] == bytes[ptr + i])
  {
    if ptr < LOWEST_BLOCK then Some([])
    else
      var n := Min(len, MAX_STRING_LEN);
      if ptr + n <= TWO_64 && forall a :: ptr <= a < ptr + n ==> a in bytes then
        Some(seq(n, i requires 0 <= i < n && ptr + i in bytes => bytes[ptr + i]))
      else None
  }

  method ReadCappedGuestBytes(mem: GuestMemory, ptr: u64, len: nat) returns (r: Option<seq<byte>>)
    ensures r == ReadCapped(mem.heap.bytes, ptr, len)
  {
    if ptr < LOWEST_BLOCK {
      return Some([]);
    }
    var n := Min(len, MAX_STRING_LEN);
    r := ReadGuestBytes(mem.heap, ptr, n);
    if r.Some? {
      assert r.value == ReadCapped(mem.heap.bytes, ptr, len).value;
    }
  }

  /** The C string named by a pointer; a pointer into the zero page names the empty string. */
  function CStringNamed(bytes: map<int, byte>, ptr: u64, maxLen: nat): (r: Option<seq<byte>>)
    ensures ptr < 0x1000 ==> r == Some([])
  {
    if ptr < LOWEST_BLOCK then Some([])
    else
      match ScanCString(bytes, ptr, Min(maxLen, MAX_STRING_LEN))
      case None => None
      case Some(scan) => Some(scan.bytes)
  }

  /** One byte of a scan, seen by a reader that has already passed the bytes out. */
  lemma ReadOneMore(bytes: map<int, byte>, at: u64, max: nat, out: seq<byte>)
    ensures Continue(out, ScanCString(bytes, at, max)) ==
            if max == 0 then Some(Scan(out, true))
            else if at !in bytes then None
            else if bytes[at] == 0 then Some(Scan(out, false))
            else Continue(out + [bytes[at]], ScanCString(bytes, SaturatingAdd(at, 1), max - 1))
  {
    assert out + [] == out;
    if max > 0 && at in bytes && bytes[at] != 0 {
      match ScanCString(bytes, SaturatingAdd(at, 1), max - 1)
      case None =>
      case Some(scan) => assert (out + [bytes[at]]) + scan.bytes == out + ([bytes[at]] + scan.bytes);
    }
  }

  method ReadCappedCString(mem: GuestMemory, ptr: u64, maxLen: nat) returns (r: Option<seq<byte>>)
    ensures r == CStringNamed(mem.heap.bytes, ptr, maxLen)
  {
    if ptr < LOWEST_BLOCK {
      return Some([]);
    }
    var out := [];
    var at := ptr;
    var limit := Min(maxLen, MAX_STRING_LEN);
    ghost var whole := ScanCString(mem.heap.bytes, ptr, limit);
    hide ScanCString;
    assert whole == Continue([], whole) by {
      assert forall scan: Scan :: [] + scan.bytes == scan.bytes;
    }
    for idx := 0 to limit
      invariant 0 <= at < TWO_64
      invariant Continue(out, ScanCString(mem.heap.bytes, at, limit - idx)) == whole
    {
      ReadOneMore(mem.heap.bytes, at, limit - idx, out);
      var b := mem.heap.Read(at, 1);
      if b.None? {
        return None;
      }
      if b.value[0] == 0 {
        break;
      }
      out := out + [b.value[0]];
      at := SaturatingAdd(at, 1);
    }
    ReadOneMore(mem.heap.bytes, at, 0, out);
    r := Some(out);
  }

  // ----- Programs -------------------------------------------------------------------------

  /** Where a pointer argument points. */
  datatype Pointer =
    | Foreign(addr: u64)                 // memory that no header occupies
    | Data(source: u64, offset: nat)     // into the text of a string, as data() and c_str() answer

  datatype Call =
    | InitCstrLen(obj: u64, ptr: Pointer, len: u64)
    | DefaultCtor(obj: u64)
    | CopyCtor(obj: u64, source: u64)
    | AssignCstr(obj: u64, ptr: Pointer)
    | AssignCstrLen(obj: u64, ptr: Pointer, len: u64)
    | AssignString(obj: u64, source: u64)
    | AppendCstr(obj: u64, ptr: Pointer)
    | AppendCstrLen(obj: u64, ptr: Pointer, len: u64)
    | AppendFrom(obj: u64, source: u64)
    | Erase(obj: u64, pos: u64, len: u64)
    | PushBack(obj: u64, ch: u64)
    | Clear(obj: u64)
    | Reserve(obj: u64, capacity: u64)
    | Resize(obj: u64, len: u64)
    | ResizeFill(obj: u64, len: u64, fill: u64)
  {
    predicate NamesBytes() { InitCstrLen? || AssignCstrLen? || AppendCstrLen? }

    predicate NamesCString() { AssignCstr? || AppendCstr? }

    predicate NamesMemory() { NamesBytes() || NamesCString() }

    predicate NamesObject() { CopyCtor? || AssignString? || AppendFrom? }

    predicate Replaces() { InitCstrLen? || DefaultCtor? || CopyCtor? || AssignCstr? || AssignCstrLen? || AssignString? }

    /** The strings a call reads besides its target. */
    function Sources(): set<u64>
    {
      if NamesObject() then {source} else if NamesMemory() && ptr.Data? then {ptr.source} else {}
    }

    function Operands(): set<u64>
    {
      {obj} + Sources()
    }

    /** The operands that must hold a string already; constructors and assignments never look at the target. */
    function Uses(): set<u64>
    {
      (if Replaces() then {} else {obj}) + Sources()
    }
  }

  /** A string: its text, its capacity, and whether a NUL is known to follow the text. */
  datatype Held = Held(bytes: seq<byte>, capacity: nat, terminated: bool)

  /** What each object holds: nothing while it is raw storage. */
  type Strings = map<u64, Option<Held>>

  function Live(w: Strings): set<u64>
  {
    set o | o in w && w[o].Some?
  }

  function Ended(w: Strings): set<u64>
  {
    set o | o in w && w[o].Some? && w[o].value.terminated
  }

  /** What a pointer at an offset of a text brings in: nothing if the call reads past what is known. */
  function TextBehind(text: seq<byte>, terminated: bool, call: Call): Option<seq<byte>>
    requires call.NamesMemory() && call.ptr.Data?
  {
    if call.ptr.offset > |text| then None
    else
      var rest := text[call.ptr.offset..];
      if call.NamesBytes() then
        var n := Min(call.len, MAX_STRING_LEN);
        if n <= |rest| then Some(rest[..n]) else None
      else
        var k := FirstNul(rest);
        if k < |rest| || terminated then Some(rest[..k]) else None
  }

  /** The bytes a call brings in from outside the object; nothing if they are not known. */
  function Argument(w: Strings, foreign: map<int, byte>, call: Call): Option<seq<byte>>
    requires call.Operands() <= w.Keys
  {
    if call.NamesMemory() then
      match call.ptr
      case Foreign(a) => Named(foreign, call, a)
      case Data(s, _) =>
        if w[s].Some? then TextBehind(w[s].value.bytes, w[s].value.terminated, call) else None
    else if call.NamesObject() then
      if w[call.source].Some? then Some(w[call.source].value.bytes) else None
    else if call.PushBack? then Some([call.ch % 256])
    else Some([])
  }

  /** The bytes or the C string that a call names at an address. */
  function Named(bytes: map<int, byte>, call: Call, addr: u64): Option<seq<byte>>
    requires call.NamesMemory()
  {
    if call.NamesBytes() then ReadCapped(bytes, addr, call.len) else CStringNamed(bytes, addr, MAX_STRING_LEN)
  }

  /** Calls on raw storage, and reads past the end of a string, are not made. */
  predicate Runnable(w: Strings, foreign: map<int, byte>, call: Call)
  {
    call.Operands() <= w.Keys && call.Uses() <= Live(w) && Argument(w, foreign, call).Some?
  }

  /** What a successful call makes of the text: the sequence operation, cut off at the maximum length. */
  function Effect(s: seq<byte>, arg: seq<byte>, call: Call): seq<byte>
  {
    if call.Replaces() then Capped(arg)
    else
      match call
      case Erase(_, pos, len) => Erased(s, pos, len)
      case Clear(_) => []
      case Reserve(_, _) => s
      case Resize(_, n) => Resized(s, Min(n, MAX_STRING_LEN), 0)
      case ResizeFill(_, n, fill) => Resized(s, Min(n, MAX_STRING_LEN), fill % 256)
      case _ => Capped(s + arg)
  }

  /** What each call does to the text, byte by byte; e is where an erased range ends. */
  lemma EffectMeaning(s: seq<byte>, arg: seq<byte>, call: Call, e: nat)
    requires |s| <= 0x1_0000
    ensures var after := Effect(s, arg, call);
            match call
            case Clear(_) => after == []
            case Reserve(_, _) => after == s
            case Erase(_, pos, len) =>
              pos <= |s| && e == Min(pos + len, |s|) ==> after == s[..pos] + s[e..]
            case Resize(_, n) =>
              && |after| == Min(n, 0x1_0000)
              && forall i :: 0 <= i < |after| ==> after[i] == if i < |s| then s[i] else 0
            case ResizeFill(_, n, fill) =>
              && |after| == Min(n, 0x1_0000)
              && forall i :: 0 <= i < |after| ==> after[i] == if i < |s| then s[i] else fill % 256
            case _ =>
              // constructions and assignments put the argument in place of the text, the others behind it
              var whole := if call.AppendCstr? || call.AppendCstrLen? || call.AppendFrom? || call.PushBack?
                           then s + arg else arg;
              && after <= whole && |after| == Min(|whole|, 0x1_0000)
  {
    if call.Erase? {
      ErasedIsTwoSlices(s, call.pos, call.len);
    }
  }

  /** The capacity a call leaves: at least the text and, unless it replaces the string, what there was up to the
      maximum; never 16 or more beyond what was wanted. */
  lemma CapacityMeaning(before: Option<Held>, arg: seq<byte>, call: Call)
    requires before.Some? || call.Replaces()
    requires before.Some? ==> |before.value.bytes| <= 0x1_0000
    ensures var after := Rewritten(before, arg, call);
            var kept := if call.InitCstrLen? || call.DefaultCtor? || call.CopyCtor? || call.AssignCstr?
                           || call.AssignCstrLen? || call.AssignString? then 0 else before.value.capacity;
            var asked := if call.Reserve? then Max(call.capacity, kept) else kept;
            var wanted := Max(Min(asked, 0x1_0000), |after.bytes|);
            && after.terminated && after.bytes == Effect(if before.Some? then before.value.bytes else [], arg, call)
            && (wanted <= 22 ==> after.capacity == 22)
            && (wanted > 22 ==> wanted <= after.capacity < wanted + 16)
  {
    EffectFits(if before.Some? then before.value.bytes else [], arg, call);
  }

  /** What each call brings in from outside its target. */
  lemma ArgumentMeaning(w: Strings, foreign: map<int, byte>, call: Call)
    requires Runnable(w, foreign, call)
    ensures var arg := Argument(w, foreign, call).value;
            && (call.CopyCtor? || call.AssignString? || call.AppendFrom? ==> arg == w[call.source].value.bytes)
            && (call.PushBack? ==> |arg| == 1 && arg[0] == call.ch % 256)
            && (call.DefaultCtor? ==> arg == [])
  {
    hide TextBehind, Named;
  }

  /** A pointer into a text brings in the bytes from there on, as many as asked for, or up to the first NUL. */
  lemma PointerMeaning(w: Strings, foreign: map<int, byte>, call: Call)
    requires Runnable(w, foreign, call)
    ensures var arg := Argument(w, foreign, call).value;
            && ((call.InitCstrLen? || call.AssignCstrLen? || call.AppendCstrLen?) && call.ptr.Data? ==>
                  BytesAt(w[call.ptr.source].value.bytes, call.ptr.offset, call.len, arg))
            && ((call.AssignCstr? || call.AppendCstr?) && call.ptr.Data? ==>
                  CStringAtOffset(w[call.ptr.source].value.bytes, call.ptr.offset, arg))
  {
    hide Named, TextBehind;
    if call.NamesMemory() && call.ptr.Data? {
      var held := w[call.ptr.source].value;
      TextBehindMeaning(held.bytes, held.terminated, call);
    }
  }

  lemma TextBehindMeaning(text: seq<byte>, terminated: bool, call: Call)
    requires call.NamesMemory() && call.ptr.Data? && TextBehind(text, terminated, call).Some?
    ensures var arg := TextBehind(text, terminated, call).value;
            if call.NamesBytes() then BytesAt(text, call.ptr.offset, call.len, arg)
            else CStringAtOffset(text, call.ptr.offset, arg)
  {
    var offset, arg := call.ptr.offset, TextBehind(text, terminated, call).value;
    assert text[offset..][..|arg|] == text[offset..offset + |arg|];
  }

  predicate BytesAt(text: seq<byte>, offset: nat, n: nat, arg: seq<byte>)
  {
    offset + |arg| <= |text| && |arg| == Min(n, 0x1_0000) && arg == text[offset..offset + |arg|]
  }

  /** The rest of the text up to its first NUL. */
  predicate CStringAtOffset(text: seq<byte>, offset: nat, arg: seq<byte>)
  {
    && offset + |arg| <= |text| && arg == text[offset..offset + |arg|] && 0 !in arg
    && (offset + |arg| < |text| ==> text[offset + |arg|] == 0)
  }

  /** The capacity asked of the writer. */
  function Wanted(capacity: nat, call: Call, newLen: nat): nat
  {
    if call.Replaces() then newLen
    else if call.Reserve? then Max(call.capacity, capacity)
    else capacity
  }

  /** The string that a successful call leaves behind. */
  function Rewritten(before: Option<Held>, arg: seq<byte>, call: Call): Held
    requires before.Some? || call.Replaces()
  {
    var (text, capacity) := if before.Some? then (before.value.bytes, before.value.capacity) else ([], 0);
    var bytes := Effect(text, arg, call);
    Held(bytes, WrittenCapacity(|bytes|, Wanted(capacity, call, |bytes|)), true)
  }

  function After(w: Strings, foreign: map<int, byte>, call: Call): Held
    requires Runnable(w, foreign, call)
  {
    assert call.obj in call.Operands();
    assert call.Replaces() || call.obj in call.Uses();
    Rewritten(w[call.obj], Argument(w, foreign, call).value, call)
  }

  /** Pointers into foreign memory name bytes that are known; no string they point into lies in the zero page. */
  predicate Legal(w: Strings, foreign: map<int, byte>, call: Call)
  {
    && call.Operands() <= w.Keys
    && (call.NamesMemory() && call.ptr.Foreign? ==> Argument(w, foreign, call).Some?)
    && (call.NamesMemory() && call.ptr.Data? ==> LOWEST_BLOCK <= call.ptr.source)
  }

  /** A call that fails or is not made changes nothing. */
  function Step(w: Strings, foreign: map<int, byte>, call: Call, ok: bool): (w': Strings)
    requires Legal(w, foreign, call)
    ensures w'.Keys == w.Keys && Live(w) <= Live(w')
  {
    if ok && Runnable(w, foreign, call) then
      assert call.obj in call.Operands();
      w[call.obj := Some(After(w, foreign, call))]
    else w
  }

  function Run(w: Strings, foreign: map<int, byte>, program: seq<Call>, outcomes: seq<bool>): (w': Strings)
    requires |outcomes| == |program|
    requires forall c :: c in program ==> Legal(w, foreign, c)
    ensures w'.Keys == w.Keys && Live(w) <= Live(w')
    decreases |program|
  {
    if program == [] then w
    else
      var last := |program| - 1;
      var before := Run(w, foreign, program[..last], outcomes[..last]);
      assert program[last] in program && Legal(w, foreign, program[last]);
      Step(before, foreign, program[last], outcomes[last])
  }

  /** A call succeeds unless it is not made, or needs a block that the allocator refuses. */
  predicate Possible(w: Strings, foreign: map<int, byte>, call: Call, ok: bool)
  {
    if !Runnable(w, foreign, call) then !ok else ok || After(w, foreign, call).capacity > SHORT_MAX
  }

  /** Every outcome of the run is a possible one. */
  predicate Outcomes(w: Strings, foreign: map<int, byte>, program: seq<Call>, outcomes: seq<bool>)
    requires |outcomes| == |program|
    requires forall c :: c in program ==> Legal(w, foreign, c)
    decreases |program|
  {
    program == [] ||
    var last := |program| - 1;
    && Outcomes(w, foreign, program[..last], outcomes[..last])
    && Possible(Run(w, foreign, program[..last], outcomes[..last]), foreign, program[last], outcomes[last])
  }

  /** Call by call: each outcome is possible where the calls before it have led. */
  lemma {:induction false} OutcomeAt(w: Strings, foreign: map<int, byte>, program: seq<Call>,
                                     outcomes: seq<bool>, i: nat)
    requires |outcomes| == |program| && forall c :: c in program ==> Legal(w, foreign, c)
    requires Outcomes(w, foreign, program, outcomes) && i < |program|
    ensures Possible(Run(w, foreign, program[..i], outcomes[..i]), foreign, program[i], outcomes[i])
    decreases |program|
  {
    hide Possible, Run, Legal;
    var last := |program| - 1;
    if i < last {
      OutcomeAt(w, foreign, program[..last], outcomes[..last], i);
      assert program[..last][..i] == program[..i] && outcomes[..last][..i] == outcomes[..i];
    }
  }

  /** A run that goes one call further. */
  lemma RunExtended(w: Strings, foreign: map<int, byte>, program: seq<Call>, outcomes: seq<bool>, i: nat, ok: bool)
    requires i == |outcomes| < |program| && forall c :: c in program ==> Legal(w, foreign, c)
    ensures var before := Run(w, foreign, program[..i], outcomes);
            && Legal(before, foreign, program[i])
            && Run(w, foreign, program[..i + 1], outcomes + [ok]) == Step(before, foreign, program[i], ok)
            && (Outcomes(w, foreign, program[..i], outcomes) && Possible(before, foreign, program[i], ok) ==>
                  Outcomes(w, foreign, program[..i + 1], outcomes + [ok]))
  {
    hide Step, Possible;
    assert program[i] in program;
    StillLegal(w, Run(w, foreign, program[..i], outcomes), foreign, program[i]);
    hide Legal;
    assert program[..i + 1][..i] == program[..i] && (outcomes + [ok])[..i] == outcomes;
  }

  lemma NothingRun(w: Strings, foreign: map<int, byte>, program: seq<Call>)
    requires forall c :: c in program ==> Legal(w, foreign, c)
    ensures Run(w, foreign, program[..0], []) == w && Outcomes(w, foreign, program[..0], [])
  {
  }

  /** Whether a call is legal depends on the objects there are, not on what they hold. */
  lemma StillLegal(w: Strings, w': Strings, foreign: map<int, byte>, call: Call)
    requires Legal(w, foreign, call) && w'.Keys == w.Keys
    ensures Legal(w', foreign, call)
  {
  }

  // ----- What every run keeps ----------------------------------------------------------------

  /** No text exceeds the maximum length. */
  predicate Bounded(w: Strings)
  {
    forall o :: o in w && w[o].Some? ==> |w[o].value.bytes| <= MAX_STRING_LEN
  }

  /** Every effect stays within the maximum length. */
  lemma EffectFits(s: seq<byte>, arg: seq<byte>, call: Call)
    requires |s| <= MAX_STRING_LEN
    ensures |Effect(s, arg, call)| <= MAX_STRING_LEN
  {
    if call.Erase? {
      ErasedIsTwoSlices(s, call.pos, call.len);
    }
  }

  /** No call but a construction or an assignment lowers the capacity of a string this writer produced. */
  lemma MutationsKeepCapacity(capacity: nat, call: Call, newLen: nat)
    requires !call.Replaces() && newLen <= MAX_STRING_LEN
    ensures capacity <= LARGEST_WRITTEN ==> WrittenCapacity(newLen, Wanted(capacity, call, newLen)) >= capacity
    ensures capacity > LARGEST_WRITTEN ==> WrittenCapacity(newLen, Wanted(capacity, call, newLen)) < capacity
  {
    CapacityKept(newLen, Wanted(capacity, call, newLen));
  }

  lemma StepKeepsCapacity(w: Strings, foreign: map<int, byte>, call: Call, ok: bool, obj: u64)
    requires Bounded(w) && Legal(w, foreign, call) && obj in Live(w)
    ensures var w' := Step(w, foreign, call, ok);
            && Bounded(w') && w'[obj].Some?
            && (w[obj].value.capacity <= LARGEST_WRITTEN ==> w'[obj].value.capacity <= LARGEST_WRITTEN)
            && (w[obj].value.capacity <= LARGEST_WRITTEN && (call.obj == obj ==> !call.Replaces()) ==>
                  w'[obj].value.capacity >= w[obj].value.capacity)
  {
    hide Effect, Argument, WrittenCapacity, Wanted, Legal;
    if ok && Runnable(w, foreign, call) {
      var before := w[call.obj];
      var (text, capacity) := if before.Some? then (before.value.bytes, before.value.capacity) else ([], 0);
      var arg := Argument(w, foreign, call).value;
      EffectFits(text, arg, call);
      var n := |Effect(text, arg, call)|;
      CapacityKept(n, Wanted(capacity, call, n));
      if call.obj == obj && !call.Replaces() {
        MutationsKeepCapacity(capacity, call, n);
      }
    }
  }

  /** Over every run of appends, erasures, resizes, reservations and clears, whatever fails on the way, the
      capacity of a string this writer could have produced never falls. */
  lemma {:induction false} RunKeepsCapacity(w: Strings, foreign: map<int, byte>, program: seq<Call>,
                                            outcomes: seq<bool>, obj: u64)
    requires |outcomes| == |program| && forall c :: c in program ==> Legal(w, foreign, c)
    requires Bounded(w) && obj in Live(w) && w[obj].value.capacity <= LARGEST_WRITTEN
    ensures var w' := Run(w, foreign, program, outcomes);
            && Bounded(w') && w'[obj].Some? && w'[obj].value.capacity <= LARGEST_WRITTEN
            && ((forall c :: c in program && c.obj == obj ==> !c.Replaces()) ==>
                  w'[obj].value.capacity >= w[obj].value.capacity)
    decreases |program|
  {
    hide Step, Bounded, Legal;
    if program != [] {
      var last := |program| - 1;
      assert program[last] in program;
      var before := Run(w, foreign, program[..last], outcomes[..last]);
      RunKeepsCapacity(w, foreign, program[..last], outcomes[..last], obj);
      StillLegal(w, before, foreign, program[last]);
      StepKeepsCapacity(before, foreign, program[last], outcomes[last], obj);
    }
  }

  // ----- Strings in memory --------------------------------------------------------------------

  /** A NUL follows the text where data() points. */
  ghost predicate Terminated(h: Heap, o: u64)
    requires DecodeString(h, o).Some?
  {
    var d := DecodeString(h, o).value;
    var p := DataPointer(o, d);
    h.Mapped(p, |d.bytes| + 1) && h.bytes[p + |d.bytes|] == 0
  }

  /** The data of a long string, and the NUL behind it, overlap no header. */
  ghost predicate DataClear(h: Heap, header: u64, o: u64, terminated: bool)
    requires DecodeString(h, o).Some?
  {
    var d := DecodeString(h, o).value;
    var n := |d.bytes| + if terminated then 1 else 0;
    d.dataPtr.Some? ==>
      && h.Mapped(d.dataPtr.value, n)
      && forall a :: Within(a, header, STRING_OBJECT_SIZE) ==> !Within(a, d.dataPtr.value, n)
  }

  /** The string at o decodes to what it holds. */
  ghost predicate Decodes(h: Heap, o: u64, held: Held)
  {
    && DecodeString(h, o).Some?
    && DecodeString(h, o).value.bytes == held.bytes && DecodeString(h, o).value.capacity == held.capacity
    && (held.terminated ==> Terminated(h, o))
  }

  /** Live objects decode to what they hold, and no header meets another one or a long string's data. */
  ghost predicate Holds(h: Heap, w: Strings)
  {
    && (forall o :: o in w ==> h.Mapped(o, STRING_OBJECT_SIZE))
    && (forall o :: o in w && w[o].Some? ==> Decodes(h, o, w[o].value))
    && (forall x, y :: x in w && y in w && x != y ==> Apart(x, STRING_OBJECT_SIZE, y, STRING_OBJECT_SIZE))
    && (forall x, y :: x in w && y in w && w[y].Some? ==> DataClear(h, x, y, w[y].value.terminated))
  }

  ghost predicate ForeignBytes(h: Heap, objs: set<u64>, foreign: map<int, byte>)
  {
    forall a :: a in foreign ==>
      a in h.bytes && h.bytes[a] == foreign[a] && forall o :: o in objs ==> !Within(a, o, STRING_OBJECT_SIZE)
  }

  /** Any storage will do to start from, as long as it is mapped and the headers lie apart. */
  lemma RawStorage(h: Heap, objs: set<u64>)
    requires forall o :: o in objs ==> h.Mapped(o, STRING_OBJECT_SIZE)
    requires forall x, y :: x in objs && y in objs && x != y ==> Apart(x, STRING_OBJECT_SIZE, y, STRING_OBJECT_SIZE)
    ensures Holds(h, map o | o in objs :: None)
  {
  }

  /** More storage may join at any time, if it lies apart from the headers and the data there are. */
  lemma StorageJoins(h: Heap, w: Strings, obj: u64)
    requires Holds(h, w) && obj !in w && h.Mapped(obj, STRING_OBJECT_SIZE)
    requires forall o :: o in w ==> Apart(obj, STRING_OBJECT_SIZE, o, STRING_OBJECT_SIZE)
    requires forall o :: o in w && w[o].Some? ==> DataClear(h, obj, o, w[o].value.terminated)
    ensures Holds(h, w[obj := None])
  {
    hide DecodeString, DataClear, Decodes;
  }

  lemma OtherStringUntouched(h: Heap, h': Heap, obj: u64, other: u64, held: Held)
    requires RewrittenAt(h, h', obj)
    requires h.Mapped(other, STRING_OBJECT_SIZE) && Decodes(h, other, held)
    requires Apart(obj, STRING_OBJECT_SIZE, other, STRING_OBJECT_SIZE) && DataClear(h, obj, other, held.terminated)
    ensures DecodeString(h', other) == DecodeString(h, other) && Decodes(h', other, held)
  {
    hide IsAlternateShort, IsDefaultShort, LeWord;
    var header := h.Slice(other, STRING_OBJECT_SIZE);
    assert h'.Slice(other, STRING_OBJECT_SIZE) == header;
    var d := DecodeString(h, other).value;
    if d.dataPtr.Some? {
      assert h'.Slice(d.dataPtr.value, |d.bytes|) == h.Slice(d.dataPtr.value, |d.bytes|);
    }
    if held.terminated {
      TerminatorUntouched(h, h', obj, other);
    }
  }

  lemma TerminatorUntouched(h: Heap, h': Heap, obj: u64, other: u64)
    requires RewrittenAt(h, h', obj)
    requires h.Mapped(other, STRING_OBJECT_SIZE) && DecodeString(h, other).Some? && Terminated(h, other)
    requires DecodeString(h', other) == DecodeString(h, other)
    requires Apart(obj, STRING_OBJECT_SIZE, other, STRING_OBJECT_SIZE) && DataClear(h, obj, other, true)
    ensures Terminated(h', other)
  {
    var d := DecodeString(h, other).value;
    if d.dataPtr.None? {
      ShortTextInside(h, other);
    }
    hide DecodeString, DecodeHeader;
    assert d.dataPtr.None? ==> Within(DataPointer(other, d) + |d.bytes|, other, STRING_OBJECT_SIZE);
  }

  /** The text of a short string and the byte behind it lie in its header. */
  lemma ShortTextInside(h: Heap, o: u64)
    requires DecodeString(h, o).Some? && DecodeString(h, o).value.dataPtr.None?
    ensures var d := DecodeString(h, o).value;
            o <= DataPointer(o, d) <= DataPointer(o, d) + |d.bytes| < o + STRING_OBJECT_SIZE
  {
    hide LeWord;
  }

  /** Rewriting a live string or constructing one on raw storage keeps every other string and all foreign bytes. */
  lemma StepKeepsWorld(h: Heap, h': Heap, w: Strings, foreign: map<int, byte>, obj: u64, held: Held)
    requires Holds(h, w) && ForeignBytes(h, w.Keys, foreign)
    requires obj in w && RewrittenAt(h, h', obj) && StringIs(h', obj, held.bytes, held.capacity)
    ensures Holds(h', w[obj := Some(held)])
    ensures ForeignBytes(h', w.Keys, foreign)
  {
    hide DecodeHeader, DecodeString;
    var w' := w[obj := Some(held)];
    assert w'.Keys == w.Keys;
    WrittenDecodes(h', obj, held);
    forall o | o in w && w[o].Some? && o != obj
      ensures DecodeString(h', o) == DecodeString(h, o) && Decodes(h', o, w[o].value)
    {
      OtherStringUntouched(h, h', obj, o, w[o].value);
    }
    hide Decodes, StringIs, RewrittenAt, DataClear;
    forall x, y | x in w && y in w && w'[y].Some?
      ensures DataClear(h', x, y, w'[y].value.terminated)
    {
      if y != obj {
        assert DataClear(h, x, y, w[y].value.terminated);
        DataStaysClear(h, h', obj, x, y, w[y].value.terminated);
      } else {
        NewDataClear(h, h', obj, x, held.terminated);
      }
    }
  }

  lemma DataStaysClear(h: Heap, h': Heap, obj: u64, header: u64, o: u64, terminated: bool)
    requires RewrittenAt(h, h', obj) && DecodeString(h, o).Some? && DecodeString(h', o) == DecodeString(h, o)
    requires DataClear(h, header, o, terminated)
    ensures DataClear(h', header, o, terminated)
  {
    hide DecodeString;
  }

  lemma NewDataClear(h: Heap, h': Heap, obj: u64, header: u64, terminated: bool)
    requires RewrittenAt(h, h', obj) && h.Mapped(header, STRING_OBJECT_SIZE)
    ensures DataClear(h', header, obj, terminated)
  {
    hide DecodeString;
    var d := DecodeString(h', obj).value;
    if d.dataPtr.Some? {
      forall a | Within(a, header, STRING_OBJECT_SIZE)
        ensures !Within(a, d.dataPtr.value, |d.bytes| + 1)
      {
        assert a in h.bytes;
      }
    }
  }

  lemma WrittenDecodes(h: Heap, obj: u64, held: Held)
    requires StringIs(h, obj, held.bytes, held.capacity)
    ensures Decodes(h, obj, held)
  {
    hide DecodeHeader, DecodeString;
    var p := DataPointer(obj, DecodeString(h, obj).value);
    assert h.Slice(p, |held.bytes| + 1)[|held.bytes|] == (held.bytes + [0])[|held.bytes|];
  }

  /** Birth: constructing a string on storage of its own adds it to those there are. */
  lemma BirthKeepsWorld(h: Heap, h': Heap, w: Strings, obj: u64, held: Held)
    requires Holds(h, w) && obj !in w && RewrittenAt(h, h', obj) && StringIs(h', obj, held.bytes, held.capacity)
    requires forall o :: o in w ==> Apart(obj, STRING_OBJECT_SIZE, o, STRING_OBJECT_SIZE)
    requires forall o :: o in w && w[o].Some? ==> DataClear(h, obj, o, w[o].value.terminated)
    ensures Holds(h', w[obj := Some(held)])
  {
    hide Holds, DecodeString, DataClear, StringIs;
    StorageJoins(h, w, obj);
    StepKeepsWorld(h, h', w[obj := None], map[], obj, held);
    assert w[obj := None][obj := Some(held)] == w[obj := Some(held)];
  }

  // ----- Arguments ------------------------------------------------------------------------------

  /** The address a pointer argument stands for: a guest has the one into a string from data(). */
  function AddressOf(h: Heap, ptr: Pointer): u64
  {
    match ptr
    case Foreign(a) => a
    case Data(s, offset) =>
      match DecodeString(h, s)
      case None => 0
      case Some(d) => Min(DataPointer(s, d) + offset, U64_MAX)
  }

  /** The bytes a call brings in, as memory has them before the string changes. */
  function MemoryArgument(h: Heap, w: Strings, call: Call): Option<seq<byte>>
    requires call.Operands() <= w.Keys
  {
    if call.NamesMemory() then Named(h.bytes, call, AddressOf(h, call.ptr)) else Argument(w, map[], call)
  }

  lemma ForeignArguments(h: Heap, w: Strings, foreign: map<int, byte>, call: Call)
    requires ForeignBytes(h, w.Keys, foreign) && Legal(w, foreign, call)
    requires call.NamesMemory() && call.ptr.Foreign?
    ensures MemoryArgument(h, w, call) == Argument(w, foreign, call)
  {
    hide ScanCString;
    var ptr := call.ptr.addr;
    if call.NamesBytes() {
      assert ReadCapped(h.bytes, ptr, call.len).value == ReadCapped(foreign, ptr, call.len).value;
    } else if ptr >= LOWEST_BLOCK {
      ScanMonotone(foreign, h.bytes, ptr, MAX_STRING_LEN);
    }
  }

  /** Memory read at a text that lies there: the bytes or the C string that the text has at that place. */
  lemma TextRead(h: Heap, p: nat, text: seq<byte>, terminated: bool, call: Call)
    requires call.NamesMemory() && call.ptr.Data? && TextBehind(text, terminated, call).Some?
    requires LOWEST_BLOCK <= p && |text| <= MAX_STRING_LEN && h.Mapped(p, |text|) && h.Slice(p, |text|) == text
    requires terminated ==> h.Mapped(p, |text| + 1) && h.bytes[p + |text|] == 0
    ensures Named(h.bytes, call, Min(p + call.ptr.offset, U64_MAX)) == TextBehind(text, terminated, call)
  {
    hide ScanCString, FirstNul, ReadCapped, CStringNamed;
    var offset := call.ptr.offset;
    var rest := text[offset..];
    RestLies(h, p, text, offset);
    if call.NamesBytes() {
      BytesRead(h, p + offset, rest, call.len);
    } else {
      assert terminated ==> h.bytes[p + offset + |rest|] == 0;
      CStringRead(h, p + offset, rest, terminated);
      CStringScanned(h.bytes, p + offset);
    }
  }

  lemma RestLies(h: Heap, p: nat, text: seq<byte>, offset: nat)
    requires offset <= |text| && h.Mapped(p, |text|) && h.Slice(p, |text|) == text
    ensures var rest := text[offset..];
            h.Mapped(p + offset, |rest|) && h.Slice(p + offset, |rest|) == rest
    ensures h.Mapped(p, |text| + 1) ==> h.Mapped(p + offset, |text| - offset + 1)
  {
    var rest := text[offset..];
    SliceOfSlice(h, p, |text|, offset, |rest|);
    assert text[offset..offset + |rest|] == rest;
  }

  lemma CStringScanned(bytes: map<int, byte>, ptr: u64)
    requires LOWEST_BLOCK <= ptr && ScanCString(bytes, ptr, MAX_STRING_LEN).Some?
    ensures CStringNamed(bytes, ptr, MAX_STRING_LEN) == Some(ScanCString(bytes, ptr, MAX_STRING_LEN).value.bytes)
  {
  }

  /** Bytes read at the rest of a text are its first ones. */
  lemma BytesRead(h: Heap, p: nat, rest: seq<byte>, len: nat)
    requires LOWEST_BLOCK <= p && h.Mapped(p, |rest|) && h.Slice(p, |rest|) == rest
    requires Min(len, MAX_STRING_LEN) <= |rest|
    ensures ReadCapped(h.bytes, Min(p, U64_MAX), len) == Some(rest[..Min(len, MAX_STRING_LEN)])
  {
    var n := Min(len, MAX_STRING_LEN);
    assert forall i :: 0 <= i < n ==> p + i in h.bytes && h.bytes[p + i] == rest[i];
    assert ReadCapped(h.bytes, Min(p, U64_MAX), len).value == rest[..n];
  }

  /** A C string read at the rest of a text ends at its first NUL, or at the terminator. */
  lemma CStringRead(h: Heap, p: nat, rest: seq<byte>, terminated: bool)
    requires |rest| <= MAX_STRING_LEN && h.Mapped(p, |rest|) && h.Slice(p, |rest|) == rest
    requires terminated ==> h.Mapped(p, |rest| + 1) && h.bytes[p + |rest|] == 0
    requires FirstNul(rest) < |rest| || terminated
    ensures p < TWO_64
    ensures ScanCString(h.bytes, p, MAX_STRING_LEN).Some?
    ensures ScanCString(h.bytes, p, MAX_STRING_LEN).value.bytes == rest[..FirstNul(rest)]
  {
    ChunkScan(h, p, |rest|, MAX_STRING_LEN);
    if FirstNul(rest) == |rest| {
      ScanEnds(h.bytes, p + |rest|, MAX_STRING_LEN - |rest|);
      hide ScanCString;
      assert rest[..|rest|] == rest == rest + [];
    }
  }

  lemma ScanEnds(bytes: map<int, byte>, addr: u64, max: nat)
    requires addr in bytes && bytes[addr] == 0
    ensures ScanCString(bytes, addr, max).Some? && ScanCString(bytes, addr, max).value.bytes == []
  {
  }

  /** A pointer into a string, its own target's included, brings in what that string holds there. */
  lemma DataArguments(h: Heap, w: Strings, foreign: map<int, byte>, call: Call)
    requires Holds(h, w) && Legal(w, foreign, call) && Runnable(w, foreign, call)
    requires call.NamesMemory() && call.ptr.Data?
    ensures MemoryArgument(h, w, call) == Argument(w, foreign, call)
  {
    hide Named, TextBehind, DecodeHeader, DecodeString;
    var s := call.ptr.source;
    assert s in call.Sources();
    assert Decodes(h, s, w[s].value);
    var d := DecodeString(h, s).value;
    DecodedShape(h, s);
    if d.bytes != [] {
      DataPointerHolds(h, s);
    }
    TextRead(h, DataPointer(s, d), d.bytes, w[s].value.terminated, call);
  }

  lemma DecodedShape(h: Heap, o: u64)
    requires DecodeString(h, o).Some?
    ensures var d := DecodeString(h, o).value;
            && |d.bytes| <= MAX_STRING_LEN
            && (LOWEST_BLOCK <= o ==> LOWEST_BLOCK <= DataPointer(o, d))
            && DataPointer(o, d) < TWO_64
  {
    hide LeWord;
    var header := h.Slice(o, STRING_OBJECT_SIZE);
    HeaderBits(header);
    LeWordTopByte(header[16..24]);
  }

  lemma ArgumentsAgree(h: Heap, w: Strings, foreign: map<int, byte>, call: Call)
    requires Holds(h, w) && ForeignBytes(h, w.Keys, foreign)
    requires Legal(w, foreign, call) && Runnable(w, foreign, call)
    ensures MemoryArgument(h, w, call) == Argument(w, foreign, call)
  {
    hide Holds, ForeignBytes, Runnable, Legal, Named, TextBehind;
    if call.NamesMemory() {
      if call.ptr.Foreign? {
        ForeignArguments(h, w, foreign, call);
      } else {
        DataArguments(h, w, foreign, call);
      }
    }
  }

  // ----- The imports ------------------------------------------------------------------------------

  /** The capacity an object decodes to; raw storage may decode to nothing. */
  function CapacityOf(h: Heap, obj: u64): nat
  {
    match DecodeString(h, obj)
    case None => 0
    case Some(d) => d.capacity
  }

  /** The text a live object holds. */
  function TextOf(w: Strings, obj: u64): seq<byte>
    requires obj in w
  {
    if w[obj].Some? then w[obj].value.bytes else []
  }

  /** One import call, as the C++ router performs it: nothing happens if its argument is unreadable. */
  method ProxyImport(mem: GuestMemory, call: Call, ghost w: Strings) returns (ok: bool)
    requires Holds(mem.heap, w) && call.Operands() <= w.Keys && call.Uses() <= Live(w)
    modifies mem
    ensures match MemoryArgument(old(mem.heap), w, call)
            case None => !ok && mem.heap == old(mem.heap)
            case Some(arg) =>
              var bytes := Effect(TextOf(w, call.obj), arg, call);
              var capacity := CapacityOf(old(mem.heap), call.obj);
              Rewrote(old(mem.heap), mem.heap, call.obj, ok, bytes, Wanted(capacity, call, |bytes|))
    ensures var capacity := CapacityOf(old(mem.heap), call.obj);
            ok && !call.Replaces() && capacity <= LARGEST_WRITTEN ==> CapacityOf(mem.heap, call.obj) >= capacity
  {
    hide DecodeHeader, DecodeString, StringIs, RewrittenAt, ScanCString, Erased, DataClear;
    var obj := call.obj;
    assert obj in call.Operands();
    var read := ReadArgument(mem, call, w);
    if read.None? {
      return false;
    }
    var arg := read.value;
    if call.Replaces() {
      ok := WriteString(mem, obj, arg, |arg|);
    } else {
      assert obj in call.Uses();
      if call.Erase? {
        ok := EraseString(mem, obj, call.pos, call.len);
      } else if call.Clear? {
        ok := ClearString(mem, obj);
      } else if call.Reserve? {
        ok := ReserveString(mem, obj, call.capacity);
      } else if call.Resize? {
        ok := ResizeString(mem, obj, call.len, 0);
      } else if call.ResizeFill? {
        ok := ResizeString(mem, obj, call.len, call.fill % 256);
      } else {
        ok := AppendString(mem, obj, arg);
      }
    }
    TextFits(old(mem.heap), w, obj);
    EffectFits(TextOf(w, obj), arg, call);
    ghost var newLen := |Effect(TextOf(w, obj), arg, call)|;
    ghost var capacity := CapacityOf(old(mem.heap), obj);
    if !call.Replaces() {
      MutationsKeepCapacity(capacity, call, newLen);
    }
    if ok {
      StringIsText(mem.heap, obj, Effect(TextOf(w, obj), arg, call),
                   WrittenCapacity(newLen, Wanted(capacity, call, newLen)));
    }
  }

  /** The argument of a call, read before anything is written. */
  method ReadArgument(mem: GuestMemory, call: Call, ghost w: Strings) returns (r: Option<seq<byte>>)
    requires Holds(mem.heap, w) && call.Operands() <= w.Keys && call.Uses() <= Live(w)
    ensures r == MemoryArgument(mem.heap, w, call)
  {
    hide DecodeHeader, DecodeString, ScanCString, DataClear, ReadCapped, CStringNamed;
    if call.NamesBytes() {
      r := ReadCappedGuestBytes(mem, AddressOf(mem.heap, call.ptr), call.len);
    } else if call.NamesCString() {
      r := ReadCappedCString(mem, AddressOf(mem.heap, call.ptr), MAX_STRING_LEN);
    } else if call.NamesObject() {
      assert call.source in call.Uses();
      assert Decodes(mem.heap, call.source, w[call.source].value);
      var d := DecodeString(mem.heap, call.source);
      if d.None? {
        return None;
      }
      r := Some(d.value.bytes);
    } else if call.PushBack? {
      r := Some([call.ch % 256]);
    } else {
      r := Some([]);
    }
  }

  lemma TextFits(h: Heap, w: Strings, obj: u64)
    requires Holds(h, w) && obj in w
    ensures |TextOf(w, obj)| <= MAX_STRING_LEN
    ensures w[obj].Some? ==> CapacityOf(h, obj) == w[obj].value.capacity
  {
    hide DecodeHeader;
    assert w[obj].Some? ==> Decodes(h, obj, w[obj].value);
  }

  // ----- Whole programs ------------------------------------------------------------------------------

  /** Whether a pointer into a string stays within what is known of it. */
  predicate StaysInside(h: Heap, ended: set<u64>, call: Call)
  {
    call.NamesMemory() && call.ptr.Data? ==>
      var s := call.ptr.source;
      DecodeString(h, s).Some? && TextBehind(DecodeString(h, s).value.bytes, s in ended, call).Some?
  }

  lemma MadeIffRunnable(h: Heap, w: Strings, foreign: map<int, byte>, call: Call)
    requires Holds(h, w) && Legal(w, foreign, call)
    ensures call.Uses() <= Live(w) && StaysInside(h, Ended(w), call) <==> Runnable(w, foreign, call)
  {
    hide DecodeHeader, DecodeString, TextBehind, Named, DataClear;
    if call.Uses() <= Live(w) && call.NamesMemory() && call.ptr.Data? {
      var s := call.ptr.source;
      assert s in call.Uses();
      assert Decodes(h, s, w[s].value);
    }
  }

  /** A call that is made and succeeds leaves behind what the abstract machine says. */
  lemma OutcomePossible(h: Heap, h': Heap, w: Strings, foreign: map<int, byte>, call: Call, ok: bool)
    requires Holds(h, w) && Runnable(w, foreign, call)
    requires var bytes := Effect(TextOf(w, call.obj), Argument(w, foreign, call).value, call);
             Rewrote(h, h', call.obj, ok, bytes, Wanted(CapacityOf(h, call.obj), call, |bytes|))
    ensures Possible(w, foreign, call, ok)
    ensures ok ==> var held := After(w, foreign, call);
                   StringIs(h', call.obj, held.bytes, held.capacity) && RewrittenAt(h, h', call.obj)
    ensures !ok ==> h' == h
  {
    hide Holds, StringIs, RewrittenAt, Argument, Effect, WrittenCapacity;
    assert call.obj in call.Operands();
    assert call.Replaces() || call.obj in call.Uses();
    TextFits(h, w, call.obj);
  }

  lemma NotMade(w: Strings, foreign: map<int, byte>, call: Call)
    requires !Runnable(w, foreign, call) && Legal(w, foreign, call)
    ensures Possible(w, foreign, call, false) && Step(w, foreign, call, false) == w
  {
  }

  /**
   * Every run of every program over any number of strings, constructed on the way or before, self-appends
   * and self-assignments by object or by pointer included: each object decodes to the text and the capacity
   * that the abstract machine holds, foreign memory is never written, and a call fails only if it must allocate.
   */
  method Execute(mem: GuestMemory, program: seq<Call>, constructed: set<u64>, terminated: set<u64>,
                 ghost w: Strings, ghost foreign: map<int, byte>) returns (outcomes: seq<bool>)
    requires Holds(mem.heap, w) && ForeignBytes(mem.heap, w.Keys, foreign)
    requires constructed == Live(w) && terminated == Ended(w)
    requires forall c :: c in program ==> Legal(w, foreign, c)
    modifies mem
    ensures |outcomes| == |program|
    ensures Outcomes(w, foreign, program, outcomes)
    ensures Holds(mem.heap, Run(w, foreign, program, outcomes))
    ensures ForeignBytes(mem.heap, w.Keys, foreign)
  {
    hide DecodeHeader, DecodeString, RewrittenAt, StringIs, Effect, Holds, ForeignBytes, Run, Outcomes;
    hide Possible, Runnable, StaysInside, MemoryArgument, Rewrote, Legal, After;
    outcomes := [];
    var live, ended := constructed, terminated;
    NothingRun(w, foreign, program);
    for i := 0 to |program|
      invariant |outcomes| == i
      invariant Outcomes(w, foreign, program[..i], outcomes)
      invariant Holds(mem.heap, Run(w, foreign, program[..i], outcomes))
      invariant ForeignBytes(mem.heap, w.Keys, foreign)
      invariant live == Live(Run(w, foreign, program[..i], outcomes))
      invariant ended == Ended(Run(w, foreign, program[..i], outcomes))
    {
      ghost var w1 := Run(w, foreign, program[..i], outcomes);
      assert program[i] in program;
      StillLegal(w, w1, foreign, program[i]);
      MadeIffRunnable(mem.heap, w1, foreign, program[i]);
      var ok := false;
      if program[i].Uses() <= live && StaysInside(mem.heap, ended, program[i]) {
        ok := Perform(mem, program[i], w1, foreign);
        if ok {
          live, ended := live + {program[i].obj}, ended + {program[i].obj};
        }
      } else {
        NotMade(w1, foreign, program[i]);
      }
      RunExtended(w, foreign, program, outcomes, i, ok);
      outcomes := outcomes + [ok];
    }
    assert program[..|program|] == program;
  }

  /** One call of a program, made where it is runnable. */
  method Perform(mem: GuestMemory, call: Call, ghost w: Strings, ghost foreign: map<int, byte>) returns (ok: bool)
    requires Holds(mem.heap, w) && ForeignBytes(mem.heap, w.Keys, foreign)
    requires Legal(w, foreign, call) && Runnable(w, foreign, call)
    modifies mem
    ensures Possible(w, foreign, call, ok)
    ensures Holds(mem.heap, Step(w, foreign, call, ok)) && ForeignBytes(mem.heap, w.Keys, foreign)
    ensures Live(Step(w, foreign, call, ok)) == Live(w) + if ok then {call.obj} else {}
    ensures Ended(Step(w, foreign, call, ok)) == Ended(w) + if ok then {call.obj} else {}
  {
    hide RewrittenAt, StringIs, Effect, Holds, ForeignBytes, Argument, MemoryArgument, Rewrote, Possible;
    ghost var h := mem.heap;
    assert call.obj in call.Operands();
    ArgumentsAgree(h, w, foreign, call);
    ok := ProxyImport(mem, call, w);
    OutcomePossible(h, mem.heap, w, foreign, call, ok);
    if ok {
      StepKeepsWorld(h, mem.heap, w, foreign, call.obj, After(w, foreign, call));
    }
  }

  /** Programs that start from nothing but storage: whatever they construct behaves like byte sequences. */
  method ExecuteFromStorage(mem: GuestMemory, program: seq<Call>,
                            ghost storage: set<u64>, ghost foreign: map<int, byte>) returns (outcomes: seq<bool>)
    requires forall o :: o in storage ==> mem.heap.Mapped(o, STRING_OBJECT_SIZE)
    requires forall x, y :: x in storage && y in storage && x != y ==>
               Apart(x, STRING_OBJECT_SIZE, y, STRING_OBJECT_SIZE)
    requires ForeignBytes(mem.heap, storage, foreign)
    requires forall c :: c in program ==> Legal(map o | o in storage :: None, foreign, c)
    modifies mem
    ensures |outcomes| == |program|
    ensures Outcomes(map o | o in storage :: None, foreign, program, outcomes)
    ensures Holds(mem.heap, Run(map o | o in storage :: None, foreign, program, outcomes))
    ensures ForeignBytes(mem.heap, storage, foreign)
  {
    hide Holds, ForeignBytes, Legal, Run, Outcomes;
    ghost var w: Strings := map o | o in storage :: None;
    assert w.Keys == storage && Live(w) == {} == Ended(w);
    RawStorage(mem.heap, storage);
    outcomes := Execute(mem, program, {}, {}, w, foreign);
  }
}
