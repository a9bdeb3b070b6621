/** Whole guest programs over std::vector<char> objects, against plain byte sequences. */
module LibcppVectorRuns {
  import opened Machine
  import opened Memory
  import opened LibcppVector

  // ----- The imports of one guest program ------------------------------------------------

  /** Where a by-reference byte argument points. */
  datatype ByteRef =
    | Element(source: u64, index: nat)  // the address that operator[] of a vector returns
    | Foreign(addr: u64)                // memory that no vector owns

  datatype Call =
    | DefaultCtor(obj: u64)
    | CopyCtor(obj: u64, source: u64)
    | Assign(obj: u64, source: u64)
    | Destroy(obj: u64)
    | Clear(obj: u64)
    | Reserve(obj: u64, capacity: u64)
    | Resize(obj: u64, len: u64)
    | ResizeFill(obj: u64, len: u64, value: u64)
    | ResizeFillRef(obj: u64, len: u64, ref: ByteRef)
    | PushBackRef(obj: u64, ref: ByteRef)
    | PopBack(obj: u64)
  {
    function Operands(): set<u64>
    {
      match this
      case CopyCtor(o, s) => {o, s}
      case Assign(o, s) => {o, s}
      case ResizeFillRef(o, _, Element(s, _)) => {o, s}
      case PushBackRef(o, Element(s, _)) => {o, s}
      case _ => {obj}
    }

    /** The operands that must have been constructed: all but the target of a constructor. */
    function Uses(): set<u64>
    {
      match this
      case DefaultCtor(_) => {}
      case CopyCtor(_, s) => {s}
      case _ => Operands()
    }

    predicate UsesForeign(addr: u64)
    {
      (ResizeFillRef? && ref == Foreign(addr)) || (PushBackRef? && ref == Foreign(addr))
    }
  }

  // ----- The abstract machine: every object is a byte sequence ---------------------------

  /** A constructed vector: its bytes, and the capacity that decides which calls must allocate. */
  datatype Held = Held(bytes: seq<byte>, capacity: nat)

  /** A vector built for exactly these bytes. */
  function Fresh(bytes: seq<byte>): Held
  {
    Held(bytes, |bytes|)
  }

  const EMPTY := Held([], 0)

  /** What each object holds: nothing while it is raw storage. */
  type Vectors = map<u64, Option<Held>>

  function Live(w: Vectors): set<u64>
  {
    set o | o in w && w[o].Some?
  }

  predicate Runnable(w: Vectors, call: Call)
  {
    call.Operands() <= w.Keys && call.Uses() <= Live(w)
  }

  /** The byte a reference denotes, or nothing when it is out of bounds or points into the zero page. */
  function Referenced(w: Vectors, foreign: map<int, byte>, ref: ByteRef): Option<byte>
  {
    match ref
    case Element(s, i) => if s in Live(w) && i < |w[s].value.bytes| then Some(w[s].value.bytes[i]) else None
    case Foreign(a) => if a in foreign && a >= LOWEST_BLOCK then Some(foreign[a]) else None
  }

  function Refilled(v: Held, len: nat, fill: byte): Held
  {
    var newLen := Min(len, MAX_VECTOR_LEN);
    Held(Resized(v.bytes, newLen, fill), Max(v.capacity, newLen))
  }

  function Pushed(v: Held, b: byte): Held
  {
    Held(v.bytes + [b],
         if |v.bytes| < v.capacity then v.capacity else GrownCapacity(v.capacity, |v.bytes| + 1))
  }

  /** What an object holds after a call, given whether the call succeeded. */
  function Effect(w: Vectors, foreign: map<int, byte>, call: Call, ok: bool): (after: Option<Held>)
    requires Runnable(w, call)
    ensures after.None? <==> w[call.obj].None? && !ok
  {
    if !ok then
      if call.Assign? && call.source != call.obj then Some(EMPTY) else w[call.obj]
    else
      match call
      case DefaultCtor(_) => Some(EMPTY)
      case CopyCtor(_, source) => Some(Fresh(w[source].value.bytes))
      case Assign(obj, source) =>
        if source == obj then w[obj] else Some(Fresh(w[source].value.bytes))
      case Destroy(_) => Some(EMPTY)
      case Clear(obj) => Some(w[obj].value.(bytes := []))
      case Reserve(obj, n) => Some(w[obj].value.(capacity := ReservedCapacity(w[obj].value.capacity, n)))
      case Resize(obj, n) => Some(Refilled(w[obj].value, n, 0))
      case ResizeFill(obj, n, value) => Some(Refilled(w[obj].value, n, value % 256))
      case ResizeFillRef(obj, n, ref) =>
        var b := Referenced(w, foreign, ref);
        if b.Some? then Some(Refilled(w[obj].value, n, b.value)) else w[obj]
      case PushBackRef(obj, ref) =>
        var b := Referenced(w, foreign, ref);
        if b.Some? then Some(Pushed(w[obj].value, b.value)) else w[obj]
      case PopBack(obj) => Some(w[obj].value.(bytes := Popped(w[obj].value.bytes)))
  }

  predicate BadReference(w: Vectors, foreign: map<int, byte>, call: Call)
  {
    (call.ResizeFillRef? || call.PushBackRef?) && Referenced(w, foreign, call.ref).None?
  }

  /** The fill byte of a call that resizes. */
  function FillOf(w: Vectors, foreign: map<int, byte>, call: Call): byte
    requires Runnable(w, call) && !BadReference(w, foreign, call)
    requires call.Resize? || call.ResizeFill? || call.ResizeFillRef?
  {
    match call
    case Resize(_, _) => 0
    case ResizeFill(_, _, value) => value % 256
    case ResizeFillRef(_, _, Element(s, i)) => w[s].value.bytes[i]
    case ResizeFillRef(_, _, Foreign(a)) => foreign[a]
  }

  /** What each call does, byte by byte. */
  lemma CallMeaning(w: Vectors, foreign: map<int, byte>, call: Call)
    requires Runnable(w, call) && !BadReference(w, foreign, call)
    ensures var before, after := w[call.obj], Effect(w, foreign, call, true).value;
            match call
            case DefaultCtor(_) => after.bytes == [] && after.capacity == 0
            case Destroy(_) => after.bytes == [] && after.capacity == 0
            case CopyCtor(_, s) => after.bytes == w[s].value.bytes && after.capacity == |after.bytes|
            case Assign(o, s) =>
              && after.bytes == w[s].value.bytes
              && (if o == s then after == before.value else after.capacity == |after.bytes|)
            case Clear(_) => after.bytes == [] && after.capacity == before.value.capacity
            case Reserve(_, n) =>
              && after.bytes == before.value.bytes && after.capacity >= before.value.capacity
              && (n <= 0x1_0000 ==> after.capacity >= n)
              && (after.capacity > before.value.capacity ==> after.capacity == n || after.capacity == 0x1_0000)
            case PopBack(_) =>
              if before.value.bytes == [] then after.bytes == []
              else before.value.bytes == after.bytes + [before.value.bytes[|after.bytes|]]
            case PushBackRef(_, Element(s, i)) => after.bytes == before.value.bytes + [w[s].value.bytes[i]]
            case PushBackRef(_, Foreign(a)) => a >= 0x1000 && after.bytes == before.value.bytes + [foreign[a]]
            case _ =>
              && |after.bytes| == Min(call.len, 0x1_0000)
              && forall i :: 0 <= i < |after.bytes| ==>
                   after.bytes[i] == if i < |before.value.bytes| then before.value.bytes[i]
                                     else FillOf(w, foreign, call)
  {
  }

  /** Popping undoes pushing. */
  lemma PopUndoesPush(v: Held, b: byte)
    ensures Popped(Pushed(v, b).bytes) == v.bytes
  {
  }

  /** A call that uses storage on which no constructor has succeeded is not made. */
  function Step(w: Vectors, foreign: map<int, byte>, call: Call, ok: bool): (w': Vectors)
    requires call.Operands() <= w.Keys
    ensures w'.Keys == w.Keys && Live(w) <= Live(w')
  {
    if Runnable(w, call) then
      assert call.obj in call.Operands();
      w[call.obj := Effect(w, foreign, call, ok)]
    else w
  }

  function Run(w: Vectors, foreign: map<int, byte>, program: seq<Call>, outcomes: seq<bool>): (w': Vectors)
    requires |outcomes| == |program|
    requires forall c :: c in program ==> c.Operands() <= w.Keys
    ensures w'.Keys == w.Keys && Live(w) <= Live(w')
    decreases |program|
  {
    if program == [] then w
    else
      var last := |program| - 1;
      var before := Run(w, foreign, program[..last], outcomes[..last]);
      assert program[last] in program;
      Step(before, foreign, program[last], outcomes[last])
  }

  /** The calls that need a larger block, and so may fail when the allocator does. */
  predicate Allocates(w: Vectors, call: Call)
    requires Runnable(w, call)
  {
    match call
    case CopyCtor(_, source) => w[source].value.bytes != []
    case Assign(obj, source) => source != obj && w[source].value.bytes != []
    case Reserve(obj, n) => Min(n, MAX_VECTOR_LEN) > w[obj].value.capacity
    case Resize(obj, n) => Min(n, MAX_VECTOR_LEN) > w[obj].value.capacity
    case ResizeFill(obj, n, _) => Min(n, MAX_VECTOR_LEN) > w[obj].value.capacity
    case ResizeFillRef(obj, n, _) => Min(n, MAX_VECTOR_LEN) > w[obj].value.capacity
    case PushBackRef(obj, _) => |w[obj].value.bytes| == w[obj].value.capacity
    case _ => false
  }

  /** The calls that cannot succeed: a bad reference, or a push on a vector of the maximum length. */
  predicate MustFail(w: Vectors, foreign: map<int, byte>, call: Call)
    requires Runnable(w, call)
  {
    BadReference(w, foreign, call) || (call.PushBackRef? && |w[call.obj].value.bytes| >= MAX_VECTOR_LEN)
  }

  /** A call succeeds unless it is not made, must fail, or needs a block that the allocator refuses. */
  predicate Possible(w: Vectors, foreign: map<int, byte>, call: Call, ok: bool)
  {
    if !Runnable(w, call) then !ok
    else if MustFail(w, foreign, call) then !ok
    else ok || Allocates(w, call)
  }

  /** Every outcome of the run is a possible one. */
  predicate Outcomes(w: Vectors, foreign: map<int, byte>, program: seq<Call>, outcomes: seq<bool>)
    requires |outcomes| == |program|
    requires forall c :: c in program ==> c.Operands() <= w.Keys
    decreases |program|
  {
    program == [] ||
    var last := |program| - 1;
    && Outcomes(w, foreign, program[..last], outcomes[..last])
    && Possible(Run(w, foreign, program[..last], outcomes[..last]), foreign, program[last], outcomes[last])
  }

  /** Call by call: each outcome is possible where the calls before it have led. */
  lemma {:induction false} OutcomeAt(w: Vectors, foreign: map<int, byte>, program: seq<Call>,
                                     outcomes: seq<bool>, i: nat)
    requires |outcomes| == |program| && forall c :: c in program ==> c.Operands() <= w.Keys
    requires Outcomes(w, foreign, program, outcomes) && i < |program|
    ensures Possible(Run(w, foreign, program[..i], outcomes[..i]), foreign, program[i], outcomes[i])
    decreases |program|
  {
    hide Possible, Run;
    var last := |program| - 1;
    if i < last {
      OutcomeAt(w, foreign, program[..last], outcomes[..last], i);
      assert program[..last][..i] == program[..i] && outcomes[..last][..i] == outcomes[..i];
    }
  }

  /** A run that goes one call further. */
  lemma RunExtended(w: Vectors, foreign: map<int, byte>, program: seq<Call>, outcomes: seq<bool>, i: nat, ok: bool)
    requires i == |outcomes| < |program| && forall c :: c in program ==> c.Operands() <= w.Keys
    ensures var before := Run(w, foreign, program[..i], outcomes);
            && program[i].Operands() <= before.Keys
            && Run(w, foreign, program[..i + 1], outcomes + [ok]) == Step(before, foreign, program[i], ok)
            && (Outcomes(w, foreign, program[..i], outcomes) && Possible(before, foreign, program[i], ok) ==>
                  Outcomes(w, foreign, program[..i + 1], outcomes + [ok]))
  {
    hide Step, Possible;
    assert program[i] in program;
    assert program[..i + 1][..i] == program[..i] && (outcomes + [ok])[..i] == outcomes;
  }

  // ----- What every run keeps ------------------------------------------------------------

  /** No vector outgrows its capacity, and no capacity the maximum. */
  predicate Bounded(w: Vectors)
  {
    forall o :: o in w && w[o].Some? ==> |w[o].value.bytes| <= w[o].value.capacity <= MAX_VECTOR_LEN
  }

  lemma StepKeepsBounds(w: Vectors, foreign: map<int, byte>, call: Call, ok: bool)
    requires Bounded(w) && call.Operands() <= w.Keys && Possible(w, foreign, call, ok)
    ensures Bounded(Step(w, foreign, call, ok))
  {
  }

  /** Calls that do not replace or destroy a vector never lower its capacity. */
  predicate KeepsCapacity(call: Call, obj: u64)
  {
    call.obj == obj ==> !(call.DefaultCtor? || call.CopyCtor? || call.Assign? || call.Destroy?)
  }

  lemma StepKeepsCapacity(w: Vectors, foreign: map<int, byte>, call: Call, ok: bool, obj: u64)
    requires Bounded(w) && call.Operands() <= w.Keys && obj in Live(w)
    requires KeepsCapacity(call, obj) && Possible(w, foreign, call, ok)
    ensures var w' := Step(w, foreign, call, ok);
            w'[obj].Some? && w'[obj].value.capacity >= w[obj].value.capacity
  {
  }

  /** Over every run a capacity falls only by construction, assignment or destruction, and bounds are kept. */
  lemma {:induction false} RunKeepsCapacity(w: Vectors, foreign: map<int, byte>, program: seq<Call>,
                                            outcomes: seq<bool>, obj: u64)
    requires |outcomes| == |program| && forall c :: c in program ==> c.Operands() <= w.Keys
    requires Bounded(w) && obj in Live(w) && Outcomes(w, foreign, program, outcomes)
    ensures var w' := Run(w, foreign, program, outcomes);
            && Bounded(w') && w'[obj].Some?
            && ((forall c :: c in program ==> KeepsCapacity(c, obj)) ==>
                  w'[obj].value.capacity >= w[obj].value.capacity)
    decreases |program|
  {
    hide Step, Possible, KeepsCapacity, Bounded;
    if program != [] {
      var last := |program| - 1;
      var before := Run(w, foreign, program[..last], outcomes[..last]);
      assert program[last] in program && program[last].Operands() <= before.Keys;
      RunKeepsCapacity(w, foreign, program[..last], outcomes[..last], obj);
      StepKeepsBounds(before, foreign, program[last], outcomes[last]);
      if KeepsCapacity(program[last], obj) {
        StepKeepsCapacity(before, foreign, program[last], outcomes[last], obj);
      }
    }
  }

  // ----- The concrete machine: every object is a header and a block of guest memory -------

  /** The addresses of an object: its header, and once it is live the buffer it owns. */
  ghost predicate Takes(h: Heap, o: u64, live: bool, a: int)
    requires live ==> Constructed(h, o)
  {
    if live then Owns(h, o, a) else Within(a, o, VECTOR_OBJECT_SIZE)
  }

  /** Two objects have no address in common. */
  ghost predicate Unshared(h: Heap, x: u64, xLive: bool, y: u64, yLive: bool)
    requires (xLive ==> Constructed(h, x)) && (yLive ==> Constructed(h, y))
  {
    forall a :: !(Takes(h, x, xLive, a) && Takes(h, y, yLive, a))
  }

  /** The abstract value of a constructed object. */
  ghost function Value(h: Heap, obj: u64): Held
    requires Constructed(h, obj)
  {
    Held(Contents(h, obj), Decoded(h, obj).capacity)
  }

  /** Every live object is constructed with its value, raw storage is mapped, and no two share an address. */
  ghost predicate Holds(h: Heap, w: Vectors)
  {
    && (forall o :: o in w ==> h.Mapped(o, VECTOR_OBJECT_SIZE))
    && (forall o :: o in w && w[o].Some? ==> Constructed(h, o) && Value(h, o) == w[o].value)
    && (forall x, y :: x in w && y in w && x != y ==> Unshared(h, x, w[x].Some?, y, w[y].Some?))
  }

  /** The foreign bytes are mapped, and belong to no object. */
  ghost predicate ForeignBytes(h: Heap, w: Vectors, foreign: map<int, byte>)
    requires Holds(h, w)
  {
    forall a :: a in foreign ==>
      a in h.bytes && h.bytes[a] == foreign[a] && forall o :: o in w ==> !Takes(h, o, w[o].Some?, a)
  }

  /** Any storage will do to start from, as long as it is mapped and the headers lie apart. */
  lemma RawStorage(h: Heap, objs: set<u64>)
    requires forall o :: o in objs ==> h.Mapped(o, VECTOR_OBJECT_SIZE)
    requires forall x, y :: x in objs && y in objs && x != y ==> Apart(x, VECTOR_OBJECT_SIZE, y, VECTOR_OBJECT_SIZE)
    ensures Holds(h, map o | o in objs :: None)
  {
  }

  /** More storage may join at any time, if it lies apart from what the objects take. */
  lemma StorageJoins(h: Heap, w: Vectors, obj: u64)
    requires Holds(h, w) && obj !in w && h.Mapped(obj, VECTOR_OBJECT_SIZE)
    requires forall a, o :: o in w && Within(a, obj, VECTOR_OBJECT_SIZE) ==> !Takes(h, o, w[o].Some?, a)
    ensures Holds(h, w[obj := None])
  {
    hide Constructed, Contents, Owns;
  }

  /** A call on a live object touches what it owns, a constructor on raw storage only the header. */
  ghost predicate Frame(h: Heap, h': Heap, obj: u64, live: bool)
    requires live ==> Constructed(h, obj)
    requires Constructed(h', obj)
  {
    if live then TouchesOnly(h, h', obj) else BuiltAt(h, h', obj)
  }

  lemma StepKeepsWorld(h: Heap, h': Heap, w: Vectors, foreign: map<int, byte>, obj: u64)
    requires Holds(h, w) && ForeignBytes(h, w, foreign)
    requires obj in w && Constructed(h', obj) && Frame(h, h', obj, w[obj].Some?)
    ensures Holds(h', w[obj := Some(Value(h', obj))])
    ensures ForeignBytes(h', w[obj := Some(Value(h', obj))], foreign)
  {
    hide Constructed, Frame, Value, Takes;
    var w' := w[obj := Some(Value(h', obj))];
    HeaderMapped(h', obj);
    forall o | o in w && o != obj
      ensures h'.Mapped(o, VECTOR_OBJECT_SIZE)
      ensures w[o].Some? ==> Constructed(h', o) && Value(h', o) == w[o].value
      ensures forall a :: Takes(h', o, w[o].Some?, a) <==> Takes(h, o, w[o].Some?, a)
      ensures forall a :: !(Takes(h', o, w[o].Some?, a) && Takes(h', obj, true, a))
    {
      OtherKept(h, h', w, obj, o);
    }
    forall a | a in foreign
      ensures a in h'.bytes && h'.bytes[a] == foreign[a] && !Takes(h', obj, true, a)
    {
      OutsideKept(h, h', obj, w[obj].Some?, a);
    }
  }

  /** A step on one object leaves the others what they were and where they were. */
  lemma OtherKept(h: Heap, h': Heap, w: Vectors, obj: u64, o: u64)
    requires Holds(h, w) && obj in w && o in w && o != obj
    requires Constructed(h', obj) && Frame(h, h', obj, w[obj].Some?)
    ensures h'.Mapped(o, VECTOR_OBJECT_SIZE)
    ensures w[o].Some? ==> Constructed(h', o) && Value(h', o) == w[o].value
    ensures forall a :: Takes(h', o, w[o].Some?, a) <==> Takes(h, o, w[o].Some?, a)
    ensures forall a :: !(Takes(h', o, w[o].Some?, a) && Takes(h', obj, true, a))
  {
    hide DecodeVector, Contents, Constructed;
    assert Unshared(h, obj, w[obj].Some?, o, w[o].Some?);
    forall a
      ensures !(Takes(h, obj, w[obj].Some?, a) && Takes(h, o, w[o].Some?, a))
    {
    }
    if w[o].Some? {
      assert forall a :: Owns(h, o, a) ==> Takes(h, o, w[o].Some?, a);
      if w[obj].Some? {
        OtherVectorUntouched(h, h', obj, o);
      } else {
        OtherVectorUntouchedByBirth(h, h', obj, o);
      }
      HeaderMapped(h', o);
    } else {
      forall a | Within(a, o, VECTOR_OBJECT_SIZE)
        ensures a in h'.bytes && !Owns(h', obj, a)
      {
        assert Takes(h, o, false, a);
        OutsideKept(h, h', obj, w[obj].Some?, a);
      }
    }
  }

  /** What a step's object does not take stays as it is. */
  lemma OutsideKept(h: Heap, h': Heap, obj: u64, live: bool, a: int)
    requires (live ==> Constructed(h, obj)) && Constructed(h', obj) && Frame(h, h', obj, live)
    requires a in h.bytes && !Takes(h, obj, live, a)
    ensures a in h'.bytes && h'.bytes[a] == h.bytes[a] && !Takes(h', obj, true, a)
  {
    hide DecodeVector, Constructed;
  }

  /** Birth: constructing an object on storage of its own adds it to those there are. */
  lemma BirthKeepsWorld(h: Heap, h': Heap, w: Vectors, obj: u64)
    requires Holds(h, w) && obj !in w && h.Mapped(obj, VECTOR_OBJECT_SIZE)
    requires forall a, o :: o in w && Within(a, obj, VECTOR_OBJECT_SIZE) ==> !Takes(h, o, w[o].Some?, a)
    requires Constructed(h', obj) && BuiltAt(h, h', obj)
    ensures Holds(h', w[obj := Some(Value(h', obj))])
  {
    hide Holds, BuiltAt, Constructed, Takes;
    StorageJoins(h, w, obj);
    StepKeepsWorld(h, h', w[obj := None], map[], obj);
    assert w[obj := None][obj := Some(Value(h', obj))] == w[obj := Some(Value(h', obj))];
  }

  /** operator[]: the address of an element, or null when out of bounds. */
  function IndexPointer(v: DecodedVector, index: nat): nat
  {
    if index >= v.len then 0 else v.begin + index
  }

  /** Reads the byte behind a reference, as the by-reference imports do before they touch the vector. */
  method ReadReferenced(mem: GuestMemory, ref: ByteRef, ghost w: Vectors) returns (b: Option<byte>)
    requires Holds(mem.heap, w) && (ref.Element? ==> ref.source in Live(w))
    ensures b == Referenced(w, mem.heap.bytes, ref)
  {
    hide LeWord, TouchesOnly;
    var ptr: int;
    match ref {
      case Element(s, i) =>
        ConstructedShape(mem.heap, s);
        ptr := IndexPointer(DecodeVector(mem.heap, s).value, i);
      case Foreign(a) =>
        ptr := a;
    }
    if ptr < LOWEST_BLOCK {
      return None;
    }
    var bytes := mem.heap.Read(ptr, 1);
    b := match bytes case None => None case Some(s) => Some(s[0]);
  }

  /** One import call, as the C++ router performs it: its effect on the values, given what memory holds. */
  method ProxyImport(mem: GuestMemory, call: Call, ghost w: Vectors) returns (ok: bool)
    requires Holds(mem.heap, w) && Runnable(w, call)
    modifies mem
    ensures Possible(w, old(mem.heap.bytes), call, ok)
    ensures match Effect(w, old(mem.heap.bytes), call, ok)
            case None => mem.heap == old(mem.heap)
            case Some(after) =>
              && Constructed(mem.heap, call.obj) && Value(mem.heap, call.obj) == after
              && Frame(old(mem.heap), mem.heap, call.obj, w[call.obj].Some?)
  {
    hide DecodeVector, Constructed, TouchesOnly, Contents, Separate, Owns, CopyTarget, ApartFrom, BuiltAt;
    var obj := call.obj;
    assert obj in call.Operands();
    if call.DefaultCtor? || call.CopyCtor? {
      ok := Construct(mem, call, w);
      return;
    }
    assert obj in Live(w);
    ValueBounds(mem.heap, obj);
    UnchangedTouchesOnly(mem.heap, obj);
    ghost var moved;
    if call.Assign? {
      CanAssign(mem.heap, w, obj, call.source);
      ok := AssignVector(mem, obj, call.source);
    } else if call.Destroy? {
      ok := DestroyVector(mem, obj);
    } else if call.Clear? {
      ok := ClearVector(mem, obj);
    } else if call.Reserve? {
      ok, moved := ReserveVector(mem, obj, call.capacity);
    } else if call.Resize? {
      ok := ResizeVector(mem, obj, call.len, 0);
    } else if call.ResizeFill? {
      ok := ResizeVector(mem, obj, call.len, call.value % 256);
    } else if call.PopBack? {
      ok := PopVector(mem, obj);
    } else {
      var b := ReadReferenced(mem, call.ref, w);
      if b.None? {
        return false;
      }
      if call.ResizeFillRef? {
        ok := ResizeVector(mem, obj, call.len, b.value);
      } else {
        ok, moved := PushVector(mem, obj, b.value);
      }
    }
  }

  /** The constructors, on raw storage or over a live object. */
  method Construct(mem: GuestMemory, call: Call, ghost w: Vectors) returns (ok: bool)
    requires Holds(mem.heap, w) && Runnable(w, call) && (call.DefaultCtor? || call.CopyCtor?)
    modifies mem
    ensures if ok then
              && Constructed(mem.heap, call.obj)
              && Value(mem.heap, call.obj) == Fresh(if call.DefaultCtor? then [] else w[call.source].value.bytes)
              && Frame(old(mem.heap), mem.heap, call.obj, w[call.obj].Some?)
            else mem.heap == old(mem.heap) && call.CopyCtor? && w[call.source].value.bytes != []
    ensures !ok && w[call.obj].Some? ==> Frame(old(mem.heap), mem.heap, call.obj, true)
  {
    hide DecodeVector, Constructed, TouchesOnly, Contents, Separate, Owns, CopyTarget, ApartFrom, BuiltAt;
    var obj := call.obj;
    assert obj in call.Operands();
    if call.DefaultCtor? {
      ok := ConstructVector(mem, obj);
    } else {
      CanCopy(mem.heap, w, obj, call.source);
      ok := CopyVector(mem, obj, call.source);
    }
    if w[obj].Some? {
      if ok {
        BuiltTouchesOnly(old(mem.heap), mem.heap, obj);
      } else {
        UnchangedTouchesOnly(mem.heap, obj);
      }
    }
  }

  /** References into foreign memory denote the same byte in the whole of memory. */
  lemma SameEffect(h: Heap, w: Vectors, foreign: map<int, byte>, call: Call, ok: bool)
    requires Holds(h, w) && ForeignBytes(h, w, foreign) && Runnable(w, call)
    requires forall a :: call.UsesForeign(a) ==> a in foreign
    ensures Effect(w, h.bytes, call, ok) == Effect(w, foreign, call, ok)
    ensures Possible(w, h.bytes, call, ok) == Possible(w, foreign, call, ok)
  {
    hide Constructed, Takes, Value;
    if call.ResizeFillRef? || call.PushBackRef? {
      if call.ref.Foreign? {
        assert call.UsesForeign(call.ref.addr);
      }
      assert Referenced(w, h.bytes, call.ref) == Referenced(w, foreign, call.ref);
    }
  }

  lemma HeaderMapped(h: Heap, obj: u64)
    requires Constructed(h, obj)
    ensures h.Mapped(obj, VECTOR_OBJECT_SIZE)
  {
    ConstructedShape(h, obj);
  }

  lemma ValueBounds(h: Heap, obj: u64)
    requires Constructed(h, obj)
    ensures |Contents(h, obj)| == Decoded(h, obj).len <= Decoded(h, obj).capacity <= MAX_VECTOR_LEN
  {
    ConstructedShape(h, obj);
  }

  /** The objects in memory are within bounds. */
  lemma HoldsBounded(h: Heap, w: Vectors)
    requires Holds(h, w)
    ensures Bounded(w)
  {
    hide Constructed, Contents;
    forall o | o in w && w[o].Some?
      ensures |w[o].value.bytes| <= w[o].value.capacity <= MAX_VECTOR_LEN
    {
      ValueBounds(h, o);
    }
  }

  lemma CanAssign(h: Heap, w: Vectors, dest: u64, source: u64)
    requires Holds(h, w) && dest in Live(w) && source in Live(w)
    ensures h.Mapped(source, VECTOR_OBJECT_SIZE)
    ensures dest != source ==> ApartFrom(h, source, dest)
  {
    hide DecodeVector, Contents;
    ConstructedShape(h, source);
    if dest != source {
      assert Unshared(h, dest, w[dest].Some?, source, w[source].Some?);
      forall a
        ensures !(Owns(h, dest, a) && Owns(h, source, a))
      {
        assert !(Takes(h, dest, w[dest].Some?, a) && Takes(h, source, w[source].Some?, a));
      }
      assert forall a :: Within(a, source, VECTOR_OBJECT_SIZE) ==> Owns(h, source, a);
    }
  }

  lemma CanCopy(h: Heap, w: Vectors, dest: u64, source: u64)
    requires Holds(h, w) && dest in w && source in Live(w)
    ensures CopyTarget(h, dest, source)
  {
    hide DecodeVector, Contents, Constructed;
    forall a | dest != source && Within(a, dest, VECTOR_OBJECT_SIZE)
      ensures !Owns(h, source, a)
    {
      assert Unshared(h, dest, w[dest].Some?, source, w[source].Some?);
      assert Takes(h, dest, w[dest].Some?, a);
      assert !(Takes(h, dest, w[dest].Some?, a) && Takes(h, source, w[source].Some?, a));
    }
  }

  /**
   * Every run of every program over any number of vectors, constructed on the way or before, whatever
   * blocks the allocator answers with and whenever it fails: the bytes in [begin, end) and the capacity of
   * every object are those of the abstract machine, all objects stay constructed and separate, memory no
   * vector owns is never written, and a call fails only if it must, or must allocate.
   */
  method Execute(mem: GuestMemory, program: seq<Call>, constructed: set<u64>,
                 ghost w: Vectors, ghost foreign: map<int, byte>) returns (outcomes: seq<bool>)
    requires Holds(mem.heap, w) && ForeignBytes(mem.heap, w, foreign) && constructed == Live(w)
    requires forall c :: c in program ==> c.Operands() <= w.Keys
    requires forall c, a :: c in program && c.UsesForeign(a) ==> a in foreign
    modifies mem
    ensures |outcomes| == |program|
    ensures Outcomes(w, foreign, program, outcomes) && Bounded(Run(w, foreign, program, outcomes))
    ensures Holds(mem.heap, Run(w, foreign, program, outcomes))
    ensures ForeignBytes(mem.heap, Run(w, foreign, program, outcomes), foreign)
  {
    hide Constructed, Frame, Value, Takes, Effect, Holds, Possible, Run, Outcomes;
    outcomes := [];
    var live := constructed;
    NothingRun(w, foreign, program);
    for i := 0 to |program|
      invariant |outcomes| == i
      invariant Outcomes(w, foreign, program[..i], outcomes)
      invariant Holds(mem.heap, Run(w, foreign, program[..i], outcomes))
      invariant ForeignBytes(mem.heap, Run(w, foreign, program[..i], outcomes), foreign)
      invariant live == Live(Run(w, foreign, program[..i], outcomes))
    {
      ghost var w1 := Run(w, foreign, program[..i], outcomes);
      ghost var h1 := mem.heap;
      assert program[i] in program;
      var ok := false;
      if program[i].Uses() <= live {
        ok := ProxyImport(mem, program[i], w1);
        SameEffect(h1, w1, foreign, program[i], ok);
        if Effect(w1, foreign, program[i], ok).Some? {
          StepKeepsWorld(h1, mem.heap, w1, foreign, program[i].obj);
        } else {
          assert Step(w1, foreign, program[i], ok) == w1;
        }
        if ok {
          live := live + {program[i].obj};
        }
      } else {
        NotMade(w1, foreign, program[i]);
      }
      RunExtended(w, foreign, program, outcomes, i, ok);
      outcomes := outcomes + [ok];
    }
    assert program[..|program|] == program;
    HoldsBounded(mem.heap, Run(w, foreign, program, outcomes));
  }

  lemma NothingRun(w: Vectors, foreign: map<int, byte>, program: seq<Call>)
    requires forall c :: c in program ==> c.Operands() <= w.Keys
    ensures Run(w, foreign, program[..0], []) == w && Outcomes(w, foreign, program[..0], [])
  {
  }

  lemma NotMade(w: Vectors, foreign: map<int, byte>, call: Call)
    requires !Runnable(w, call)
    ensures Possible(w, foreign, call, false)
  {
  }

  /** Programs that start from nothing but storage: whatever they construct behaves like byte sequences. */
  method ExecuteFromStorage(mem: GuestMemory, program: seq<Call>,
                            ghost storage: set<u64>, ghost foreign: map<int, byte>) returns (outcomes: seq<bool>)
    requires forall o :: o in storage ==> mem.heap.Mapped(o, VECTOR_OBJECT_SIZE)
    requires forall x, y :: x in storage && y in storage && x != y ==>
               Apart(x, VECTOR_OBJECT_SIZE, y, VECTOR_OBJECT_SIZE)
    requires forall a :: a in foreign ==> a in mem.heap.bytes && mem.heap.bytes[a] == foreign[a]
    requires forall a, o :: a in foreign && o in storage ==> !Within(a, o, VECTOR_OBJECT_SIZE)
    requires forall c :: c in program ==> c.Operands() <= storage
    requires forall c, a :: c in program && c.UsesForeign(a) ==> a in foreign
    modifies mem
    ensures |outcomes| == |program|
    ensures Outcomes(map o | o in storage :: None, foreign, program, outcomes)
    ensures var w := Run(map o | o in storage :: None, foreign, program, outcomes);
            Holds(mem.heap, w) && ForeignBytes(mem.heap, w, foreign)
  {
    hide Constructed, Value, Owns;
    ghost var w: Vectors := map o | o in storage :: None;
    assert w.Keys == storage && Live(w) == {};
    RawStorage(mem.heap, storage);
    outcomes := Execute(mem, program, {}, w, foreign);
  }

  // ----- The cost of repeated push_back --------------------------------------------------

  function PushedCapacity(n: nat): nat
  {
    if n == 0 then 0
    else
      var cap := PushedCapacity(n - 1);
      if n - 1 < cap then cap else GrownCapacity(cap, n)
  }

  /** The bytes copied by reallocations during the first n push_backs on an empty vector. */
  function PushedMoves(n: nat): nat
  {
    if n == 0 then 0
    else PushedMoves(n - 1) + if n - 1 < PushedCapacity(n - 1) then 0 else n - 1
  }

  function Pow2(k: nat): (p: nat)
    ensures p > 0
  {
    if k == 0 then 1 else 2 * Pow2(k - 1)
  }

  lemma {:induction false} Pow2Monotone(j: nat, k: nat)
    requires j <= k
    ensures Pow2(j) <= Pow2(k)
  {
    if j < k {
      Pow2Monotone(j, k - 1);
    }
  }

  /** The maximum is itself a power of two, so doubling a smaller one never overshoots it. */
  lemma DoublingFits(k: nat)
    requires Pow2(k) < MAX_VECTOR_LEN
    ensures Pow2(k + 1) <= MAX_VECTOR_LEN
  {
    assert Pow2(8) == 256;
    assert Pow2(16) == MAX_VECTOR_LEN;
    if k >= 16 {
      Pow2Monotone(16, k);
    } else {
      Pow2Monotone(k + 1, 16);
    }
  }

  /** The capacity is a power of two, and the moves so far are all the smaller powers. */
  lemma {:induction false} PushedPotential(n: nat) returns (k: nat)
    requires 1 <= n <= MAX_VECTOR_LEN
    ensures PushedCapacity(n) == Pow2(k) <= MAX_VECTOR_LEN
    ensures n <= Pow2(k) < 2 * n
    ensures PushedMoves(n) == Pow2(k) - 1
  {
    if n == 1 {
      k := 0;
    } else {
      k := PushedPotential(n - 1);
      if n - 1 == Pow2(k) {
        DoublingFits(k);
        k := k + 1;
      }
    }
  }

  /** Amortised constant cost: n push_backs move fewer than 2n bytes and over-allocate by less than a factor of 2. */
  lemma AmortisedPushes(n: nat)
    requires 1 <= n <= MAX_VECTOR_LEN
    ensures PushedMoves(n) < 2 * n - 1
    ensures n <= PushedCapacity(n) < 2 * n
  {
    var k := PushedPotential(n);
  }

  /** A guest loop of push_backs on an empty vector moves exactly what the recurrence says, until it fails. */
  method PushEach(mem: GuestMemory, obj: u64, data: seq<byte>) returns (done: nat, ghost moved: nat)
    requires Constructed(mem.heap, obj) && Decoded(mem.heap, obj) == EMPTY_VECTOR
    modifies mem
    ensures done <= |data| && Constructed(mem.heap, obj)
    ensures Contents(mem.heap, obj) == data[..done]
    ensures Decoded(mem.heap, obj).capacity == PushedCapacity(done) && moved == PushedMoves(done)
    ensures done > 0 ==> moved < 2 * done - 1 && done <= Decoded(mem.heap, obj).capacity < 2 * done
    ensures done < |data| ==> done == PushedCapacity(done)
  {
    hide DecodeVector, TouchesOnly;
    done, moved := 0, 0;
    ConstructedShape(mem.heap, obj);
    assert data[..0] == [];
    while done < |data|
      invariant done <= |data| && done <= MAX_VECTOR_LEN && Constructed(mem.heap, obj)
      invariant Contents(mem.heap, obj) == data[..done] && Decoded(mem.heap, obj).len == done
      invariant Decoded(mem.heap, obj).capacity == PushedCapacity(done) && moved == PushedMoves(done)
    {
      var ok, cost := PushVector(mem, obj, data[done]);
      if !ok {
        break;
      }
      ConstructedShape(mem.heap, obj);
      moved := moved + cost;
      done := done + 1;
    }
    if done > 0 {
      AmortisedPushes(done);
    }
  }
}
