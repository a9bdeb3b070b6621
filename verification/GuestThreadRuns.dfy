/** What every run of the guest thread scheduler keeps. */
module GuestThreadRuns {
  import opened Machine
  import opened GuestThreads

  // ----- The threads in the system ---------------------------------------------------------

  /** Which threads to count: one id, or all. */
  datatype Who = Everyone | Only(id: u64) {
    predicate Covers(id': u64)
    {
      Everyone? || id == id'
    }
  }

  function Tick(who: Who, id: u64): nat
  {
    if who.Covers(id) then 1 else 0
  }

  function Count<C>(ps: seq<Pending<C>>, who: Who): nat
  {
    if ps == [] then 0 else Tick(who, ps[0].threadId) + Count(ps[1..], who)
  }

  lemma {:induction false} CountAppend<C>(ps: seq<Pending<C>>, qs: seq<Pending<C>>, who: Who)
    ensures Count(ps + qs, who) == Count(ps, who) + Count(qs, who)
  {
    if ps == [] {
      assert ps + qs == qs;
    } else {
      CountAppend(ps[1..], qs, who);
      assert (ps + qs)[1..] == ps[1..] + qs;
    }
  }

  lemma {:induction false} CountReverse<C>(ps: seq<Pending<C>>, who: Who)
    ensures Count(Reverse(ps), who) == Count(ps, who)
  {
    if ps != [] {
      CountReverse(ps[1..], who);
      CountAppend(Reverse(ps[1..]), [ps[0]], who);
      assert Count([ps[0]], who) == Tick(who, ps[0].threadId);
    }
  }

  lemma {:induction false} CountEveryone<C>(ps: seq<Pending<C>>)
    ensures Count(ps, Everyone) == |ps|
  {
    if ps != [] {
      CountEveryone(ps[1..]);
    }
  }

  function QueueCount<C>(ws: seq<Waiting<C>>, who: Who): nat
  {
    Count(Records(ws), who)
  }

  lemma QueueCountAppend<C>(ws: seq<Waiting<C>>, vs: seq<Waiting<C>>, who: Who)
    ensures QueueCount(ws + vs, who) == QueueCount(ws, who) + QueueCount(vs, who)
  {
    assert Records(ws + vs) == Records(ws) + Records(vs);
    CountAppend(Records(ws), Records(vs), who);
  }

  ghost function AnyOf(conds: set<u64>): (c: u64)
    requires conds != {}
    ensures c in conds
  {
    var c :| c in conds;
    c
  }

  ghost function QueueSum<C>(m: Queues<C>, conds: set<u64>, who: Who): nat
  {
    if conds == {} then 0
    else QueueCount(Queue(m, AnyOf(conds)), who) + QueueSum(m, conds - {AnyOf(conds)}, who)
  }

  /** How many threads are blocked on some condition. */
  ghost function WaiterCount<C>(m: Queues<C>, who: Who): nat
  {
    QueueSum(m, m.Keys, who)
  }

  /** Any queue may be counted first. */
  lemma {:induction false} QueueSumSplit<C>(m: Queues<C>, conds: set<u64>, c: u64, who: Who)
    requires c in conds
    ensures QueueSum(m, conds, who) == QueueCount(Queue(m, c), who) + QueueSum(m, conds - {c}, who)
    decreases conds
  {
    hide QueueCount;
    var d := AnyOf(conds);
    if d != c {
      QueueSumSplit(m, conds - {d}, c, who);
      QueueSumSplit(m, conds - {c}, d, who);
      assert conds - {d} - {c} == conds - {c} - {d};
    }
  }

  lemma {:induction false} QueueSumFrame<C>(m: Queues<C>, m': Queues<C>, conds: set<u64>, who: Who)
    requires forall c :: c in conds ==> Queue(m', c) == Queue(m, c)
    ensures QueueSum(m', conds, who) == QueueSum(m, conds, who)
  {
    if conds != {} {
      QueueSumFrame(m, m', conds - {AnyOf(conds)}, who);
    }
  }

  lemma EmptyQueueCount<C>(who: Who)
    ensures QueueCount<C>([], who) == 0
  {
  }

  lemma WaiterCountSplit<C>(m: Queues<C>, c: u64, who: Who)
    ensures WaiterCount(m, who) == QueueCount(Queue(m, c), who) + QueueSum(m, m.Keys - {c}, who)
  {
    hide QueueCount, QueueSum;
    if c in m.Keys {
      QueueSumSplit(m, m.Keys, c, who);
    } else {
      EmptyQueueCount<C>(who);
      assert m.Keys - {c} == m.Keys;
    }
  }

  /** Changing one queue changes the count by that queue alone. */
  lemma WaiterCountChange<C>(m: Queues<C>, m': Queues<C>, c: u64, who: Who)
    requires m'.Keys - {c} == m.Keys - {c}
    requires forall d :: d in m.Keys - {c} ==> Queue(m', d) == Queue(m, d)
    ensures WaiterCount(m', who) + QueueCount(Queue(m, c), who)
            == WaiterCount(m, who) + QueueCount(Queue(m', c), who)
  {
    hide QueueCount, QueueSum, WaiterCount;
    WaiterCountSplit(m, c, who);
    WaiterCountSplit(m', c, who);
    QueueSumFrame(m, m', m.Keys - {c}, who);
  }

  lemma WaiterCountUpdate<C>(m: Queues<C>, c: u64, q: seq<Waiting<C>>, who: Who)
    ensures WaiterCount(m[c := q], who) + QueueCount(Queue(m, c), who) == WaiterCount(m, who) + QueueCount(q, who)
  {
    WaiterCountChange(m, m[c := q], c, who);
  }

  lemma WaiterCountRemove<C>(m: Queues<C>, c: u64, who: Who)
    ensures WaiterCount(m - {c}, who) + QueueCount(Queue(m, c), who) == WaiterCount(m, who)
  {
    WaiterCountChange(m, m - {c}, c, who);
    EmptyQueueCount<C>(who);
  }

  function ActiveCount<C>(s: State<C>, who: Who): nat
  {
    if s.active.Some? then Tick(who, s.active.value.threadId) else 0
  }

  /** How many threads the runtime holds: queued, active or blocked. */
  ghost function Population<C>(s: State<C>, who: Who): nat
  {
    Count(s.pending, who) + ActiveCount(s, who) + WaiterCount(s.waiters, who)
  }

  // ----- Waking whichever condition comes first ---------------------------------------------

  function Times(conds: seq<u64>, c: u64): nat
  {
    if conds == [] then 0
    else Times(conds[..|conds| - 1], c) + if conds[|conds| - 1] == c then 1 else 0
  }

  /** No condition is woken more often than it has waiters. */
  ghost predicate WakeOrder<C>(waiters: Queues<C>, conds: seq<u64>)
  {
    forall c :: Times(conds, c) <= |Queue(waiters, c)|
  }

  /** Waking one waiter of each condition listed, in that order. */
  function WokenEach<C>(s: State<C>, conds: seq<u64>): State<C>
  {
    if conds == [] then s
    else WokenUpTo(WokenEach(s, conds[..|conds| - 1]), conds[|conds| - 1], 1)
  }

  lemma WakeOrderPrefix<C>(waiters: Queues<C>, conds: seq<u64>, last: nat)
    requires |conds| == last + 1 && WakeOrder(waiters, conds)
    ensures WakeOrder(waiters, conds[..last])
    ensures Times(conds[..last], conds[last]) < |Queue(waiters, conds[last])|
  {
    forall c
      ensures Times(conds[..last], c) <= |Queue(waiters, c)|
    {
      assert Times(conds, c) <= |Queue(waiters, c)|;
    }
    assert Times(conds, conds[last]) <= |Queue(waiters, conds[last])|;
  }

  /** Whatever the order, every queue loses exactly its first waiters. */
  lemma {:induction false} WokenEachQueue<C>(s: State<C>, conds: seq<u64>, d: u64)
    requires WakeOrder(s.waiters, conds)
    ensures Times(conds, d) <= |Queue(s.waiters, d)|
    ensures Queue(WokenEach(s, conds).waiters, d) == Queue(s.waiters, d)[Times(conds, d)..]
    decreases |conds|
  {
    hide Reverse, Records, Granted;
    if conds != [] {
      var last := |conds| - 1;
      var prefix, c := conds[..last], conds[last];
      WakeOrderPrefix(s.waiters, conds, last);
      WokenEachQueue(s, prefix, d);
      WokenEachQueue(s, prefix, c);
      WakeOne(WokenEach(s, prefix), c);
    }
  }

  lemma WakeKeepsPopulation<C>(s: State<C>, cond: u64, n: nat, who: Who)
    requires n <= |Queue(s.waiters, cond)|
    ensures Population(Woken(s, cond, n), who) == Population(s, who)
    ensures WaiterCount(Woken(s, cond, n).waiters, Everyone) + n == WaiterCount(s.waiters, Everyone)
  {
    WokenCounts(s, cond, n, who);
    WokenCounts(s, cond, n, Everyone);
    CountEveryone(Records(Queue(s.waiters, cond)[..n]));
  }

  lemma WokenCounts<C>(s: State<C>, cond: u64, n: nat, who: Who)
    requires n <= |Queue(s.waiters, cond)|
    ensures var s', moved := Woken(s, cond, n), QueueCount(Queue(s.waiters, cond)[..n], who);
            && Count(s'.pending, who) == moved + Count(s.pending, who)
            && WaiterCount(s'.waiters, who) + moved == WaiterCount(s.waiters, who)
            && ActiveCount(s', who) == ActiveCount(s, who)
  {
    hide Reverse, Records, Granted, WaiterCount;
    var queue := Queue(s.waiters, cond);
    assert queue == queue[..n] + queue[n..];
    QueueCountAppend(queue[..n], queue[n..], who);
    if n == 0 {
      assert Records(queue[..0]) == [];
    } else {
      CountReverse(Records(queue[..n]), who);
      CountAppend(Reverse(Records(queue[..n])), s.pending, who);
      WaiterCountRemove(s.waiters, cond, who);
      if n < |queue| {
        WaiterCountUpdate(s.waiters, cond, queue[n..], who);
      } else {
        assert queue[..n] == queue;
      }
    }
  }

  lemma {:induction false} WakeEachKeepsPopulation<C>(s: State<C>, conds: seq<u64>, who: Who)
    requires WakeOrder(s.waiters, conds)
    ensures Population(WokenEach(s, conds), who) == Population(s, who)
    ensures WaiterCount(WokenEach(s, conds).waiters, Everyone) + |conds| == WaiterCount(s.waiters, Everyone)
    decreases |conds|
  {
    hide Population, WaiterCount, Woken;
    if conds != [] {
      var last := |conds| - 1;
      WakeOrderPrefix(s.waiters, conds, last);
      WakeEachKeepsPopulation(s, conds[..last], who);
      WokenEachQueue(s, conds[..last], conds[last]);
      WakeKeepsPopulation(WokenEach(s, conds[..last]), conds[last], 1, who);
    }
  }

  lemma {:induction false} NoWaiters<C>(m: Queues<C>, conds: set<u64>)
    requires forall c :: c in conds ==> Queue(m, c) == []
    ensures QueueSum(m, conds, Everyone) == 0
  {
    if conds != {} {
      EmptyQueueCount<C>(Everyone);
      NoWaiters(m, conds - {AnyOf(conds)});
    }
  }

  lemma NoneWaiting<C>(m: Queues<C>)
    requires forall c :: c in m ==> m[c] == []
    ensures WaiterCount(m, Everyone) == 0
  {
    NoWaiters(m, m.Keys);
  }

  /** Wakes a waiter of the first condition the map yields that has one; maps yield in no particular order. */
  method WakeOneCondWaiter<C>(runtime: GuestThreadRuntime<C>) returns (r: Option<(u64, u64)>)
    modifies runtime
    ensures var waiters := old(runtime.condWaiters);
            match r
            case None => (forall c :: c in waiters ==> waiters[c] == []) && runtime.View() == old(runtime.View())
            case Some((c, threadId)) =>
              && Queue(waiters, c) != [] && threadId == Queue(waiters, c)[0].threadId
              && runtime.View() == WokenUpTo(old(runtime.View()), c, 1)
  {
    if exists c :: c in runtime.condWaiters && runtime.condWaiters[c] != [] {
      var c :| c in runtime.condWaiters && runtime.condWaiters[c] != [];
      var wake := runtime.WakeOneCondWaiterFor(c);
      r := Some((c, wake.value.threadId));
    } else {
      r := None;
    }
  }

  function Conds(woken: seq<(u64, u64)>): (conds: seq<u64>)
    ensures |conds| == |woken| && forall i :: 0 <= i < |woken| ==> conds[i] == woken[i].0
  {
    seq(|woken|, i requires 0 <= i < |woken| => woken[i].0)
  }

  /** The i-th thread woken is the next in line at its own condition. */
  ghost predicate FirstComeFirstWoken<C>(waiters: Queues<C>, woken: seq<(u64, u64)>)
  {
    forall i :: 0 <= i < |woken| ==> NextInLine(waiters, Conds(woken[..i]), woken[i])
  }

  predicate NextInLine<C>(waiters: Queues<C>, earlier: seq<u64>, wake: (u64, u64))
  {
    var (c, threadId) := wake;
    Times(earlier, c) < |Queue(waiters, c)| && threadId == Queue(waiters, c)[Times(earlier, c)].threadId
  }

  lemma TimesAppend(conds: seq<u64>, c: u64, d: u64)
    ensures Times(conds + [c], d) == Times(conds, d) + if c == d then 1 else 0
  {
    assert (conds + [c])[..|conds|] == conds;
  }

  lemma WakeOrderExtended<C>(waiters: Queues<C>, woken: seq<(u64, u64)>, wake: (u64, u64))
    requires WakeOrder(waiters, Conds(woken)) && NextInLine(waiters, Conds(woken), wake)
    requires FirstComeFirstWoken(waiters, woken)
    ensures Conds(woken + [wake]) == Conds(woken) + [wake.0]
    ensures WakeOrder(waiters, Conds(woken + [wake]))
    ensures FirstComeFirstWoken(waiters, woken + [wake])
  {
    hide Times;
    assert Conds(woken + [wake]) == Conds(woken) + [wake.0];
    forall c
      ensures Times(Conds(woken + [wake]), c) <= |Queue(waiters, c)|
    {
      TimesAppend(Conds(woken), wake.0, c);
      assert Times(Conds(woken), c) <= |Queue(waiters, c)|;
    }
    forall i | 0 <= i <= |woken|
      ensures NextInLine(waiters, Conds((woken + [wake])[..i]), (woken + [wake])[i])
    {
      assert (woken + [wake])[..i] == woken[..i];
      if i == |woken| {
        assert woken[..i] == woken;
      }
    }
  }

  lemma NothingWoken<C>(s: State<C>)
    ensures WakeOrder(s.waiters, Conds([])) && FirstComeFirstWoken(s.waiters, [])
  {
  }

  /** Wakes at most limit waiters of any conditions: as many as there are, in queue order per condition. */
  method WakeCondWaiters<C>(runtime: GuestThreadRuntime<C>, limit: nat) returns (woken: seq<(u64, u64)>)
    modifies runtime
    ensures var waiters := old(runtime.condWaiters);
            && WakeOrder(waiters, Conds(woken))
            && runtime.View() == WokenEach(old(runtime.View()), Conds(woken))
            && |woken| == Min(limit, WaiterCount(waiters, Everyone))
            && FirstComeFirstWoken(waiters, woken)
  {
    hide WaiterCount, Woken, WakeOrder, FirstComeFirstWoken, Times, WokenUpTo;
    ghost var s0 := runtime.View();
    woken := [];
    NothingWoken(s0);
    while |woken| < limit
      invariant |woken| <= limit
      invariant WakeOrder(s0.waiters, Conds(woken))
      invariant runtime.View() == WokenEach(s0, Conds(woken))
      invariant FirstComeFirstWoken(s0.waiters, woken)
      decreases limit - |woken|
    {
      ghost var s1 := runtime.View();
      WakeEachKeepsPopulation(s0, Conds(woken), Everyone);
      var wake := WakeOneCondWaiter(runtime);
      if wake.None? {
        NoneWaiting(s1.waiters);
        return;
      }
      WokenEachQueue(s0, Conds(woken), wake.value.0);
      WakeOrderExtended(s0.waiters, woken, wake.value);
      ghost var before := woken;
      woken := woken + [wake.value];
      assert Conds(woken)[..|before|] == Conds(before);
    }
    WakeEachKeepsPopulation(s0, Conds(woken), Everyone);
  }

  // ----- Steps and runs -----------------------------------------------------------------------

  datatype Step<C> =
    | Enqueue(record: Pending<C>)
    | EnqueueFront(record: Pending<C>)
    | PopNext
    | Remove(threadId: u64)
    | DispatchNext(parent: C, exitAction: ExitAction)
    | DispatchById(threadId: u64, parent: C, exitAction: ExitAction)
    | Yield(record: Pending<C>)
    | Block(cond: u64, mutex: u64, record: Pending<C>)
    | BlockCurrent(cond: u64, mutex: u64, record: Pending<C>, parent: C)
    | Signal(cond: u64)
    | Broadcast(cond: u64)
    | WakeFor(cond: u64, limit: nat)
    | WakeAny(conds: seq<u64>)
    | Consume(cond: u64, mutex: u64, threadId: u64)
    | Reserve(stackSize: u64, maxThreads: u64)
    | ReserveId(maxThreads: u64)
    | EnqueueStart(reservation: Reservation, entry: u64, arg: u64, exitPc: u64)
    | Activate(threadId: u64, parentThreadId: u64, parent: C, exitAction: ExitAction)
    | Complete(threadId: u64, result: u64)
    | TakeCompletion(threadId: u64)
  {
    predicate Switches()
    {
      DispatchNext? || DispatchById? || Yield? || Block? || BlockCurrent? || Signal? || Broadcast? || WakeFor?
    }
  }

  function Apply<C>(s: State<C>, step: Step<C>): State<C>
  {
    match step
    case Enqueue(p) => s.(pending := s.pending + [p])
    case EnqueueFront(p) => s.(pending := [p] + s.pending)
    case PopNext => if s.pending == [] then s else s.(pending := s.pending[1..])
    case Remove(id) =>
      var k := Position(s.pending, id);
      if k == |s.pending| then s else s.(pending := s.pending[..k] + s.pending[k + 1..])
    case DispatchNext(parent, action) => Dispatched(s, 0, parent, action)
    case DispatchById(id, parent, action) => Dispatched(s, Position(s.pending, id), parent, action)
    case Yield(record) => Yielded(s, record)
    case Block(cond, mutex, record) => Blocked(s, cond, mutex, record)
    case BlockCurrent(cond, mutex, record, parent) => BlockedCurrent(s, cond, mutex, record, parent)
    case Signal(cond) => Signalled(s, cond)
    case Broadcast(cond) => Woken(s, cond, |Queue(s.waiters, cond)|)
    case WakeFor(cond, limit) => WokenUpTo(s, cond, limit)
    case WakeAny(conds) => WokenEach(s, conds)
    case Consume(cond, mutex, id) => Consumed(s, cond, mutex, id)
    case Reserve(size, max) => Reserved(s, size, max)
    case ReserveId(max) => IdReserved(s, max)
    case EnqueueStart(r, entry, arg, exitPc) => s.(pending := s.pending + [StartRecord(r, entry, arg, exitPc)])
    case Activate(id, parentId, parent, action) =>
      s.(current := id, active := Some(Active(id, parentId, parent, action)))
    case Complete(id, result) => s.(completed := s.completed[id := result])
    case TakeCompletion(id) => s.(completed := s.completed - {id})
  }

  /** A thread that yields or blocks hands in its own record; an any-condition wake only wakes waiters there are. */
  ghost predicate Legal<C>(s: State<C>, step: Step<C>)
  {
    match step
    case Yield(record) => s.active.Some? ==> record.threadId == s.active.value.threadId
    case Block(_, _, record) => s.active.Some? ==> record.threadId == s.active.value.threadId
    case WakeAny(conds) => WakeOrder(s.waiters, conds)
    case _ => true
  }

  /** Every operation of the runtime is a step: the one asked for, or, when any waiters may be woken,
      a wake of as many as there are up to the limit, in the order the map happened to yield. */
  method Perform<C>(runtime: GuestThreadRuntime<C>, step: Step<C>, limit: nat) returns (performed: Step<C>)
    requires forall c :: |Queue(runtime.condWaiters, c)| <= U64_MAX
    modifies runtime
    ensures runtime.View() == Apply(old(runtime.View()), performed)
    ensures !step.WakeAny? ==> performed == step
    ensures step.WakeAny? ==>
              && performed.WakeAny? && WakeOrder(old(runtime.condWaiters), performed.conds)
              && |performed.conds| == Min(limit, WaiterCount(old(runtime.condWaiters), Everyone))
  {
    hide Reverse, Records, Granted, WaiterCount, WakeOrder, Position, Dispatched, Yielded, Blocked, BlockedCurrent;
    hide Woken, WokenUpTo, WokenEach, Signalled, Consumed, Reserved, IdReserved, StartRecord;
    performed := step;
    if step.WakeAny? {
      var woken := WakeCondWaiters(runtime, limit);
      performed := WakeAny(Conds(woken));
    } else if step.Switches() {
      PerformSwitch(runtime, step);
    } else {
      match step {
        case Enqueue(p) => runtime.EnqueuePending(p);
        case EnqueueFront(p) => runtime.EnqueuePendingFront(p);
        case EnqueueStart(r, entry, arg, exitPc) => runtime.EnqueueThreadStart(r, entry, arg, exitPc);
        case PopNext => var popped := runtime.PopNextPending();
        case Remove(id) => var removed := runtime.RemovePendingById(id);
        case Reserve(size, max) => var reservation := runtime.ReserveGuestThread(size, max);
        case ReserveId(max) => var id := runtime.ReserveThreadId(max);
        case Activate(id, parentId, parent, action) => runtime.ActivateThread(id, parentId, parent, action);
        case Complete(id, result) => runtime.RecordThreadCompletion(id, result);
        case TakeCompletion(id) => var result := runtime.TakeThreadCompletion(id);
        case Consume(cond, mutex, id) => var signaled := runtime.ConsumeCondSignal(cond, mutex, id);
      }
    }
  }

  /** The steps that switch threads or wake waiters. */
  method PerformSwitch<C>(runtime: GuestThreadRuntime<C>, step: Step<C>)
    requires step.Switches() && forall c :: |Queue(runtime.condWaiters, c)| <= U64_MAX
    modifies runtime
    ensures runtime.View() == Apply(old(runtime.View()), step)
  {
    hide Position, Dispatched, Yielded, Blocked, BlockedCurrent, Woken, WokenUpTo, Signalled;
    match step {
      case DispatchNext(parent, action) => var dispatch := runtime.DispatchNext(parent, action);
      case DispatchById(id, parent, action) => var dispatch := runtime.DispatchThreadById(id, parent, action);
      case Yield(record) => var switch := runtime.YieldActiveToNext(record);
      case Block(cond, mutex, record) => var switch := runtime.BlockActiveOnCond(cond, mutex, record);
      case BlockCurrent(cond, mutex, record, parent) =>
        var dispatch := runtime.BlockCurrentOnCondAndDispatch(cond, mutex, record, parent);
      case Signal(cond) => var signal := runtime.SignalCond(cond);
      case Broadcast(cond) => var woken := runtime.BroadcastCond(cond);
      case WakeFor(cond, max) => var woken := runtime.WakeCondWaitersFor(cond, max);
    }
  }

  function Run<C>(s: State<C>, steps: seq<Step<C>>): State<C>
    decreases |steps|
  {
    if steps == [] then s else Run(Apply(s, steps[0]), steps[1..])
  }

  ghost predicate LegalRun<C>(s: State<C>, steps: seq<Step<C>>)
    decreases |steps|
  {
    steps == [] || (Legal(s, steps[0]) && LegalRun(Apply(s, steps[0]), steps[1..]))
  }

  predicate Enrols<C>(s: State<C>, step: Step<C>)
  {
    match step
    case Block(_, _, _) => s.active.Some? && s.pending != []
    case BlockCurrent(_, _, _, _) => s.active.None? && s.pending != []
    case _ => false
  }

  /** The state a runtime is built with. */
  function NoThreads<C>(): State<C>
  {
    State(0, 0, 0, [], None, map[], map[], map[], map[])
  }

  // ----- Conservation of threads ------------------------------------------------------------

  /** The thread a step brings in: an explicit enqueue or activation, or the record of a current thread that blocks. */
  function Entering<C>(s: State<C>, step: Step<C>): Option<u64>
  {
    match step
    case Enqueue(p) => Some(p.threadId)
    case EnqueueFront(p) => Some(p.threadId)
    case EnqueueStart(r, _, _, _) => Some(r.threadId)
    case Activate(id, _, _, _) => Some(id)
    case BlockCurrent(_, _, record, _) => if Enrols(s, step) then Some(record.threadId) else None
    case _ => None
  }

  /** The thread a step takes out: an explicit removal, or the one that an activation replaces. */
  function Leaving<C>(s: State<C>, step: Step<C>): Option<u64>
  {
    match step
    case PopNext => if s.pending == [] then None else Some(s.pending[0].threadId)
    case Remove(id) => if Position(s.pending, id) == |s.pending| then None else Some(id)
    case Activate(_, _, _, _) => if s.active.Some? then Some(s.active.value.threadId) else None
    case _ => None
  }

  function Counted(o: Option<u64>, who: Who): nat
  {
    if o.Some? then Tick(who, o.value) else 0
  }

  lemma TakenOut<C>(ps: seq<Pending<C>>, k: nat, who: Who)
    requires k < |ps|
    ensures Count(ps, who) == Count(ps[..k] + ps[k + 1..], who) + Tick(who, ps[k].threadId)
  {
    assert ps == ps[..k] + ([ps[k]] + ps[k + 1..]);
    CountAppend(ps[..k], [ps[k]] + ps[k + 1..], who);
    CountAppend([ps[k]], ps[k + 1..], who);
    CountAppend(ps[..k], ps[k + 1..], who);
    CountOne(ps[k], who);
  }

  lemma CountOne<C>(p: Pending<C>, who: Who)
    ensures Count([p], who) == Tick(who, p.threadId)
  {
  }

  lemma EnrolledCount<C>(m: Queues<C>, cond: u64, w: Waiting<C>, who: Who)
    ensures WaiterCount(Enrolled(m, cond, w), who) == WaiterCount(m, who) + Tick(who, w.pending.threadId)
  {
    hide WaiterCount;
    WaiterCountUpdate(m, cond, Queue(m, cond) + [w], who);
    QueueCountAppend(Queue(m, cond), [w], who);
    assert Records([w]) == [w.pending];
    CountOne(w.pending, who);
  }

  lemma WithdrawnCount<C>(m: Queues<C>, cond: u64, who: Who)
    ensures WaiterCount(Withdrawn(m, cond), who) == WaiterCount(m, who)
  {
    hide WaiterCount;
    WaiterCountRemove(m, cond, who);
    EmptyQueueCount<C>(who);
  }

  /** Moving the first pending thread into the active slot. */
  lemma SwitchedCounts<C>(s: State<C>, k: nat, slot: Active<C>, who: Who)
    requires k < |s.pending|
    ensures var s' := Switched(s, k, slot);
            Count(s'.pending, who) + ActiveCount(s', who) == Count(s.pending, who)
  {
    TakenOut(s.pending, k, who);
  }

  lemma BlockConserves<C>(s: State<C>, step: Step<C>, who: Who)
    requires Legal(s, step) && (step.Block? || step.BlockCurrent?)
    ensures Population(Apply(s, step), who) == Population(s, who) + Counted(Entering(s, step), who)
  {
    hide WaiterCount, Count;
    if step.Block? {
      if Enrols(s, step) {
        SwitchedCounts(s, 0, s.active.value, who);
        EnrolledCount(s.waiters, step.cond, Waiting(s.active.value.threadId, step.mutex, step.record), who);
      } else {
        WithdrawnCount(s.waiters, step.cond, who);
      }
    } else if Enrols(s, step) {
      SwitchedCounts(s, 0, Active(0, Max(s.current, 1), step.parent, ReturnChildResult), who);
      EnrolledCount(s.waiters, step.cond, Waiting(step.record.threadId, step.mutex, step.record), who);
    }
  }

  lemma YieldConserves<C>(s: State<C>, record: Pending<C>, who: Who)
    requires s.active.Some? ==> record.threadId == s.active.value.threadId
    ensures Population(Yielded(s, record), who) == Population(s, who)
  {
    hide WaiterCount, Count;
    if s.active.Some? && s.pending != [] {
      SwitchedCounts(s, 0, s.active.value, who);
      CountAppend(Switched(s, 0, s.active.value).pending, [record], who);
      CountOne(record, who);
    }
  }

  lemma DispatchConserves<C>(s: State<C>, k: nat, parent: C, action: ExitAction, who: Who)
    ensures Population(Dispatched(s, k, parent, action), who) == Population(s, who)
  {
    hide WaiterCount, Count;
    if s.active.None? && k < |s.pending| {
      SwitchedCounts(s, k, Active(0, Max(s.current, 1), parent, action), who);
    }
  }

  lemma QueueingConserves<C>(s: State<C>, step: Step<C>, who: Who)
    requires step.Enqueue? || step.EnqueueFront? || step.EnqueueStart? || step.PopNext? || step.Remove?
    ensures Population(Apply(s, step), who) + Counted(Leaving(s, step), who)
            == Population(s, who) + Counted(Entering(s, step), who)
  {
    hide WaiterCount, Count, Position;
    if step.PopNext? {
      if s.pending != [] {
        TakenOut(s.pending, 0, who);
        assert s.pending[..0] + s.pending[1..] == s.pending[1..];
      }
    } else if step.Enqueue? {
      CountAppend(s.pending, [step.record], who);
      CountOne(step.record, who);
    } else if step.EnqueueStart? {
      var record: Pending<C> := StartRecord(step.reservation, step.entry, step.arg, step.exitPc);
      CountAppend(s.pending, [record], who);
      CountOne(record, who);
    } else if step.EnqueueFront? {
      CountAppend([step.record], s.pending, who);
      CountOne(step.record, who);
    } else if step.Remove? {
      var k := Position(s.pending, step.threadId);
      if k < |s.pending| {
        TakenOut(s.pending, k, who);
      }
    }
  }

  /** No step loses, duplicates or invents a thread. */
  lemma StepConservesThreads<C>(s: State<C>, step: Step<C>, who: Who)
    requires Legal(s, step)
    ensures Population(Apply(s, step), who) + Counted(Leaving(s, step), who)
            == Population(s, who) + Counted(Entering(s, step), who)
  {
    hide WaiterCount, Count, Woken, WokenEach, Switched, Position;
    match step {
      case Block(_, _, _) => BlockConserves(s, step, who);
      case BlockCurrent(_, _, _, _) => BlockConserves(s, step, who);
      case DispatchNext(parent, action) => DispatchConserves(s, 0, parent, action, who);
      case DispatchById(id, parent, action) => DispatchConserves(s, Position(s.pending, id), parent, action, who);
      case Yield(record) => YieldConserves(s, record, who);
      case Signal(cond) =>
        if Queue(s.waiters, cond) != [] {
          WakeKeepsPopulation(s, cond, 1, who);
        }
      case Broadcast(cond) => WakeKeepsPopulation(s, cond, |Queue(s.waiters, cond)|, who);
      case WakeFor(cond, limit) => WakeKeepsPopulation(s, cond, Min(limit, |Queue(s.waiters, cond)|), who);
      case WakeAny(conds) => WakeEachKeepsPopulation(s, conds, who);
      case Consume(_, _, _) =>
      case Reserve(_, _) =>
      case ReserveId(_) =>
      case Activate(_, _, _, _) =>
      case Complete(_, _) =>
      case TakeCompletion(_) =>
      case _ => QueueingConserves(s, step, who);
    }
  }

  function AllEntering<C>(s: State<C>, steps: seq<Step<C>>, who: Who): nat
    decreases |steps|
  {
    if steps == [] then 0
    else Counted(Entering(s, steps[0]), who) + AllEntering(Apply(s, steps[0]), steps[1..], who)
  }

  function AllLeaving<C>(s: State<C>, steps: seq<Step<C>>, who: Who): nat
    decreases |steps|
  {
    if steps == [] then 0
    else Counted(Leaving(s, steps[0]), who) + AllLeaving(Apply(s, steps[0]), steps[1..], who)
  }

  /** Over every run, and for every id, the threads in the system are those that entered and did not leave. */
  lemma {:induction false} RunConservesThreads<C>(s: State<C>, steps: seq<Step<C>>, who: Who)
    requires LegalRun(s, steps)
    ensures Population(Run(s, steps), who) + AllLeaving(s, steps, who)
            == Population(s, who) + AllEntering(s, steps, who)
    decreases |steps|
  {
    hide Apply, Population, Entering, Leaving, Legal;
    if steps != [] {
      StepConservesThreads(s, steps[0], who);
      RunConservesThreads(Apply(s, steps[0]), steps[1..], who);
    }
  }

  /** No thread is in two places. */
  ghost predicate Unique<C>(s: State<C>)
  {
    forall id :: Population(s, Only(id)) <= 1
  }

  ghost predicate FreshRun<C>(s: State<C>, steps: seq<Step<C>>)
    decreases |steps|
  {
    steps == [] ||
    (&& (Entering(s, steps[0]).Some? ==> Population(s, Only(Entering(s, steps[0]).value)) == 0)
     && FreshRun(Apply(s, steps[0]), steps[1..]))
  }

  /** If threads only enter under ids not in the system, no run ever has a thread in two places. */
  lemma {:induction false} RunKeepsThreadsUnique<C>(s: State<C>, steps: seq<Step<C>>)
    requires Unique(s) && LegalRun(s, steps) && FreshRun(s, steps)
    ensures Unique(Run(s, steps))
    decreases |steps|
  {
    hide Apply, Population, Entering, Leaving, Legal;
    if steps != [] {
      var s' := Apply(s, steps[0]);
      forall id
        ensures Population(s', Only(id)) <= 1
      {
        StepConservesThreads(s, steps[0], Only(id));
      }
      RunKeepsThreadsUnique(s', steps[1..]);
    }
  }

  // ----- Shape of the condition queues --------------------------------------------------------

  /** No empty queue is stored, and every waiter is recorded under its own id. */
  ghost predicate QueuesWellFormed<C>(m: Queues<C>)
  {
    && (forall c :: c in m ==> m[c] != [])
    && (forall c, i :: c in m && 0 <= i < |m[c]| ==> m[c][i].threadId == m[c][i].pending.threadId)
  }

  /** Moreover the active thread is the current one. */
  ghost predicate WellFormed<C>(s: State<C>)
  {
    QueuesWellFormed(s.waiters) && (s.active.Some? ==> s.current == s.active.value.threadId)
  }

  lemma EnrolledWellFormed<C>(m: Queues<C>, cond: u64, w: Waiting<C>)
    requires QueuesWellFormed(m) && w.threadId == w.pending.threadId
    ensures QueuesWellFormed(Enrolled(m, cond, w))
  {
    var m': Queues<C> := Enrolled(m, cond, w);
    forall c, i | c in m' && 0 <= i < |m'[c]|
      ensures m'[c][i].threadId == m'[c][i].pending.threadId
    {
      if c == cond && i < |m'[c]| - 1 {
        assert m'[c][i] == m[c][i];
      }
    }
  }

  lemma WakeWellFormed<C>(s: State<C>, cond: u64, n: nat)
    requires WellFormed(s) && n <= |Queue(s.waiters, cond)|
    ensures WellFormed(Woken(s, cond, n))
  {
    hide Reverse, Records, Granted;
    var s' := Woken(s, cond, n);
    forall c, i | c in s'.waiters && 0 <= i < |s'.waiters[c]|
      ensures s'.waiters[c][i].threadId == s'.waiters[c][i].pending.threadId
    {
      if c == cond {
        assert s'.waiters[c][i] == s.waiters[c][n + i];
      }
    }
  }

  lemma {:induction false} WakeEachWellFormed<C>(s: State<C>, conds: seq<u64>)
    requires WellFormed(s)
    ensures WellFormed(WokenEach(s, conds))
    decreases |conds|
  {
    hide Woken, WellFormed;
    if conds != [] {
      var s1, cond := WokenEach(s, conds[..|conds| - 1]), conds[|conds| - 1];
      WakeEachWellFormed(s, conds[..|conds| - 1]);
      WakeWellFormed(s1, cond, Min(1, |Queue(s1.waiters, cond)|));
    }
  }

  lemma BlockWellFormed<C>(s: State<C>, step: Step<C>)
    requires WellFormed(s) && Legal(s, step) && (step.Block? || step.BlockCurrent?)
    ensures WellFormed(Apply(s, step))
  {
    hide Enrolled, QueuesWellFormed;
    if Enrols(s, step) {
      var id := if step.Block? then s.active.value.threadId else step.record.threadId;
      EnrolledWellFormed(s.waiters, step.cond, Waiting(id, step.mutex, step.record));
    } else if step.Block? && s.active.Some? {
      WithdrawnWellFormed(s.waiters, step.cond);
    }
  }

  lemma WithdrawnWellFormed<C>(m: Queues<C>, cond: u64)
    requires QueuesWellFormed(m)
    ensures Withdrawn(m, cond) == m
  {
  }

  lemma WakeStepWellFormed<C>(s: State<C>, step: Step<C>)
    requires WellFormed(s) && Legal(s, step)
    requires step.Signal? || step.Broadcast? || step.WakeFor? || step.WakeAny?
    ensures WellFormed(Apply(s, step))
  {
    hide Woken, WokenEach, QueuesWellFormed, Queue;
    if step.Signal? {
      if Queue(s.waiters, step.cond) != [] {
        WakeWellFormed(s, step.cond, 1);
      }
    } else if step.Broadcast? {
      WakeWellFormed(s, step.cond, |Queue(s.waiters, step.cond)|);
    } else if step.WakeFor? {
      WakeWellFormed(s, step.cond, Min(step.limit, |Queue(s.waiters, step.cond)|));
    } else {
      WakeEachWellFormed(s, step.conds);
    }
  }

  lemma QuietStepWellFormed<C>(s: State<C>, step: Step<C>)
    requires WellFormed(s) && !step.Block? && !step.BlockCurrent?
    requires !step.Signal? && !step.Broadcast? && !step.WakeFor? && !step.WakeAny?
    ensures WellFormed(Apply(s, step))
  {
    hide Woken, WokenEach, Position, QueuesWellFormed, Blocked, BlockedCurrent, Signalled, WokenUpTo, Queue;
    assert Apply(s, step).waiters == s.waiters;
  }

  lemma StepKeepsWellFormed<C>(s: State<C>, step: Step<C>)
    requires WellFormed(s) && Legal(s, step)
    ensures WellFormed(Apply(s, step))
  {
    hide Apply, WellFormed;
    if step.Block? || step.BlockCurrent? {
      BlockWellFormed(s, step);
    } else if step.Signal? || step.Broadcast? || step.WakeFor? || step.WakeAny? {
      WakeStepWellFormed(s, step);
    } else {
      QuietStepWellFormed(s, step);
    }
  }

  lemma {:induction false} RunKeepsWellFormed<C>(s: State<C>, steps: seq<Step<C>>)
    requires WellFormed(s) && LegalRun(s, steps)
    ensures WellFormed(Run(s, steps))
    decreases |steps|
  {
    if steps != [] {
      StepKeepsWellFormed(s, steps[0]);
      RunKeepsWellFormed(Apply(s, steps[0]), steps[1..]);
    }
  }

  /** With nothing to run, a block puts back exactly the state it found, unless an empty queue was stored there. */
  lemma BlockRollsBack<C>(s: State<C>, cond: u64, mutex: u64, record: Pending<C>)
    requires s.active.Some? && s.pending == []
    ensures Blocked(s, cond, mutex, record) == s <==> !(cond in s.waiters && s.waiters[cond] == [])
    ensures WellFormed(s) ==> Blocked(s, cond, mutex, record) == s
  {
  }

  // ----- The saved parent -----------------------------------------------------------------------

  lemma {:induction false} WakeEachKeepsActive<C>(s: State<C>, conds: seq<u64>)
    ensures WokenEach(s, conds).active == s.active
    ensures WokenEach(s, conds).signals == s.signals
    ensures WokenEach(s, conds).nextThreadId == s.nextThreadId && WokenEach(s, conds).nextStackBase == s.nextStackBase
  {
    if conds != [] {
      WakeEachKeepsActive(s, conds[..|conds| - 1]);
    }
  }

  lemma StepKeepsParent<C>(s: State<C>, step: Step<C>)
    requires s.active.Some? && !step.Activate?
    ensures Apply(s, step).active.Some?
    ensures Apply(s, step).active.value == s.active.value.(threadId := Apply(s, step).active.value.threadId)
  {
    hide Reverse, Records, Granted, Position, WokenEach;
    if step.WakeAny? {
      WakeEachKeepsActive(s, step.conds);
    }
  }

  /** Once a thread is active, no run without an outside activation changes the saved parent and the exit action:
      only the thread id in the active slot moves. */
  lemma {:induction false} RunKeepsParent<C>(s: State<C>, steps: seq<Step<C>>)
    requires s.active.Some? && forall i :: 0 <= i < |steps| ==> !steps[i].Activate?
    ensures Run(s, steps).active.Some?
    ensures Run(s, steps).active.value == s.active.value.(threadId := Run(s, steps).active.value.threadId)
    decreases |steps|
  {
    hide Apply;
    if steps != [] {
      StepKeepsParent(s, steps[0]);
      RunKeepsParent(Apply(s, steps[0]), steps[1..]);
    }
  }

  // ----- Signal accounting ------------------------------------------------------------------------

  datatype Tally = Tally(sent: nat, woken: nat, consumed: nat, dropped: nat) {
    function Plus(that: Tally): Tally
    {
      Tally(sent + that.sent, woken + that.woken, consumed + that.consumed, dropped + that.dropped)
    }
  }

  /** What one step does to the signals of a condition; a signal to a full counter is dropped. */
  function StepTally<C>(s: State<C>, step: Step<C>, c: u64): Tally
  {
    if step == Signal(c) then
      if Queue(s.waiters, c) != [] then Tally(1, 1, 0, 0)
      else if SignalCount(s, c) == U32_MAX then Tally(1, 0, 0, 1)
      else Tally(1, 0, 0, 0)
    else if step.Consume? && step.cond == c && SignalCount(s, c) > 0 then Tally(0, 0, 1, 0)
    else Tally(0, 0, 0, 0)
  }

  function RunTally<C>(s: State<C>, steps: seq<Step<C>>, c: u64): Tally
    decreases |steps|
  {
    if steps == [] then Tally(0, 0, 0, 0)
    else StepTally(s, steps[0], c).Plus(RunTally(Apply(s, steps[0]), steps[1..], c))
  }

  lemma StepAccountsForSignals<C>(s: State<C>, step: Step<C>, c: u64)
    ensures var t := StepTally(s, step, c);
            SignalCount(s, c) + t.sent == t.woken + t.consumed + t.dropped + SignalCount(Apply(s, step), c)
  {
    hide Reverse, Records, Granted, Position;
    if step.WakeAny? {
      WakeEachKeepsActive(s, step.conds);
    }
  }

  /** Every signal ever sent woke a waiter, was consumed, is still pending, or found the counter full. */
  lemma {:induction false} SignalsAccountedFor<C>(s: State<C>, steps: seq<Step<C>>, c: u64)
    ensures var t := RunTally(s, steps, c);
            SignalCount(s, c) + t.sent == t.woken + t.consumed + t.dropped + SignalCount(Run(s, steps), c)
    decreases |steps|
  {
    hide Apply, StepTally, SignalCount;
    if steps != [] {
      StepAccountsForSignals(s, steps[0], c);
      SignalsAccountedFor(Apply(s, steps[0]), steps[1..], c);
    }
  }

  /** Nothing is dropped before the counter can fill up. */
  lemma {:induction false} NoSignalDropped<C>(s: State<C>, steps: seq<Step<C>>, c: u64)
    requires SignalCount(s, c) + RunTally(s, steps, c).sent <= U32_MAX
    ensures RunTally(s, steps, c).dropped == 0
    decreases |steps|
  {
    hide Apply;
    if steps != [] {
      StepAccountsForSignals(s, steps[0], c);
      NoSignalDropped(Apply(s, steps[0]), steps[1..], c);
    }
  }

  /** No condition has both waiters and pending signals. */
  ghost predicate Exclusive<C>(s: State<C>)
  {
    forall c :: Queue(s.waiters, c) != [] ==> SignalCount(s, c) == 0
  }

  lemma {:induction false} WakeEachOnlyShrinks<C>(s: State<C>, conds: seq<u64>, d: u64)
    ensures Queue(WokenEach(s, conds).waiters, d) != [] ==> Queue(s.waiters, d) != []
  {
    if conds != [] {
      WakeEachOnlyShrinks(s, conds[..|conds| - 1], d);
    }
  }

  lemma WakeOnlyShrinks<C>(s: State<C>, cond: u64, n: nat, d: u64)
    requires n <= |Queue(s.waiters, cond)|
    ensures Queue(Woken(s, cond, n).waiters, d) != [] ==> Queue(s.waiters, d) != []
    ensures Woken(s, cond, n).signals == s.signals
  {
  }

  /** Steps other than blocks create no waiters, and signals only where nobody waits. */
  lemma OtherStepsKeepExclusive<C>(s: State<C>, step: Step<C>, d: u64)
    requires Exclusive(s) && !Enrols(s, step)
    requires Queue(Apply(s, step).waiters, d) != []
    ensures SignalCount(Apply(s, step), d) == 0
  {
    hide Reverse, Records, Granted, Position, Woken, WokenEach;
    assert SignalCount(s, d) == 0 || Queue(s.waiters, d) == [];
    if step.WakeAny? {
      WakeEachKeepsActive(s, step.conds);
      WakeEachOnlyShrinks(s, step.conds, d);
    } else if step.Signal? {
      if Queue(s.waiters, step.cond) != [] {
        WakeOnlyShrinks(s, step.cond, 1, d);
      }
    } else if step.Broadcast? {
      WakeOnlyShrinks(s, step.cond, |Queue(s.waiters, step.cond)|, d);
    } else if step.WakeFor? {
      WakeOnlyShrinks(s, step.cond, Min(step.limit, |Queue(s.waiters, step.cond)|), d);
    }
  }

  lemma EnrollingExclusive<C>(s: State<C>, step: Step<C>)
    requires Exclusive(s) && Enrols(s, step)
    ensures Exclusive(Apply(s, step)) <==> SignalCount(s, step.cond) == 0
  {
    hide Switched, Dispatched;
    var s' := Apply(s, step);
    EnrollingEffect(s, step);
    assert Queue(s'.waiters, step.cond) != [];
  }

  lemma EnrollingEffect<C>(s: State<C>, step: Step<C>)
    requires Enrols(s, step)
    ensures var s' := Apply(s, step);
            && Queue(s'.waiters, step.cond) != []
            && (forall d :: d != step.cond ==> Queue(s'.waiters, d) == Queue(s.waiters, d))
            && forall d :: SignalCount(s', d) == SignalCount(s, d)
  {
  }

  /** A step breaks exclusion exactly when it blocks a thread on a condition with a pending signal. */
  lemma StepKeepsExclusive<C>(s: State<C>, step: Step<C>)
    requires Exclusive(s)
    ensures Exclusive(Apply(s, step)) <==> !(Enrols(s, step) && SignalCount(s, step.cond) > 0)
  {
    hide Apply;
    if Enrols(s, step) {
      EnrollingExclusive(s, step);
    } else {
      forall d | Queue(Apply(s, step).waiters, d) != []
        ensures SignalCount(Apply(s, step), d) == 0
      {
        OtherStepsKeepExclusive(s, step, d);
      }
    }
  }

  /** What consume_cond_signal answers. */
  function ConsumeAnswer<C>(s: State<C>, cond: u64): bool
  {
    SignalCount(s, cond) > 0
  }

  /** The condition that a step has tried to consume a signal of in vain. */
  function FailedTry<C>(s: State<C>, step: Step<C>): Option<u64>
  {
    if step.Consume? && !ConsumeAnswer(s, step.cond) then Some(step.cond) else None
  }

  /** Every wait in the trace comes directly after a consume on its condition that answered false;
      tried is the condition of such a consume just before the trace. */
  predicate ConsumesFirst<C>(s: State<C>, steps: seq<Step<C>>, tried: Option<u64>)
    decreases |steps|
  {
    steps == [] ||
    (&& (steps[0].Block? || steps[0].BlockCurrent? ==> tried == Some(steps[0].cond))
     && ConsumesFirst(Apply(s, steps[0]), steps[1..], FailedTry(s, steps[0])))
  }

  /** Trace position by position: a wait is preceded by the consume that failed. */
  lemma {:induction false} WaitFollowsFailedTry<C>(s: State<C>, steps: seq<Step<C>>, tried: Option<u64>, i: nat)
    requires ConsumesFirst(s, steps, tried) && 0 < i < |steps| && (steps[i].Block? || steps[i].BlockCurrent?)
    ensures steps[i - 1].Consume? && steps[i - 1].cond == steps[i].cond
    ensures !ConsumeAnswer(Run(s, steps[..i - 1]), steps[i].cond)
    decreases |steps|
  {
    hide Apply;
    if i == 1 {
      assert steps[1..][0] == steps[1];
      assert Run(s, steps[..0]) == s;
    } else {
      WaitFollowsFailedTry(Apply(s, steps[0]), steps[1..], FailedTry(s, steps[0]), i - 1);
      assert steps[..i - 1][0] == steps[0] && steps[..i - 1][1..] == steps[1..][..i - 2];
    }
  }

  lemma FailedTryStays<C>(s: State<C>, step: Step<C>)
    requires FailedTry(s, step).Some?
    ensures Apply(s, step) == s && SignalCount(s, step.cond) == 0
  {
  }

  /** If every wait consumes before it blocks, and blocks only if that failed, no run reaches a lost wake-up:
      waiters and pending signals never coexist. */
  lemma {:induction false} DisciplinedRunsStayExclusive<C>(s: State<C>, steps: seq<Step<C>>, tried: Option<u64>)
    requires Exclusive(s) && ConsumesFirst(s, steps, tried)
    requires tried.Some? ==> SignalCount(s, tried.value) == 0
    ensures Exclusive(Run(s, steps))
    decreases |steps|
  {
    hide Apply, Exclusive, SignalCount;
    if steps != [] {
      StepKeepsExclusive(s, steps[0]);
      var next := FailedTry(s, steps[0]);
      if next.Some? {
        FailedTryStays(s, steps[0]);
      }
      DisciplinedRunsStayExclusive(Apply(s, steps[0]), steps[1..], next);
    }
  }

  /** From the empty state on: no condition ever has both. */
  lemma DisciplineFromTheStart<C>(steps: seq<Step<C>>, cond: u64)
    requires ConsumesFirst(NoThreads<C>(), steps, None)
    ensures var s := Run(NoThreads(), steps);
            Queue(s.waiters, cond) == [] || SignalCount(s, cond) == 0
  {
    var s := NoThreads<C>();
    assert Exclusive(s);
    DisciplinedRunsStayExclusive(s, steps, None);
  }

  // ----- First come, first woken --------------------------------------------------------------------

  /** The waiters that a step adds to a condition. */
  function Joining<C>(s: State<C>, step: Step<C>, c: u64): seq<Waiting<C>>
  {
    if !Enrols(s, step) || step.cond != c then []
    else if step.Block? then [Waiting(s.active.value.threadId, step.mutex, step.record)]
    else [Waiting(step.record.threadId, step.mutex, step.record)]
  }

  /** How many waiters of a condition a step wakes. */
  function WokenCount<C>(s: State<C>, step: Step<C>, c: u64): nat
  {
    var n := |Queue(s.waiters, c)|;
    match step
    case Signal(cond) => if cond == c then Min(1, n) else 0
    case Broadcast(cond) => if cond == c then n else 0
    case WakeFor(cond, limit) => if cond == c then Min(limit, n) else 0
    case WakeAny(conds) => Times(conds, c)
    case _ => 0
  }

  /** The records that a step moves to the run queue: in that order they were woken. */
  function Waking<C>(s: State<C>, step: Step<C>, c: u64): seq<Waiting<C>>
    requires Legal(s, step)
  {
    assert step.WakeAny? ==> Times(step.conds, c) <= |Queue(s.waiters, c)|;
    Queue(s.waiters, c)[..WokenCount(s, step, c)]
  }

  lemma BlockQueue<C>(s: State<C>, step: Step<C>, c: u64)
    requires Legal(s, step) && (step.Block? || step.BlockCurrent?)
    ensures Queue(Apply(s, step).waiters, c) == Queue(s.waiters, c) + Joining(s, step, c)
  {
    if Enrols(s, step) {
      if step.Block? {
        BlockMeaning(s, step.cond, step.mutex, step.record);
      } else {
        BlockCurrentMeaning(s, step.cond, step.mutex, step.record, step.parent);
      }
    }
  }

  lemma WakeQueue<C>(s: State<C>, cond: u64, n: nat, c: u64)
    requires n <= |Queue(s.waiters, cond)|
    ensures Queue(Woken(s, cond, n).waiters, c) == Queue(s.waiters, c)[if c == cond then n else 0..]
  {
    hide Reverse, Records, Granted;
  }

  predicate Wakes<C>(step: Step<C>)
  {
    step.Signal? || step.Broadcast? || step.WakeFor? || step.WakeAny?
  }

  lemma WakeStepQueue<C>(s: State<C>, step: Step<C>, c: u64)
    requires Legal(s, step) && Wakes(step)
    ensures WokenCount(s, step, c) <= |Queue(s.waiters, c)|
    ensures Queue(Apply(s, step).waiters, c) == Queue(s.waiters, c)[WokenCount(s, step, c)..]
  {
    hide Apply, WokenEach, Queue;
    WakeApplies(s, step);
    if step.WakeAny? {
      WokenEachQueue(s, step.conds, c);
    } else {
      hide Times, Legal;
      var queue := Queue(s.waiters, step.cond);
      var n := if step.Signal? then Min(1, |queue|) else if step.Broadcast? then |queue| else Min(step.limit, |queue|);
      assert Queue(s.waiters, c)[0..] == Queue(s.waiters, c);
      assert WokenCount(s, step, c) == if c == step.cond then n else 0;
      hide WokenCount;
      if n > 0 || !step.Signal? {
        WakeQueue(s, step.cond, n, c);
      } else {
        SameWaiters(s, Apply(s, step), c);
      }
    }
  }

  lemma SameWaiters<C>(s: State<C>, s': State<C>, c: u64)
    requires s'.waiters == s.waiters
    ensures Queue(s'.waiters, c) == Queue(s.waiters, c)
  {
  }

  lemma WakeApplies<C>(s: State<C>, step: Step<C>)
    requires Wakes(step)
    ensures step.WakeAny? ==> Apply(s, step) == WokenEach(s, step.conds)
    ensures step.Broadcast? ==> Apply(s, step) == Woken(s, step.cond, |Queue(s.waiters, step.cond)|)
    ensures step.WakeFor? ==> Apply(s, step) == Woken(s, step.cond, Min(step.limit, |Queue(s.waiters, step.cond)|))
    ensures step.Signal? ==>
              if |Queue(s.waiters, step.cond)| > 0 then Apply(s, step) == Woken(s, step.cond, 1)
              else Apply(s, step).waiters == s.waiters
  {
    hide Woken, WokenEach;
  }

  lemma OtherStepQueue<C>(s: State<C>, step: Step<C>, c: u64)
    requires !Wakes(step) && !step.Block? && !step.BlockCurrent?
    ensures Apply(s, step).waiters == s.waiters
  {
    hide Blocked, BlockedCurrent, Position, Woken, WokenEach;
  }

  /** A step adds at the end of a queue and takes away from its front. */
  lemma StepQueue<C>(s: State<C>, step: Step<C>, c: u64)
    requires Legal(s, step)
    ensures Waking(s, step, c) + Queue(Apply(s, step).waiters, c) == Queue(s.waiters, c) + Joining(s, step, c)
  {
    hide Apply, Queue;
    if step.Block? || step.BlockCurrent? {
      BlockQueue(s, step, c);
    } else if Wakes(step) {
      WakeStepQueue(s, step, c);
    } else {
      OtherStepQueue(s, step, c);
    }
  }

  /** All who join a condition during a run, in order. */
  function AllJoining<C>(s: State<C>, steps: seq<Step<C>>, c: u64): seq<Waiting<C>>
    decreases |steps|
  {
    if steps == [] then [] else Joining(s, steps[0], c) + AllJoining(Apply(s, steps[0]), steps[1..], c)
  }

  /** All who are woken from a condition during a run, in order. */
  ghost function AllWaking<C>(s: State<C>, steps: seq<Step<C>>, c: u64): seq<Waiting<C>>
    requires LegalRun(s, steps)
    decreases |steps|
  {
    if steps == [] then [] else Waking(s, steps[0], c) + AllWaking(Apply(s, steps[0]), steps[1..], c)
  }

  /** Over every run, whoever else does what: the waiters of a condition are woken in the order in which they
      blocked, and those still waiting are the last ones. */
  lemma {:induction false} FirstInFirstWoken<C>(s: State<C>, steps: seq<Step<C>>, c: u64)
    requires LegalRun(s, steps)
    ensures AllWaking(s, steps, c) + Queue(Run(s, steps).waiters, c)
            == Queue(s.waiters, c) + AllJoining(s, steps, c)
    decreases |steps|
  {
    hide Apply, Waking, Joining, Queue, Legal;
    if steps != [] {
      var s' := Apply(s, steps[0]);
      StepQueue(s, steps[0], c);
      FirstInFirstWoken(s', steps[1..], c);
      var woken, joined := AllWaking(s', steps[1..], c), AllJoining(s', steps[1..], c);
      assert (Waking(s, steps[0], c) + woken) + Queue(Run(s', steps[1..]).waiters, c)
             == Waking(s, steps[0], c) + (woken + Queue(Run(s', steps[1..]).waiters, c));
      assert Waking(s, steps[0], c) + (Queue(s'.waiters, c) + joined)
             == (Waking(s, steps[0], c) + Queue(s'.waiters, c)) + joined;
      assert (Queue(s.waiters, c) + Joining(s, steps[0], c)) + joined
             == Queue(s.waiters, c) + (Joining(s, steps[0], c) + joined);
    }
  }

  /** Of two threads that block on one condition the first is woken no later: with the second, so is the first. */
  lemma EarlierWokenFirst<C>(s: State<C>, steps: seq<Step<C>>, c: u64, i: nat)
    requires LegalRun(s, steps) && i < |AllWaking(s, steps, c)|
    ensures var all := Queue(s.waiters, c) + AllJoining(s, steps, c);
            |AllWaking(s, steps, c)| <= |all| && AllWaking(s, steps, c)[..i + 1] == all[..i + 1]
  {
    FirstInFirstWoken(s, steps, c);
    var all, woken := Queue(s.waiters, c) + AllJoining(s, steps, c), AllWaking(s, steps, c);
    assert all[..|woken|] == woken;
    assert all[..|woken|][..i + 1] == all[..i + 1];
  }

  // ----- Mutex hand-over ----------------------------------------------------------------------------

  /** The last waiter that named a mutex, or -1. */
  function LastNaming<C>(ws: seq<Waiting<C>>, mutex: u64): (k: int)
    ensures -1 <= k < |ws|
    ensures k >= 0 ==> ws[k].mutex == mutex
    ensures forall j :: k < j < |ws| ==> ws[j].mutex != mutex
  {
    if ws == [] then -1
    else if ws[|ws| - 1].mutex == mutex then |ws| - 1
    else LastNaming(ws[..|ws| - 1], mutex)
  }

  /** After a wake of several waiters a mutex belongs to the last of them that named it; others keep their owner. */
  lemma {:induction false} LastWaiterOwns<C>(owners: map<u64, u64>, ws: seq<Waiting<C>>, mutex: u64)
    ensures var k := LastNaming(ws, mutex);
            if k >= 0 then mutex in Granted(owners, ws) && Granted(owners, ws)[mutex] == ws[k].threadId
            else (mutex in Granted(owners, ws) <==> mutex in owners)
                 && (mutex in owners ==> Granted(owners, ws)[mutex] == owners[mutex])
    decreases |ws|
  {
    if ws != [] {
      LastWaiterOwns(owners, ws[..|ws| - 1], mutex);
    }
  }

  // ----- Fairness ----------------------------------------------------------------------------------

  function Names<C>(ps: seq<Pending<C>>): (ids: seq<u64>)
    ensures |ids| == |ps| && forall i :: 0 <= i < |ps| ==> ids[i] == ps[i].threadId
  {
    seq(|ps|, i requires 0 <= i < |ps| => ps[i].threadId)
  }

  /** The active thread followed by the run queue. */
  function Ring<C>(s: State<C>): (ring: seq<u64>)
    requires s.active.Some?
    ensures |ring| == 1 + |s.pending|
  {
    [s.active.value.threadId] + Names(s.pending)
  }

  function Rotated(ring: seq<u64>, n: nat): (r: seq<u64>)
    requires ring != []
    ensures |r| == |ring|
    decreases n
  {
    if n == 0 then ring else Rotated(ring[1..] + [ring[0]], n - 1)
  }

  lemma {:induction false} RotatedAt(ring: seq<u64>, n: nat, i: nat)
    requires i < |ring| && n + i <= 2 * |ring| - 1 && n <= |ring|
    ensures Rotated(ring, n)[i] == ring[if n + i < |ring| then n + i else n + i - |ring|]
    decreases n
  {
    if n > 0 {
      RotatedAt(ring[1..] + [ring[0]], n - 1, i);
    }
  }

  ghost predicate YieldsOnly<C>(steps: seq<Step<C>>)
  {
    forall i :: 0 <= i < |steps| ==> steps[i].Yield?
  }

  lemma {:induction false} YieldsRotate<C>(s: State<C>, steps: seq<Step<C>>)
    requires s.active.Some? && YieldsOnly(steps) && LegalRun(s, steps)
    ensures Run(s, steps).active.Some?
    ensures Ring(Run(s, steps)) == Rotated(Ring(s), |steps|)
    decreases |steps|
  {
    hide Yielded, Ring;
    if steps != [] {
      YieldRotates(s, steps[0].record);
      YieldsRotate(Apply(s, steps[0]), steps[1..]);
    }
  }

  lemma YieldRotates<C>(s: State<C>, record: Pending<C>)
    requires s.active.Some? && record.threadId == s.active.value.threadId
    ensures var s' := Yielded(s, record);
            && s'.active.Some? && |s'.pending| == |s.pending|
            && Ring(s') == Ring(s)[1..] + [Ring(s)[0]]
  {
    if s.pending == [] {
      assert Ring(s)[1..] + [Ring(s)[0]] == Ring(s);
    } else {
      var s' := Yielded(s, record);
      assert s'.pending == s.pending[1..] + [record];
      assert Ring(s') == Ring(s)[1..] + [Ring(s)[0]];
    }
  }

  /** Under yields alone the k-th thread in line runs after k + 1 yields. */
  lemma EveryThreadGetsItsTurn<C>(s: State<C>, steps: seq<Step<C>>)
    requires s.active.Some? && YieldsOnly(steps) && LegalRun(s, steps)
    requires 0 < |steps| <= |s.pending|
    ensures Run(s, steps).active.Some?
    ensures Run(s, steps).active.value.threadId == s.pending[|steps| - 1].threadId
  {
    YieldsRotate(s, steps);
    RotatedAt(Ring(s), |steps|, 0);
  }

  /** After as many yields as there are threads, everyone is back in place. */
  lemma FullRound<C>(s: State<C>, steps: seq<Step<C>>)
    requires s.active.Some? && YieldsOnly(steps) && LegalRun(s, steps)
    requires |steps| == 1 + |s.pending|
    ensures Run(s, steps).active.Some?
    ensures Ring(Run(s, steps)) == Ring(s)
  {
    hide Run, Rotated, LegalRun;
    YieldsRotate(s, steps);
    forall i | 0 <= i < |Ring(s)|
      ensures Ring(Run(s, steps))[i] == Ring(s)[i]
    {
      RotatedAt(Ring(s), |steps|, i);
    }
  }

  // ----- Reservations --------------------------------------------------------------------------------

  /** An id handed out, with the stack that goes with it; a bare id comes with none. */
  datatype Grant = Grant(id: u64, base: u64, size: u64)

  function GrantOf<C>(s: State<C>, step: Step<C>): Option<Grant>
  {
    match step
    case Reserve(size, max) => if LimitReached(s, max) then None else Some(Grant(s.nextThreadId, s.nextStackBase, size))
    case ReserveId(max) => if LimitReached(s, max) then None else Some(Grant(s.nextThreadId, s.nextStackBase, 0))
    case _ => None
  }

  /** Everything a run hands out, in order. */
  function Grants<C>(s: State<C>, steps: seq<Step<C>>): seq<Grant>
    decreases |steps|
  {
    if steps == [] then []
    else
      var rest := Grants(Apply(s, steps[0]), steps[1..]);
      if GrantOf(s, steps[0]).Some? then [GrantOf(s, steps[0]).value] + rest else rest
  }

  /** Only reservations move the counters. */
  lemma CountersMove<C>(s: State<C>, step: Step<C>)
    ensures var g, s' := GrantOf(s, step), Apply(s, step);
            && s'.nextThreadId == (if g.Some? then SaturatingAdd(s.nextThreadId, 1) else s.nextThreadId)
            && s'.nextStackBase == (if g.Some? then SaturatingAdd(s.nextStackBase, g.value.size) else s.nextStackBase)
  {
    hide Reverse, Records, Granted, Position;
    if step.WakeAny? {
      WakeEachKeepsActive(s, step.conds);
    }
  }

  /** What one step adds to the grants of the run after it. */
  lemma FirstGrant<C>(s: State<C>, steps: seq<Step<C>>)
    requires steps != []
    ensures var first, rest := GrantOf(s, steps[0]), Grants(Apply(s, steps[0]), steps[1..]);
            && Grants(s, steps) == (if first.Some? then [first.value] + rest else rest)
            && (first.Some? ==> first.value.id == s.nextThreadId && first.value.base == s.nextStackBase)
  {
    hide Apply;
  }

  /** Over every run, whatever happens between the reservations and whatever their limits, ids count up to the top. */
  lemma {:induction false} IdsCountUp<C>(s: State<C>, steps: seq<Step<C>>, i: nat)
    requires i < |Grants(s, steps)|
    ensures Grants(s, steps)[i].id == Min(s.nextThreadId + i, U64_MAX)
    decreases |steps|
  {
    hide Apply;
    FirstGrant(s, steps);
    CountersMove(s, steps[0]);
    var first := GrantOf(s, steps[0]);
    if first.None? {
      IdsCountUp(Apply(s, steps[0]), steps[1..], i);
    } else if i > 0 {
      IdsCountUp(Apply(s, steps[0]), steps[1..], i - 1);
    }
  }

  /** The ids of a run are all different exactly as long as the counter has not been used up. */
  lemma IdsNeverRepeat<C>(s: State<C>, steps: seq<Step<C>>)
    ensures var g := Grants(s, steps);
            (forall i, j :: 0 <= i < j < |g| ==> g[i].id != g[j].id)
            <==> |g| <= 1 || s.nextThreadId + |g| - 1 <= U64_MAX
  {
    hide Grants;
    var g := Grants(s, steps);
    if |g| > 1 && s.nextThreadId + |g| - 1 > U64_MAX {
      IdsCountUp(s, steps, |g| - 2);
      IdsCountUp(s, steps, |g| - 1);
    } else {
      forall i, j | 0 <= i < j < |g|
        ensures g[i].id != g[j].id
      {
        IdsCountUp(s, steps, i);
        IdsCountUp(s, steps, j);
      }
    }
  }

  /** No id exceeds the largest limit of the run by more than one; with limits below the top none repeats. */
  lemma {:induction false} IdsWithinLimit<C>(s: State<C>, steps: seq<Step<C>>, limit: u64)
    requires forall i :: 0 <= i < |steps| && (steps[i].Reserve? || steps[i].ReserveId?) ==> steps[i].maxThreads <= limit
    ensures var g := Grants(s, steps);
            && (forall i :: 0 <= i < |g| ==> g[i].id <= SaturatingAdd(limit, 1))
            && (limit < U64_MAX - 1 ==> forall i, j :: 0 <= i < j < |g| ==> g[i].id != g[j].id)
    decreases |steps|
  {
    hide Apply;
    if steps != [] {
      FirstGrant(s, steps);
      IdsWithinLimit(Apply(s, steps[0]), steps[1..], limit);
      assert GrantOf(s, steps[0]).Some? ==> s.nextThreadId <= SaturatingAdd(limit, 1);
    }
    var g := Grants(s, steps);
    if |g| > 1 {
      IdsCountUp(s, steps, |g| - 1);
    }
    IdsNeverRepeat(s, steps);
  }

  /** At the top of the id space the saturating counter hands out the same id again and again. */
  lemma SaturatedIdsRepeat<C>(s: State<C>, size: u64, size': u64, maxThreads: u64)
    requires s.nextThreadId == U64_MAX && maxThreads + 1 >= U64_MAX
    ensures var g := Grants(s, [Reserve(size, maxThreads), Reserve(size', maxThreads)]);
            |g| == 2 && g[0].id == g[1].id
  {
    var steps := [Reserve(size, maxThreads), Reserve(size', maxThreads)];
    var s1 := Apply(s, steps[0]);
    assert steps[1..] == [steps[1]];
    assert Grants(s1, [steps[1]]) == [GrantOf(s1, steps[1]).value] + Grants(Apply(s1, steps[1]), []);
  }

  /** A stack ends before every later one of the run begins, exactly if it fits below the top of memory. */
  lemma {:induction false} StacksDisjoint<C>(s: State<C>, steps: seq<Step<C>>)
    ensures var g := Grants(s, steps);
            && (forall i :: 0 <= i < |g| ==> s.nextStackBase <= g[i].base)
            && forall i, j :: 0 <= i < j < |g| ==>
                 (g[i].base + g[i].size <= g[j].base <==> g[i].base + g[i].size <= U64_MAX)
    decreases |steps|
  {
    hide Apply;
    if steps != [] {
      CountersMove(s, steps[0]);
      FirstGrant(s, steps);
      StacksDisjoint(Apply(s, steps[0]), steps[1..]);
      hide Grants, GrantOf;
    }
  }
}
