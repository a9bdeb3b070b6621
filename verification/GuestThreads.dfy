/** The guest thread scheduler: run queue, active slot, condition queues, signals, mutex owners, reservations. */
module GuestThreads {
  import opened Machine

  datatype Pending<C> =
    Pending(threadId: u64, entry: u64, arg: u64, stackTop: u64, exitPc: u64, resume: Option<C>)

  datatype ExitAction =
    | ReturnChildResult
    | ReturnValue(value: u64)
    | StoreResultAndReturn(resultAddr: u64, returnValue: u64)

  datatype Active<C> = Active(threadId: u64, parentThreadId: u64, parent: C, exitAction: ExitAction)

  datatype Waiting<C> = Waiting(threadId: u64, mutex: u64, pending: Pending<C>)

  datatype Dispatch<C> = Dispatch(threadId: u64, parentThreadId: u64, next: Pending<C>)

  datatype Switch<C> = Switch(fromThreadId: u64, toThreadId: u64, next: Pending<C>)

  datatype CondWake = CondWake(cond: u64, threadId: u64, remainingWaiters: nat)

  datatype CondSignal = CondSignal(wokenThreadId: Option<u64>, pendingSignals: u32)

  datatype Reservation = Reservation(threadId: u64, stackBase: u64, stackTop: u64)

  type Queues<C> = map<u64, seq<Waiting<C>>>

  datatype State<C> = State(
    nextThreadId: u64,
    current: u64,
    nextStackBase: u64,
    pending: seq<Pending<C>>,
    active: Option<Active<C>>,
    signals: map<u64, u32>,
    owners: map<u64, u64>,
    waiters: Queues<C>,
    completed: map<u64, u64>)

  // ----- What the operations mean ---------------------------------------------------------

  /** The queue of a condition; a condition without an entry has an empty queue. */
  function Queue<C>(waiters: Queues<C>, cond: u64): seq<Waiting<C>>
  {
    if cond in waiters then waiters[cond] else []
  }

  function Reverse<T>(s: seq<T>): (r: seq<T>)
    ensures |r| == |s|
    ensures forall i :: 0 <= i < |s| ==> r[i] == s[|s| - 1 - i]
  {
    if s == [] then [] else Reverse(s[1..]) + [s[0]]
  }

  function Records<C>(ws: seq<Waiting<C>>): (ps: seq<Pending<C>>)
    ensures |ps| == |ws|
    ensures forall i :: 0 <= i < |ws| ==> ps[i] == ws[i].pending
  {
    seq(|ws|, i requires 0 <= i < |ws| => ws[i].pending)
  }

  /** Mutex owners after handing each waiter, in order, the mutex it named. */
  function Granted<C>(owners: map<u64, u64>, ws: seq<Waiting<C>>): map<u64, u64>
  {
    if ws == [] then owners
    else Granted(owners, ws[..|ws| - 1])[ws[|ws| - 1].mutex := ws[|ws| - 1].threadId]
  }

  /** Switching to the k-th pending thread, under the given parent. */
  function Switched<C>(s: State<C>, k: nat, slot: Active<C>): State<C>
    requires k < |s.pending|
  {
    s.(pending := s.pending[..k] + s.pending[k + 1..],
       current := s.pending[k].threadId,
       active := Some(slot.(threadId := s.pending[k].threadId)))
  }

  /** The first position of a thread in the run queue, or its length. */
  function Position<C>(pending: seq<Pending<C>>, threadId: u64): (k: nat)
    ensures k <= |pending|
    ensures k < |pending| ==> pending[k].threadId == threadId
    ensures forall i :: 0 <= i < k ==> pending[i].threadId != threadId
  {
    if pending == [] || pending[0].threadId == threadId then 0
    else 1 + Position(pending[1..], threadId)
  }

  /** A dispatch takes a thread only while no guest thread is active. */
  function Dispatched<C>(s: State<C>, k: nat, parent: C, exitAction: ExitAction): State<C>
  {
    if s.active.Some? || k >= |s.pending| then s
    else Switched(s, k, Active(0, Max(s.current, 1), parent, exitAction))
  }

  function Yielded<C>(s: State<C>, resume: Pending<C>): State<C>
  {
    if s.active.None? || s.pending == [] then s
    else
      var next := Switched(s, 0, s.active.value);
      next.(pending := next.pending + [resume])
  }

  function Enrolled<C>(waiters: Queues<C>, cond: u64, w: Waiting<C>): Queues<C>
  {
    waiters[cond := Queue(waiters, cond) + [w]]
  }

  /** Taking the last waiter back drops the entry of a queue that becomes empty. */
  function Withdrawn<C>(waiters: Queues<C>, cond: u64): Queues<C>
  {
    if cond in waiters && waiters[cond] == [] then waiters - {cond} else waiters
  }

  function Blocked<C>(s: State<C>, cond: u64, mutex: u64, record: Pending<C>): State<C>
  {
    if s.active.None? then s
    else if s.pending == [] then s.(waiters := Withdrawn(s.waiters, cond))
    else
      Switched(s, 0, s.active.value)
      .(waiters := Enrolled(s.waiters, cond, Waiting(s.active.value.threadId, mutex, record)))
  }

  function BlockedCurrent<C>(s: State<C>, cond: u64, mutex: u64, record: Pending<C>, parent: C): State<C>
  {
    if s.active.Some? || s.pending == [] then s
    else
      Dispatched(s, 0, parent, ReturnChildResult)
      .(waiters := Enrolled(s.waiters, cond, Waiting(record.threadId, mutex, record)))
  }

  /** Waking the first n waiters of a condition: the last one woken runs first. */
  function Woken<C>(s: State<C>, cond: u64, n: nat): State<C>
    requires n <= |Queue(s.waiters, cond)|
  {
    var queue := Queue(s.waiters, cond);
    if n == 0 then s
    else
      s.(pending := Reverse(Records(queue[..n])) + s.pending,
         owners := Granted(s.owners, queue[..n]),
         waiters := if n == |queue| then s.waiters - {cond} else s.waiters[cond := queue[n..]])
  }

  function WokenUpTo<C>(s: State<C>, cond: u64, limit: nat): State<C>
  {
    Woken(s, cond, Min(limit, |Queue(s.waiters, cond)|))
  }

  function SignalCount<C>(s: State<C>, cond: u64): u32
  {
    if cond in s.signals then s.signals[cond] else 0
  }

  function Signalled<C>(s: State<C>, cond: u64): State<C>
  {
    if Queue(s.waiters, cond) != [] then Woken(s, cond, 1)
    else s.(signals := s.signals[cond := Min(SignalCount(s, cond) + 1, U32_MAX)])
  }

  function Consumed<C>(s: State<C>, cond: u64, mutex: u64, threadId: u64): State<C>
  {
    if SignalCount(s, cond) == 0 then s
    else s.(signals := s.signals[cond := SignalCount(s, cond) - 1], owners := s.owners[mutex := threadId])
  }

  predicate LimitReached<C>(s: State<C>, maxThreads: u64)
  {
    s.nextThreadId > SaturatingAdd(maxThreads, 1)
  }

  function Reserved<C>(s: State<C>, stackSize: u64, maxThreads: u64): State<C>
  {
    if LimitReached(s, maxThreads) then s
    else IdReserved(s, maxThreads).(nextStackBase := SaturatingAdd(s.nextStackBase, stackSize))
  }

  function IdReserved<C>(s: State<C>, maxThreads: u64): State<C>
  {
    if LimitReached(s, maxThreads) then s else s.(nextThreadId := SaturatingAdd(s.nextThreadId, 1))
  }

  /** The record under which a thread is first queued: it starts at its entry, with nothing to resume. */
  function StartRecord<C>(r: Reservation, entry: u64, arg: u64, exitPc: u64): Pending<C>
  {
    Pending(r.threadId, entry, arg, r.stackTop, exitPc, None)
  }

  // ----- What each step does, field by field -----------------------------------------------

  /** The k-th pending thread has left the run queue and is active and current; no other field differs. */
  ghost predicate TakesOver<C>(s: State<C>, s': State<C>, k: nat)
  {
    && k < |s.pending| && |s'.pending| == |s.pending| - 1
    && (forall i :: 0 <= i < k ==> s'.pending[i] == s.pending[i])
    && (forall i :: k <= i < |s'.pending| ==> s'.pending[i] == s.pending[i + 1])
    && s'.current == s.pending[k].threadId
    && s'.active.Some? && s'.active.value.threadId == s.pending[k].threadId
    && s' == s.(pending := s'.pending, current := s'.current, active := s'.active)
  }

  /** A dispatch stores the parent's context, the exit action, and as parent id the current id or 1. */
  lemma DispatchMeaning<C>(s: State<C>, k: nat, parent: C, exitAction: ExitAction)
    requires s.active.None? && k < |s.pending|
    ensures var s' := Dispatched(s, k, parent, exitAction);
            && TakesOver(s, s', k)
            && s'.active.value.parent == parent && s'.active.value.exitAction == exitAction
            && s'.active.value.parentThreadId == if s.current == 0 then 1 else s.current
  {
  }

  lemma NoDispatchMeaning<C>(s: State<C>, k: nat, parent: C, exitAction: ExitAction)
    requires s.active.Some? || k >= |s.pending|
    ensures Dispatched(s, k, parent, exitAction) == s
  {
  }

  /** A yield queues the record handed in, whole, behind all others. */
  lemma YieldMeaning<C>(s: State<C>, resume: Pending<C>)
    ensures var s' := Yielded(s, resume);
            if s.active.Some? && |s.pending| > 0 then
              && |s'.pending| == |s.pending| && s'.pending[|s.pending| - 1] == resume
              && TakesOver(s, s'.(pending := s'.pending[..|s.pending| - 1]), 0)
              && s'.active.value == s.active.value.(threadId := s.pending[0].threadId)
            else s' == s
  {
  }

  /** The queue of one condition has got the waiter as its last; the others are as they were. */
  ghost predicate JoinsLast<C>(m: Queues<C>, m': Queues<C>, cond: u64, w: Waiting<C>)
  {
    && cond in m' && |m'[cond]| == (if cond in m then |m[cond]| + 1 else 1)
    && m'[cond][|m'[cond]| - 1] == w
    && (cond in m ==> forall i :: 0 <= i < |m[cond]| ==> m'[cond][i] == m[cond][i])
    && (forall c :: c != cond ==> (c in m' <==> c in m) && (c in m ==> m'[c] == m[c]))
  }

  /** A block puts the thread, its record and the mutex it gave up behind the waiters there are. */
  lemma BlockMeaning<C>(s: State<C>, cond: u64, mutex: u64, record: Pending<C>)
    requires s.active.Some? && |s.pending| > 0
    ensures var s' := Blocked(s, cond, mutex, record);
            && JoinsLast(s.waiters, s'.waiters, cond, Waiting(s.active.value.threadId, mutex, record))
            && TakesOver(s, s'.(waiters := s.waiters), 0)
            && s'.active.value == s.active.value.(threadId := s.pending[0].threadId)
  {
  }

  lemma BlockCurrentMeaning<C>(s: State<C>, cond: u64, mutex: u64, record: Pending<C>, parent: C)
    ensures var s' := BlockedCurrent(s, cond, mutex, record, parent);
            if s.active.None? && |s.pending| > 0 then
              && JoinsLast(s.waiters, s'.waiters, cond, Waiting(record.threadId, mutex, record))
              && TakesOver(s, s'.(waiters := s.waiters), 0)
              && s'.active.value.parent == parent && s'.active.value.exitAction == ReturnChildResult
              && s'.active.value.parentThreadId == if s.current == 0 then 1 else s.current
            else s' == s
  {
  }

  /** Waking takes the first n waiters off their queue and puts their records in front of the run queue, the
      last one first; an emptied queue is dropped. Only mutex owners change besides. */
  lemma WakeMeaning<C>(s: State<C>, cond: u64, n: nat)
    requires cond in s.waiters && 0 < n <= |s.waiters[cond]|
    ensures var queue, s' := s.waiters[cond], Woken(s, cond, n);
            && |s'.pending| == n + |s.pending|
            && (forall i :: 0 <= i < n ==> s'.pending[i] == queue[n - 1 - i].pending)
            && (forall i :: 0 <= i < |s.pending| ==> s'.pending[n + i] == s.pending[i])
            && (cond in s'.waiters <==> n < |queue|)
            && (n < |queue| ==> s'.waiters[cond] == queue[n..])
            && (forall c :: c != cond ==>
                  (c in s'.waiters <==> c in s.waiters) && (c in s.waiters ==> s'.waiters[c] == s.waiters[c]))
            && s' == s.(pending := s'.pending, waiters := s'.waiters, owners := s'.owners)
  {
    hide Granted;
  }

  /** A signal wakes the first waiter and leaves the counts alone, or else adds one up to the largest count. */
  lemma SignalMeaning<C>(s: State<C>, cond: u64)
    ensures var s' := Signalled(s, cond);
            if cond in s.waiters && |s.waiters[cond]| > 0 then s' == Woken(s, cond, 1) && s'.signals == s.signals
            else
              && cond in s'.signals && s' == s.(signals := s'.signals)
              && s'.signals[cond] == (if cond !in s.signals then 1
                                      else if s.signals[cond] < 0xFFFF_FFFF then s.signals[cond] + 1
                                      else 0xFFFF_FFFF)
              && (forall c :: c != cond ==>
                    (c in s'.signals <==> c in s.signals) && (c in s.signals ==> s'.signals[c] == s.signals[c]))
  {
  }

  /** Consuming takes one signal away and makes the consumer the owner of the mutex. */
  lemma ConsumeMeaning<C>(s: State<C>, cond: u64, mutex: u64, threadId: u64)
    ensures var s' := Consumed(s, cond, mutex, threadId);
            if cond in s.signals && s.signals[cond] > 0 then
              s' == s.(signals := s.signals[cond := s.signals[cond] - 1], owners := s.owners[mutex := threadId])
            else s' == s
  {
  }

  /** An id is granted as long as it is at most one above the limit. */
  lemma ReserveMeaning<C>(s: State<C>, stackSize: u64, maxThreads: u64)
    ensures var s', s'' := Reserved(s, stackSize, maxThreads), IdReserved(s, maxThreads);
            if s.nextThreadId <= maxThreads + 1 then
              && s''.nextThreadId == Min(s.nextThreadId + 1, 0xFFFF_FFFF_FFFF_FFFF)
              && s'' == s.(nextThreadId := s''.nextThreadId)
              && s' == s''.(nextStackBase := Min(s.nextStackBase + stackSize, 0xFFFF_FFFF_FFFF_FFFF))
            else s' == s && s'' == s
    ensures LimitReached(s, maxThreads) <==> s.nextThreadId > maxThreads + 1
  {
  }

  /** A thread starts at its entry with its argument, on the stack reserved for it. */
  lemma StartMeaning<C>(r: Reservation, entry: u64, arg: u64, exitPc: u64)
    ensures var p := StartRecord<C>(r, entry, arg, exitPc);
            && p.threadId == r.threadId && p.stackTop == r.stackTop
            && p.entry == entry && p.arg == arg && p.exitPc == exitPc && p.resume.None?
  {
  }

  // ----- Waking in steps -------------------------------------------------------------------

  lemma ReverseAppend<T>(s: seq<T>, x: T)
    ensures Reverse(s + [x]) == [x] + Reverse(s)
  {
  }

  lemma ReverseRecordsOneMore<C>(ws: seq<Waiting<C>>, w: Waiting<C>)
    ensures Reverse(Records(ws + [w])) == [w.pending] + Reverse(Records(ws))
  {
    assert Records(ws + [w]) == Records(ws) + [w.pending];
    ReverseAppend(Records(ws), w.pending);
  }

  lemma GrantedOneMore<C>(owners: map<u64, u64>, ws: seq<Waiting<C>>, w: Waiting<C>)
    ensures Granted(owners, ws + [w]) == Granted(owners, ws)[w.mutex := w.threadId]
  {
    assert (ws + [w])[..|ws|] == ws;
  }

  lemma OneWaiter<C>(owners: map<u64, u64>, w: Waiting<C>)
    ensures Reverse(Records([w])) == [w.pending]
    ensures Granted(owners, [w]) == owners[w.mutex := w.threadId]
  {
    assert Records([w]) == [w.pending];
    assert [w][..0] == [];
  }

  /** What waking the first waiter alone amounts to. */
  lemma WakeOne<C>(s: State<C>, cond: u64)
    requires Queue(s.waiters, cond) != []
    ensures var queue := Queue(s.waiters, cond);
            Woken(s, cond, 1) ==
            s.(pending := [queue[0].pending] + s.pending,
               owners := s.owners[queue[0].mutex := queue[0].threadId],
               waiters := if |queue| == 1 then s.waiters - {cond} else s.waiters[cond := queue[1..]])
  {
    hide Reverse, Records, Granted;
    var queue := Queue(s.waiters, cond);
    assert queue[..1] == [queue[0]];
    OneWaiter(s.owners, queue[0]);
  }

  /** Waking n waiters and then one more is waking n + 1. */
  lemma WakeOneMore<C>(s: State<C>, cond: u64, n: nat)
    requires n < |Queue(s.waiters, cond)|
    ensures Queue(Woken(s, cond, n).waiters, cond) == Queue(s.waiters, cond)[n..]
    ensures Woken(Woken(s, cond, n), cond, 1) == Woken(s, cond, n + 1)
  {
    hide Reverse, Records, Granted;
    var queue := Queue(s.waiters, cond);
    var s1 := Woken(s, cond, n);
    assert Queue(s1.waiters, cond) == queue[n..];
    WakeOne(s1, cond);
    if n > 0 {
      assert queue[..n + 1] == queue[..n] + [queue[n]];
      ReverseRecordsOneMore(queue[..n], queue[n]);
      GrantedOneMore(s.owners, queue[..n], queue[n]);
      var front := Reverse(Records(queue[..n]));
      assert ([queue[n].pending] + front) + s.pending == [queue[n].pending] + (front + s.pending);
      assert n + 1 < |queue| ==> queue[n..][1..] == queue[n + 1..];
    }
  }

  class GuestThreadRuntime<C> {
    var nextThreadId: u64
    var currentThreadId: u64
    var nextStackBase: u64
    var pendingThreads: seq<Pending<C>>
    var activeThread: Option<Active<C>>
    var condSignalCounts: map<u64, u32>
    var mutexOwners: map<u64, u64>
    var condWaiters: Queues<C>
    var completedThreads: map<u64, u64>

    ghost function View(): State<C>
      reads this
    {
      State(nextThreadId, currentThreadId, nextStackBase, pendingThreads, activeThread,
            condSignalCounts, mutexOwners, condWaiters, completedThreads)
    }

    constructor ()
      ensures View() == State(0, 0, 0, [], None, map[], map[], map[], map[])
    {
      nextThreadId, currentThreadId, nextStackBase := 0, 0, 0;
      pendingThreads, activeThread := [], None;
      condSignalCounts, mutexOwners, condWaiters, completedThreads := map[], map[], map[], map[];
    }

    method EnqueuePending(pending: Pending<C>)
      modifies this
      ensures View() == old(View()).(pending := old(pendingThreads) + [pending])
    {
      pendingThreads := pendingThreads + [pending];
    }

    method EnqueuePendingFront(pending: Pending<C>)
      modifies this
      ensures View() == old(View()).(pending := [pending] + old(pendingThreads))
    {
      pendingThreads := [pending] + pendingThreads;
    }

    method PopNextPending() returns (r: Option<Pending<C>>)
      modifies this
      ensures if old(pendingThreads) == [] then r == None && View() == old(View())
              else r == Some(old(pendingThreads)[0]) && View() == old(View()).(pending := old(pendingThreads)[1..])
    {
      if pendingThreads == [] {
        return None;
      }
      r := Some(pendingThreads[0]);
      pendingThreads := pendingThreads[1..];
    }

    method RemovePendingById(threadId: u64) returns (r: Option<Pending<C>>)
      modifies this
      ensures var queue := old(pendingThreads);
              var k := Position(queue, threadId);
              if k == |queue| then r == None && View() == old(View())
              else r == Some(queue[k]) && View() == old(View()).(pending := queue[..k] + queue[k + 1..])
    {
      var index := 0;
      while index < |pendingThreads| && pendingThreads[index].threadId != threadId
        invariant index <= |pendingThreads|
        invariant forall i :: 0 <= i < index ==> pendingThreads[i].threadId != threadId
      {
        index := index + 1;
      }
      assert index == Position(pendingThreads, threadId);
      if index == |pendingThreads| {
        return None;
      }
      r := Some(pendingThreads[index]);
      pendingThreads := pendingThreads[..index] + pendingThreads[index + 1..];
    }

    method ActivateThread(threadId: u64, parentThreadId: u64, parent: C, exitAction: ExitAction)
      modifies this
      ensures View() == old(View()).(current := threadId,
                                     active := Some(Active(threadId, parentThreadId, parent, exitAction)))
    {
      currentThreadId := threadId;
      activeThread := Some(Active(threadId, parentThreadId, parent, exitAction));
    }

    method DispatchNext(parent: C, exitAction: ExitAction) returns (r: Option<Dispatch<C>>)
      modifies this
      ensures View() == Dispatched(old(View()), 0, parent, exitAction)
      ensures if old(activeThread).Some? || old(pendingThreads) == [] then r == None
              else r == Some(Dispatch(old(pendingThreads)[0].threadId, Max(old(currentThreadId), 1),
                                      old(pendingThreads)[0]))
    {
      if activeThread.Some? {
        return None;
      }
      var next := PopNextPending();
      if next.None? {
        return None;
      }
      var parentThreadId: u64;
      if currentThreadId == 0 {
        currentThreadId := 1;
        parentThreadId := 1;
      } else {
        parentThreadId := currentThreadId;
      }
      ActivateThread(next.value.threadId, parentThreadId, parent, exitAction);
      r := Some(Dispatch(next.value.threadId, parentThreadId, next.value));
    }

    method DispatchThreadById(threadId: u64, parent: C, exitAction: ExitAction) returns (r: Option<Dispatch<C>>)
      modifies this
      ensures View() == Dispatched(old(View()), Position(old(pendingThreads), threadId), parent, exitAction)
      ensures var k := Position(old(pendingThreads), threadId);
              if old(activeThread).Some? || k == |old(pendingThreads)| then r == None
              else r == Some(Dispatch(threadId, Max(old(currentThreadId), 1), old(pendingThreads)[k]))
    {
      if activeThread.Some? {
        return None;
      }
      var next := RemovePendingById(threadId);
      if next.None? {
        return None;
      }
      var parentThreadId := Max(currentThreadId, 1);
      ActivateThread(next.value.threadId, parentThreadId, parent, exitAction);
      r := Some(Dispatch(next.value.threadId, parentThreadId, next.value));
    }

    method YieldActiveToNext(resume: Pending<C>) returns (r: Option<Switch<C>>)
      modifies this
      ensures View() == Yielded(old(View()), resume)
      ensures if old(activeThread).None? || old(pendingThreads) == [] then r == None
              else r == Some(Switch(old(activeThread).value.threadId, old(pendingThreads)[0].threadId,
                                    old(pendingThreads)[0]))
    {
      if pendingThreads == [] || activeThread.None? {
        return None;
      }
      var active := activeThread.value;
      activeThread := None;
      EnqueuePending(resume);
      var next := PopNextPending();
      if next.None? {
        assert false;
      }
      ActivateThread(next.value.threadId, active.parentThreadId, active.parent, active.exitAction);
      r := Some(Switch(active.threadId, next.value.threadId, next.value));
    }

    method EnrolWaiter(cond: u64, w: Waiting<C>)
      modifies this
      ensures View() == old(View()).(waiters := Enrolled(old(condWaiters), cond, w))
    {
      var queue := if cond in condWaiters then condWaiters[cond] else [];
      condWaiters := condWaiters[cond := queue + [w]];
    }

    method BlockActiveOnCond(cond: u64, mutex: u64, pending: Pending<C>) returns (r: Option<Switch<C>>)
      modifies this
      ensures View() == Blocked(old(View()), cond, mutex, pending)
      ensures if old(activeThread).None? || old(pendingThreads) == [] then r == None
              else r == Some(Switch(old(activeThread).value.threadId, old(pendingThreads)[0].threadId,
                                    old(pendingThreads)[0]))
    {
      if activeThread.None? {
        return None;
      }
      var active := activeThread.value;
      activeThread := None;
      EnrolWaiter(cond, Waiting(active.threadId, mutex, pending));
      var next := PopNextPending();
      if next.None? {
        activeThread := Some(active);
        var queue := condWaiters[cond];
        condWaiters := condWaiters[cond := queue[..|queue| - 1]];
        if condWaiters[cond] == [] {
          condWaiters := condWaiters - {cond};
        }
        assert condWaiters == Withdrawn(old(condWaiters), cond);
        return None;
      }
      ActivateThread(next.value.threadId, active.parentThreadId, active.parent, active.exitAction);
      r := Some(Switch(active.threadId, next.value.threadId, next.value));
    }

    method BlockCurrentOnCondAndDispatch(cond: u64, mutex: u64, pending: Pending<C>, parent: C)
      returns (r: Option<Dispatch<C>>)
      modifies this
      ensures View() == BlockedCurrent(old(View()), cond, mutex, pending, parent)
      ensures r.Some? <==> old(activeThread).None? && old(pendingThreads) != []
      ensures r.Some? ==> r.value.next == old(pendingThreads)[0] && r.value.threadId == old(pendingThreads)[0].threadId
    {
      if activeThread.Some? || pendingThreads == [] {
        return None;
      }
      EnrolWaiter(cond, Waiting(pending.threadId, mutex, pending));
      r := DispatchNext(parent, ReturnChildResult);
      if r.None? {
        assert false;
      }
    }

    method ReserveThreadId(maxThreads: u64) returns (r: Option<u64>)
      modifies this
      ensures r.None? <==> LimitReached(old(View()), maxThreads)
      ensures r.Some? ==> r.value == old(nextThreadId)
      ensures View() == IdReserved(old(View()), maxThreads)
    {
      if nextThreadId > SaturatingAdd(maxThreads, 1) {
        return None;
      }
      r := Some(nextThreadId);
      nextThreadId := SaturatingAdd(nextThreadId, 1);
    }

    method ReserveGuestThread(stackSize: u64, maxThreads: u64) returns (r: Option<Reservation>)
      modifies this
      ensures View() == Reserved(old(View()), stackSize, maxThreads)
      ensures r == if LimitReached(old(View()), maxThreads) then None
                   else Some(Reservation(old(nextThreadId), old(nextStackBase),
                                         SaturatingSub(SaturatingAdd(old(nextStackBase), stackSize), 0x100)))
    {
      var threadId := ReserveThreadId(maxThreads);
      if threadId.None? {
        return None;
      }
      var stackBase := nextStackBase;
      nextStackBase := SaturatingAdd(nextStackBase, stackSize);
      r := Some(Reservation(threadId.value, stackBase, SaturatingSub(SaturatingAdd(stackBase, stackSize), 0x100)));
    }

    method EnqueueThreadStart(reservation: Reservation, entry: u64, arg: u64, exitPc: u64)
      modifies this
      ensures View() == old(View()).(pending := old(pendingThreads) + [StartRecord(reservation, entry, arg, exitPc)])
    {
      EnqueuePending(Pending(reservation.threadId, entry, arg, reservation.stackTop, exitPc, None));
    }

    method RecordThreadCompletion(threadId: u64, result: u64)
      modifies this
      ensures View() == old(View()).(completed := old(completedThreads)[threadId := result])
    {
      completedThreads := completedThreads[threadId := result];
    }

    /** A completion is handed out once. */
    method TakeThreadCompletion(threadId: u64) returns (result: Option<u64>)
      modifies this
      ensures View() == old(View()).(completed := old(completedThreads) - {threadId})
      ensures result.Some? <==> threadId in old(completedThreads)
      ensures result.Some? ==> result.value == old(completedThreads)[threadId]
    {
      result := if threadId in completedThreads then Some(completedThreads[threadId]) else None;
      completedThreads := completedThreads - {threadId};
    }

    method ConsumeCondSignal(cond: u64, mutex: u64, threadId: u64) returns (signaled: bool)
      modifies this
      ensures signaled <==> SignalCount(old(View()), cond) > 0
      ensures View() == Consumed(old(View()), cond, mutex, threadId)
    {
      signaled := false;
      if cond in condSignalCounts && condSignalCounts[cond] > 0 {
        condSignalCounts := condSignalCounts[cond := condSignalCounts[cond] - 1];
        signaled := true;
      }
      if signaled {
        mutexOwners := mutexOwners[mutex := threadId];
      }
    }

    method WakeOneCondWaiterFor(cond: u64) returns (r: Option<CondWake>)
      modifies this
      ensures var queue := Queue(old(condWaiters), cond);
              && View() == WokenUpTo(old(View()), cond, 1)
              && r == if queue == [] then None else Some(CondWake(cond, queue[0].threadId, |queue| - 1))
    {
      if cond !in condWaiters || condWaiters[cond] == [] {
        return None;
      }
      var queue := condWaiters[cond];
      var waiter := queue[0];
      condWaiters := condWaiters[cond := queue[1..]];
      var remaining := |condWaiters[cond]|;
      if remaining == 0 {
        condWaiters := condWaiters - {cond};
      }
      mutexOwners := mutexOwners[waiter.mutex := waiter.threadId];
      EnqueuePendingFront(waiter.pending);
      r := Some(CondWake(cond, waiter.threadId, remaining));
      WakeOne(old(View()), cond);
    }

    /** Wakes at most limit waiters of one condition, first come first woken. */
    method WakeCondWaitersFor(cond: u64, limit: nat) returns (woken: seq<CondWake>)
      modifies this
      ensures var queue := Queue(old(condWaiters), cond);
              && View() == WokenUpTo(old(View()), cond, limit)
              && |woken| == Min(limit, |queue|)
              && forall i :: 0 <= i < |woken| ==> woken[i] == CondWake(cond, queue[i].threadId, |queue| - 1 - i)
    {
      ghost var s0 := View();
      ghost var queue := Queue(condWaiters, cond);
      woken := [];
      while |woken| < limit
        invariant |woken| <= Min(limit, |queue|)
        invariant View() == Woken(s0, cond, |woken|)
        invariant forall i :: 0 <= i < |woken| ==> woken[i] == CondWake(cond, queue[i].threadId, |queue| - 1 - i)
        decreases |queue| - |woken|
      {
        if |woken| < |queue| {
          WakeOneMore(s0, cond, |woken|);
        }
        var wake := WakeOneCondWaiterFor(cond);
        if wake.None? {
          break;
        }
        woken := woken + [wake.value];
      }
    }

    method BroadcastCond(cond: u64) returns (woken: seq<CondWake>)
      requires |Queue(condWaiters, cond)| <= U64_MAX
      modifies this
      ensures var queue := Queue(old(condWaiters), cond);
              && View() == Woken(old(View()), cond, |queue|)
              && |woken| == |queue|
              && forall i :: 0 <= i < |woken| ==> woken[i] == CondWake(cond, queue[i].threadId, |queue| - 1 - i)
    {
      woken := WakeCondWaitersFor(cond, U64_MAX);
    }

    method SignalCond(cond: u64) returns (r: CondSignal)
      modifies this
      ensures View() == Signalled(old(View()), cond)
      ensures var queue := Queue(old(condWaiters), cond);
              r == if queue != [] then CondSignal(Some(queue[0].threadId), (|queue| - 1) % TWO_32)
                   else CondSignal(None, SignalCount(View(), cond))
    {
      var wake := WakeOneCondWaiterFor(cond);
      if wake.Some? {
        return CondSignal(Some(wake.value.threadId), wake.value.remainingWaiters % TWO_32);
      }
      var before: int := if cond in condSignalCounts then condSignalCounts[cond] else 0;
      var count := Min(before + 1, U32_MAX);
      condSignalCounts := condSignalCounts[cond := count];
      r := CondSignal(None, count);
    }
  }
}
