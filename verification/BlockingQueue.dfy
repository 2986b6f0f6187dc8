/** The blocking queue as a step system: one step per critical section, one per notification. */
module BlockingQueue {
  import opened CircularQ

  /** Where a thread stands. A critical section is one step; the notification after it is another. */
  datatype Phase<T> =
    | Idle
    | Enqueuing(x: T, woken: bool)       // wants the lock to test for room
    | EnqueuingNow(x: T)                 // wants the lock to push without waiting
    | WaitingPop(x: T)                   // blocked on pop_cv
    | NotifyPush                         // pushed, lock released, push_cv not yet notified
    | Dequeuing(woken: bool, late: bool) // wants the lock to test for an item; late: its time is up
    | WaitingPush                        // blocked on push_cv
    | NotifyPop(x: T)                    // popped, lock released, pop_cv not yet notified
    | Got(x: T)                          // dequeue has returned the item
    | Gone                               // the thread has ended

  datatype Removal<T> = Popped(x: T) | Overrun(x: T)

  datatype Queue<T> = Queue(
    cap: nat,
    items: seq<T>,
    threads: seq<Phase<T>>,
    pushed: seq<T>,              // everything ever pushed
    removed: seq<Removal<T>>,    // everything that left, oldest first
    nowait: bool                 // enqueue_nowait has been used
  )

  datatype Step<T> =
    | StartEnqueue(t: nat, x: T)
    | StartEnqueueNow(t: nat, x: T)
    | StartDequeue(t: nat)
    | Lock(t: nat)               // the critical section
    | Notify(t: nat, w: int)     // notify_one picks waiter w, or -1 when there is none
    | Wake(t: nat, late: bool)   // spurious wake-up, or the time-out of wait_for
    | Take(t: nat)               // the caller goes on with the item
    | Leave(t: nat)              // the thread ends

  // ---- Counting threads ----

  datatype Tally = PopWaiters | PopHelpers | PushWaiters | PushHelpers

  function Hit<T>(k: Tally, p: Phase<T>): nat {
    match k
    case PopWaiters => if p.WaitingPop? then 1 else 0
    case PopHelpers => if p.NotifyPop? || (p.Enqueuing? && p.woken) then 1 else 0
    case PushWaiters => if p.WaitingPush? then 1 else 0
    case PushHelpers => if p.NotifyPush? || (p.Dequeuing? && p.woken) then 1 else 0
  }

  function Count<T>(ts: seq<Phase<T>>, k: Tally): nat {
    if |ts| == 0 then 0 else Count(ts[..|ts| - 1], k) + Hit(k, ts[|ts| - 1])
  }

  lemma {:induction false} CountUpdate<T>(ts: seq<Phase<T>>, i: nat, p: Phase<T>, k: Tally)
    requires i < |ts|
    ensures Count(ts[i := p], k) == Count(ts, k) - Hit(k, ts[i]) + Hit(k, p)
  {
    var n := |ts| - 1;
    if i == n {
      assert ts[i := p][..n] == ts[..n];
    } else {
      assert ts[i := p][..n] == ts[..n][i := p];
      CountUpdate(ts[..n], i, p, k);
    }
  }

  lemma {:induction false} CountWitness<T>(ts: seq<Phase<T>>, k: Tally)
    ensures Count(ts, k) > 0 <==> exists i :: 0 <= i < |ts| && Hit(k, ts[i]) == 1
  {
    if |ts| > 0 {
      var n := |ts| - 1;
      CountWitness(ts[..n], k);
      if Count(ts[..n], k) > 0 {
        var i :| 0 <= i < n && Hit(k, ts[..n][i]) == 1;
        assert Hit(k, ts[i]) == 1;
      }
      if i :| 0 <= i < |ts| && Hit(k, ts[i]) == 1 {
        if i < n { assert Hit(k, ts[..n][i]) == 1; }
      }
    }
  }

  // ---- The steps ----

  predicate Waits<T>(q: Queue<T>, w: int, onPop: bool) {
    0 <= w < |q.threads| && (if onPop then q.threads[w].WaitingPop? else q.threads[w].WaitingPush?)
  }

  predicate Full<T>(q: Queue<T>) { |q.items| == q.cap }

  predicate Can<T>(q: Queue<T>, s: Step<T>) {
    && s.t < |q.threads|
    && var p := q.threads[s.t];
       match s
       case StartEnqueue(_, _) => p.Idle?
       case StartEnqueueNow(_, _) => p.Idle?
       case StartDequeue(_) => p.Idle?
       case Lock(_) => p.Enqueuing? || p.EnqueuingNow? || p.Dequeuing?
       case Notify(_, w) =>
         (p.NotifyPush? || p.NotifyPop?)
         && (Waits(q, w, p.NotifyPop?) || (w == -1 && forall i :: 0 <= i < |q.threads| ==> !Waits(q, i, p.NotifyPop?)))
       case Wake(_, late) => p.WaitingPop? || p.WaitingPush?
       case Take(_) => p.Got?
       case Leave(_) => p.Idle?
  }

  /** Thread t moves to phase p. */
  function Moved<T>(q: Queue<T>, t: nat, p: Phase<T>): Queue<T>
    requires t < |q.threads|
  {
    q.(threads := q.threads[t := p])
  }

  /** The push of the critical section, dropping the oldest element if it must. */
  function DoPush<T>(q: Queue<T>, x: T): Queue<T> {
    q.(items := Pushed(q.items, q.cap, x), pushed := q.pushed + [x],
       removed := if |q.items| >= q.cap then q.removed + [Overrun((q.items + [x])[0])] else q.removed)
  }

  function DoPop<T>(q: Queue<T>): Queue<T>
    requires q.items != []
  {
    q.(items := q.items[1..], removed := q.removed + [Popped(q.items[0])])
  }

  function Awake<T>(p: Phase<T>, late: bool): Phase<T> {
    match p
    case WaitingPop(x) => Enqueuing(x, true)
    case WaitingPush => Dequeuing(true, late)
    case _ => p
  }

  function Do<T>(q: Queue<T>, s: Step<T>): Queue<T>
    requires Can(q, s)
  {
    var t, p := s.t, q.threads[s.t];
    match s
    case StartEnqueue(_, x) => Moved(q, t, Enqueuing(x, false))
    case StartEnqueueNow(_, x) => Moved(q, t, EnqueuingNow(x)).(nowait := true)
    case StartDequeue(_) => Moved(q, t, Dequeuing(false, false))
    case Lock(_) => Locked(q, t)
    case Notify(_, w) =>
      var rest := Moved(q, t, if p.NotifyPush? then Idle else Got(p.x));
      if w == -1 then rest else Moved(rest, w, Awake(q.threads[w], false))
    case Wake(_, late) => Moved(q, t, Awake(p, late))
    case Take(_) => Moved(q, t, Idle)
    case Leave(_) => Moved(q, t, Gone)
  }

  /** One critical section: test the wait condition, then act or go to sleep. */
  function Locked<T>(q: Queue<T>, t: nat): Queue<T>
    requires t < |q.threads| && (q.threads[t].Enqueuing? || q.threads[t].EnqueuingNow? || q.threads[t].Dequeuing?)
  {
    match q.threads[t]
    case Enqueuing(x, _) => if Full(q) then Moved(q, t, WaitingPop(x)) else Moved(DoPush(q, x), t, NotifyPush)
    case EnqueuingNow(x) => Moved(DoPush(q, x), t, NotifyPush)
    case Dequeuing(_, late) =>
      if q.items != [] then Moved(DoPop(q), t, NotifyPop(q.items[0]))
      else if late then Moved(q, t, Idle)
      else Moved(q, t, WaitingPush)
  }

  // ---- The invariant ----

  /** Waiting producers never outnumber the help on its way while there is room. */
  ghost predicate ProducersHelped<T>(q: Queue<T>) {
    Count(q.threads, PopWaiters) > 0 ==> q.cap - |q.items| <= Count(q.threads, PopHelpers)
  }

  ghost predicate ConsumersHelped<T>(q: Queue<T>) {
    Count(q.threads, PushWaiters) > 0 ==> |q.items| <= Count(q.threads, PushHelpers)
  }

  function Values<T>(rs: seq<Removal<T>>): seq<T> {
    if |rs| == 0 then [] else Values(rs[..|rs| - 1]) + [rs[|rs| - 1].x]
  }

  function Overruns<T>(rs: seq<Removal<T>>): nat {
    if |rs| == 0 then 0 else Overruns(rs[..|rs| - 1]) + (if rs[|rs| - 1].Overrun? then 1 else 0)
  }

  lemma ValuesPush<T>(rs: seq<Removal<T>>, r: Removal<T>)
    ensures Values(rs + [r]) == Values(rs) + [r.x]
    ensures Overruns(rs + [r]) == Overruns(rs) + (if r.Overrun? then 1 else 0)
  {
    assert (rs + [r])[..|rs|] == rs;
  }

  /** First in, first out: what was pushed is what left, in order, followed by what is still there. */
  ghost predicate Conserved<T>(q: Queue<T>) {
    && |q.items| <= q.cap
    && q.pushed == Values(q.removed) + q.items
    && (!q.nowait ==> Overruns(q.removed) == 0 && forall i :: 0 <= i < |q.threads| ==> !q.threads[i].EnqueuingNow?)
  }

  ghost predicate Inv<T>(q: Queue<T>) {
    Conserved(q) && ProducersHelped(q) && ConsumersHelped(q)
  }

  predicate Initial<T>(q: Queue<T>) {
    && q.items == [] && q.pushed == [] && q.removed == [] && !q.nowait
    && forall i :: 0 <= i < |q.threads| ==> q.threads[i].Idle?
  }

  lemma InitialInv<T>(q: Queue<T>)
    requires Initial(q)
    ensures Inv(q)
  {
    CountWitness(q.threads, PopWaiters);
    CountWitness(q.threads, PushWaiters);
  }

  lemma PushConserves<T>(q: Queue<T>, x: T)
    requires Conserved(q) && (!q.nowait ==> !Full(q))
    ensures Conserved(DoPush(q, x))
    ensures |DoPush(q, x).items| == if Full(q) then |q.items| else |q.items| + 1
  {
    if Full(q) {
      var all := q.items + [x];
      ValuesPush(q.removed, Overrun(all[0]));
      assert all == [all[0]] + all[1..];
    }
  }

  lemma PopConserves<T>(q: Queue<T>)
    requires Conserved(q) && q.items != []
    ensures Conserved(DoPop(q))
  {
    ValuesPush(q.removed, Popped(q.items[0]));
    assert q.items == [q.items[0]] + q.items[1..];
  }

  lemma MovedCounts<T>(ts: seq<Phase<T>>, t: nat, p: Phase<T>)
    requires t < |ts|
    ensures Count(ts[t := p], PopWaiters) == Count(ts, PopWaiters) - Hit(PopWaiters, ts[t]) + Hit(PopWaiters, p)
    ensures Count(ts[t := p], PopHelpers) == Count(ts, PopHelpers) - Hit(PopHelpers, ts[t]) + Hit(PopHelpers, p)
    ensures Count(ts[t := p], PushWaiters) == Count(ts, PushWaiters) - Hit(PushWaiters, ts[t]) + Hit(PushWaiters, p)
    ensures Count(ts[t := p], PushHelpers) == Count(ts, PushHelpers) - Hit(PushHelpers, ts[t]) + Hit(PushHelpers, p)
  {
    CountUpdate(ts, t, p, PopWaiters);
    CountUpdate(ts, t, p, PopHelpers);
    CountUpdate(ts, t, p, PushWaiters);
    CountUpdate(ts, t, p, PushHelpers);
  }

  lemma LockKeepsInv<T>(q: Queue<T>, t: nat)
    requires Inv(q) && Can(q, Lock(t))
    ensures Inv(Do(q, Lock(t)))
  {
    hide Count, Pushed, Values, Overruns;
    var q' := Do(q, Lock(t));
    MovedCounts(q.threads, t, q'.threads[t]);
    match q.threads[t]
    case Enqueuing(x, _) => if !Full(q) { PushConserves(q, x); }
    case EnqueuingNow(x) => PushConserves(q, x);
    case Dequeuing(_, _) => if q.items != [] { PopConserves(q); }
  }

  /** With no waiter left there is nothing to promise; with one, the notification becomes a woken thread. */
  lemma NotifyKeepsInv<T>(q: Queue<T>, t: nat, w: int)
    requires Inv(q) && Can(q, Notify(t, w))
    ensures Inv(Do(q, Notify(t, w)))
  {
    hide Count, Values, Overruns;
    var p := q.threads[t];
    var p' := if p.NotifyPush? then Idle else Got(p.x);
    MovedCounts(q.threads, t, p');
    if w != -1 {
      MovedCounts(q.threads[t := p'], w, Awake(q.threads[w], false));
    } else {
      NoWaiters(q, p.NotifyPop?);
    }
  }

  lemma NoWaiters<T>(q: Queue<T>, onPop: bool)
    requires forall i :: 0 <= i < |q.threads| ==> !Waits(q, i, onPop)
    ensures Count(q.threads, if onPop then PopWaiters else PushWaiters) == 0
  {
    var k := if onPop then PopWaiters else PushWaiters;
    CountWitness(q.threads, k);
    forall i | 0 <= i < |q.threads|
      ensures Hit(k, q.threads[i]) == 0
    {
      assert !Waits(q, i, onPop);
    }
  }

  /** A move outside the critical sections puts nobody to sleep and takes no help away. */
  lemma MoveKeepsInv<T>(q: Queue<T>, t: nat, p: Phase<T>, nowait: bool)
    requires Inv(q) && t < |q.threads| && (p.EnqueuingNow? || q.nowait ==> nowait)
    requires forall k :: (k == PopWaiters || k == PushWaiters ==> Hit(k, p) <= Hit(k, q.threads[t]))
    requires forall k :: (k == PopHelpers || k == PushHelpers ==> Hit(k, p) >= Hit(k, q.threads[t]))
    ensures Inv(Moved(q, t, p).(nowait := nowait))
  {
    hide Count, Values, Overruns, Hit;
    MovedCounts(q.threads, t, p);
  }

  lemma StepKeepsInv<T>(q: Queue<T>, s: Step<T>)
    requires Inv(q) && Can(q, s)
    ensures Inv(Do(q, s))
  {
    hide Inv;
    match s
    case Lock(t) => LockKeepsInv(q, t);
    case Notify(t, w) => NotifyKeepsInv(q, t, w);
    case Wake(t, late) => MoveKeepsInv(q, t, Awake(q.threads[t], late), q.nowait);
    case StartEnqueue(t, x) => MoveKeepsInv(q, t, Enqueuing(x, false), q.nowait);
    case StartEnqueueNow(t, x) => MoveKeepsInv(q, t, EnqueuingNow(x), true);
    case StartDequeue(t) => MoveKeepsInv(q, t, Dequeuing(false, false), q.nowait);
    case Take(t) => MoveKeepsInv(q, t, Idle, q.nowait);
    case Leave(t) => MoveKeepsInv(q, t, Gone, q.nowait);
  }

  // ---- Whole runs ----

  /** states[0], steps[0], states[1], ... in any interleaving of any threads. */
  ghost predicate IsRun<T>(states: seq<Queue<T>>, steps: seq<Step<T>>) {
    && |states| == |steps| + 1 && Initial(states[0])
    && forall i :: 0 <= i < |steps| ==> Can(states[i], steps[i]) && states[i + 1] == Do(states[i], steps[i])
  }

  lemma {:induction false} RunKeepsInv<T>(states: seq<Queue<T>>, steps: seq<Step<T>>, i: nat)
    requires IsRun(states, steps) && i < |states|
    ensures Inv(states[i])
  {
    if i == 0 {
      InitialInv(states[0]);
    } else {
      RunKeepsInv(states, steps, i - 1);
      StepKeepsInv(states[i - 1], steps[i - 1]);
    }
  }

  /** No lost wake-up: while a producer sleeps, every free place is matched by a pending or delivered
      notification, and while a consumer sleeps, every queued item is. */
  lemma NoLostWakeups<T>(states: seq<Queue<T>>, steps: seq<Step<T>>, i: nat)
    requires IsRun(states, steps) && i < |states|
    ensures (exists t :: Waits(states[i], t, true)) ==>
              states[i].cap - |states[i].items| <= Count(states[i].threads, PopHelpers)
    ensures (exists t :: Waits(states[i], t, false)) ==>
              |states[i].items| <= Count(states[i].threads, PushHelpers)
  {
    RunKeepsInv(states, steps, i);
    CountWitness(states[i].threads, PopWaiters);
    CountWitness(states[i].threads, PushWaiters);
    if t :| Waits(states[i], t, true) { assert Hit(PopWaiters, states[i].threads[t]) == 1; }
    if t :| Waits(states[i], t, false) { assert Hit(PushWaiters, states[i].threads[t]) == 1; }
  }

  /** Over any run: enqueued = dequeued + overrun + resident, in order; without enqueue_nowait nothing is overrun. */
  lemma RunConserves<T>(states: seq<Queue<T>>, steps: seq<Step<T>>, i: nat)
    requires IsRun(states, steps) && i < |states|
    ensures states[i].pushed == Values(states[i].removed) + states[i].items && |states[i].items| <= states[i].cap
    ensures |states[i].pushed| == |states[i].removed| + |states[i].items|
    ensures (forall j :: 0 <= j < |steps| ==> !steps[j].StartEnqueueNow?) ==> Overruns(states[i].removed) == 0
  {
    RunKeepsInv(states, steps, i);
    ValuesLength(states[i].removed);
    if forall j :: 0 <= j < |steps| ==> !steps[j].StartEnqueueNow? {
      NowaitUnused(states, steps, i);
    }
  }

  lemma {:induction false} ValuesLength<T>(rs: seq<Removal<T>>)
    ensures |Values(rs)| == |rs|
  {
    if |rs| > 0 { ValuesLength(rs[..|rs| - 1]); }
  }

  lemma {:induction false} NowaitUnused<T>(states: seq<Queue<T>>, steps: seq<Step<T>>, i: nat)
    requires IsRun(states, steps) && i < |states|
    requires forall j :: 0 <= j < |steps| ==> !steps[j].StartEnqueueNow?
    ensures !states[i].nowait
  {
    if i > 0 { NowaitUnused(states, steps, i - 1); }
  }

  /** enqueue_nowait never waits: its message is the newest in the queue afterwards, and at most the oldest one
      is gone, only from a full queue. */
  lemma NowaitNeverWaits<T>(q: Queue<T>, t: nat)
    requires Inv(q) && q.cap >= 1 && t < |q.threads| && q.threads[t].EnqueuingNow?
    ensures Can(q, Lock(t))
    ensures var q', x := Do(q, Lock(t)), q.threads[t].x;
            && q'.threads[t] == NotifyPush
            && q'.items == (if |q.items| < q.cap then q.items + [x] else q.items[1..] + [x])
  {
    hide Count, Values, Overruns;
    assert q.items != [] ==> (q.items + [q.threads[t].x])[1..] == q.items[1..] + [q.threads[t].x];
  }

  /** A blocking enqueue waits exactly while the queue is full. */
  lemma EnqueueWaitsIfFull<T>(q: Queue<T>, t: nat)
    requires Inv(q) && t < |q.threads| && q.threads[t].Enqueuing?
    ensures Can(q, Lock(t))
    ensures var q', x := Do(q, Lock(t)), q.threads[t].x;
            if |q.items| == q.cap then q'.items == q.items && q'.threads[t] == WaitingPop(x)
            else q'.items == q.items + [x] && q'.threads[t] == NotifyPush
  {
    hide Count, Values, Overruns;
  }

  /** A dequeue gets the oldest item if there is one, even when its time is up; a timed-out wait on an empty
      queue ends without an item. */
  lemma DequeueOutcomes<T>(q: Queue<T>, t: nat)
    requires t < |q.threads|
    ensures q.threads[t].Dequeuing? && q.items != [] ==>
              var q' := Do(q, Lock(t)); q'.threads[t] == NotifyPop(q.items[0]) && q'.items == q.items[1..]
    ensures q.threads[t].WaitingPush? ==>
              var q1 := Do(q, Wake(t, true));
              var q2 := Do(q1, Lock(t));
              q2.threads[t] == if q.items == [] then Idle else NotifyPop(q.items[0])
    ensures q.threads[t].WaitingPush? ==>
              var q1 := Do(q, Wake(t, false));
              var q2 := Do(q1, Lock(t));
              q2.threads[t] == if q.items == [] then WaitingPush else NotifyPop(q.items[0])
  {}

  // ---- Nothing posted goes astray ----

  /** A thread has taken x on itself and not pushed it yet. */
  ghost predicate Carries<T>(p: Phase<T>, x: T) {
    (p.Enqueuing? || p.EnqueuingNow? || p.WaitingPop?) && p.x == x
  }

  ghost function Carried<T>(ts: seq<Phase<T>>, x: T): nat {
    if |ts| == 0 then 0 else Carried(ts[..|ts| - 1], x) + (if Carries(ts[|ts| - 1], x) then 1 else 0)
  }

  lemma {:induction false} CarriedUpdate<T>(ts: seq<Phase<T>>, i: nat, p: Phase<T>, x: T)
    requires i < |ts|
    ensures Carried(ts[i := p], x) ==
              Carried(ts, x) - (if Carries(ts[i], x) then 1 else 0) + (if Carries(p, x) then 1 else 0)
  {
    var n := |ts| - 1;
    if i == n {
      assert ts[i := p][..n] == ts[..n];
    } else {
      assert ts[i := p][..n] == ts[..n][i := p];
      CarriedUpdate(ts[..n], i, p, x);
    }
  }

  lemma {:induction false} CarriedNone<T>(ts: seq<Phase<T>>, x: T)
    requires forall i :: 0 <= i < |ts| ==> !Carries(ts[i], x)
    ensures Carried(ts, x) == 0
  {
    if |ts| > 0 { CarriedNone(ts[..|ts| - 1], x); }
  }

  /** The step asks for x to be enqueued, one way or the other. */
  ghost predicate Posts<T>(s: Step<T>, x: T) {
    (s.StartEnqueue? || s.StartEnqueueNow?) && s.x == x
  }

  ghost function Posted<T>(steps: seq<Step<T>>, x: T): nat {
    if |steps| == 0 then 0 else Posted(steps[..|steps| - 1], x) + (if Posts(steps[|steps| - 1], x) then 1 else 0)
  }

  /** What has been pushed or is carried. */
  ghost function Accounted<T>(q: Queue<T>, x: T): nat { multiset(q.pushed)[x] + Carried(q.threads, x) }

  lemma MoveAccounts<T>(q: Queue<T>, t: nat, p: Phase<T>, x: T)
    requires t < |q.threads|
    ensures Accounted(Moved(q, t, p), x) ==
              Accounted(q, x) - (if Carries(q.threads[t], x) then 1 else 0) + (if Carries(p, x) then 1 else 0)
  {
    hide Carried, Carries;
    CarriedUpdate(q.threads, t, p, x);
  }

  lemma PushAccounts<T>(q: Queue<T>, y: T, x: T)
    ensures Accounted(DoPush(q, y), x) == Accounted(q, x) + (if y == x then 1 else 0)
    ensures DoPush(q, y).threads == q.threads
  {
    hide Pushed, Carried;
  }

  lemma PopAccounts<T>(q: Queue<T>, x: T)
    requires q.items != []
    ensures Accounted(DoPop(q), x) == Accounted(q, x) && DoPop(q).threads == q.threads
  {}

  lemma LockAccounts<T>(q: Queue<T>, t: nat, x: T)
    requires Can(q, Lock(t))
    ensures Accounted(Do(q, Lock(t)), x) == Accounted(q, x)
  {
    hide Accounted, DoPush, DoPop, Moved;
    match q.threads[t]
    case Enqueuing(y, _) =>
      PushAccounts(q, y, x);
      MoveAccounts(if Full(q) then q else DoPush(q, y), t, if Full(q) then WaitingPop(y) else NotifyPush, x);
    case EnqueuingNow(y) =>
      PushAccounts(q, y, x);
      MoveAccounts(DoPush(q, y), t, NotifyPush, x);
    case Dequeuing(_, late) =>
      if q.items != [] {
        PopAccounts(q, x);
        MoveAccounts(DoPop(q), t, NotifyPop(q.items[0]), x);
      } else {
        MoveAccounts(q, t, if late then Idle else WaitingPush, x);
      }
  }

  /** No step but a post changes the account, and a post adds its own message. */
  lemma StepAccounts<T>(q: Queue<T>, s: Step<T>, x: T)
    requires Can(q, s)
    ensures Accounted(Do(q, s), x) == Accounted(q, x) + (if Posts(s, x) then 1 else 0)
  {
    hide Accounted, Moved, Locked;
    match s
    case Lock(t) => LockAccounts(q, t, x);
    case Notify(t, w) => NotifyAccounts(q, t, w, x);
    case Wake(t, late) => MoveAccounts(q, t, Awake(q.threads[t], late), x);
    case StartEnqueue(t, y) => MoveAccounts(q, t, Enqueuing(y, false), x);
    case StartEnqueueNow(t, y) =>
      MoveAccounts(q, t, EnqueuingNow(y), x);
      NowaitAccounts(Moved(q, t, EnqueuingNow(y)), x);
    case StartDequeue(t) => MoveAccounts(q, t, Dequeuing(false, false), x);
    case Take(t) => MoveAccounts(q, t, Idle, x);
    case Leave(t) => MoveAccounts(q, t, Gone, x);
  }

  lemma NowaitAccounts<T>(q: Queue<T>, x: T)
    ensures Accounted(q.(nowait := true), x) == Accounted(q, x)
  {}

  lemma NotifyAccounts<T>(q: Queue<T>, t: nat, w: int, x: T)
    requires Can(q, Notify(t, w))
    ensures Accounted(Do(q, Notify(t, w)), x) == Accounted(q, x)
  {
    hide Accounted;
    var p := if q.threads[t].NotifyPush? then Idle else Got(q.threads[t].x);
    MoveAccounts(q, t, p, x);
    if w != -1 { MoveAccounts(Moved(q, t, p), w, Awake(q.threads[w], false), x); }
  }

  /** Over any run: whatever was asked to be enqueued has been pushed, or a thread still carries it. */
  lemma {:induction false} RunAccounts<T>(states: seq<Queue<T>>, steps: seq<Step<T>>, i: nat, x: T)
    requires IsRun(states, steps) && i < |states|
    ensures Posted(steps[..i], x) == multiset(states[i].pushed)[x] + Carried(states[i].threads, x)
  {
    hide Carried, Can, Do;
    if i == 0 {
      CarriedNone(states[0].threads, x);
    } else {
      RunAccounts(states, steps, i - 1, x);
      StepAccounts(states[i - 1], steps[i - 1], x);
      assert steps[..i][..i - 1] == steps[..i - 1];
    }
  }

  /** The ring buffer and the step system agree on what a push does. */
  method PushOnRing<T(0)>(ring: CircularQ<T>, ghost q: Queue<T>, x: T)
    requires ring.Valid() && ring.maxItems == q.cap + 1 && ring.Items() == q.items
    modifies ring, ring.v
    ensures ring.Valid() && ring.maxItems == q.cap + 1 && ring.Items() == DoPush(q, x).items
    ensures ring.overrunCounter == old(ring.overrunCounter) + |DoPush(q, x).removed| - |q.removed|
  {
    ring.PushBack(x);
  }

  /** So they do on a pop. */
  method PopOnRing<T(0)>(ring: CircularQ<T>, ghost q: Queue<T>) returns (x: T)
    requires ring.Valid() && ring.maxItems == q.cap + 1 && ring.Items() == q.items && q.items != []
    modifies ring, ring.v
    ensures ring.Valid() && ring.maxItems == q.cap + 1 && ring.Items() == DoPop(q).items
    ensures DoPop(q).removed == q.removed + [Popped(x)] && ring.overrunCounter == old(ring.overrunCounter)
  {
    x := ring.Front();
    ring.PopFront();
  }
}
