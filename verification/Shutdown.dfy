/** The pool's shutdown comes to an end, however often workers time out in between. */
module Shutdown {
  import opened CircularQ
  import opened BlockingQueue
  import opened ThreadPool

  // ---- What is left to do ----

  /** The work a shutdown has left; looking for a message and giving up again does not change it. */
  ghost function Essential(p: Pool): int {
    6 * (p.n - p.posted) + 3 * |p.q.items| + (p.n - p.joined) + Total(Weight, p.n, p.q.threads)
  }

  predicate IsWake(a: Action) { a.Inner? && a.s.Wake? }

  /** Steps that may lead nowhere: waking up, starting to look, and looking in vain. */
  predicate Idling(p: Pool, a: Action)
    requires Enabled(p, a)
  {
    a.Inner? &&
    match a.s
    case Wake(_, _) => true
    case StartDequeue(_) => true
    case Lock(t) =>
      var ph := p.q.threads[t];
      (ph.Enqueuing? && Full(p.q)) || (ph.Dequeuing? && p.q.items == [])
    case _ => false
  }

  /** No step adds work, and every step that is not idling takes some away. */
  lemma WorkShrinks(p: Pool, a: Action)
    requires PoolInv(p) && p.closing && Enabled(p, a)
    ensures if Idling(p, a) then Essential(Act(p, a)) == Essential(p) else Essential(Act(p, a)) < Essential(p)
  {
    hide Total, Held, TimesPopped, TimesOverrun, Inv, Ordered, NothingLost, Pushed, EndedOnce;
    match a
    case Inner(s) => InnerShrinks(p, s);
    case Handle(w) => Totals(p.n, p.q.threads, w, Act(p, a).q.threads[w]);
    case Post => Totals(p.n, p.q.threads, p.n, Enqueuing(Terminate, false));
    case Join =>
  }

  lemma InnerShrinks(p: Pool, s: Step<Msg>)
    requires PoolInv(p) && p.closing && Enabled(p, Inner(s))
    ensures var p' := Act(p, Inner(s));
            if Idling(p, Inner(s)) then Essential(p') == Essential(p) else Essential(p') < Essential(p)
  {
    hide Total, Held, TimesPopped, TimesOverrun, Inv, Ordered, NothingLost, TokensBalance, EndedOnce;
    match s
    case StartDequeue(t) => Totals(p.n, p.q.threads, t, Dequeuing(false, false));
    case Lock(t) => LockShrinks(p, t);
    case Notify(t, w) => NotifyShrinks(p, t, w);
    case Wake(t, late) => Totals(p.n, p.q.threads, t, Awake(p.q.threads[t], late));
  }

  lemma LockShrinks(p: Pool, t: nat)
    requires PoolInv(p) && p.closing && Can(p.q, Lock(t))
    ensures var p' := p.(q := Do(p.q, Lock(t)));
            if Idling(p, Inner(Lock(t))) then Essential(p') == Essential(p) else Essential(p') < Essential(p)
  {
    hide Total, Held, TimesPopped, TimesOverrun, Inv, Ordered, NothingLost, TokensBalance, Pushed, EndedOnce;
    Totals(p.n, p.q.threads, t, Do(p.q, Lock(t)).threads[t]);
    if p.q.threads[t].Enqueuing? && !Full(p.q) {
      RoomForOne(p.q, p.q.threads[t].x);
    }
  }

  lemma NotifyShrinks(p: Pool, t: nat, w: int)
    requires PoolInv(p) && p.closing && Can(p.q, Notify(t, w))
    ensures Essential(p.(q := Do(p.q, Notify(t, w)))) < Essential(p)
  {
    hide Total, Held, TimesPopped, TimesOverrun, Inv, Ordered, NothingLost, TokensBalance, EndedOnce;
    var ph := p.q.threads[t];
    var next := if ph.NotifyPush? then Idle else Got(ph.x);
    Totals(p.n, p.q.threads, t, next);
    if w != -1 {
      Totals(p.n, p.q.threads[t := next], w, Awake(p.q.threads[w], false));
    }
  }

  lemma EssentialBound(p: Pool)
    requires PoolInv(p)
    ensures Essential(p) >= p.n - p.joined >= 0
  {
    hide Total;
  }

  // ---- Who will do it ----

  /** Thread t moves of its own accord. */
  predicate Moves(p: Pool, a: Action, t: nat) {
    !IsWake(a) &&
    match a
    case Inner(s) => s.t == t
    case Handle(w) => w == t
    case _ => p.n == t
  }

  /** The next move of thread t takes work away. */
  predicate Eager(p: Pool, t: nat) {
    t < |p.q.threads| &&
    var ph := p.q.threads[t];
    if t < p.n then ph.NotifyPop? || ph.Got? || (ph.Dequeuing? && p.q.items != [])
    else
      t == p.n &&
      (ph.NotifyPush? || (ph.Idle? && p.posted < p.n) || (ph.Enqueuing? && !Full(p.q)) || Enabled(p, Join))
  }

  /** A worker outside the queue, with something in it. */
  predicate Called(p: Pool, t: nat) {
    t < p.n && t < |p.q.threads| && p.q.threads[t].Idle? && p.q.items != []
  }

  /** notify_one has a choice of waiter, or none to wake. */
  lemma SomeNotify(q: Queue<Msg>, t: nat) returns (w: int)
    requires t < |q.threads| && (q.threads[t].NotifyPush? || q.threads[t].NotifyPop?)
    ensures Can(q, Notify(t, w))
  {
    if i :| Waits(q, i, q.threads[t].NotifyPop?) {
      w := i;
    } else {
      w := -1;
    }
  }

  /** An eager or called thread can move. */
  lemma KeenCanMove(p: Pool, t: nat) returns (a: Action)
    requires PoolInv(p) && p.closing && (Eager(p, t) || Called(p, t))
    ensures Enabled(p, a) && Moves(p, a, t)
  {
    hide Inv, Ordered, TokensBalance, NothingLost, EndedOnce;
    match p.q.threads[t]
    case Idle => a := if t < p.n then Inner(StartDequeue(t)) else if p.posted < p.n then Post else Join;
    case Got(x) => a := Handle(t);
    case Enqueuing(_, _) => a := Inner(Lock(t));
    case Dequeuing(_, _) => a := Inner(Lock(t));
    case NotifyPush =>
      var w := SomeNotify(p.q, t);
      a := Inner(Notify(t, w));
    case NotifyPop(_) =>
      var w := SomeNotify(p.q, t);
      a := Inner(Notify(t, w));
  }

  /** Idling threads leave the queue, the counters and everybody else as they are. */
  lemma IdlingFrame(p: Pool, a: Action, u: nat)
    requires PoolInv(p) && p.closing && Enabled(p, a) && Idling(p, a) && u < |p.q.threads| && u != a.s.t
    ensures var p' := Act(p, a);
            && p'.q.items == p.q.items && p'.q.cap == p.q.cap && p'.posted == p.posted && p'.joined == p.joined
            && |p'.q.threads| == |p.q.threads| && p'.q.threads[u] == p.q.threads[u]
  {
    hide PoolInv;
  }

  /** An eager thread stays eager under the others' steps until work is taken away. */
  lemma EagerStays(p: Pool, a: Action, t: nat)
    requires PoolInv(p) && p.closing && Enabled(p, a) && Eager(p, t)
    ensures Essential(Act(p, a)) < Essential(p) || (Eager(Act(p, a), t) && !Moves(p, a, t))
  {
    hide PoolInv, Essential;
    WorkShrinks(p, a);
    if Idling(p, a) {
      IdlingFrame(p, a, t);
      if Enabled(p, Join) { IdlingFrame(p, a, p.joined); }
    }
  }

  /** A called worker stays called, or takes the step that makes it eager. */
  lemma CalledStays(p: Pool, a: Action, t: nat)
    requires PoolInv(p) && p.closing && Enabled(p, a) && Called(p, t)
    ensures var p' := Act(p, a);
            || Essential(p') < Essential(p)
            || (if Moves(p, a, t) then Eager(p', t) else Called(p', t))
  {
    hide PoolInv, Essential;
    WorkShrinks(p, a);
    if Idling(p, a) && !Moves(p, a, t) {
      IdlingFrame(p, a, t);
    }
  }

  /** Nobody is keen: no notification is under way, and whoever has drawn a terminate message is gone. */
  lemma NobodyKeen(p: Pool)
    requires PoolInv(p) && p.closing && forall t :: !Eager(p, t) && !Called(p, t)
    ensures Count(p.q.threads, PushHelpers) == 0 || p.q.items == []
    ensures p.q.threads[p.n].WaitingPop? ==> Count(p.q.threads, PopHelpers) == 0
    ensures Total(Drawn, p.n, p.q.threads) == Total(Gones, p.n, p.q.threads)
  {
    hide Inv, Ordered, TokensBalance, NothingLost, Count, Total, EndedOnce;
    var ts := p.q.threads;
    CountWitness(ts, PopHelpers);
    CountWitness(ts, PushHelpers);
    forall i | 0 <= i < |ts|
      ensures Hit(PushHelpers, ts[i]) == 0 || p.q.items == []
      ensures ts[p.n].WaitingPop? ==> Hit(PopHelpers, ts[i]) == 0
      ensures i < p.n ==> !ts[i].NotifyPop? && !ts[i].Got?
    {
      assert !Eager(p, i);
    }
    DrawnAreGone(p.n, ts);
  }

  /** With no worker holding a message, only the ended have drawn a terminate message. */
  lemma {:induction false} DrawnAreGone(n: nat, ts: seq<Phase<Msg>>)
    requires forall i :: 0 <= i < |ts| && i < n ==> !ts[i].NotifyPop? && !ts[i].Got?
    ensures Total(Drawn, n, ts) == Total(Gones, n, ts)
  {
    if |ts| > 0 { DrawnAreGone(n, ts[..|ts| - 1]); }
  }

  /** A worker still there means fewer than n have ended; none there means all have. */
  lemma {:induction false} GonesCount(n: nat, ts: seq<Phase<Msg>>)
    ensures var m := if |ts| < n then |ts| else n;
            && Total(Gones, n, ts) <= m
            && (Total(Gones, n, ts) == m <==> forall i :: 0 <= i < m ==> ts[i].Gone?)
  {
    if |ts| > 0 {
      var k := |ts| - 1;
      GonesCount(n, ts[..k]);
      assert forall i :: 0 <= i < k ==> ts[..k][i] == ts[i];
    }
  }

  /** A sleeping worker with no notification under way means an empty queue. */
  lemma SleeperBlocksItems(p: Pool)
    requires Inv(p.q) && (Count(p.q.threads, PushHelpers) == 0 || p.q.items == [])
    ensures (exists t :: 0 <= t < |p.q.threads| && p.q.threads[t].WaitingPush?) ==> p.q.items == []
  {
    hide Count, Conserved;
    CountWitness(p.q.threads, PushWaiters);
    if t :| 0 <= t < |p.q.threads| && p.q.threads[t].WaitingPush? {
      assert Hit(PushWaiters, p.q.threads[t]) == 1;
    }
  }

  lemma {:induction false} FlightWitness(n: nat, ts: seq<Phase<Msg>>)
    requires n < |ts| && (ts[n].WaitingPop? || ts[n].Enqueuing?)
    ensures Total(InFlight, n, ts) >= 1
  {
    if n < |ts| - 1 { FlightWitness(n, ts[..|ts| - 1]); }
  }

  /** With nobody keen everything is done: a sleeper would need a lost wake-up, an unfinished worker a lost
      terminate message. */
  lemma NothingLeft(p: Pool)
    requires PoolInv(p) && p.closing && p.q.cap >= 1 && forall t :: !Eager(p, t) && !Called(p, t)
    ensures p.joined == p.n
  {
    hide Total, Held, TimesPopped, TimesOverrun, Count, NothingLost, Conserved, EndedOnce;
    var ts := p.q.threads;
    NobodyKeen(p);
    GonesCount(p.n, ts);
    SleeperBlocksItems(p);
    CountWitness(ts, PopWaiters);
    assert ts[p.n].WaitingPop? ==> Hit(PopWaiters, ts[p.n]) == 1;
    assert !Eager(p, p.n);
    forall t | 0 <= t < p.n && p.q.items != []
      ensures ts[t].Gone?
    {
      assert !Eager(p, t) && !Called(p, t);
    }
    if ts[p.n].Idle? {
      AllQuiet(InFlight, p.n, ts);
    } else {
      FlightWitness(p.n, ts);
    }
  }

  /** Until the last worker is joined somebody is keen. */
  lemma SomeoneKeen(p: Pool) returns (t: nat)
    requires PoolInv(p) && p.closing && p.joined < p.n && p.q.cap >= 1
    ensures Eager(p, t) || Called(p, t)
  {
    if forall u: nat :: !Eager(p, u) && !Called(p, u) {
      NothingLeft(p);
    }
    t :| Eager(p, t) || Called(p, t);
  }

  // ---- Whole shutdowns ----

  /** From state s on the destructor is at work, in any interleaving. */
  ghost predicate IsShutdown(states: seq<Pool>, acts: seq<Action>, s: nat) {
    && |states| == |acts| + 1 && s < |states|
    && (forall i :: 0 <= i < |acts| ==> Enabled(states[i], acts[i]) && states[i + 1] == Act(states[i], acts[i]))
    && forall i :: s <= i < |states| ==>
         PoolInv(states[i]) && states[i].closing && states[i].n == states[s].n && states[i].q.cap == states[s].q.cap
  }

  lemma {:induction false} ClosingStays(states: seq<Pool>, acts: seq<Action>, maxItems: nat, threadsN: nat,
      posters: nat, s: nat, i: nat)
    requires IsPoolRun(states, acts, maxItems, threadsN, posters) && s <= i < |states| && states[s].closing
    ensures states[i].closing
    decreases i
  {
    if s < i { ClosingStays(states, acts, maxItems, threadsN, posters, s, i - 1); }
  }

  lemma RunIsShutdown(states: seq<Pool>, acts: seq<Action>, maxItems: nat, threadsN: nat, posters: nat, s: nat)
    requires IsPoolRun(states, acts, maxItems, threadsN, posters) && s < |states| && states[s].closing
    ensures IsShutdown(states, acts, s)
  {
    hide PoolInv;
    forall i | s <= i < |states|
      ensures PoolInv(states[i]) && states[i].closing && states[i].n == threadsN && states[i].q.cap == maxItems
    {
      PoolRunKeepsInv(states, acts, maxItems, threadsN, posters, i);
      ClosingStays(states, acts, maxItems, threadsN, posters, s, i);
    }
  }

  /** How many of the steps from i to j took work away. */
  ghost function Shrinks(states: seq<Pool>, i: nat, j: nat): nat
    requires i <= j < |states|
  {
    if i == j then 0 else Shrinks(states, i, j - 1) + if Essential(states[j]) < Essential(states[j - 1]) then 1 else 0
  }

  /** Only so many steps take work away, however many others there are; work never comes back. */
  lemma {:induction false} ShutdownBounded(states: seq<Pool>, acts: seq<Action>, s: nat, i: nat, j: nat)
    requires IsShutdown(states, acts, s) && s <= i <= j < |states| == |acts| + 1
    ensures Shrinks(states, i, j) + Essential(states[j]) <= Essential(states[i]) && Essential(states[j]) >= 0
    ensures states[i].joined <= states[j].joined <= states[j].n
    decreases j
  {
    hide PoolInv, Essential, IsShutdown, Idling, Enabled, Act;
    InvAt(states, acts, s, i);
    InvAt(states, acts, s, j);
    EssentialBound(states[i]);
    EssentialBound(states[j]);
    if i < j {
      ShutdownBounded(states, acts, s, i, j - 1);
      StepOf(states, acts, s, j - 1);
      WorkShrinks(states[j - 1], acts[j - 1]);
      JoinsGrow(states[j - 1], acts[j - 1]);
    }
  }

  lemma JoinsGrow(p: Pool, a: Action)
    requires Enabled(p, a)
    ensures Act(p, a).joined >= p.joined
  {}

  // ---- Rounds ----

  ghost predicate CanMove(p: Pool, t: nat) { exists a :: Enabled(p, a) && Moves(p, a, t) }

  ghost predicate MovesIn(states: seq<Pool>, acts: seq<Action>, lo: nat, hi: nat, t: nat)
    requires hi <= |acts| <= |states|
  {
    exists k :: lo <= k < hi && Moves(states[k], acts[k], t)
  }

  ghost predicate RestsIn(states: seq<Pool>, lo: nat, hi: nat, t: nat)
    requires hi < |states|
  {
    exists k :: lo <= k <= hi && !CanMove(states[k], t)
  }

  /** Every thread of the pool moves in the round, or could not at some time in it. Waking up from a wait
      is not asked of anybody. */
  ghost predicate FairRound(states: seq<Pool>, acts: seq<Action>, lo: nat, hi: nat) {
    && lo <= hi < |states| == |acts| + 1
    && forall t: nat :: t <= states[lo].n ==> MovesIn(states, acts, lo, hi, t) || RestsIn(states, lo, hi, t)
  }

  lemma MovesInNext(states: seq<Pool>, acts: seq<Action>, lo: nat, k: nat, t: nat)
    requires lo <= k < |acts| <= |states|
    ensures MovesIn(states, acts, lo, k + 1, t) <==> MovesIn(states, acts, lo, k, t) || Moves(states[k], acts[k], t)
    ensures !MovesIn(states, acts, lo, lo, t)
  {
    hide Moves;
  }

  lemma StepOf(states: seq<Pool>, acts: seq<Action>, s: nat, k: nat)
    requires IsShutdown(states, acts, s) && s <= k < |acts|
    ensures PoolInv(states[k]) && states[k].closing && Enabled(states[k], acts[k]) &&
        states[k + 1] == Act(states[k], acts[k])
  {
    hide PoolInv;
  }

  lemma {:induction false} EagerAlong(states: seq<Pool>, acts: seq<Action>, s: nat, lo: nat, k: nat, t: nat)
    requires IsShutdown(states, acts, s) && s <= lo <= k < |states| == |acts| + 1 && Eager(states[lo], t)
    ensures Essential(states[k]) < Essential(states[lo]) || (Eager(states[k], t) && !MovesIn(states, acts, lo, k, t))
    decreases k
  {
    hide PoolInv, Essential, Eager, Moves, MovesIn, IsShutdown;
    if lo < k {
      EagerAlong(states, acts, s, lo, k - 1, t);
      StepOf(states, acts, s, k - 1);
      MovesInNext(states, acts, lo, k - 1, t);
      ShutdownBounded(states, acts, s, k - 1, k);
      ShutdownBounded(states, acts, s, lo, k - 1);
      if Eager(states[k - 1], t) { EagerStays(states[k - 1], acts[k - 1], t); }
    } else {
      NoMoveYet(states, acts, lo, t);
    }
  }

  lemma NoMoveYet(states: seq<Pool>, acts: seq<Action>, lo: nat, t: nat)
    requires lo <= |acts| <= |states|
    ensures !MovesIn(states, acts, lo, lo, t)
  {}

  lemma {:induction false} CalledAlong(states: seq<Pool>, acts: seq<Action>, s: nat, lo: nat, k: nat, t: nat)
    requires IsShutdown(states, acts, s) && s <= lo <= k < |states| == |acts| + 1 && Called(states[lo], t)
    ensures || Essential(states[k]) < Essential(states[lo])
            || Eager(states[k], t)
            || (Called(states[k], t) && !MovesIn(states, acts, lo, k, t))
    decreases k
  {
    hide PoolInv, Essential, Eager, Called, Moves, MovesIn, IsShutdown;
    if lo < k {
      CalledAlong(states, acts, s, lo, k - 1, t);
      StepOf(states, acts, s, k - 1);
      MovesInNext(states, acts, lo, k - 1, t);
      ShutdownBounded(states, acts, s, k - 1, k);
      ShutdownBounded(states, acts, s, lo, k - 1);
      if Eager(states[k - 1], t) {
        EagerStays(states[k - 1], acts[k - 1], t);
      } else if Called(states[k - 1], t) {
        CalledStays(states[k - 1], acts[k - 1], t);
      }
    } else {
      NoMoveYet(states, acts, lo, t);
    }
  }

  lemma KeenInRange(p: Pool, t: nat)
    requires Eager(p, t) || Called(p, t)
    ensures t <= p.n
  {}

  lemma InvAt(states: seq<Pool>, acts: seq<Action>, s: nat, k: nat)
    requires IsShutdown(states, acts, s) && s <= k < |states|
    ensures PoolInv(states[k]) && states[k].closing && states[k].n == states[s].n && states[k].q.cap == states[s].q.cap
  {
    hide PoolInv;
  }

  /** A fair round without a move of t has a state in which t could not move. */
  lemma FairFor(states: seq<Pool>, acts: seq<Action>, lo: nat, hi: nat, t: nat) returns (k: nat)
    requires FairRound(states, acts, lo, hi) && t <= states[lo].n && !MovesIn(states, acts, lo, hi, t)
    ensures lo <= k <= hi && !CanMove(states[k], t)
  {
    hide CanMove, MovesIn;
    k :| lo <= k <= hi && !CanMove(states[k], t);
  }

  /** An eager thread takes work away within a round, unless somebody else does. */
  lemma EagerRound(states: seq<Pool>, acts: seq<Action>, s: nat, lo: nat, hi: nat, t: nat)
    requires IsShutdown(states, acts, s) && s <= lo && FairRound(states, acts, lo, hi) && Eager(states[lo], t)
    ensures Essential(states[hi]) < Essential(states[lo])
  {
    hide PoolInv, Essential, Eager, Called, Moves, CanMove, MovesIn, FairRound, IsShutdown;
    RoundOrder(states, acts, lo, hi);
    KeenInRange(states[lo], t);
    EagerAlong(states, acts, s, lo, hi, t);
    if !MovesIn(states, acts, lo, hi, t) {
      var k := FairFor(states, acts, lo, hi, t);
      EagerAlong(states, acts, s, lo, k, t);
      ShutdownBounded(states, acts, s, k, hi);
      InvAt(states, acts, s, k);
      CanMoveBy(states[k], t);
    }
  }

  lemma CanMoveBy(p: Pool, t: nat)
    requires PoolInv(p) && p.closing
    ensures Eager(p, t) || Called(p, t) ==> CanMove(p, t)
  {
    hide PoolInv, Eager, Called;
    if Eager(p, t) || Called(p, t) {
      var a := KeenCanMove(p, t);
    }
  }

  /** A called worker is eager after a round, unless work has been taken away. */
  lemma CalledRound(states: seq<Pool>, acts: seq<Action>, s: nat, lo: nat, hi: nat, t: nat)
    requires IsShutdown(states, acts, s) && s <= lo && FairRound(states, acts, lo, hi) && Called(states[lo], t)
    ensures Essential(states[hi]) < Essential(states[lo]) || Eager(states[hi], t)
  {
    hide PoolInv, Essential, Eager, Called, Moves, CanMove, MovesIn, FairRound, IsShutdown;
    RoundOrder(states, acts, lo, hi);
    KeenInRange(states[lo], t);
    CalledAlong(states, acts, s, lo, hi, t);
    if !MovesIn(states, acts, lo, hi, t) {
      var k := FairFor(states, acts, lo, hi, t);
      CalledAlong(states, acts, s, lo, k, t);
      ShutdownBounded(states, acts, s, k, hi);
      InvAt(states, acts, s, k);
      CanMoveBy(states[k], t);
    }
  }

  /** Two rounds take work away unless everybody is joined. */
  lemma TwoRounds(states: seq<Pool>, acts: seq<Action>, s: nat, lo: nat, mid: nat, hi: nat)
    requires IsShutdown(states, acts, s) && s <= lo && states[s].q.cap >= 1
    requires FairRound(states, acts, lo, mid) && FairRound(states, acts, mid, hi)
    ensures states[hi].joined == states[hi].n || Essential(states[hi]) < Essential(states[lo])
  {
    hide PoolInv, Essential, Eager, Called, FairRound, IsShutdown;
    RoundOrder(states, acts, lo, mid);
    RoundOrder(states, acts, mid, hi);
    InvAt(states, acts, s, lo);
    InvAt(states, acts, s, hi);
    ShutdownBounded(states, acts, s, lo, hi);
    ShutdownBounded(states, acts, s, lo, mid);
    ShutdownBounded(states, acts, s, mid, hi);
    if states[lo].joined < states[lo].n {
      var t := SomeoneKeen(states[lo]);
      if Eager(states[lo], t) {
        EagerRound(states, acts, s, lo, mid, t);
      } else {
        CalledRound(states, acts, s, lo, mid, t);
        if Eager(states[mid], t) { EagerRound(states, acts, s, mid, hi, t); }
      }
    }
  }

  /** marks[0], marks[1], ... cut the run into fair rounds. */
  ghost predicate FairRounds(states: seq<Pool>, acts: seq<Action>, marks: seq<nat>) {
    && |marks| >= 1 && |states| == |acts| + 1 && marks[0] < |states|
    && forall i :: 0 <= i < |marks| - 1 ==> FairRound(states, acts, marks[i], marks[i + 1])
  }

  lemma {:induction false} MarksGrow(states: seq<Pool>, acts: seq<Action>, marks: seq<nat>, i: nat)
    requires FairRounds(states, acts, marks) && i < |marks|
    ensures marks[0] <= marks[i] < |states|
  {
    if i > 0 {
      MarksGrow(states, acts, marks, i - 1);
      assert FairRound(states, acts, marks[i - 1], marks[i]);
    }
  }

  /** After 2k rounds everybody is joined or k pieces of work are gone. */
  lemma {:induction false} RoundsWork(states: seq<Pool>, acts: seq<Action>, s: nat, marks: seq<nat>, k: nat)
    requires IsShutdown(states, acts, s) && states[s].q.cap >= 1
    requires FairRounds(states, acts, marks) && s <= marks[0] && 2 * k < |marks|
    ensures marks[2 * k] < |states|
    ensures var p := states[marks[2 * k]]; p.joined == p.n || Essential(p) <= Essential(states[marks[0]]) - k
    decreases k
  {
    hide PoolInv, Essential, FairRound;
    MarksGrow(states, acts, marks, 2 * k);
    if k > 0 {
      var lo, mid, hi := marks[2 * k - 2], marks[2 * k - 1], marks[2 * k];
      RoundsWork(states, acts, s, marks, k - 1);
      MarksGrow(states, acts, marks, 2 * k - 2);
      MarksGrow(states, acts, marks, 2 * k - 1);
      assert FairRound(states, acts, marks[2 * k - 2], marks[2 * k - 2 + 1]);
      assert FairRound(states, acts, marks[2 * k - 1], marks[2 * k - 1 + 1]);
      TwoRounds(states, acts, s, lo, mid, hi);
      RoundOrder(states, acts, lo, mid);
      RoundOrder(states, acts, mid, hi);
      ShutdownBounded(states, acts, s, lo, hi);
    }
  }

  lemma RoundOrder(states: seq<Pool>, acts: seq<Action>, lo: nat, hi: nat)
    requires FairRound(states, acts, lo, hi)
    ensures lo <= hi < |states| == |acts| + 1
  {}

  /** A shutdown of enough fair rounds ends with every worker joined. */
  lemma ShutdownEnds(states: seq<Pool>, acts: seq<Action>, s: nat, marks: seq<nat>)
    requires IsShutdown(states, acts, s) && states[s].q.cap >= 1
    requires FairRounds(states, acts, marks) && s <= marks[0] && |marks| > 2 * Essential(states[marks[0]])
    ensures marks[|marks| - 1] < |states|
    ensures states[marks[|marks| - 1]].joined == states[s].n
  {
    hide PoolInv, Essential, FairRound;
    ShutdownBounded(states, acts, s, marks[0], marks[0]);
    var k := Essential(states[marks[0]]);
    RoundsWork(states, acts, s, marks, k);
    MarksGrow(states, acts, marks, |marks| - 1);
    MarksGrow(states, acts, marks, 2 * k);
    EssentialBound(states[marks[2 * k]]);
    MarksOrdered(states, acts, marks, 2 * k, |marks| - 1);
    ShutdownBounded(states, acts, s, marks[2 * k], marks[|marks| - 1]);
  }

  lemma {:induction false} MarksOrdered(states: seq<Pool>, acts: seq<Action>, marks: seq<nat>, i: nat, j: nat)
    requires FairRounds(states, acts, marks) && i <= j < |marks|
    ensures marks[i] <= marks[j]
    decreases j
  {
    hide FairRound;
    if i < j {
      MarksOrdered(states, acts, marks, i, j - 1);
      RoundOrder(states, acts, marks[j - 1], marks[j - 1 + 1]);
    }
  }

  /** Thread t moves between lo and the end of the run, or cannot. */
  ghost predicate Served(states: seq<Pool>, acts: seq<Action>, lo: nat, t: nat) {
    && |states| == |acts| + 1
    && (MovesIn(states, acts, lo, |acts|, t) || RestsIn(states, lo, |acts|, t))
  }

  lemma ServedStays(states: seq<Pool>, acts: seq<Action>, p: Pool, a: Action, lo: nat, t: nat)
    requires Served(states, acts, lo, t)
    ensures Served(states + [p], acts + [a], lo, t)
  {
    hide Moves, CanMove;
    var states', acts' := states + [p], acts + [a];
    if k :| lo <= k < |acts| && Moves(states[k], acts[k], t) {
      assert Moves(states'[k], acts'[k], t);
    } else {
      var k :| lo <= k <= |acts| && !CanMove(states[k], t);
      assert !CanMove(states'[k], t);
    }
  }

  lemma ServesOne(states: seq<Pool>, acts: seq<Action>, p: Pool, a: Action, lo: nat, t: nat)
    requires |states| == |acts| + 1 && lo <= |acts| && Moves(states[|acts|], a, t)
    ensures Served(states + [p], acts + [a], lo, t)
  {
    hide Moves, CanMove;
    var states', acts' := states + [p], acts + [a];
    assert Moves(states'[|acts|], acts'[|acts|], t);
  }

  /** Serves the threads from t on, one after the other. */
  lemma ServeRest(states: seq<Pool>, acts: seq<Action>, maxItems: nat, threadsN: nat, posters: nat, lo: nat, t: nat)
    returns (states': seq<Pool>, acts': seq<Action>)
    requires IsPoolRun(states, acts, maxItems, threadsN, posters) && lo <= |acts| && t <= threadsN + 1
    requires forall u: nat :: u < t ==> Served(states, acts, lo, u)
    ensures IsPoolRun(states', acts', maxItems, threadsN, posters) && states <= states' && acts <= acts'
    ensures forall u: nat :: u <= threadsN ==> Served(states', acts', lo, u)
    decreases threadsN + 1 - t
  {
    hide Served, Moves, CanMove, Act, Enabled;
    if t == threadsN + 1 {
      return states, acts;
    }
    var p := states[|acts|];
    if CanMove(p, t) {
      var a := MoveOf(p, t);
      var more, done := states + [Act(p, a)], acts + [a];
      ServesOne(states, acts, Act(p, a), a, lo, t);
      forall u: nat | u < t ensures Served(more, done, lo, u) { ServedStays(states, acts, Act(p, a), a, lo, u); }
      states', acts' := ServeRest(more, done, maxItems, threadsN, posters, lo, t + 1);
    } else {
      RestServes(states, acts, lo, t);
      states', acts' := ServeRest(states, acts, maxItems, threadsN, posters, lo, t + 1);
    }
  }

  lemma MoveOf(p: Pool, t: nat) returns (a: Action)
    requires CanMove(p, t)
    ensures Enabled(p, a) && Moves(p, a, t)
  {
    hide Moves, Enabled;
    a :| Enabled(p, a) && Moves(p, a, t);
  }

  lemma RestServes(states: seq<Pool>, acts: seq<Action>, lo: nat, t: nat)
    requires |states| == |acts| + 1 && lo <= |acts| && !CanMove(states[|acts|], t)
    ensures Served(states, acts, lo, t)
  {
    hide CanMove;
  }

  /** Every run can be continued by a fair round. */
  lemma FairRoundAhead(states: seq<Pool>, acts: seq<Action>, maxItems: nat, threadsN: nat, posters: nat)
    returns (states': seq<Pool>, acts': seq<Action>)
    requires IsPoolRun(states, acts, maxItems, threadsN, posters)
    ensures IsPoolRun(states', acts', maxItems, threadsN, posters) && states <= states' && acts <= acts'
    ensures FairRound(states', acts', |acts|, |acts'|)
  {
    hide MovesIn, RestsIn, Enabled, Act;
    states', acts' := ServeRest(states, acts, maxItems, threadsN, posters, |acts|, 0);
    PoolSize(states', acts', maxItems, threadsN, posters, |acts|);
    forall t: nat | t <= states'[|acts|].n
      ensures MovesIn(states', acts', |acts|, |acts'|, t) || RestsIn(states', |acts|, |acts'|, t)
    {
      assert Served(states', acts', |acts|, t);
    }
  }

  lemma PoolSize(states: seq<Pool>, acts: seq<Action>, maxItems: nat, threadsN: nat, posters: nat, i: nat)
    requires IsPoolRun(states, acts, maxItems, threadsN, posters) && i < |states|
    ensures states[i].n == threadsN
  {
    PoolRunKeepsInv(states, acts, maxItems, threadsN, posters, i);
  }

  /** All the work there can be. */
  lemma {:induction false} WeightBound(n: nat, ts: seq<Phase<Msg>>)
    ensures Total(Weight, n, ts) <= (if |ts| <= n then 2 * |ts| else 2 * n + 5)
  {
    if |ts| > 0 { WeightBound(n, ts[..|ts| - 1]); }
  }

  lemma EssentialAtMost(p: Pool)
    requires PoolInv(p)
    ensures Essential(p) <= 9 * p.n + 3 * p.q.cap + 5
  {
    hide Total;
    WeightBound(p.n, p.q.threads);
  }

  /** When the last worker is joined: the queue is empty, each worker has acted on exactly one terminate
      message, and every message ever pushed was handled, but for those overrun before. */
  lemma JoinedAll(p: Pool)
    requires PoolInv(p) && p.closing && p.joined == p.n
    ensures p.q.items == []
    ensures forall i :: 0 <= i < p.n ==> p.q.threads[i].Gone?
    ensures multiset(p.handled)[Terminate] == p.n && forall w: nat :: multiset(p.ended)[w] == if w < p.n then 1 else 0
    ensures forall m :: multiset(p.q.pushed)[m] == multiset(p.handled)[m] + TimesOverrun(p.q.removed, m)
    ensures TimesOverrun(p.q.removed, Terminate) == 0
  {
    hide Total, Held, TimesPopped, TimesOverrun, Values;
    var ts := p.q.threads;
    GonesCount(p.n, ts);
    DrawnAreGone(p.n, ts);
    FirstCounts(p.q.items);
    forall m
      ensures multiset(p.q.pushed)[m] == multiset(p.handled)[m] + TimesOverrun(p.q.removed, m)
    {
      HoldsNone(ts, m);
      RemovedBothWays(p.q.removed, m);
    }
  }

  lemma {:induction false} RemovedBothWays(rs: seq<Removal<Msg>>, m: Msg)
    ensures multiset(Values(rs))[m] == TimesPopped(rs, m) + TimesOverrun(rs, m)
  {
    if |rs| > 0 { RemovedBothWays(rs[..|rs| - 1], m); }
  }

  lemma FirstCounts(s: seq<Msg>)
    ensures s != [] ==> multiset(s)[s[0]] >= 1
  {}

  // ---- Every message posted ----

  /** The action asks for m to be enqueued: a poster's message, or a terminate message of the destructor. */
  predicate PoolPosts(a: Action, m: Msg) {
    match a
    case Inner(s) => (s.StartEnqueue? || s.StartEnqueueNow?) && s.x == m
    case Post => m == Terminate
    case _ => false
  }

  function TimesPosted(acts: seq<Action>, m: Msg): nat {
    if |acts| == 0 then 0
    else TimesPosted(acts[..|acts| - 1], m) + (if PoolPosts(acts[|acts| - 1], m) then 1 else 0)
  }

  lemma ActAccounts(p: Pool, a: Action, m: Msg)
    requires Enabled(p, a)
    ensures Accounted(Act(p, a).q, m) == Accounted(p.q, m) + (if PoolPosts(a, m) then 1 else 0)
  {
    hide Carried, Accounted, Can, Do;
    match a
    case Inner(s) => StepAccounts(p.q, s, m);
    case Handle(w) => HandleAccounts(p.q, w, Act(p, a).q.threads[w], m);
    case Close =>
    case Post => PostAccounts(p, m);
    case Join =>
  }

  lemma HandleAccounts(q: Queue<Msg>, w: nat, ph: Phase<Msg>, m: Msg)
    requires w < |q.threads| && q.threads[w].Got? && (ph.Idle? || ph.Gone?)
    ensures Accounted(Moved(q, w, ph), m) == Accounted(q, m)
  {
    hide Carried;
    CarriedUpdate(q.threads, w, ph, m);
  }

  lemma PostAccounts(p: Pool, m: Msg)
    requires Enabled(p, Post)
    ensures Accounted(Act(p, Post).q, m) == Accounted(p.q, m) + (if m == Terminate then 1 else 0)
  {
    hide Accounted;
    StepAccounts(p.q, StartEnqueue(p.n, Terminate), m);
  }

  /** Over any run of the pool: whatever was posted has been pushed, or a thread still carries it. */
  lemma {:induction false} PoolAccounts(states: seq<Pool>, acts: seq<Action>, maxItems: nat, threadsN: nat,
      posters: nat, i: nat, m: Msg)
    requires IsPoolRun(states, acts, maxItems, threadsN, posters) && i < |states|
    ensures TimesPosted(acts[..i], m) == multiset(states[i].q.pushed)[m] + Carried(states[i].q.threads, m)
  {
    hide Carried, Enabled, Act;
    if i == 0 {
      CarriedNone(states[0].q.threads, m);
    } else {
      PoolAccounts(states, acts, maxItems, threadsN, posters, i - 1, m);
      ActAccounts(states[i - 1], acts[i - 1], m);
      assert acts[..i][..i - 1] == acts[..i - 1];
    }
  }

  lemma NobodyCarries(p: Pool, m: Msg)
    requires PoolInv(p) && p.closing && p.joined == p.n
    ensures Carried(p.q.threads, m) == 0
  {
    hide Carried, Inv, Ordered, NothingLost, Total, EndedOnce;
    var ts := p.q.threads;
    JoinedAll(p);
    if ts[p.n].Enqueuing? || ts[p.n].WaitingPop? { FlightWitness(p.n, ts); }
    AllDrawn(p);
    CarriedNone(ts, m);
  }

  /** With every worker gone every terminate message has been drawn. */
  lemma AllDrawn(p: Pool)
    requires PoolInv(p) && p.closing && p.joined == p.n
    ensures Total(InFlight, p.n, p.q.threads) == 0
  {
    hide Total, Inv, Ordered, NothingLost, EndedOnce;
    JoinedAll(p);
    GonesCount(p.n, p.q.threads);
    DrawnAreGone(p.n, p.q.threads);
  }

  /** The destructor returns: from the constructor on, in any interleaving with any time-outs, once it has
      begun and enough fair rounds have passed every worker is joined, and then the queue is empty, each worker
      has taken one terminate message, and every message ever posted was handled or overrun. */
  lemma ShutdownCompletes(states: seq<Pool>, acts: seq<Action>, maxItems: nat, threadsN: nat, posters: nat,
      marks: seq<nat>)
    requires IsPoolRun(states, acts, maxItems, threadsN, posters) && maxItems >= 1
    requires FairRounds(states, acts, marks) && states[marks[0]].closing
    requires |marks| > 2 * (9 * threadsN + 3 * maxItems + 5)
    ensures marks[|marks| - 1] < |states|
    ensures var p := states[marks[|marks| - 1]];
            && p.joined == threadsN && p.q.items == []
            && (forall w: nat :: multiset(p.ended)[w] == if w < threadsN then 1 else 0)
            && (forall m :: TimesPosted(acts[..marks[|marks| - 1]], m) ==
                              multiset(p.handled)[m] + TimesOverrun(p.q.removed, m))
            && TimesOverrun(p.q.removed, Terminate) == 0
  {
    hide PoolInv, Essential, FairRound, IsShutdown, TimesPosted, TimesOverrun, Carried;
    var s, e := marks[0], marks[|marks| - 1];
    RunIsShutdown(states, acts, maxItems, threadsN, posters, s);
    PoolRunKeepsInv(states, acts, maxItems, threadsN, posters, s);
    EssentialAtMost(states[s]);
    ShutdownEnds(states, acts, s, marks);
    MarksGrow(states, acts, marks, |marks| - 1);
    InvAt(states, acts, s, e);
    JoinedAll(states[e]);
    forall m
      ensures TimesPosted(acts[..e], m) == multiset(states[e].handled)[m] + TimesOverrun(states[e].q.removed, m)
    {
      PoolAccounts(states, acts, maxItems, threadsN, posters, e, m);
      NobodyCarries(states[e], m);
    }
  }
}
