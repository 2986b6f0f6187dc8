/** The worker pool on the blocking queue, and its shutdown by one terminate message per worker. */
module ThreadPool {
  import opened CircularQ
  import opened BlockingQueue

  datatype Msg = Log(id: nat) | Flush(id: nat) | Terminate

  /** Threads 0 .. n-1 are the workers, thread n runs the destructor, the rest post messages. */
  datatype Pool = Pool(
    q: Queue<Msg>,
    n: nat,
    closing: bool,      // the destructor has started; nobody else posts any more
    posted: nat,        // terminate messages the destructor has begun to post
    joined: nat,        // workers joined
    handled: seq<Msg>,  // messages the workers have acted on
    ended: seq<nat>     // workers that acted on a terminate message
  )

  datatype Action =
    | Inner(s: Step<Msg>)  // a queue step of some thread
    | Handle(w: nat)       // a worker acts on the message it got
    | Close                // the destructor starts
    | Post                 // the destructor begins to post a terminate message
    | Join                 // the destructor joins the next worker

  datatype Option<T> = None | Some(value: T)

  /** The constructor refuses a thread count of zero or above a thousand. */
  function NewPool(maxItems: nat, threadsN: nat, posters: nat): Option<Pool> {
    if threadsN == 0 || threadsN > 1000 then None
    else Some(Pool(Queue(maxItems, [], seq(threadsN + 1 + posters, _ => Idle), [], [], false),
                   threadsN, false, 0, 0, [], []))
  }

  predicate Allowed(p: Pool, s: Step<Msg>) {
    match s
    case StartEnqueue(t, x) => t > p.n && !p.closing && x != Terminate
    case StartEnqueueNow(t, x) => t > p.n && !p.closing && x != Terminate
    case StartDequeue(t) => t < p.n
    case Take(_) => false
    case Leave(_) => false
    case _ => true
  }

  predicate Enabled(p: Pool, a: Action) {
    match a
    case Inner(s) => Can(p.q, s) && Allowed(p, s)
    case Handle(w) => w < p.n && w < |p.q.threads| && p.q.threads[w].Got?
    case Close => !p.closing && forall i :: p.n <= i < |p.q.threads| ==> p.q.threads[i].Idle?
    case Post => p.closing && p.posted < p.n < |p.q.threads| && p.q.threads[p.n].Idle?
    case Join =>
      && p.closing && p.posted == p.n < |p.q.threads| && p.q.threads[p.n].Idle?
      && p.joined < p.n && p.q.threads[p.joined].Gone?
  }

  function Act(p: Pool, a: Action): Pool
    requires Enabled(p, a)
  {
    match a
    case Inner(s) => p.(q := Do(p.q, s))
    case Handle(w) =>
      var m := p.q.threads[w].x;
      p.(q := Moved(p.q, w, if m == Terminate then Gone else Idle), handled := p.handled + [m],
         ended := if m == Terminate then p.ended + [w] else p.ended)
    case Close => p.(closing := true)
    case Post => p.(q := Do(p.q, StartEnqueue(p.n, Terminate)), posted := p.posted + 1)
    case Join => p.(joined := p.joined + 1)
  }

  // ---- Gauges over the threads ----

  datatype Gauge = InFlight | Drawn | Gones | Weight

  /** A terminate message the destructor is still posting; a worker that holds one or was ended by it; an
      ended worker; the work left in a phase. */
  function Reading(g: Gauge, n: nat, i: nat, p: Phase<Msg>): nat {
    match g
    case InFlight => if i == n && (p.Enqueuing? || p.WaitingPop?) then 1 else 0
    case Drawn => if i < n && (p.Gone? || ((p.NotifyPop? || p.Got?) && p.x == Terminate)) then 1 else 0
    case Gones => if i < n && p.Gone? then 1 else 0
    case Weight =>
      if i < n then if p.NotifyPop? then 2 else if p.Got? then 1 else 0
      else if i == n then if p.Enqueuing? || p.WaitingPop? then 5 else if p.NotifyPush? then 1 else 0
      else 0
  }

  function Total(g: Gauge, n: nat, ts: seq<Phase<Msg>>): nat {
    if |ts| == 0 then 0 else Total(g, n, ts[..|ts| - 1]) + Reading(g, n, |ts| - 1, ts[|ts| - 1])
  }

  lemma {:induction false} TotalUpdate(g: Gauge, n: nat, ts: seq<Phase<Msg>>, i: nat, p: Phase<Msg>)
    requires i < |ts|
    ensures Total(g, n, ts[i := p]) == Total(g, n, ts) - Reading(g, n, i, ts[i]) + Reading(g, n, i, p)
  {
    var m := |ts| - 1;
    if i == m {
      assert ts[i := p][..m] == ts[..m];
    } else {
      assert ts[i := p][..m] == ts[..m][i := p];
      TotalUpdate(g, n, ts[..m], i, p);
    }
  }

  lemma Totals(n: nat, ts: seq<Phase<Msg>>, i: nat, p: Phase<Msg>)
    requires i < |ts|
    ensures Total(InFlight, n, ts[i := p]) ==
        Total(InFlight, n, ts) - Reading(InFlight, n, i, ts[i]) + Reading(InFlight, n, i, p)
    ensures Total(Drawn, n, ts[i := p]) == Total(Drawn, n, ts) - Reading(Drawn, n, i, ts[i]) + Reading(Drawn, n, i, p)
    ensures Total(Gones, n, ts[i := p]) == Total(Gones, n, ts) - Reading(Gones, n, i, ts[i]) + Reading(Gones, n, i, p)
    ensures Total(Weight, n, ts[i := p]) ==
        Total(Weight, n, ts) - Reading(Weight, n, i, ts[i]) + Reading(Weight, n, i, p)
  {
    TotalUpdate(InFlight, n, ts, i, p);
    TotalUpdate(Drawn, n, ts, i, p);
    TotalUpdate(Gones, n, ts, i, p);
    TotalUpdate(Weight, n, ts, i, p);
  }

  /** How often a worker holds m: taken out but not acted on. */
  function InHand(p: Phase<Msg>, m: Msg): nat {
    if (p.NotifyPop? || p.Got?) && p.x == m then 1 else 0
  }

  function Held(ts: seq<Phase<Msg>>, m: Msg): nat {
    if |ts| == 0 then 0 else Held(ts[..|ts| - 1], m) + InHand(ts[|ts| - 1], m)
  }

  lemma {:induction false} HeldUpdate(ts: seq<Phase<Msg>>, i: nat, p: Phase<Msg>, m: Msg)
    requires i < |ts|
    ensures Held(ts[i := p], m) == Held(ts, m) - InHand(ts[i], m) + InHand(p, m)
  {
    var k := |ts| - 1;
    if i == k {
      assert ts[i := p][..k] == ts[..k];
    } else {
      assert ts[i := p][..k] == ts[..k][i := p];
      HeldUpdate(ts[..k], i, p, m);
    }
  }

  /** How often m left the queue through a worker, and how often it was overrun. */
  function TimesPopped(rs: seq<Removal<Msg>>, m: Msg): nat {
    if |rs| == 0 then 0 else TimesPopped(rs[..|rs| - 1], m) + (if rs[|rs| - 1] == Popped(m) then 1 else 0)
  }

  function TimesOverrun(rs: seq<Removal<Msg>>, m: Msg): nat {
    if |rs| == 0 then 0 else TimesOverrun(rs[..|rs| - 1], m) + (if rs[|rs| - 1] == Overrun(m) then 1 else 0)
  }

  lemma TimesPush(rs: seq<Removal<Msg>>, r: Removal<Msg>, m: Msg)
    ensures TimesPopped(rs + [r], m) == TimesPopped(rs, m) + (if r == Popped(m) then 1 else 0)
    ensures TimesOverrun(rs + [r], m) == TimesOverrun(rs, m) + (if r == Overrun(m) then 1 else 0)
  {
    assert (rs + [r])[..|rs|] == rs;
  }

  // ---- The invariant ----

  predicate WorkerPhase(p: Phase<Msg>) {
    p.Idle? || p.Dequeuing? || p.WaitingPush? || p.NotifyPop? || p.Got? || p.Gone?
  }

  predicate DestructorPhase(p: Phase<Msg>) {
    p.Idle? || ((p.Enqueuing? || p.WaitingPop?) && p.x == Terminate) || p.NotifyPush?
  }

  predicate PosterPhase(p: Phase<Msg>) {
    p.Idle? || ((p.Enqueuing? || p.EnqueuingNow? || p.WaitingPop?) && p.x != Terminate) || p.NotifyPush?
  }

  ghost predicate Roles(p: Pool) {
    && |p.q.threads| > p.n
    && (forall i :: 0 <= i < p.n ==> WorkerPhase(p.q.threads[i]))
    && DestructorPhase(p.q.threads[p.n])
    && (forall i :: p.n < i < |p.q.threads| ==> PosterPhase(p.q.threads[i]))
    && (if p.closing then forall i :: p.n < i < |p.q.threads| ==> p.q.threads[i].Idle?
        else p.posted == 0 && p.q.threads[p.n].Idle?)
    && EndedOnce(p.ended, p.n, p.q.threads)
  }

  /** A worker that is gone has acted on one terminate message, the others on none. */
  ghost predicate EndedOnce(ended: seq<nat>, n: nat, ts: seq<Phase<Msg>>) {
    forall w: nat :: multiset(ended)[w] == if w < n && w < |ts| && ts[w].Gone? then 1 else 0
  }

  /** Terminate messages are only at the back, and once one is out nothing else is left in the queue. */
  ghost predicate Ordered(p: Pool) {
    && (forall i, j :: 0 <= i < j < |p.q.items| && p.q.items[i] == Terminate ==> p.q.items[j] == Terminate)
    && (Total(Drawn, p.n, p.q.threads) > 0 ==>
          forall i :: 0 <= i < |p.q.items| ==> p.q.items[i] == Terminate)
  }

  /** Every terminate message is being posted, in the queue, or drawn by the one worker it ends. */
  ghost predicate TokensBalance(p: Pool) {
    && p.posted <= p.n && p.joined <= p.n
    && Total(InFlight, p.n, p.q.threads) + multiset(p.q.items)[Terminate] + Total(Drawn, p.n, p.q.threads) == p.posted
    && (forall i :: 0 <= i < p.joined && i < |p.q.threads| ==> p.q.threads[i].Gone?)
  }

  /** Every message popped has been handled or is in a worker's hands; no terminate message is overrun. */
  ghost predicate NothingLost(p: Pool) {
    && (forall m :: TimesPopped(p.q.removed, m) == multiset(p.handled)[m] + Held(p.q.threads, m))
    && TimesOverrun(p.q.removed, Terminate) == 0
    && multiset(p.handled)[Terminate] == Total(Gones, p.n, p.q.threads)
  }

  ghost predicate PoolInv(p: Pool) {
    Inv(p.q) && p.n >= 1 && Roles(p) && Ordered(p) && TokensBalance(p) && NothingLost(p)
  }

  lemma EndedSame(ended: seq<nat>, n: nat, ts: seq<Phase<Msg>>, t: nat, ph: Phase<Msg>)
    requires EndedOnce(ended, n, ts) && t < |ts| && ts[t].Gone? == ph.Gone?
    ensures EndedOnce(ended, n, ts[t := ph])
  {
    forall w: nat ensures multiset(ended)[w] == if w < n && w < |ts| && ts[t := ph][w].Gone? then 1 else 0 {
      assert multiset(ended)[w] == if w < n && w < |ts| && ts[w].Gone? then 1 else 0;
    }
  }

  lemma EndedMore(ended: seq<nat>, n: nat, ts: seq<Phase<Msg>>, w: nat)
    requires EndedOnce(ended, n, ts) && w < n && w < |ts| && !ts[w].Gone?
    ensures EndedOnce(ended + [w], n, ts[w := Gone])
  {
    assert multiset(ended + [w]) == multiset(ended) + multiset{w};
  }

  lemma {:induction false} AllQuiet(g: Gauge, n: nat, ts: seq<Phase<Msg>>)
    requires forall i :: 0 <= i < |ts| ==> Reading(g, n, i, ts[i]) == 0
    ensures Total(g, n, ts) == 0
  {
    if |ts| > 0 { AllQuiet(g, n, ts[..|ts| - 1]); }
  }

  lemma {:induction false} HoldsNone(ts: seq<Phase<Msg>>, m: Msg)
    requires forall i :: 0 <= i < |ts| ==> InHand(ts[i], m) == 0
    ensures Held(ts, m) == 0
  {
    if |ts| > 0 { HoldsNone(ts[..|ts| - 1], m); }
  }

  lemma NewPoolInv(maxItems: nat, threadsN: nat, posters: nat)
    ensures NewPool(maxItems, threadsN, posters).None? <==> threadsN == 0 || threadsN > 1000
    ensures NewPool(maxItems, threadsN, posters).Some? ==> PoolInv(NewPool(maxItems, threadsN, posters).value)
  {
    if 0 < threadsN <= 1000 {
      var p := NewPool(maxItems, threadsN, posters).value;
      InitialInv(p.q);
      AllQuiet(InFlight, p.n, p.q.threads);
      AllQuiet(Drawn, p.n, p.q.threads);
      AllQuiet(Gones, p.n, p.q.threads);
      forall m { HoldsNone(p.q.threads, m); }
    }
  }

  // ---- Every step keeps it ----

  /** A thread may stand at ph. */
  predicate FitsRole(p: Pool, t: nat, ph: Phase<Msg>) {
    if t < p.n then WorkerPhase(ph)
    else if t == p.n then DestructorPhase(ph) && (!p.closing ==> ph.Idle?)
    else PosterPhase(ph) && (p.closing ==> ph.Idle?)
  }

  /** A move that changes nobody's holdings: a thread goes to sleep, wakes, notifies or comes back for more. */
  lemma QuietMove(p: Pool, t: nat, ph: Phase<Msg>)
    requires p.n >= 1 && Roles(p) && Ordered(p) && TokensBalance(p) && NothingLost(p) && t < |p.q.threads|
    requires FitsRole(p, t, ph) && ph.Gone? == p.q.threads[t].Gone?
    requires forall g :: g != Weight ==> Reading(g, p.n, t, ph) == Reading(g, p.n, t, p.q.threads[t])
    requires forall m :: InHand(ph, m) == InHand(p.q.threads[t], m)
    ensures var p' := p.(q := Moved(p.q, t, ph));
            Roles(p') && Ordered(p') && TokensBalance(p') && NothingLost(p')
  {
    hide Total, Held, TimesPopped, TimesOverrun, Reading, InHand, EndedOnce;
    Totals(p.n, p.q.threads, t, ph);
    EndedSame(p.ended, p.n, p.q.threads, t, ph);
    forall m { HeldUpdate(p.q.threads, t, ph, m); }
    assert forall g :: g != Weight ==> Reading(g, p.n, t, ph) == Reading(g, p.n, t, p.q.threads[t]);
  }

  /** A worker takes the oldest message out. */
  lemma WorkerPops(p: Pool, t: nat)
    requires PoolInv(p) && t < p.n && p.q.threads[t].Dequeuing? && p.q.items != []
    ensures var p' := p.(q := Locked(p.q, t));
            Roles(p') && Ordered(p') && TokensBalance(p') && NothingLost(p')
  {
    hide Total, Held, TimesPopped, TimesOverrun, Inv, NothingLost, TokensBalance, EndedOnce;
    Totals(p.n, p.q.threads, t, NotifyPop(p.q.items[0]));
    EndedSame(p.ended, p.n, p.q.threads, t, NotifyPop(p.q.items[0]));
    PopTokens(p, t);
    PopBalance(p, t);
  }

  lemma PopTokens(p: Pool, t: nat)
    requires PoolInv(p) && t < p.n && p.q.threads[t].Dequeuing? && p.q.items != []
    ensures TokensBalance(p.(q := Locked(p.q, t)))
  {
    hide Total, Held, TimesPopped, TimesOverrun, Inv, Ordered, NothingLost, EndedOnce;
    var x := p.q.items[0];
    Totals(p.n, p.q.threads, t, NotifyPop(x));
    assert p.q.items == [x] + p.q.items[1..];
    assert multiset(p.q.items) == multiset{x} + multiset(p.q.items[1..]);
  }

  lemma PopBalance(p: Pool, t: nat)
    requires PoolInv(p) && t < p.n && p.q.threads[t].Dequeuing? && p.q.items != []
    ensures NothingLost(p.(q := Locked(p.q, t)))
  {
    hide Total, Held, TimesPopped, TimesOverrun, Inv, Ordered, TokensBalance, EndedOnce;
    var x := p.q.items[0];
    Totals(p.n, p.q.threads, t, NotifyPop(x));
    forall m
      ensures TimesPopped(p.q.removed + [Popped(x)], m) ==
          multiset(p.handled)[m] + Held(p.q.threads[t := NotifyPop(x)], m)
    {
      HeldUpdate(p.q.threads, t, NotifyPop(x), m);
      TimesPush(p.q.removed, Popped(x), m);
    }
    TimesPush(p.q.removed, Popped(x), Terminate);
  }

  /** The destructor's terminate message goes to the back; there is room, so nothing is overrun. */
  lemma DestructorPushes(p: Pool)
    requires PoolInv(p) && p.q.threads[p.n].Enqueuing? && !Full(p.q)
    ensures var p' := p.(q := Locked(p.q, p.n));
            Roles(p') && Ordered(p') && TokensBalance(p') && NothingLost(p')
  {
    hide Total, Held, TimesPopped, TimesOverrun, Inv, EndedOnce;
    RoomForOne(p.q, Terminate);
    Totals(p.n, p.q.threads, p.n, NotifyPush);
    EndedSame(p.ended, p.n, p.q.threads, p.n, NotifyPush);
    forall m { HeldUpdate(p.q.threads, p.n, NotifyPush, m); }
    assert multiset(p.q.items + [Terminate]) == multiset(p.q.items) + multiset{Terminate};
  }

  lemma RoomForOne(q: Queue<Msg>, x: Msg)
    requires Inv(q) && !Full(q)
    ensures DoPush(q, x) == q.(items := q.items + [x], pushed := q.pushed + [x])
  {}

  /** Before closing there is no terminate message anywhere, and a post adds none. */
  lemma PosterPushes(p: Pool, t: nat)
    requires PoolInv(p) && p.n < t < |p.q.threads|
    requires (p.q.threads[t].Enqueuing? && !Full(p.q)) || p.q.threads[t].EnqueuingNow?
    ensures var p' := p.(q := Locked(p.q, t));
            Roles(p') && Ordered(p') && TokensBalance(p') && NothingLost(p')
  {
    hide Total, Held, TimesPopped, TimesOverrun, Inv, NothingLost, Pushed, EndedOnce;
    var x := p.q.threads[t].x;
    Totals(p.n, p.q.threads, t, NotifyPush);
    EndedSame(p.ended, p.n, p.q.threads, t, NotifyPush);
    NoTerminateYet(p);
    KeepsOutTerminate(p.q.items, p.q.cap, x);
    PosterBalance(p, t);
  }

  lemma NoTerminateYet(p: Pool)
    requires Roles(p) && TokensBalance(p) && !p.closing
    ensures Terminate !in p.q.items && Total(Drawn, p.n, p.q.threads) == 0
  {
    hide Total, EndedOnce;
  }

  /** Whatever a post overruns is no terminate message. */
  lemma PosterBalance(p: Pool, t: nat)
    requires PoolInv(p) && p.n < t < |p.q.threads| && !p.closing
    requires (p.q.threads[t].Enqueuing? && !Full(p.q)) || p.q.threads[t].EnqueuingNow?
    ensures NothingLost(p.(q := Locked(p.q, t)))
  {
    hide Total, Held, TimesPopped, TimesOverrun, Inv, Ordered, Pushed, TokensBalance, EndedOnce;
    var x := p.q.threads[t].x;
    Totals(p.n, p.q.threads, t, NotifyPush);
    EndedSame(p.ended, p.n, p.q.threads, t, NotifyPush);
    NoTerminateYet(p);
    var all := p.q.items + [x];
    assert Terminate !in all;
    forall m
      ensures TimesPopped(DoPush(p.q, x).removed, m) == TimesPopped(p.q.removed, m)
      ensures TimesOverrun(DoPush(p.q, x).removed, Terminate) == 0
      ensures Held(p.q.threads[t := NotifyPush], m) == Held(p.q.threads, m)
    {
      HeldUpdate(p.q.threads, t, NotifyPush, m);
      TimesPush(p.q.removed, Overrun(all[0]), m);
      TimesPush(p.q.removed, Overrun(all[0]), Terminate);
    }
  }

  lemma KeepsOutTerminate(items: seq<Msg>, cap: nat, x: Msg)
    requires Terminate !in items && x != Terminate
    ensures Terminate !in Pushed(items, cap, x)
  {}

  /** A worker acts on its message; a terminate message ends it. */
  lemma WorkerHandles(p: Pool, w: nat)
    requires PoolInv(p) && Enabled(p, Handle(w))
    ensures var p' := Act(p, Handle(w));
            Roles(p') && Ordered(p') && TokensBalance(p') && NothingLost(p')
  {
    hide Total, Held, TimesPopped, TimesOverrun, Inv, NothingLost, EndedOnce;
    Totals(p.n, p.q.threads, w, if p.q.threads[w].x == Terminate then Gone else Idle);
    if p.q.threads[w].x == Terminate {
      EndedMore(p.ended, p.n, p.q.threads, w);
    } else {
      EndedSame(p.ended, p.n, p.q.threads, w, Idle);
    }
    HandleBalance(p, w);
  }

  lemma HandleBalance(p: Pool, w: nat)
    requires PoolInv(p) && Enabled(p, Handle(w))
    ensures NothingLost(Act(p, Handle(w)))
  {
    hide Total, Held, TimesPopped, TimesOverrun, Inv, Ordered, TokensBalance, EndedOnce;
    var m0 := p.q.threads[w].x;
    var ph := if m0 == Terminate then Gone else Idle;
    Totals(p.n, p.q.threads, w, ph);
    forall m
      ensures multiset(p.handled + [m0])[m] + Held(p.q.threads[w := ph], m) ==
          multiset(p.handled)[m] + Held(p.q.threads, m)
    {
      HeldUpdate(p.q.threads, w, ph, m);
    }
  }

  /** The four parts of the invariant that the pool adds to the queue's own. */
  ghost predicate PoolParts(p: Pool) {
    Roles(p) && Ordered(p) && TokensBalance(p) && NothingLost(p)
  }

  lemma LockKeepsParts(p: Pool, t: nat)
    requires PoolInv(p) && Can(p.q, Lock(t))
    ensures PoolParts(p.(q := Do(p.q, Lock(t))))
  {
    hide Total, Held, Inv, Ordered, TokensBalance, NothingLost, EndedOnce;
    match p.q.threads[t]
    case Enqueuing(x, _) =>
      if Full(p.q) {
        QuietMove(p, t, WaitingPop(x));
      } else if t == p.n {
        DestructorPushes(p);
      } else {
        PosterPushes(p, t);
      }
    case EnqueuingNow(x) => PosterPushes(p, t);
    case Dequeuing(_, late) =>
      if p.q.items != [] {
        WorkerPops(p, t);
      } else {
        QuietMove(p, t, if late then Idle else WaitingPush);
      }
  }

  lemma NotifyKeepsParts(p: Pool, t: nat, w: int)
    requires PoolInv(p) && Can(p.q, Notify(t, w))
    ensures PoolParts(p.(q := Do(p.q, Notify(t, w))))
  {
    hide Total, Held, Inv, Ordered, TokensBalance, NothingLost, EndedOnce;
    var ph := p.q.threads[t];
    var next := if ph.NotifyPush? then Idle else Got(ph.x);
    QuietMove(p, t, next);
    if w != -1 {
      QuietMove(p.(q := Moved(p.q, t, next)), w, Awake(p.q.threads[w], false));
    }
  }

  lemma PostKeepsParts(p: Pool)
    requires PoolInv(p) && Enabled(p, Post)
    ensures PoolParts(Act(p, Post))
  {
    hide Total, Held, TimesPopped, TimesOverrun, Inv, EndedOnce;
    Totals(p.n, p.q.threads, p.n, Enqueuing(Terminate, false));
    EndedSame(p.ended, p.n, p.q.threads, p.n, Enqueuing(Terminate, false));
    forall m { HeldUpdate(p.q.threads, p.n, Enqueuing(Terminate, false), m); }
  }

  lemma InnerKeepsParts(p: Pool, s: Step<Msg>)
    requires PoolInv(p) && Enabled(p, Inner(s))
    ensures PoolParts(p.(q := Do(p.q, s)))
  {
    hide Total, Held, Inv, Ordered, TokensBalance, NothingLost, EndedOnce;
    match s
    case StartEnqueue(t, x) => QuietMove(p, t, Enqueuing(x, false));
    case StartEnqueueNow(t, x) =>
      QuietMove(p, t, EnqueuingNow(x));
      NowaitIrrelevant(p.(q := Moved(p.q, t, EnqueuingNow(x))));
    case StartDequeue(t) => QuietMove(p, t, Dequeuing(false, false));
    case Lock(t) => LockKeepsParts(p, t);
    case Notify(t, w) => NotifyKeepsParts(p, t, w);
    case Wake(t, late) => QuietMove(p, t, Awake(p.q.threads[t], late));
  }

  lemma NowaitIrrelevant(p: Pool)
    requires PoolParts(p)
    ensures PoolParts(p.(q := p.q.(nowait := true)))
  {}

  lemma ActKeepsInv(p: Pool, a: Action)
    requires PoolInv(p) && Enabled(p, a)
    ensures PoolInv(Act(p, a))
  {
    hide Inv, Roles, Ordered, TokensBalance, NothingLost;
    match a
    case Inner(s) =>
      StepKeepsInv(p.q, s);
      InnerKeepsParts(p, s);
    case Handle(w) =>
      QueueForgets(p.q, w, if p.q.threads[w].x == Terminate then Gone else Idle);
      WorkerHandles(p, w);
    case Close => CloseKeepsParts(p);
    case Post =>
      StepKeepsInv(p.q, StartEnqueue(p.n, Terminate));
      PostKeepsParts(p);
    case Join => JoinKeepsParts(p);
  }

  /** To the queue it does not matter what becomes of a thread that has its item. */
  lemma QueueForgets(q: Queue<Msg>, w: nat, ph: Phase<Msg>)
    requires Inv(q) && w < |q.threads| && q.threads[w].Got? && (ph.Idle? || ph.Gone?)
    ensures Inv(Moved(q, w, ph))
  {
    hide Inv;
    MoveKeepsInv(q, w, ph, q.nowait);
  }

  lemma CloseKeepsParts(p: Pool)
    requires PoolInv(p) && Enabled(p, Close)
    ensures PoolParts(Act(p, Close))
  {
    hide Inv, Total, Held, TimesPopped, TimesOverrun, EndedOnce;
  }

  lemma JoinKeepsParts(p: Pool)
    requires PoolInv(p) && Enabled(p, Join)
    ensures PoolParts(Act(p, Join))
  {
    hide Inv, Total, Held, TimesPopped, TimesOverrun, EndedOnce;
  }

  // ---- Whole runs ----

  /** Any interleaving from the constructor on. */
  ghost predicate IsPoolRun(states: seq<Pool>, acts: seq<Action>, maxItems: nat, threadsN: nat, posters: nat) {
    && |states| == |acts| + 1 && NewPool(maxItems, threadsN, posters) == Some(states[0])
    && forall i :: 0 <= i < |acts| ==> Enabled(states[i], acts[i]) && states[i + 1] == Act(states[i], acts[i])
  }

  lemma {:induction false} PoolRunKeepsInv(states: seq<Pool>, acts: seq<Action>, maxItems: nat, threadsN: nat,
      posters: nat, i: nat)
    requires IsPoolRun(states, acts, maxItems, threadsN, posters) && i < |states|
    ensures PoolInv(states[i]) && states[i].q.cap == maxItems && states[i].n == threadsN
  {
    hide PoolInv;
    if i == 0 {
      NewPoolInv(maxItems, threadsN, posters);
    } else {
      PoolRunKeepsInv(states, acts, maxItems, threadsN, posters, i - 1);
      ActKeepsInv(states[i - 1], acts[i - 1]);
    }
  }

  // ---- The capacity matters ----

  /** With no room in the queue no worker ever gets a message, so none ends and none is joined. */
  ghost predicate Starved(p: Pool) {
    && p.q.cap == 0 && p.joined == 0 && p.n >= 1
    && forall i :: 0 <= i < p.n && i < |p.q.threads| ==>
         p.q.threads[i].Idle? || p.q.threads[i].Dequeuing? || p.q.threads[i].WaitingPush?
  }

  lemma StarvedStays(p: Pool, a: Action)
    requires PoolInv(p) && Starved(p) && Enabled(p, a)
    ensures Starved(Act(p, a))
  {
    hide Inv, Ordered, TokensBalance, NothingLost, Pushed;
    NothingQueued(p.q);
    match a
    case Inner(s) => StarvedInner(p, s);
    case _ =>
  }

  lemma NothingQueued(q: Queue<Msg>)
    requires Inv(q) && q.cap == 0
    ensures q.items == []
  {}

  lemma StarvedInner(p: Pool, s: Step<Msg>)
    requires Starved(p) && p.q.items == [] && Enabled(p, Inner(s)) && |p.q.threads| > p.n
    ensures Starved(Act(p, Inner(s)))
  {
    hide Pushed;
    match s
    case Lock(t) =>
    case Notify(t, w) =>
    case _ =>
  }

  lemma {:induction false} NoCapacityNoJoin(states: seq<Pool>, acts: seq<Action>, threadsN: nat, posters: nat, i: nat)
    requires IsPoolRun(states, acts, 0, threadsN, posters) && i < |states|
    ensures states[i].joined == 0 && Starved(states[i])
  {
    hide PoolInv;
    if i > 0 {
      NoCapacityNoJoin(states, acts, threadsN, posters, i - 1);
      PoolRunKeepsInv(states, acts, 0, threadsN, posters, i - 1);
      StarvedStays(states[i - 1], acts[i - 1]);
    }
  }
}
