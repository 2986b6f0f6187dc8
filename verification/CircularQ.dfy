/** The ring buffer under the asynchronous queue, and the bounded sequence it stands for. */
module CircularQ {
  import opened Arith

  /** The last n elements of s, or all of them. */
  function KeepLast<T>(s: seq<T>, n: nat): seq<T> {
    if |s| <= n then s else s[|s| - n..]
  }

  /** Appending to a queue of n places drops the oldest element if there is no room. */
  function Pushed<T>(s: seq<T>, n: nat, x: T): seq<T> { KeepLast(s + [x], n) }

  /** An index one past the end comes round to the front. */
  function Wrap(x: nat, n: nat): (r: nat)
    requires x < 2 * n
    ensures r == if x < n then x else x - n
  {
    DivModUnique(x, n, if x < n then 0 else 1, if x < n then x else x - n);
    x % n
  }

  /** The stretch of a ring from head up to tail. */
  function Window<T>(v: seq<T>, head: nat, tail: nat): seq<T>
    requires head <= |v| && tail <= |v|
  {
    if head <= tail then v[head..tail] else v[head..] + v[..tail]
  }

  lemma WindowAt<T>(v: seq<T>, head: nat, tail: nat, i: nat)
    requires head < |v| && tail < |v| && i < |Window(v, head, tail)|
    ensures Window(v, head, tail)[i] == v[if head + i < |v| then head + i else head + i - |v|]
  {}

  lemma WindowLength<T>(v: seq<T>, head: nat, tail: nat)
    requires head <= |v| && tail <= |v|
    ensures |Window(v, head, tail)| == if head <= tail then tail - head else |v| - head + tail
  {}

  /** Writing at tail and moving it on appends; when it meets head, head moves on too. */
  lemma WindowPush<T>(v: seq<T>, head: nat, tail: nat, x: T)
    requires head < |v| && tail < |v|
    ensures var next := if tail + 1 < |v| then tail + 1 else 0;
            var head' := if head + 1 < |v| then head + 1 else 0;
            Window(v[tail := x], if next == head then head' else head, next) ==
                Pushed(Window(v, head, tail), |v| - 1, x)
  {
    var next := if tail + 1 < |v| then tail + 1 else 0;
    var w, u := Window(v, head, tail), v[tail := x];
    if next != head {
      assert Window(u, head, next) == w + [x];
    } else {
      var head' := if head + 1 < |v| then head + 1 else 0;
      assert Window(u, head', next) == (w + [x])[1..];
    }
  }

  lemma WindowPop<T>(v: seq<T>, head: nat, tail: nat)
    requires head < |v| && tail < |v| && head != tail
    ensures Window(v, if head + 1 < |v| then head + 1 else 0, tail) == Window(v, head, tail)[1..]
  {
    var w := Window(v, head, tail);
    assert Window(v, if head + 1 < |v| then head + 1 else 0, tail) == w[1..];
  }

  class CircularQ<T(0)> {
    var maxItems: nat
    var head: nat
    var tail: nat
    var overrunCounter: nat
    var v: array<T>

    ghost predicate Valid()
      reads this
    {
      && v.Length == maxItems
      && (if maxItems == 0 then head == tail == 0 else head < maxItems && tail < maxItems)
    }

    /** How many elements fit; one place marks the full queue. */
    ghost function Capacity(): nat
      reads this
    {
      if maxItems == 0 then 0 else maxItems - 1
    }

    /** The elements, oldest first. */
    ghost function Items(): (s: seq<T>)
      reads this, v
      requires Valid()
      ensures |s| == (if tail >= head then tail - head else maxItems - (head - tail))
      ensures |s| <= Capacity()
    {
      Window(v[..], head, tail)
    }

    /** A disabled queue: it never holds anything. */
    constructor Disabled()
      ensures Valid() && maxItems == 0 && Items() == [] && overrunCounter == 0 && fresh(v)
    {
      maxItems, head, tail, overrunCounter := 0, 0, 0, 0;
      v := new T[0];
    }

    constructor (items: nat)
      ensures Valid() && maxItems == items + 1 && Items() == [] && overrunCounter == 0 && fresh(v)
    {
      maxItems, head, tail, overrunCounter := items + 1, 0, 0, 0;
      v := new T[items + 1];
    }

    method PushBack(item: T)
      requires Valid()
      modifies this`head, this`tail, this`overrunCounter, v
      ensures Valid()
      ensures Items() == if maxItems == 0 then [] else Pushed(old(Items()), Capacity(), item)
      ensures overrunCounter == old(overrunCounter) + (if maxItems > 0 && |old(Items())| == Capacity() then 1 else 0)
    {
      if maxItems > 0 {
        hide Window, Pushed, Wrap;
        WindowPush(v[..], head, tail, item);
        WindowLength(v[..], head, tail);
        v[tail] := item;
        tail := Wrap(tail + 1, maxItems);
        if tail == head {
          head := Wrap(head + 1, maxItems);
          overrunCounter := overrunCounter + 1;
        }
      }
    }

    method Front() returns (x: T)
      requires Valid() && Items() != []
      ensures x == Items()[0]
    {
      x := v[head];
    }

    method Size() returns (n: nat)
      requires Valid()
      ensures n == |Items()|
    {
      n := if tail >= head then tail - head else maxItems - (head - tail);
    }

    method At(i: nat) returns (x: T)
      requires Valid() && i < |Items()|
      ensures x == Items()[i]
    {
      hide Wrap;
      WindowAt(v[..], head, tail, i);
      x := v[Wrap(head + i, maxItems)];
    }

    method PopFront()
      requires Valid() && Items() != []
      modifies this`head
      ensures Valid() && Items() == old(Items())[1..]
    {
      hide Wrap, Window;
      WindowLength(v[..], head, tail);
      WindowPop(v[..], head, tail);
      head := Wrap(head + 1, maxItems);
    }

    method Empty() returns (b: bool)
      requires Valid()
      ensures b <==> Items() == []
    {
      b := tail == head;
    }

    /** Full means the next push drops an element; a disabled queue never says so. */
    method Full() returns (b: bool)
      requires Valid()
      ensures b <==> maxItems > 0 && |Items()| == Capacity()
    {
      if maxItems > 0 {
        hide Wrap;
        b := Wrap(tail + 1, maxItems) == head;
      } else {
        b := false;
      }
    }

    /** Takes over the other queue's elements and leaves it disabled. */
    method MoveFrom(other: CircularQ<T>)
      requires other != this && other.Valid()
      modifies this, other
      ensures Valid() && Items() == old(other.Items()) && maxItems == old(other.maxItems)
      ensures overrunCounter == old(other.overrunCounter)
      ensures other.Valid() && other.maxItems == 0 && other.Items() == [] && other.overrunCounter == 0
    {
      maxItems := other.maxItems;
      head := other.head;
      tail := other.tail;
      overrunCounter := other.overrunCounter;
      v := other.v;
      other.v := new T[0];
      other.maxItems := 0;
      other.head, other.tail := 0, 0;
      other.overrunCounter := 0;
    }
  }

  // ---- Whole runs on the bounded sequence ----

  datatype Op<T> = Push(x: T) | Pop

  /** What a run has done: the elements still held, all that was pushed, how many left each way. */
  datatype History<T> = History(items: seq<T>, pushed: seq<T>, popped: seq<T>, overruns: nat)

  predicate Runs<T>(ops: seq<Op<T>>, n: nat)
    decreases |ops|, 0
  {
    |ops| == 0 || (Runs(ops[..|ops| - 1], n) && (ops[|ops| - 1].Push? || After(ops[..|ops| - 1], n).items != []))
  }

  function After<T>(ops: seq<Op<T>>, n: nat): History<T>
    requires Runs(ops, n)
    decreases |ops|, 1
  {
    if |ops| == 0 then History([], [], [], 0)
    else
      var h := After(ops[..|ops| - 1], n);
      match ops[|ops| - 1]
      case Push(x) => History(Pushed(h.items, n, x), h.pushed + [x], h.popped,
          if |h.items| == n then h.overruns + 1 else h.overruns)
      case Pop => History(h.items[1..], h.pushed, h.popped + [h.items[0]], h.overruns)
  }

  /** The queue holds exactly the last pushes, less those popped or overrun; nothing is lost otherwise. */
  lemma {:induction false} KeepsLastPushes<T>(ops: seq<Op<T>>, n: nat)
    requires Runs(ops, n)
    ensures var h := After(ops, n);
            && |h.pushed| == |h.popped| + h.overruns + |h.items| && |h.items| <= n
            && h.items == h.pushed[|h.popped| + h.overruns..]
  {
    hide Pushed;
    if |ops| > 0 {
      KeepsLastPushes(ops[..|ops| - 1], n);
      var h := After(ops[..|ops| - 1], n);
      match ops[|ops| - 1]
      case Push(x) => SuffixPush(h.pushed, |h.popped| + h.overruns, n, x);
      case Pop =>
    }
  }

  lemma SuffixPush<T>(pushed: seq<T>, k: nat, n: nat, x: T)
    requires k <= |pushed| && |pushed| - k <= n
    ensures Pushed(pushed[k..], n, x) == (pushed + [x])[if |pushed| - k == n then k + 1 else k..]
  {
    assert pushed[k..] + [x] == (pushed + [x])[k..];
  }

  lemma {:induction false} RunsBefore<T>(ops: seq<Op<T>>, n: nat, i: nat)
    requires Runs(ops, n) && i <= |ops|
    ensures Runs(ops[..i], n)
  {
    if i < |ops| {
      RunsBefore(ops[..|ops| - 1], n, i);
      assert ops[..|ops| - 1][..i] == ops[..i];
    } else {
      assert ops[..i] == ops;
    }
  }

  /** One more operation of a run. */
  lemma AfterNext<T>(ops: seq<Op<T>>, n: nat, i: nat)
    requires Runs(ops, n) && i < |ops|
    ensures Runs(ops[..i], n) && Runs(ops[..i + 1], n)
    ensures var h, h' := After(ops[..i], n), After(ops[..i + 1], n);
            match ops[i]
            case Push(x) => h'.items == Pushed(h.items, n, x) && h'.popped == h.popped
                            && h'.overruns == h.overruns + (if |h.items| == n then 1 else 0)
            case Pop => h.items != [] && h'.items == h.items[1..] && h'.popped == h.popped + [h.items[0]]
                        && h'.overruns == h.overruns
  {
    hide Pushed;
    RunsBefore(ops, n, i);
    RunsBefore(ops, n, i + 1);
    assert ops[..i + 1][..i] == ops[..i];
  }

  /** The ring carries out any run as the bounded sequence does: contents, overruns and what is popped. */
  method CarryOut<T(0)>(ring: CircularQ<T>, ops: seq<Op<T>>) returns (popped: seq<T>)
    requires ring.Valid() && ring.maxItems > 0 && ring.Items() == [] && ring.overrunCounter == 0
    requires Runs(ops, ring.Capacity())
    modifies ring, ring.v
    ensures ring.Valid() && ring.maxItems == old(ring.maxItems)
    ensures var h := After(ops, ring.Capacity());
            ring.Items() == h.items && ring.overrunCounter == h.overruns && popped == h.popped
  {
    hide Pushed, Runs, After;
    ghost var n := ring.Capacity();
    popped := [];
    RunsBefore(ops, n, 0);
    AfterNothing<T>(n);
    assert ops[..0] == [];
    var i := 0;
    while i < |ops|
      invariant i <= |ops| && ring.Valid() && ring.maxItems == old(ring.maxItems) && ring.v == old(ring.v)
      invariant Runs(ops[..i], n)
      invariant ring.Items() == After(ops[..i], n).items && popped == After(ops[..i], n).popped
      invariant ring.overrunCounter == After(ops[..i], n).overruns
    {
      AfterNext(ops, n, i);
      match ops[i] {
        case Push(x) =>
          ring.PushBack(x);
        case Pop =>
          var x := ring.Front();
          ring.PopFront();
          popped := popped + [x];
      }
      i := i + 1;
    }
    assert ops[..i] == ops;
  }

  lemma AfterNothing<T>(n: nat)
    ensures Runs<T>([], n) && After<T>([], n) == History([], [], [], 0)
  {}
}
