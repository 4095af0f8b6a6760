// The callback queue of lsteamclient with several threads in execute_pending_callbacks at once:
// Steam_BGetCallback drains without a lock. Each thread has its own stack of nested drains.
module CallbackConsumers {
  import opened CallbackQueue

  datatype World = World(queue: seq<Entry>, threads: seq<seq<Drain>>, enqueued: seq<Entry>, dispatched: seq<Entry>)

  datatype Turn = Turn(thread: nat, event: Event)

  function Idle(threads: nat): World { World([], seq(threads, _ => []), [], []) }

  function View(w: World, thread: nat): State
    requires thread < |w.threads|
  {
    State(w.queue, w.threads[thread], w.enqueued, w.dispatched)
  }

  predicate CanTake(w: World, t: Turn) { t.thread < |w.threads| && Enabled(View(w, t.thread), t.event) }

  function Take(w: World, t: Turn): World
    requires CanTake(w, t)
  {
    var s := Step(View(w, t.thread), t.event);
    World(s.queue, w.threads[t.thread := s.drains], s.enqueued, s.dispatched)
  }

  // Built from the end: the turns taken, and what they lead to.
  predicate CanTakeAll(w: World, turns: seq<Turn>)
    decreases |turns|, 0
  {
    turns == [] ||
    (CanTakeAll(w, turns[..|turns| - 1]) && CanTake(TakeAll(w, turns[..|turns| - 1]), turns[|turns| - 1]))
  }

  function TakeAll(w: World, turns: seq<Turn>): World
    requires CanTakeAll(w, turns)
    decreases |turns|, 1
  {
    if turns == [] then w else Take(TakeAll(w, turns[..|turns| - 1]), turns[|turns| - 1])
  }

  lemma {:induction false} OneMoreTurn(w: World, turns: seq<Turn>, t: Turn)
    requires CanTakeAll(w, turns) && CanTake(TakeAll(w, turns), t)
    ensures CanTakeAll(w, turns + [t]) && TakeAll(w, turns + [t]) == Take(TakeAll(w, turns), t)
  {
    assert (turns + [t])[..|turns|] == turns;
  }

  // ---- what still holds ----

  // The callback in a drain's buffer is no larger than the drain takes the buffer to be, and is
  // the one announced when it was copied.
  predicate Formed(d: Drain) {
    && (d.place == Announced(true) ==> Settled(d))
    && (d.buffer.Buffer? && d.buffer.contents.Holds? ==>
          var n := d.buffer.contents.entry.Size(); if d.place == Announced(false) then n < d.size else n <= d.size)
  }

  predicate StackFormed(drains: seq<Drain>) {
    (forall d <- drains :: Formed(d)) && forall k :: 0 <= k < |drains| - 1 ==> drains[k].place.Running?
  }

  predicate WorldFormed(w: World) { forall drains <- w.threads :: StackFormed(drains) }

  function Hand(drains: seq<Drain>): seq<Entry> { InHand(State([], drains, [], [])) }

  // Copied out of the queue by some thread and not handed over yet.
  function Hands(threads: seq<seq<Drain>>): multiset<Entry> {
    if threads == [] then multiset{} else multiset(Hand(threads[0])) + Hands(threads[1..])
  }

  lemma {:induction false} HandsAfter(threads: seq<seq<Drain>>, i: nat, drains: seq<Drain>)
    requires i < |threads|
    ensures Hands(threads[i := drains]) + multiset(Hand(threads[i])) == Hands(threads) + multiset(Hand(drains))
  {
    hide Hand;
    if i > 0 {
      HandsAfter(threads[1..], i - 1, drains);
      assert threads[i := drains][1..] == threads[1..][i - 1 := drains];
      var first, rest := multiset(Hand(threads[0])), Hands(threads[1..]);
      var after, hand := Hands(threads[1..][i - 1 := drains]), multiset(Hand(threads[i]));
      assert first + after + hand == first + (after + hand);
    } else {
      assert threads[i := drains][0] == drains && threads[i := drains][1..] == threads[1..];
    }
  }

  lemma {:induction false} StepKeepsFormed(s: State, e: Event)
    requires Enabled(s, e) && StackFormed(s.drains)
    ensures StackFormed(Step(s, e).drains)
  {
    var t := Step(s, e);
    forall k | 0 <= k < |t.drains|
      ensures Formed(t.drains[k]) && (k < |t.drains| - 1 ==> t.drains[k].place.Running?)
    {
      if k < |s.drains| { assert s.drains[k] in s.drains; }
    }
  }

  // One step moves callbacks on from queue to hand to dispatched, in this thread's order.
  lemma {:induction false} StepMoves(s: State, e: Event)
    requires Enabled(s, e) && StackFormed(s.drains)
    ensures var t, more := Step(s, e), if e.Enqueue? then [e.entry] else [];
            && t.enqueued == s.enqueued + more
            && t.dispatched + Hand(t.drains) + t.queue == s.dispatched + Hand(s.drains) + s.queue + more
  {
    var t := Step(s, e);
    if s.drains != [] { assert Top(s) in s.drains; }
    match e
    case NextCallback =>
      if s.queue != [] {
        assert s.queue == [s.queue[0]] + s.queue[1..];
      }
    case Finish =>
      if |s.drains| > 1 {
        assert t.drains[|t.drains| - 1] == s.drains[|s.drains| - 2];
      }
    case _ =>
  }

  // The same as an account of what is enqueued, dispatched, in hand and queued.
  lemma {:induction false} StepBalances(s: State, e: Event)
    requires Enabled(s, e) && StackFormed(s.drains)
    ensures var t := Step(s, e);
            multiset(t.enqueued) + multiset(s.dispatched) + multiset(Hand(s.drains)) + multiset(s.queue)
            == multiset(s.enqueued) + multiset(t.dispatched) + multiset(Hand(t.drains)) + multiset(t.queue)
  {
    hide Step, Enabled, Hand, StackFormed;
    var t, more := Step(s, e), if e.Enqueue? then [e.entry] else [];
    StepMoves(s, e);
    InParts(s.dispatched, Hand(s.drains), s.queue);
    InParts(t.dispatched, Hand(t.drains), t.queue);
    var all := s.dispatched + Hand(s.drains) + s.queue;
    assert multiset(t.enqueued) + (multiset(s.dispatched) + multiset(Hand(s.drains)) + multiset(s.queue))
        == multiset(t.enqueued) + multiset(s.dispatched) + multiset(Hand(s.drains)) + multiset(s.queue);
    assert multiset(s.enqueued) + (multiset(t.dispatched) + multiset(Hand(t.drains)) + multiset(t.queue))
        == multiset(s.enqueued) + multiset(t.dispatched) + multiset(Hand(t.drains)) + multiset(t.queue);
    assert multiset(all + more) == multiset(all) + multiset(more);
    assert multiset(t.enqueued) == multiset(s.enqueued) + multiset(more);
  }

  lemma {:induction false} InParts(a: seq<Entry>, b: seq<Entry>, c: seq<Entry>)
    ensures multiset(a + b + c) == multiset(a) + multiset(b) + multiset(c)
  {}

  // From one thread's account to that of all, where `hand` of it becomes `next`.
  lemma {:induction false} Account(w: World, after: World, hand: multiset<Entry>, next: multiset<Entry>)
    requires multiset(w.enqueued) == multiset(w.dispatched) + Hands(w.threads) + multiset(w.queue)
    requires Hands(after.threads) + hand == Hands(w.threads) + next
    requires multiset(after.enqueued) + multiset(w.dispatched) + hand + multiset(w.queue)
          == multiset(w.enqueued) + multiset(after.dispatched) + next + multiset(after.queue)
    ensures multiset(after.enqueued) == multiset(after.dispatched) + Hands(after.threads) + multiset(after.queue)
  {
    hide Hands;
    forall e: Entry
      ensures multiset(after.enqueued)[e] ==
              multiset(after.dispatched)[e] + Hands(after.threads)[e] + multiset(after.queue)[e]
    {
      assert (Hands(after.threads) + hand)[e] == (Hands(w.threads) + next)[e];
      assert (multiset(after.enqueued) + multiset(w.dispatched) + hand + multiset(w.queue))[e]
          == (multiset(w.enqueued) + multiset(after.dispatched) + next + multiset(after.queue))[e];
    }
  }

  lemma {:induction false} TurnsBalance(n: nat, turns: seq<Turn>)
    requires CanTakeAll(Idle(n), turns)
    ensures var w := TakeAll(Idle(n), turns);
            WorldFormed(w) && |w.threads| == n
            && multiset(w.enqueued) == multiset(w.dispatched) + Hands(w.threads) + multiset(w.queue)
    decreases |turns|
  {
    hide StackFormed, Hand, Hands, Step, Enabled;
    if turns == [] {
      NothingInHand(n);
    } else {
      var before, t := turns[..|turns| - 1], turns[|turns| - 1];
      TurnsBalance(n, before);
      var w := TakeAll(Idle(n), before);
      var s := View(w, t.thread);
      assert s.drains in w.threads;
      StepKeepsFormed(s, t.event);
      StepBalances(s, t.event);
      HandsAfter(w.threads, t.thread, Step(s, t.event).drains);
      Account(w, Take(w, t), multiset(Hand(s.drains)), multiset(Hand(Step(s, t.event).drains)));
    }
  }

  lemma {:induction false} NothingInHand(n: nat)
    ensures WorldFormed(Idle(n)) && Hands(Idle(n).threads) == multiset{}
  {
    if n > 0 {
      NothingInHand(n - 1);
      assert Idle(n).threads[1..] == Idle(n - 1).threads;
    }
  }

  // With any number of threads draining, none is lost or repeated: each callback enqueued is
  // dispatched, in one thread's hand, or still queued. Only the order is no longer kept.
  lemma {:induction false} NoneLostOrRepeated(n: nat, turns: seq<Turn>)
    requires CanTakeAll(Idle(n), turns)
    ensures var w := TakeAll(Idle(n), turns);
            && multiset(w.enqueued) == multiset(w.dispatched) + Hands(w.threads) + multiset(w.queue)
            && (w.queue == [] && Hands(w.threads) == multiset{} ==> multiset(w.dispatched) == multiset(w.enqueued))
  {
    TurnsBalance(n, turns);
  }

  // ---- what does not: fresh memory may be dispatched ----

  predicate DispatchesFresh(w: World, t: Turn) {
    CanTake(w, t) && t.event.Dispatch? && Top(View(w, t.thread)).buffer.contents.Garbage?
  }

  // Two threads grow a buffer for the same callback, the second takes it, and another comes up
  // for the first.
  function HandOver(a: Entry, b: Entry, garbage: nat): seq<Turn> {
    [Turn(0, Enqueue(a)), Turn(0, Start), Turn(0, NextCallback), Turn(0, Grow(garbage)),
     Turn(1, Start), Turn(1, NextCallback), Turn(1, Grow(garbage)), Turn(1, NextCallback),
     Turn(0, Enqueue(b)), Turn(0, NextCallback)]
  }

  // A turn of a thread that is in one drain at most.
  lemma {:induction false} SoloTurn(w: World, t: Turn)
    requires CanTake(w, t) && |w.threads[t.thread]| <= 1 && (t.event.Start? ==> w.threads[t.thread] == [])
    ensures var s := View(w, t.thread);
            Take(w, t) ==
            match t.event
            case Enqueue(e) => World(w.queue + [e], w.threads, w.enqueued + [e], w.dispatched)
            case Start => w.(threads := w.threads[t.thread := [Drain(0, NoBuffer, Calling)]])
            case NextCallback =>
              var d := Announce(s);
              World(d.queue, w.threads[t.thread := [Top(d)]], w.enqueued, w.dispatched)
            case Grow(n) =>
              var d := Top(s);
              w.(threads := w.threads[t.thread := [Drain(d.size, d.buffer.Resized(d.size, n), Calling)]])
            case Dispatch =>
              var d := Top(s);
              World(w.queue, w.threads[t.thread := [d.(place := Running)]], w.enqueued, w.dispatched + Handed(d))
            case Return => w.(threads := w.threads[t.thread := [Top(s).(place := Calling)]])
            case Finish => w.(threads := w.threads[t.thread := []])
  {
    var s := View(w, t.thread);
    assert w.threads[t.thread := w.threads[t.thread]] == w.threads;
    if s.drains == [] {
      assert forall d: Drain :: s.drains + [d] == [d];
    } else {
      assert forall d: Drain :: s.drains[..|s.drains| - 1] + [d] == [d];
    }
  }

  lemma {:induction false} Grows(w: World, turns: seq<Turn>, thread: nat, a: Entry, garbage: nat)
    returns (more: seq<Turn>)
    requires CanTakeAll(w, turns) && var v := TakeAll(w, turns);
             thread < |v.threads| && v.threads[thread] == [] && v.queue == [a]
    ensures more == [Turn(thread, Start), Turn(thread, NextCallback), Turn(thread, Grow(garbage))]
    ensures CanTakeAll(w, turns + more)
    ensures var v := TakeAll(w, turns);
            TakeAll(w, turns + more) ==
            v.(threads := v.threads[thread := [Drain(a.Size(), Buffer(Garbage(garbage), a.Size()), Calling)]])
  {
    hide Step, Take, TakeAll, CanTakeAll;
    var t1, t2, t3 := Turn(thread, Start), Turn(thread, NextCallback), Turn(thread, Grow(garbage));
    var v := TakeAll(w, turns);
    SoloTurn(v, t1);
    OneMoreTurn(w, turns, t1);
    var v1 := TakeAll(w, turns + [t1]);
    SoloTurn(v1, t2);
    OneMoreTurn(w, turns + [t1], t2);
    var v2 := TakeAll(w, turns + [t1] + [t2]);
    SoloTurn(v2, t3);
    OneMoreTurn(w, turns + [t1] + [t2], t3);
    more := [t1, t2, t3];
    assert turns + [t1] + [t2] + [t3] == turns + more;
  }

  // The memory a second thread leaves the first with is dispatched exactly when the callback that
  // comes up is larger than the one it was grown for and its size field reads at least as much.
  lemma {:induction false} AnotherConsumerBreaksIt(n: nat, a: Entry, b: Entry, garbage: nat)
    requires n >= 2
    ensures CanTakeAll(Idle(n), HandOver(a, b, garbage))
    ensures DispatchesFresh(TakeAll(Idle(n), HandOver(a, b, garbage)), Turn(0, Dispatch)) <==>
            a.Size() < b.Size() <= garbage
    ensures a.Size() < b.Size() ==>
              var w := TakeAll(Idle(n), HandOver(a, b, garbage));
              && w.queue == [b] && |w.threads| == n
              && w.threads[0] == [Drain(b.Size(), Buffer(Garbage(garbage), a.Size()), Announced(false))]
  {
    hide Take, TakeAll, CanTakeAll;
    var w := Idle(n);
    var t1, t2, t3 := Turn(0, Enqueue(a)), Turn(1, NextCallback), Turn(0, Enqueue(b));
    AtRest(w);
    SoloTurn(w, t1);
    OneMoreTurn(w, [], t1);
    var g1 := Grows(w, [] + [t1], 0, a, garbage);
    var r1 := [] + [t1] + g1;
    var g2 := Grows(w, r1, 1, a, garbage);
    var r2 := r1 + g2;
    SoloTurn(TakeAll(w, r2), t2);
    OneMoreTurn(w, r2, t2);
    SoloTurn(TakeAll(w, r2 + [t2]), t3);
    OneMoreTurn(w, r2 + [t2], t3);
    var last := Turn(0, NextCallback);
    SoloTurn(TakeAll(w, r2 + [t2] + [t3]), last);
    OneMoreTurn(w, r2 + [t2] + [t3], last);
    assert r2 + [t2] + [t3] + [last] == HandOver(a, b, garbage);
  }

  lemma {:induction false} AtRest(w: World)
    ensures CanTakeAll(w, []) && TakeAll(w, []) == w
  {}

  // ---- exactly when ----

  // The callbacks and the memory a run meets.
  predicate Meets(turns: seq<Turn>, ok: Entry -> bool, garbage: nat) {
    forall t <- turns ::
      (t.event.Enqueue? ==> ok(t.event.entry)) && (t.event.Grow? ==> t.event.garbage == garbage)
  }

  ghost predicate SizeOk(size: nat, ok: Entry -> bool) { exists a :: ok(a) && a.Size() == size }

  ghost predicate LargerThanSome(size: nat, ok: Entry -> bool) { exists a :: ok(a) && a.Size() < size }

  // A drain announces sizes of callbacks it met, grows fresh memory for one of them, and when
  // it holds fresh memory for a size announced anew, that is not the least.
  ghost predicate Sized(d: Drain, ok: Entry -> bool, garbage: nat) {
    && (d.place.Announced? ==> SizeOk(d.size, ok))
    && (d.buffer.Buffer? && d.buffer.contents.Garbage? ==>
          && d.buffer.contents.size == garbage && SizeOk(d.size, ok)
          && (d.place == Announced(false) ==> LargerThanSome(d.size, ok)))
  }

  ghost predicate WorldSized(w: World, ok: Entry -> bool, garbage: nat) {
    (forall e <- w.queue :: ok(e)) && forall drains <- w.threads :: forall d <- drains :: Sized(d, ok, garbage)
  }

  lemma {:induction false} StepKeepsSized(s: State, e: Event, ok: Entry -> bool, garbage: nat)
    requires Enabled(s, e) && StackFormed(s.drains)
    requires (forall x <- s.queue :: ok(x)) && forall d <- s.drains :: Sized(d, ok, garbage)
    requires (e.Enqueue? ==> ok(e.entry)) && (e.Grow? ==> e.garbage == garbage)
    ensures (forall x <- Step(s, e).queue :: ok(x)) && forall d <- Step(s, e).drains :: Sized(d, ok, garbage)
  {
    var t := Step(s, e);
    if s.drains != [] { assert Top(s) in s.drains; }
    if e.NextCallback? && s.queue != [] {
      assert ok(s.queue[0]);
      assert SizeOk(s.queue[0].Size(), ok);
    }
    forall k | 0 <= k < |t.drains|
      ensures Sized(t.drains[k], ok, garbage)
    {
      if k < |s.drains| { assert s.drains[k] in s.drains; }
    }
  }

  lemma {:induction false} TakeKeepsSized(w: World, t: Turn, ok: Entry -> bool, garbage: nat)
    requires CanTake(w, t) && WorldFormed(w) && WorldSized(w, ok, garbage) && Meets([t], ok, garbage)
    ensures WorldSized(Take(w, t), ok, garbage)
  {
    hide StackFormed, Step, Enabled, Sized;
    var s := View(w, t.thread);
    assert s.drains in w.threads && t in [t];
    StepKeepsSized(s, t.event, ok, garbage);
    forall drains | drains in Take(w, t).threads
      ensures forall d <- drains :: Sized(d, ok, garbage)
    {
      assert drains == Step(s, t.event).drains || drains in w.threads;
    }
  }

  lemma {:induction false} TurnsKeepSized(n: nat, turns: seq<Turn>, ok: Entry -> bool, garbage: nat)
    requires CanTakeAll(Idle(n), turns) && Meets(turns, ok, garbage)
    ensures WorldSized(TakeAll(Idle(n), turns), ok, garbage)
    decreases |turns|
  {
    hide WorldFormed, Take, CanTake, Sized;
    if turns != [] {
      var before, t := turns[..|turns| - 1], turns[|turns| - 1];
      TurnsBalance(n, before);
      TurnsKeepSized(n, before, ok, garbage);
      var w := TakeAll(Idle(n), before);
      assert t in turns && forall u <- before :: u in turns;
      TakeKeepsSized(w, t, ok, garbage);
    }
  }

  // One thread alone is the queue with one active drain.
  lemma {:induction false} AloneIsSafe(turns: seq<Turn>)
    requires CanTakeAll(Idle(1), turns)
    ensures |TakeAll(Idle(1), turns).threads| == 1 && Invariant(View(TakeAll(Idle(1), turns), 0))
    decreases |turns|
  {
    hide Step, Enabled, Invariant;
    if turns == [] {
      assert Invariant(Init()) by { RestIsFine(); }
    } else {
      AloneIsSafe(turns[..|turns| - 1]);
      StepKeepsInvariant(View(TakeAll(Idle(1), turns[..|turns| - 1]), 0), turns[|turns| - 1].event);
    }
  }

  lemma {:induction false} RestIsFine()
    ensures Invariant(Init())
  {}

  lemma {:induction false} FreshNeedsTwoSizes(n: nat, turns: seq<Turn>, t: Turn, ok: Entry -> bool, garbage: nat)
    requires CanTakeAll(Idle(n), turns) && Meets(turns, ok, garbage) && DispatchesFresh(TakeAll(Idle(n), turns), t)
    ensures n >= 2 && exists a, b :: ok(a) && ok(b) && a.Size() < b.Size() <= garbage
  {
    hide CanTakeAll, TakeAll, Meets;
    var w := TakeAll(Idle(n), turns);
    TurnsBalance(n, turns);
    if n == 1 {
      AloneIsSafe(turns);
    }
    TurnsKeepSized(n, turns, ok, garbage);
    var drains := w.threads[t.thread];
    assert drains in w.threads && Top(View(w, t.thread)) in drains;
    var d := Top(View(w, t.thread));
    assert Formed(d) && Sized(d, ok, garbage);
    var a :| ok(a) && a.Size() < d.size;
    var b :| ok(b) && b.Size() == d.size;
  }

  lemma {:induction false} HandOverMeets(a: Entry, b: Entry, ok: Entry -> bool, garbage: nat)
    requires ok(a) && ok(b)
    ensures Meets(HandOver(a, b, garbage), ok, garbage)
  {}

  // Some run of `n` threads dispatches fresh memory exactly when two threads may drain and, of the
  // callbacks there are, one is larger than another and no larger than the memory's size field.
  lemma {:induction false} FreshDispatchExactly(n: nat, ok: Entry -> bool, garbage: nat)
    ensures (exists turns, t ::
               CanTakeAll(Idle(n), turns) && Meets(turns, ok, garbage) && DispatchesFresh(TakeAll(Idle(n), turns), t))
            <==> n >= 2 && exists a, b :: ok(a) && ok(b) && a.Size() < b.Size() <= garbage
  {
    hide CanTakeAll, TakeAll, Meets, DispatchesFresh, HandOver;
    forall turns, t |
      CanTakeAll(Idle(n), turns) && Meets(turns, ok, garbage) && DispatchesFresh(TakeAll(Idle(n), turns), t)
      ensures n >= 2 && exists a, b :: ok(a) && ok(b) && a.Size() < b.Size() <= garbage
    {
      FreshNeedsTwoSizes(n, turns, t, ok, garbage);
    }
    if n >= 2 && exists a, b :: ok(a) && ok(b) && a.Size() < b.Size() <= garbage {
      var a, b :| ok(a) && ok(b) && a.Size() < b.Size() <= garbage;
      AnotherConsumerBreaksIt(n, a, b, garbage);
      HandOverMeets(a, b, ok, garbage);
    }
  }

  // ---- what it leads to: a copy into too little memory ----

  predicate Overruns(w: World, t: Turn) {
    && CanTake(w, t) && t.event.NextCallback?
    && var s := View(w, t.thread); Copies(s) && s.queue[0].Size() > Top(s).buffer.Room()
  }

  predicate NoneFresh(w: World, turns: seq<Turn>)
    requires CanTakeAll(w, turns)
  {
    turns == [] ||
    var before := turns[..|turns| - 1];
    NoneFresh(w, before) && !DispatchesFresh(TakeAll(w, before), turns[|turns| - 1])
  }

  lemma {:induction false} StepKeepsRoom(s: State, e: Event)
    requires Enabled(s, e) && StackFormed(s.drains) && forall d <- s.drains :: Roomy(d)
    requires e.Dispatch? ==> !Top(s).buffer.contents.Garbage?
    ensures forall d <- Step(s, e).drains :: Roomy(d)
  {
    if s.drains != [] { assert Top(s) in s.drains; }
  }

  lemma {:induction false} TurnsKeepRoom(n: nat, turns: seq<Turn>)
    requires CanTakeAll(Idle(n), turns) && NoneFresh(Idle(n), turns)
    ensures forall drains <- TakeAll(Idle(n), turns).threads :: forall d <- drains :: Roomy(d)
    decreases |turns|
  {
    hide StackFormed, Step, Enabled, Roomy;
    if turns != [] {
      var before, t := turns[..|turns| - 1], turns[|turns| - 1];
      TurnsBalance(n, before);
      TurnsKeepRoom(n, before);
      var w := TakeAll(Idle(n), before);
      var s := View(w, t.thread);
      assert s.drains in w.threads;
      StepKeepsRoom(s, t.event);
      forall drains | drains in Take(w, t).threads
        ensures forall d <- drains :: Roomy(d)
      {
        assert drains == Step(s, t.event).drains || drains in w.threads;
      }
    }
  }

  // As long as no fresh memory has been dispatched, every copy fits, whatever the threads.
  lemma {:induction false} OverrunNeedsFresh(n: nat, turns: seq<Turn>, t: Turn)
    requires CanTakeAll(Idle(n), turns) && NoneFresh(Idle(n), turns)
    ensures !Overruns(TakeAll(Idle(n), turns), t)
  {
    hide CanTakeAll, TakeAll, NoneFresh;
    var w := TakeAll(Idle(n), turns);
    TurnsKeepRoom(n, turns);
    if CanTake(w, t) && t.event.NextCallback? {
      assert w.threads[t.thread] in w.threads && Top(View(w, t.thread)) in w.threads[t.thread];
    }
  }

  lemma {:induction false} SafeTurns(n: nat, turns: seq<Turn>, ok: Entry -> bool, garbage: nat)
    requires CanTakeAll(Idle(n), turns) && Meets(turns, ok, garbage)
    requires !(n >= 2 && exists a, b :: ok(a) && ok(b) && a.Size() < b.Size() <= garbage)
    ensures NoneFresh(Idle(n), turns)
    decreases |turns|
  {
    hide Take, CanTake, DispatchesFresh;
    if turns != [] {
      var before, t := turns[..|turns| - 1], turns[|turns| - 1];
      assert forall u <- before :: u in turns;
      SafeTurns(n, before, ok, garbage);
      if DispatchesFresh(TakeAll(Idle(n), before), t) {
        FreshNeedsTwoSizes(n, before, t, ok, garbage);
      }
    }
  }

  // After the hand-over the first thread dispatches its fresh memory, comes back, and is then
  // handed the larger callback in the memory of the smaller.
  lemma {:induction false} HandOverOverruns(n: nat, a: Entry, b: Entry, garbage: nat)
    requires n >= 2 && a.Size() < b.Size() <= garbage
    ensures var turns := HandOver(a, b, garbage) + [Turn(0, Dispatch)] + [Turn(0, Return)];
            CanTakeAll(Idle(n), turns) && Overruns(TakeAll(Idle(n), turns), Turn(0, NextCallback))
  {
    hide Take, TakeAll, CanTakeAll, HandOver;
    var w, turns := Idle(n), HandOver(a, b, garbage);
    AnotherConsumerBreaksIt(n, a, b, garbage);
    SoloTurn(TakeAll(w, turns), Turn(0, Dispatch));
    OneMoreTurn(w, turns, Turn(0, Dispatch));
    SoloTurn(TakeAll(w, turns + [Turn(0, Dispatch)]), Turn(0, Return));
    OneMoreTurn(w, turns + [Turn(0, Dispatch)], Turn(0, Return));
  }

  // Some run copies a callback into too little memory exactly when some run dispatches fresh memory.
  lemma {:induction false} OverrunExactly(n: nat, ok: Entry -> bool, garbage: nat)
    ensures (exists turns, t ::
               CanTakeAll(Idle(n), turns) && Meets(turns, ok, garbage) && Overruns(TakeAll(Idle(n), turns), t))
            <==> n >= 2 && exists a, b :: ok(a) && ok(b) && a.Size() < b.Size() <= garbage
  {
    hide CanTakeAll, TakeAll, Overruns, HandOver;
    if n >= 2 && exists a, b :: ok(a) && ok(b) && a.Size() < b.Size() <= garbage {
      var a, b :| ok(a) && ok(b) && a.Size() < b.Size() <= garbage;
      HandOverOverruns(n, a, b, garbage);
      HandOverMeets(a, b, ok, garbage);
    } else {
      forall turns, t | CanTakeAll(Idle(n), turns) && Meets(turns, ok, garbage)
        ensures !Overruns(TakeAll(Idle(n), turns), t)
      {
        SafeTurns(n, turns, ok, garbage);
        OverrunNeedsFresh(n, turns, t);
      }
    }
  }
}
