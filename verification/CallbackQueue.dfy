// The callback hand-over between lsteamclient/unixlib.cpp and steamclient_main.c: producers
// append under callbacks_lock, and a drain negotiates its buffer with steamclient_next_callback.
module CallbackQueue {
  // A queued callback. `size` is what the consumer must provide; it is never 0.
  datatype Entry = Entry(id: nat, extra: nat) {
    function Size(): (n: nat)
      ensures n >= 1
    {
      1 + extra
    }
  }

  lemma {:induction false} AnySize(id: nat, size: nat)
    requires size >= 1
    ensures exists entry: Entry :: entry.id == id && entry.Size() == size
  {
    assert Entry(id, size - 1).Size() == size;
  }

  // What the consumer's buffer holds. Fresh memory has an arbitrary size field; growing a
  // buffer keeps the last callback in it.
  datatype Contents = Garbage(size: nat) | Holds(entry: Entry) {
    function SizeField(): nat {
      match this
      case Garbage(n) => n
      case Holds(e) => e.Size()
    }
  }

  // `memory` is how much memory the buffer really has.
  datatype Buffer = NoBuffer | Buffer(contents: Contents, memory: nat) {
    function Room(): nat { if NoBuffer? then 0 else memory }

    // realloc, which keeps the contents; fresh memory holds whatever it holds.
    function Resized(size: nat, garbage: nat): Buffer {
      Buffer(if NoBuffer? then Garbage(garbage) else contents, size)
    }
  }

  // Where a drain stands: about to call steamclient_next_callback, back from it with a
  // callback announced (`copied` says whether the call copied it), inside the dispatched
  // callback, or told that the queue is empty.
  datatype Place = Calling | Announced(copied: bool) | Running | Ended

  // One activation of execute_pending_callbacks: params.size, params.callback.
  datatype Drain = Drain(size: nat, buffer: Buffer, place: Place)

  // `drains` is the stack of nested drains, innermost last. `enqueued` and `dispatched`
  // record the whole history.
  datatype State = State(queue: seq<Entry>, drains: seq<Drain>, enqueued: seq<Entry>, dispatched: seq<Entry>)

  datatype Event =
    | Enqueue(entry: Entry)   // a producer, at any time
    | Start                   // execute_pending_callbacks is entered
    | NextCallback            // steamclient_next_callback, atomic under the lock
    | Grow(garbage: nat)      // realloc; `garbage` is what a fresh buffer's size field reads
    | Dispatch                // the switch over the callback's type
    | Return                  // the dispatched callback comes back
    | Finish                  // the loop ends and the buffer is freed

  function Init(): State { State([], [], [], []) }

  function Top(s: State): Drain
    requires s.drains != []
  {
    s.drains[|s.drains| - 1]
  }

  function WithTop(s: State, d: Drain): State
    requires s.drains != []
  {
    s.(drains := s.drains[..|s.drains| - 1] + [d])
  }

  // steamclient_next_callback on the queue: what is announced, and whether it is copied.
  function Announce(s: State): State
    requires s.drains != []
  {
    var d := Top(s);
    if s.queue == [] then WithTop(s, d.(place := Ended))
    else
      var head := s.queue[0];
      if head.Size() <= d.size then
        WithTop(s, Drain(head.Size(), Buffer(Holds(head), d.buffer.Room()), Announced(true))).(queue := s.queue[1..])
      else WithTop(s, Drain(head.Size(), d.buffer, Announced(false)))
  }

  // The test after the call, as the code writes it.
  predicate WantsToGrow(d: Drain) {
    d.buffer.NoBuffer? || d.size > d.buffer.contents.SizeField()
  }

  // A nested drain can only start while a dispatched callback runs.
  predicate Enabled(s: State, e: Event) {
    match e
    case Enqueue(_) => true
    case Start => s.drains == [] || Top(s).place.Running?
    case NextCallback => s.drains != [] && Top(s).place.Calling?
    case Grow(_) => s.drains != [] && Top(s).place.Announced? && WantsToGrow(Top(s))
    case Dispatch => s.drains != [] && Top(s).place.Announced? && !WantsToGrow(Top(s))
    case Return => s.drains != [] && Top(s).place.Running?
    case Finish => s.drains != [] && Top(s).place.Ended?
  }

  // The callback a dispatch hands to the game; garbage shows as no entry at all.
  function Handed(d: Drain): seq<Entry>
    requires d.buffer.Buffer?
  {
    if d.buffer.contents.Holds? then [d.buffer.contents.entry] else []
  }

  function Step(s: State, e: Event): State
    requires Enabled(s, e)
  {
    match e
    case Enqueue(entry) => s.(queue := s.queue + [entry], enqueued := s.enqueued + [entry])
    case Start => s.(drains := s.drains + [Drain(0, NoBuffer, Calling)])
    case NextCallback => Announce(s)
    case Grow(garbage) =>
      var d := Top(s);
      WithTop(s, d.(buffer := d.buffer.Resized(d.size, garbage), place := Calling))
    case Dispatch =>
      WithTop(s, Top(s).(place := Running)).(dispatched := s.dispatched + Handed(Top(s)))
    case Return => WithTop(s, Top(s).(place := Calling))
    case Finish => s.(drains := s.drains[..|s.drains| - 1])
  }

  predicate IsRun(s: State, events: seq<Event>)
    decreases |events|
  {
    events == [] || (Enabled(s, events[0]) && IsRun(Step(s, events[0]), events[1..]))
  }

  function After(s: State, events: seq<Event>): State
    requires IsRun(s, events)
    decreases |events|
  {
    if events == [] then s else After(Step(s, events[0]), events[1..])
  }

  // ---- the invariant ----

  // The last call copied a callback and its size field is still params.size.
  predicate Settled(d: Drain) {
    d.buffer.Buffer? && d.buffer.contents.Holds? && d.size == d.buffer.contents.entry.Size()
  }

  // The buffer was grown for the callback that is still at the head of the queue.
  predicate GrownForHead(s: State, d: Drain) {
    d.buffer.Buffer? && s.queue != [] && s.queue[0].Size() == d.size
  }

  predicate TopValid(s: State, d: Drain) {
    match d.place
    case Calling => Settled(d) || GrownForHead(s, d) || (d.buffer.NoBuffer? && d.size == 0)
    case Announced(copied) =>
      if copied then Settled(d)
      else WantsToGrow(d) && s.queue != [] && s.queue[0].Size() == d.size
    case Running => Settled(d)
    case Ended => true
  }

  // Copied out of the queue by the innermost drain but not handed over yet.
  function InHand(s: State): seq<Entry> {
    if s.drains != [] && Top(s).place == Announced(true) && Top(s).buffer.Buffer? then Handed(Top(s)) else []
  }

  // Except when a larger callback was just announced, the recorded size is no more than the memory.
  predicate Roomy(d: Drain) { d.place == Announced(false) || d.size <= d.buffer.Room() }

  predicate Invariant(s: State) {
    && s.enqueued == s.dispatched + InHand(s) + s.queue
    && (s.drains != [] ==> TopValid(s, Top(s)))
    && (forall k :: 0 <= k < |s.drains| - 1 ==> s.drains[k].place.Running? && Settled(s.drains[k]))
    && forall d <- s.drains :: Roomy(d)
  }

  lemma {:induction false} StepKeepsRoomy(s: State, e: Event)
    requires Invariant(s) && Enabled(s, e)
    ensures forall d <- Step(s, e).drains :: Roomy(d)
  {
    if s.drains != [] { assert Top(s) in s.drains; }
  }

  lemma {:induction false} StepKeepsInvariant(s: State, e: Event)
    requires Invariant(s) && Enabled(s, e)
    ensures Invariant(Step(s, e))
  {
    var t := Step(s, e);
    StepKeepsRoomy(s, e);
    match e
    case Enqueue(entry) =>
      assert s.enqueued + [entry] == s.dispatched + InHand(s) + (s.queue + [entry]);
    case Start =>
      assert forall k :: 0 <= k < |s.drains| ==> s.drains[k].place.Running? && Settled(s.drains[k]);
    case NextCallback =>
      if s.queue != [] && s.queue[0].Size() <= Top(s).size {
        assert s.queue == [s.queue[0]] + s.queue[1..];
      }
    case Grow(_) =>
    case Dispatch =>
    case Return =>
    case Finish =>
      if |s.drains| > 1 {
        assert Top(t) == s.drains[|s.drains| - 2];
      }
  }

  lemma {:induction false} RunKeepsInvariant(s: State, events: seq<Event>)
    requires Invariant(s) && IsRun(s, events)
    ensures Invariant(After(s, events))
    decreases |events|
  {
    if events != [] {
      StepKeepsInvariant(s, events[0]);
      RunKeepsInvariant(Step(s, events[0]), events[1..]);
    }
  }

  // In every interleaving of producers with one active drain, nested drains allowed, the
  // callbacks handed over are a prefix of those enqueued: in order, none lost or repeated.
  lemma {:induction false} DispatchedInOrder(events: seq<Event>)
    requires IsRun(Init(), events)
    ensures var s := After(Init(), events);
            s.dispatched <= s.enqueued
            && (s.queue == [] && InHand(s) == [] ==> s.dispatched == s.enqueued)
  {
    RunKeepsInvariant(Init(), events);
    var s := After(Init(), events);
    assert s.enqueued == s.dispatched + (InHand(s) + s.queue);
  }

  // A callback is dispatched exactly after the call that copied it in full, and a freshly
  // grown buffer is never dispatched, whatever its memory happened to hold.
  lemma {:induction false} DispatchFollowsCopy(events: seq<Event>, e: Event)
    requires IsRun(Init(), events) && Enabled(After(Init(), events), e)
    ensures var s := After(Init(), events);
            (e.Dispatch? ==> Top(s).place == Announced(true) && Settled(Top(s)))
            && (e.Grow? ==> Top(s).place == Announced(false))
  {
    RunKeepsInvariant(Init(), events);
  }

  // A step of a drain is one of the innermost: those around it wait as they are, one that starts
  // comes on top and begins with nothing, and one that ends leaves the one around it.
  lemma {:induction false} OnlyTheInnermostMoves(s: State, e: Event)
    requires Enabled(s, e)
    ensures var drains, after := s.drains, Step(s, e).drains;
            if e.Enqueue? then after == drains
            else if e.Start? then after == drains + [Drain(0, NoBuffer, Calling)]
            else if e.Finish? then drains != [] && after == drains[..|drains| - 1]
            else drains != [] && |after| == |drains| && after[..|drains| - 1] == drains[..|drains| - 1]
  {}

  // Never fewer than `n` drains, the last of which has not gone on.
  ghost predicate StaysNested(s: State, events: seq<Event>, n: nat)
    requires IsRun(s, events)
    decreases |events|
  {
    |s.drains| > n && (events == [] || StaysNested(Step(s, events[0]), events[1..], n))
  }

  // While a nested drain is under way, whatever happens, the drains around it wait as they were.
  lemma {:induction false} OuterDrainsWait(s: State, events: seq<Event>, n: nat)
    requires IsRun(s, events) && StaysNested(s, events, n)
    ensures |After(s, events).drains| > n && After(s, events).drains[..n] == s.drains[..n]
    decreases |events|
  {
    hide Enabled, Step;
    if events != [] {
      var t := Step(s, events[0]);
      OnlyTheInnermostMoves(s, events[0]);
      OuterDrainsWait(t, events[1..], n);
      var k := |s.drains| - 1;
      assert s.drains[..k][..n] == s.drains[..n];
      assert t.drains[..n] == s.drains[..n] by {
        if |t.drains| == |s.drains| && !events[0].Enqueue? { assert t.drains[..k][..n] == t.drains[..n]; }
      }
    }
  }

  // The call about to be made copies the head of the queue.
  predicate Copies(s: State) { s.drains != [] && s.queue != [] && s.queue[0].Size() <= Top(s).size }

  // Every copy fits the memory it is made to.
  lemma {:induction false} CopyFits(events: seq<Event>)
    requires IsRun(Init(), events)
    ensures var s := After(Init(), events);
            Enabled(s, NextCallback) && Copies(s) ==>
              Top(s).buffer.Buffer? && s.queue[0].Size() <= Top(s).buffer.memory
  {
    RunKeepsInvariant(Init(), events);
    var s := After(Init(), events);
    if s.drains != [] { assert Top(s) in s.drains; }
  }

  // ---- termination ----

  // How far the innermost drain is from its next copy or its end.
  function Rank(s: State): nat {
    if s.drains == [] then 0
    else
      match Top(s).place
      case Announced(true) => 6
      case Running => 5
      case Calling => if s.queue != [] && s.queue[0].Size() <= Top(s).size then 2 else 4
      case Announced(false) => 3
      case Ended => 1
  }

  function StepsLeft(s: State): nat {
    7 * |s.queue| + 6 * |s.drains| + Rank(s)
  }

  function Starts(events: seq<Event>): nat {
    if events == [] then 0 else (if events[0].Start? then 1 else 0) + Starts(events[1..])
  }

  function Enqueues(events: seq<Event>): nat {
    if events == [] then 0 else (if events[0].Enqueue? then 1 else 0) + Enqueues(events[1..])
  }

  // What a step takes off what is left, or a new callback or drain adds to it.
  lemma {:induction false} StepCosts(s: State, e: Event)
    requires Invariant(s) && Enabled(s, e)
    ensures StepsLeft(Step(s, e)) < StepsLeft(s) + (if e.Start? then 11 else 0) + (if e.Enqueue? then 8 else 0)
  {
  }

  // Every run is bounded by the callbacks enqueued and the drains started in it, nested ones
  // included: when both stop, the drains end.
  lemma {:induction false} DrainsTerminate(s: State, events: seq<Event>)
    requires Invariant(s) && IsRun(s, events)
    ensures |events| <= StepsLeft(s) + 11 * Starts(events) + 8 * Enqueues(events)
    decreases |events|
  {
    hide Step, Enabled, Invariant, StepsLeft;
    if events != [] {
      StepKeepsInvariant(s, events[0]);
      StepCosts(s, events[0]);
      DrainsTerminate(Step(s, events[0]), events[1..]);
    }
  }

  // So once producers stop, with or without further drains.
  lemma {:induction false} QuietDrainsTerminate(s: State, events: seq<Event>)
    requires Invariant(s) && IsRun(s, events) && forall e <- events :: !e.Enqueue?
    ensures |events| <= StepsLeft(s) + 11 * Starts(events)
    ensures (forall e <- events :: !e.Start?) ==> |events| <= StepsLeft(s)
  {
    DrainsTerminate(s, events);
    NoneCounted(events);
  }

  lemma {:induction false} NoneCounted(events: seq<Event>)
    ensures (forall e <- events :: !e.Start?) ==> Starts(events) == 0
    ensures (forall e <- events :: !e.Enqueue?) ==> Enqueues(events) == 0
  {
    if events != [] {
      NoneCounted(events[1..]);
      assert events[0] in events && forall e <- events[1..] :: e in events;
    }
  }

  // Nothing blocks a drain: some step of its own is enabled until it has finished.
  lemma {:induction false} DrainNeverStuck(s: State)
    requires Invariant(s) && s.drains != []
    ensures exists e :: Enabled(s, e) && !e.Enqueue? && !e.Start?
  {
    match Top(s).place
    case Calling => assert Enabled(s, NextCallback);
    case Announced(_) =>
      if WantsToGrow(Top(s)) {
        assert Enabled(s, Grow(0));
      } else {
        assert Enabled(s, Dispatch);
      }
    case Running => assert Enabled(s, Return);
    case Ended => assert Enabled(s, Finish);
  }

  // A drain with nobody else about, from its first call to its end: the loop as it stands.
  class Client {
    var callbacks: seq<Entry>
    var dispatched: seq<Entry>

    constructor (callbacks: seq<Entry>)
      ensures this.callbacks == callbacks && dispatched == []
    {
      this.callbacks, dispatched := callbacks, [];
    }

    // queue_vtable_callback and its siblings
    method Queue(entry: Entry)
      modifies this`callbacks
      ensures callbacks == old(callbacks) + [entry]
    {
      callbacks := callbacks + [entry];
    }

    // The caller vouches for `size` bytes.
    method Next(size: nat, buffer: Buffer) returns (ret: bool, newSize: nat, newBuffer: Buffer)
      requires size <= buffer.Room()
      modifies this`callbacks
      ensures ret == (old(callbacks) != [])
      ensures !ret ==> callbacks == old(callbacks)
      ensures ret ==> newSize == old(callbacks)[0].Size()
      ensures ret && newSize <= size ==>
                callbacks == old(callbacks)[1..] && newBuffer == Buffer(Holds(old(callbacks)[0]), buffer.Room())
      ensures ret && newSize > size ==> callbacks == old(callbacks) && newBuffer == buffer
    {
      ret, newSize, newBuffer := callbacks != [], size, buffer;
      if ret {
        var head := callbacks[0];
        newSize := head.Size();
        if newSize <= size {
          newBuffer := Buffer(Holds(head), buffer.Room());
          callbacks := callbacks[1..];
        }
      }
    }

    // `garbage` is what the size field of newly allocated memory reads.
    method ExecutePendingCallbacks(garbage: nat)
      modifies this
      ensures callbacks == [] && dispatched == old(dispatched + callbacks)
    {
      var size: nat, buffer := 0, NoBuffer;
      var ret;
      ret, size, buffer := Next(size, buffer);
      while ret
        invariant ret ==> buffer.NoBuffer? || buffer.contents.Garbage? || buffer.contents.entry.Size() <= size
        invariant ret && !WantsToGrow(Drain(size, buffer, Running)) ==> size <= buffer.Room()
        invariant !ret ==> callbacks == []
        invariant ret && !WantsToGrow(Drain(size, buffer, Running)) ==>
                    && buffer.contents.Holds?
                    && old(dispatched + callbacks) == dispatched + [buffer.contents.entry] + callbacks
        invariant ret && WantsToGrow(Drain(size, buffer, Running)) ==>
                    && callbacks != [] && callbacks[0].Size() == size
                    && old(dispatched + callbacks) == dispatched + callbacks
        invariant !ret ==> old(dispatched + callbacks) == dispatched
        decreases |callbacks|, ret, !WantsToGrow(Drain(size, buffer, Running))
      {
        if buffer.NoBuffer? || size > buffer.contents.SizeField() {
          buffer := buffer.Resized(size, garbage);
        } else {
          dispatched := dispatched + [buffer.contents.entry];
        }
        ghost var left := callbacks;
        ret, size, buffer := Next(size, buffer);
        assert ret && callbacks != left ==> left == [left[0]] + callbacks;
      }
    }
  }
}
