// What the lock, flag and file protocol of dylib/feats/ceg.c keeps in every interleaving.
module CegMeaning {
  import opened Options
  import opened CegService

  // ---- the invariant ----

  // The places where g_call_pgid names the helper.
  predicate Published(at: Place) { at.Polling? || at.Terminating? || at.Reaping? }

  // Past the g_stopping test and still to start a helper.
  predicate MayStart(s: State) {
    At(s, Admitted) || At(s, Recorded) || At(s, Placed) || At(s, Cleared) || At(s, Written)
  }

  // The helper is the only child, its group is published only until it is reaped, and its
  // pid cannot have been given away.
  predicate ProcessesTracked(s: State) {
    && s.children.Keys == (if HelperPid(s).Some? then {HelperPid(s).value} else {})
    && s.pgid == (if s.holder.Some? && Published(s.holder.value.at) then HelperPid(s) else None)
    && s.children.Keys !! s.strangers
    && forall k :: 0 <= k < |s.signals| ==> s.signals[k] == Helper
  }

  // Files exist only for the call in flight, and from clean-up on there are none.
  predicate FilesTracked(s: State) {
    && s.files <= (if s.holder.Some? then {InFile(s.holder.value.id), OutFile(s.holder.value.id)} else {})
    && (At(s, Unlocking) || At(s, Locked) || At(s, Admitted) ==> s.files == {} && s.active.None?)
    && (s.active.Some? ==> s.holder.Some? && s.active.value == s.holder.value.id)
  }

  predicate StartsTracked(s: State) {
    s.lateStarts + (if s.stopping && MayStart(s) then 1 else 0) <= if s.stopping then 1 else 0
  }

  predicate Invariant(s: State) {
    ProcessesTracked(s) && FilesTracked(s) && StartsTracked(s)
  }

  // Steps of the call itself, as opposed to a helper, a stranger or a stop.
  predicate OwnStep(e: Event) {
    !e.Acquire? && !e.HelperWrites? && !e.HelperExits? && !e.StrangerStarts? && !e.StrangerEnds?
    && !e.StopSet? && !e.StopKill? && !e.StopUnlink?
  }

  predicate HelperStep(e: Event) {
    e.Spawn? || e.Publish? || e.SeeExit? || e.GiveUp? || e.KillGroup? || e.Unpublish? || e.Reap?
  }

  lemma {:induction false} StepTracksProcesses(s: State, e: Event)
    requires ProcessesTracked(s) && Enabled(s, e)
    ensures ProcessesTracked(Step(s, e))
  {
    if HelperStep(e) {
      HelperStepTracksProcesses(s, e);
    } else if OwnStep(e) {
      hide Exited, Reached;
    } else {
      OtherStepTracksProcesses(s, e);
    }
  }

  lemma {:induction false} HelperStepTracksProcesses(s: State, e: Event)
    requires ProcessesTracked(s) && Enabled(s, e) && HelperStep(e)
    ensures ProcessesTracked(Step(s, e))
  {
  }

  lemma {:induction false} OtherStepTracksProcesses(s: State, e: Event)
    requires ProcessesTracked(s) && Enabled(s, e) && !OwnStep(e)
    ensures ProcessesTracked(Step(s, e))
  {
    hide Exited, At;
  }

  lemma {:induction false} StepTracksFiles(s: State, e: Event)
    requires FilesTracked(s) && Enabled(s, e)
    ensures FilesTracked(Step(s, e))
  {
    if OwnStep(e) {
      OwnStepTracksFiles(s, e);
    } else {
      OtherStepTracksFiles(s, e);
    }
  }

  lemma {:induction false} OwnStepTracksFiles(s: State, e: Event)
    requires FilesTracked(s) && Enabled(s, e) && OwnStep(e)
    ensures FilesTracked(Step(s, e))
  {
    hide Exited, Reached;
    match e
    case UnlinkOut =>
    case WriteIn =>
    case CleanUp =>
    case _ =>
  }

  lemma {:induction false} OtherStepTracksFiles(s: State, e: Event)
    requires FilesTracked(s) && Enabled(s, e) && !OwnStep(e)
    ensures FilesTracked(Step(s, e))
  {
    hide Exited, Reached;
  }

  lemma {:induction false} StepTracksStarts(s: State, e: Event)
    requires StartsTracked(s) && Enabled(s, e)
    ensures StartsTracked(Step(s, e))
  {
    hide Exited, Reached;
  }

  lemma {:induction false} RunKeepsInvariant(s: State, events: seq<Event>)
    requires Invariant(s) && IsRun(s, events)
    ensures Invariant(After(s, events))
    decreases |events|
  {
    if events != [] {
      StepTracksProcesses(s, events[0]);
      StepTracksFiles(s, events[0]);
      StepTracksStarts(s, events[0]);
      RunKeepsInvariant(Step(s, events[0]), events[1..]);
    }
  }

  // In every interleaving of calls and stops: a published group names a helper that has not
  // been reaped, every signal ever sent reached the helper and never a stranger with a
  // recycled pid, and there is at most one helper at a time.
  lemma {:induction false} OnlyTheHelperIsSignalled(strangers: set<Pid>, events: seq<Event>)
    requires IsRun(Init(strangers), events)
    ensures var s := After(Init(strangers), events);
            && (s.pgid.Some? ==> s.pgid.value in s.children)
            && (forall k :: 0 <= k < |s.signals| ==> s.signals[k] == Helper)
            && |s.children| <= 1
  {
    RunKeepsInvariant(Init(strangers), events);
  }

  // When no call is in flight no helper is left and neither call file remains, however the
  // call ended and whenever stop removed its files.
  lemma {:induction false} NothingIsLeftBehind(strangers: set<Pid>, events: seq<Event>)
    requires IsRun(Init(strangers), events) && After(Init(strangers), events).holder.None?
    ensures var s := After(Init(strangers), events);
            s.files == {} && s.children == map[] && s.active.None? && s.pgid.None?
  {
    RunKeepsInvariant(Init(strangers), events);
  }

  // After stop has been asked for, at most one more helper starts: that of a call which had
  // already passed the test.
  lemma {:induction false} StopAdmitsAtMostOne(strangers: set<Pid>, events: seq<Event>)
    requires IsRun(Init(strangers), events)
    ensures After(Init(strangers), events).lateStarts <= 1
  {
    RunKeepsInvariant(Init(strangers), events);
  }

  // ---- when a helper starts after stop ----

  lemma {:induction false} FirstOfRun(s: State, e: Event, rest: seq<Event>)
    requires Enabled(s, e)
    ensures IsRun(s, [e] + rest) <==> IsRun(Step(s, e), rest)
    ensures IsRun(Step(s, e), rest) ==> After(s, [e] + rest) == After(Step(s, e), rest)
    ensures rest == [] ==> IsRun(Step(s, e), rest) && After(Step(s, e), rest) == Step(s, e)
  {
    hide Enabled, Step;
    assert ([e] + rest)[1..] == rest;
  }

  // How many of its own steps a call still has to take.
  function StepsToGo(at: Place): nat {
    match at
    case Locked => 13 case Admitted => 12 case Recorded => 11 case Placed => 10 case Cleared => 9
    case Written => 8 case Spawned(_) => 7 case Polling(_) => 6 case Terminating(_) => 5
    case Reaping(_) => 4 case Waiting(_) => 3 case Reading => 2 case Cleaning => 1 case Unlocking => 0
  }

  // The steps a call past the test still takes up to its start.
  function ToStart(at: Place, pid: Pid): seq<Event>
    decreases StepsToGo(at)
  {
    match at
    case Admitted => [Record] + ToStart(Recorded, pid)
    case Recorded => [PlaceModule] + ToStart(Placed, pid)
    case Placed => [UnlinkOut] + ToStart(Cleared, pid)
    case Cleared => [WriteIn] + ToStart(Written, pid)
    case Written => [Spawn(pid)]
    case _ => []
  }

  // `t` is `s` with the helper `pid` started late.
  predicate StartedLate(s: State, t: State, pid: Pid) {
    t.stopping && t.lateStarts == s.lateStarts + 1 && t.signals == s.signals && t.children == s.children[pid := Alive]
  }

  lemma {:induction false} StepTowardsStart(s: State, pid: Pid)
    requires MayStart(s) && s.stopping && pid !in s.strangers && pid !in s.children
    ensures var way := ToStart(s.holder.value.at, pid);
            && way != [] && Enabled(s, way[0])
            && var t := Step(s, way[0]);
               if way[0].Spawn? then way == [Spawn(pid)] && StartedLate(s, t, pid)
               else
                 && MayStart(t) && StepsToGo(t.holder.value.at) < StepsToGo(s.holder.value.at)
                 && way == [way[0]] + ToStart(t.holder.value.at, pid)
                 && t == s.(holder := t.holder, active := t.active, files := t.files)
  {
  }

  lemma {:induction false} LateStart(s: State, pid: Pid)
    requires MayStart(s) && s.stopping && pid !in s.strangers && pid !in s.children
    ensures var way := ToStart(s.holder.value.at, pid);
            IsRun(s, way) && StartedLate(s, After(s, way), pid)
    decreases StepsToGo(s.holder.value.at)
  {
    hide Enabled, Step, IsRun, After, ToStart;
    var way := ToStart(s.holder.value.at, pid);
    StepTowardsStart(s, pid);
    var t := Step(s, way[0]);
    if way[0].Spawn? {
      FirstOfRun(s, way[0], []);
      assert [way[0]] + [] == way;
    } else {
      LateStart(t, pid);
      FirstOfRun(s, way[0], ToStart(t.holder.value.at, pid));
    }
  }

  // What stop does to a call that has no helper yet: it removes its files, and its signal misses.
  lemma {:induction false} StopPassesBy(s: State)
    requires MayStart(s) && s.pgid.None?
    ensures Enabled(s, StopSet)
    ensures var s1 := Step(s, StopSet);
            && Enabled(s1, StopKill) && Step(s1, StopKill) == s1 && Enabled(s1, StopUnlink)
            && var s3 := Step(s1, StopUnlink);
               s3 == s.(stopping := true, files := s3.files)
  {}

  // Wherever a call is between its test and its start, stop can run to its end, its signal
  // reaching nobody, and the helper starts after that.
  lemma {:induction false} OneLateHelper(s: State, pid: Pid)
    requires Invariant(s) && MayStart(s) && pid !in s.strangers
    ensures var run := [StopSet, StopKill, StopUnlink] + ToStart(s.holder.value.at, pid);
            IsRun(s, run) && StartedLate(s, After(s, run), pid) && After(s, run).children == map[pid := Alive]
  {
    hide IsRun, After, Enabled, Step, ToStart;
    assert s.children.Keys == {} && s.pgid.None?;
    assert s.children == map[];
    StopPassesBy(s);
    var s1 := Step(s, StopSet);
    var s3 := Step(s1, StopUnlink);
    var way := ToStart(s.holder.value.at, pid);
    LateStart(s3, pid);
    FirstOfRun(s, StopSet, [StopKill, StopUnlink] + way);
    FirstOfRun(s1, StopKill, [StopUnlink] + way);
    FirstOfRun(s1, StopUnlink, way);
    assert [StopSet] + ([StopKill, StopUnlink] + way) == [StopSet, StopKill, StopUnlink] + way;
    assert [StopKill] + ([StopUnlink] + way) == [StopKill, StopUnlink] + way;
  }

  lemma {:induction false} NoLateStart(s: State, events: seq<Event>)
    requires s.stopping && !MayStart(s) && IsRun(s, events)
    ensures After(s, events).lateStarts == s.lateStarts
    decreases |events|
  {
    if events != [] {
      StaysOut(s, events[0]);
      NoLateStart(Step(s, events[0]), events[1..]);
    }
  }

  lemma {:induction false} StaysOut(s: State, e: Event)
    requires s.stopping && !MayStart(s) && Enabled(s, e)
    ensures var t := Step(s, e); t.stopping && !MayStart(t) && t.lateStarts == s.lateStarts
  {
    hide Exited, Reached;
  }

  lemma {:induction false} AFreePid(used: set<Pid>) returns (pid: Pid)
    ensures forall p <- used :: p < pid
  {
    if used == {} {
      pid := 0;
    } else {
      var p: Pid :| p in used;
      var above := AFreePid(used - {p});
      pid := if p < above then above else p + 1;
      assert forall q <- used :: q == p || q in used - {p};
    }
  }

  // A helper can start after stop has set its flag exactly when, at that moment, a call is
  // between its test and its start.
  lemma {:induction false} LateStartExactly(s: State)
    requires Invariant(s)
    ensures (exists events :: IsRun(Step(s, StopSet), events) &&
              After(Step(s, StopSet), events).lateStarts > s.lateStarts) <==> MayStart(s)
  {
    hide IsRun, After, ToStart;
    var t := Step(s, StopSet);
    if MayStart(s) {
      var pid := AFreePid(s.strangers);
      assert s.children.Keys == {};
      LateStart(t, pid);
      assert IsRun(t, ToStart(t.holder.value.at, pid));
    } else {
      forall events | IsRun(t, events)
        ensures After(t, events).lateStarts == s.lateStarts
      {
        NoLateStart(t, events);
      }
    }
  }

  // ---- what a stop reaches ----

  // From the recording of its paths to the clean-up, a call's paths are the active ones.
  predicate HasPaths(at: Place) {
    at != Locked && at != Admitted && at != Cleaning && at != Unlocking
  }

  predicate PathsTracked(s: State) {
    && FilesTracked(s) && (s.active.None? ==> s.files == {})
    && (s.holder.Some? && HasPaths(s.holder.value.at) ==> s.active == Some(s.holder.value.id))
  }

  lemma {:induction false} StepTracksPaths(s: State, e: Event)
    requires PathsTracked(s) && Enabled(s, e)
    ensures PathsTracked(Step(s, e))
  {
    hide FilesTracked, Exited, Reached;
    StepTracksFiles(s, e);
    if !e.WriteIn? && !e.HelperWrites? {
      OnlyTheseMakeFiles(s, e);
    }
  }

  lemma {:induction false} OnlyTheseMakeFiles(s: State, e: Event)
    requires FilesTracked(s) && Enabled(s, e) && !e.WriteIn? && !e.HelperWrites?
    ensures Step(s, e).files <= s.files
    ensures e.CleanUp? ==> Step(s, e).files == {}
  {
    hide Exited, Reached;
  }

  lemma {:induction false} RunTracksPaths(s: State, events: seq<Event>)
    requires PathsTracked(s) && IsRun(s, events)
    ensures PathsTracked(After(s, events))
    decreases |events|
  {
    hide PathsTracked, Enabled, Step;
    if events != [] {
      StepTracksPaths(s, events[0]);
      RunTracksPaths(Step(s, events[0]), events[1..]);
    }
  }

  // In every interleaving, what stop does at any moment: while a helper's group is published, from
  // its first poll until it is reaped, the helper gets a signal, and otherwise nobody; and of the
  // files of a call in flight none is left.
  lemma {:induction false} StopReaches(strangers: set<Pid>, events: seq<Event>)
    requires IsRun(Init(strangers), events) && After(Init(strangers), events).stopping
    ensures var s := After(Init(strangers), events);
            && Step(s, StopKill).signals
               == s.signals + (if s.holder.Some? && Published(s.holder.value.at) then [Helper] else [])
            && Step(s, StopUnlink).files == {}
  {
    hide IsRun, After;
    RunKeepsInvariant(Init(strangers), events);
    RunTracksPaths(Init(strangers), events);
    var s := After(Init(strangers), events);
    assert s.signals + [] == s.signals;
  }

  // Who else sends signals: the call, once when it gives the helper up and once to end its group,
  // both times to the helper.
  lemma {:induction false} SignalsExactly(s: State, e: Event)
    requires Invariant(s) && Enabled(s, e)
    ensures Step(s, e).signals
         == s.signals + if e.GiveUp? || e.KillGroup? || (e.StopKill? && s.pgid.Some?) then [Helper] else []
  {
    hide FilesTracked, StartsTracked, Exited;
    assert s.signals + [] == s.signals;
  }

  // ---- a call that is served ----

  // Each of the events leads from one of the states to the next.
  ghost predicate Leads(states: seq<State>, run: seq<Event>) {
    && |states| == |run| + 1
    && forall k :: 0 <= k < |run| ==> Enabled(states[k], run[k]) && Step(states[k], run[k]) == states[k + 1]
  }

  lemma {:induction false} LeadsIsRun(states: seq<State>, run: seq<Event>)
    requires Leads(states, run)
    ensures IsRun(states[0], run) && After(states[0], run) == states[|run|]
    decreases |run|
  {
    hide Enabled, Step;
    if run != [] { LeadsIsRun(states[1..], run[1..]); }
  }

  lemma {:induction false} RunOn(s: State, a: seq<Event>, b: seq<Event>)
    requires IsRun(s, a) && IsRun(After(s, a), b)
    ensures IsRun(s, a + b) && After(s, a + b) == After(After(s, a), b)
    decreases |a|
  {
    hide Enabled, Step;
    if a == [] {
      assert a + b == b;
    } else {
      RunOn(Step(s, a[0]), a[1..], b);
      assert (a + b)[1..] == a[1..] + b;
    }
  }

  function Held(s: State, id: nat, at: Place): State { s.(holder := Some(Call(id, at))) }

  // The helper runs: published, with nothing written yet.
  function Served(strangers: set<Pid>, id: nat, pid: Pid): State {
    Held(Init(strangers), id, Polling(pid)).(active := Some(id), pgid := Some(pid), children := map[pid := Alive],
                                             files := {InFile(id)})
  }

  function Asked(id: nat, pid: Pid): seq<Event> {
    [Acquire(id), Check, Record, PlaceModule, UnlinkOut, WriteIn] + [Spawn(pid), Publish]
  }

  function Answered(pid: Pid): seq<Event> { [HelperWrites(pid), HelperExits(pid), SeeExit] }

  lemma {:induction false} CallAsks(strangers: set<Pid>, id: nat, pid: Pid)
    requires pid !in strangers
    ensures IsRun(Init(strangers), Asked(id, pid))
    ensures After(Init(strangers), Asked(id, pid)) == Served(strangers, id, pid)
  {
    hide IsRun, After, Reached, Exited;
    var idle := Init(strangers);
    var known := idle.(active := Some(id));
    var written := Held(known.(files := {InFile(id)}), id, Written);
    var states := [idle, Held(idle, id, Locked), Held(idle, id, Admitted), Held(known, id, Recorded),
                   Held(known, id, Placed), Held(known, id, Cleared), written];
    LeadsIsRun(states, [Acquire(id), Check, Record, PlaceModule, UnlinkOut, WriteIn]);
    var begun := Held(written.(children := map[pid := Alive]), id, Spawned(pid));
    assert written.children[pid := Alive] == begun.children;
    LeadsIsRun([written, begun, Served(strangers, id, pid)], [Spawn(pid), Publish]);
    RunOn(idle, [Acquire(id), Check, Record, PlaceModule, UnlinkOut, WriteIn], [Spawn(pid), Publish]);
  }

  // The helper has exited with its output written, and that was seen.
  function Seen(strangers: set<Pid>, id: nat, pid: Pid): State {
    Held(Served(strangers, id, pid), id, Reaping(pid)).(children := map[pid := Zombie],
                                                        files := {InFile(id), OutFile(id)})
  }

  lemma {:induction false} HelperAnswers(strangers: set<Pid>, id: nat, pid: Pid)
    ensures var s := Served(strangers, id, pid);
            IsRun(s, Answered(pid)) && After(s, Answered(pid)) == Seen(strangers, id, pid)
  {
    hide IsRun, After, Reached;
    var s := Served(strangers, id, pid);
    var wrote := s.(files := {InFile(id), OutFile(id)});
    var done := wrote.(children := map[pid := Zombie]);
    assert s.children[pid := Zombie] == done.children;
    assert s.files + {OutFile(id)} == wrote.files;
    LeadsIsRun([s, wrote, done, Seen(strangers, id, pid)], Answered(pid));
  }

  lemma {:induction false} HelperIsReaped(strangers: set<Pid>, id: nat, pid: Pid)
    ensures var s := Seen(strangers, id, pid);
            && IsRun(s, [Unpublish, Reap])
            && After(s, [Unpublish, Reap]) == Held(Init(strangers), id, Reading).(active := Some(id), files := s.files)
  {
    hide IsRun, After, Reached;
    var s := Seen(strangers, id, pid);
    var waiting := Held(s.(pgid := None), id, Waiting(pid));
    assert s.children - {pid} == map[];
    LeadsIsRun([s, waiting, Held(Init(strangers), id, Reading).(active := Some(id), files := s.files)],
        [Unpublish, Reap]);
  }

  lemma {:induction false} HelperIsRead(strangers: set<Pid>, id: nat)
    ensures var s := Held(Init(strangers), id, Reading).(active := Some(id), files := {InFile(id), OutFile(id)});
            && IsRun(s, [ReadOutput, CleanUp, Release])
            && After(s, [ReadOutput, CleanUp, Release]) == Init(strangers)
  {
    hide IsRun, After, Exited, Reached;
    var idle := Init(strangers);
    var s := Held(idle, id, Reading).(active := Some(id), files := {InFile(id), OutFile(id)});
    LeadsIsRun([s, Held(s, id, Cleaning), Held(idle, id, Unlocking), idle], [ReadOutput, CleanUp, Release]);
  }

  // From an idle service any call can be served: its helper runs under any free pid, its output is
  // there to be read, and afterwards the service is as idle as before. Nobody is signalled.
  lemma {:induction false} ACallIsServed(strangers: set<Pid>, id: nat, pid: Pid)
    requires pid !in strangers
    ensures var run := Asked(id, pid) + Answered(pid) + [Unpublish, Reap];
            && IsRun(Init(strangers), run)
            && var s := After(Init(strangers), run);
               && s == Init(strangers).(holder := Some(Call(id, Reading)), active := Some(id),
                                        files := {InFile(id), OutFile(id)})
               && IsRun(s, [ReadOutput, CleanUp, Release])
               && After(s, [ReadOutput, CleanUp, Release]) == Init(strangers)
  {
    CallAsks(strangers, id, pid);
    HelperAnswers(strangers, id, pid);
    HelperIsReaped(strangers, id, pid);
    HelperIsRead(strangers, id);
    hide IsRun, After, Enabled, Step, Asked, Answered;
    var idle := Init(strangers);
    RunOn(idle, Asked(id, pid), Answered(pid));
    RunOn(idle, Asked(id, pid) + Answered(pid), [Unpublish, Reap]);
  }

  // Meanwhile the system may give the helper's pid away: once the helper is reaped a stranger may
  // have it, and a stop that comes then signals nobody.
  lemma {:induction false} PidGoesToAStranger(strangers: set<Pid>, id: nat, pid: Pid)
    requires pid !in strangers
    ensures var run := Asked(id, pid) + Answered(pid) + [Unpublish, Reap];
            && IsRun(Init(strangers), run) && Enabled(After(Init(strangers), run), StrangerStarts(pid))
            && var s := Step(After(Init(strangers), run), StrangerStarts(pid));
               && pid in s.strangers && At(s, Reading)
               && IsRun(s, [StopSet, StopKill]) && After(s, [StopSet, StopKill]).signals == []
  {
    ACallIsServed(strangers, id, pid);
    hide IsRun, After, Asked, Answered;
    var served := After(Init(strangers), Asked(id, pid) + Answered(pid) + [Unpublish, Reap]);
    StopMisses(Step(served, StrangerStarts(pid)));
  }

  lemma {:induction false} StopMisses(s: State)
    requires s.pgid.None?
    ensures IsRun(s, [StopSet, StopKill]) && After(s, [StopSet, StopKill]).signals == s.signals
  {
    hide IsRun, After;
    var stopping := s.(stopping := true);
    LeadsIsRun([s, stopping, stopping], [StopSet, StopKill]);
  }

  // ---- progress ----

  // Every step of the call itself brings it closer to its end, and no other step sends it back.
  lemma {:induction false} CallsMakeProgress(s: State, e: Event)
    requires Invariant(s) && Enabled(s, e) && s.holder.Some?
    ensures var t := Step(s, e);
            if OwnStep(e) then t.holder.None? || StepsToGo(t.holder.value.at) < StepsToGo(s.holder.value.at)
            else t.holder == s.holder
  {
    hide FilesTracked, StartsTracked, ProcessesTracked, Reached, Exited;
  }

  // A call is never blocked by a stop or another call: it can always take a step, except
  // that waitpid waits for the helper to exit.
  lemma {:induction false} CallNeverStuck(s: State)
    requires Invariant(s) && s.holder.Some?
    ensures (exists e :: OwnStep(e) && Enabled(s, e))
            || (s.holder.value.at.Waiting? && Enabled(s, HelperExits(s.holder.value.at.pid)))
  {
    hide FilesTracked, StartsTracked, Reached;
    match s.holder.value.at
    case Locked => assert Enabled(s, Check);
    case Admitted => assert Enabled(s, Record);
    case Recorded => assert Enabled(s, PlaceModule);
    case Placed => assert Enabled(s, UnlinkOut);
    case Cleared => assert Enabled(s, WriteIn);
    case Written => assert Enabled(s, SpawnFails);
    case Spawned(_) => assert Enabled(s, Publish);
    case Polling(_) => assert Enabled(s, GiveUp);
    case Terminating(_) => assert Enabled(s, KillGroup);
    case Reaping(_) => assert Enabled(s, Unpublish);
    case Waiting(pid) =>
      assert pid in s.children;
      if s.children[pid].Zombie? {
        assert Enabled(s, Reap);
      }
    case Reading => assert Enabled(s, ReadOutput);
    case Cleaning => assert Enabled(s, CleanUp);
    case Unlocking => assert Enabled(s, Release);
  }
}
