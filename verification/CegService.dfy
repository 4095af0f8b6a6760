// dylib/feats/ceg.c: service calls, their helper process and np_ceg_stop, as the atomic steps
// their locks leave. Any number of calls queue for g_call_lock and any number of stops run;
// at most one call is past the lock. Nobody else reaps the helper.
module CegService {
  import opened Options

  type Pid = nat

  // A helper that has been started and not reaped. A reaped pid may be given to a stranger.
  datatype Child = Alive | Zombie

  // servicecall_<id>.in and servicecall_<id>.out
  datatype File = InFile(call: nat) | OutFile(call: nat)

  // How far the call that holds g_call_lock has come in np_ceg_service_call,
  // run_in_prefix, wait_for_helper and reap.
  datatype Place =
    | Locked                        // before the g_stopping test
    | Admitted                      // before mkdir and g_active_in/out
    | Recorded                      // before place_module
    | Placed                        // before unlink(out_path)
    | Cleared                       // before np_write_file_new(in_path)
    | Written                       // before posix_spawn
    | Spawned(pid: Pid)             // before set_call_pgid(pid)
    | Polling(pid: Pid)
    | Terminating(pid: Pid)         // SIGTERM sent
    | Reaping(pid: Pid)             // in reap, before set_call_pgid(0)
    | Waiting(pid: Pid)             // in waitpid
    | Reading                       // the helper is gone, its output may be read
    | Cleaning                      // at `done`
    | Unlocking                     // before g_call_lock is released

  datatype Call = Call(id: nat, at: Place)

  // Who a signal reached.
  datatype Target = Helper | Stranger | Nobody

  datatype State = State(
    holder: Option<Call>,
    stopping: bool,
    pgid: Option<Pid>,              // g_call_pgid, 0 as None
    active: Option<nat>,            // whose paths g_active_in and g_active_out hold
    files: set<File>,
    children: map<Pid, Child>,
    strangers: set<Pid>,
    signals: seq<Target>,           // every kill() so far
    lateStarts: nat                 // helpers started while g_stopping was set
  )

  datatype Event =
    | Acquire(id: nat) | Check | MakeDirectoryFails | Record | PlaceModuleFails | PlaceModule
    | UnlinkOut | WriteInFails | WriteIn | SpawnFails | Spawn(pid: Pid) | Publish
    | SeeExit | GiveUp | KillGroup | Unpublish | Reap | ReadOutput | CleanUp | Release
    | HelperWrites(pid: Pid) | HelperExits(pid: Pid)
    | StrangerStarts(pid: Pid) | StrangerEnds(pid: Pid)
    | StopSet | StopKill | StopUnlink

  function Init(strangers: set<Pid>): State {
    State(None, false, None, None, {}, map[], strangers, [], 0)
  }

  predicate At(s: State, at: Place) { s.holder.Some? && s.holder.value.at == at }

  function HelperOf(at: Place): Option<Pid> {
    match at
    case Spawned(pid) => Some(pid)
    case Polling(pid) => Some(pid)
    case Terminating(pid) => Some(pid)
    case Reaping(pid) => Some(pid)
    case Waiting(pid) => Some(pid)
    case _ => None
  }

  function HelperPid(s: State): Option<Pid> {
    if s.holder.Some? then HelperOf(s.holder.value.at) else None
  }

  predicate Enabled(s: State, e: Event) {
    match e
    case Acquire(_) => s.holder.None?
    case Check => At(s, Locked)
    case MakeDirectoryFails => At(s, Admitted)
    case Record => At(s, Admitted)
    case PlaceModuleFails => At(s, Recorded)
    case PlaceModule => At(s, Recorded)
    case UnlinkOut => At(s, Placed)
    case WriteInFails => At(s, Cleared)
    case WriteIn => At(s, Cleared)
    case SpawnFails => At(s, Written)
    case Spawn(pid) => At(s, Written) && pid !in s.children && pid !in s.strangers
    case Publish => HelperPid(s).Some? && s.holder.value.at.Spawned?
    case SeeExit => HelperPid(s).Some? && s.holder.value.at.Polling? && Exited(s)
    case GiveUp => HelperPid(s).Some? && s.holder.value.at.Polling?
    case KillGroup => HelperPid(s).Some? && s.holder.value.at.Terminating?
    case Unpublish => HelperPid(s).Some? && s.holder.value.at.Reaping?
    case Reap => HelperPid(s).Some? && s.holder.value.at.Waiting? && Exited(s)
    case ReadOutput => At(s, Reading)
    case CleanUp => At(s, Cleaning)
    case Release => At(s, Unlocking)
    case HelperWrites(pid) => HelperPid(s) == Some(pid) && pid in s.children && s.children[pid].Alive?
    case HelperExits(pid) => pid in s.children && s.children[pid].Alive?
    case StrangerStarts(pid) => pid !in s.children && pid !in s.strangers
    case StrangerEnds(pid) => pid in s.strangers
    case StopSet => true
    case StopKill => s.stopping
    case StopUnlink => s.stopping
  }

  // waitid(WNOWAIT) or waitpid would report the helper.
  predicate Exited(s: State) {
    HelperPid(s).Some? && HelperPid(s).value in s.children && s.children[HelperPid(s).value].Zombie?
  }

  function Reached(s: State, pid: Pid): Target {
    if pid in s.children then Helper else if pid in s.strangers then Stranger else Nobody
  }

  function Signal(s: State, pid: Pid): State {
    s.(signals := s.signals + [Reached(s, pid)])
  }

  function Go(s: State, at: Place): State
    requires s.holder.Some?
  {
    s.(holder := Some(s.holder.value.(at := at)))
  }

  function Step(s: State, e: Event): State
    requires Enabled(s, e)
  {
    match e
    case Acquire(id) => s.(holder := Some(Call(id, Locked)))
    case Check => Go(s, if s.stopping then Cleaning else Admitted)
    case MakeDirectoryFails => Go(s, Cleaning)
    case Record => Go(s, Recorded).(active := Some(s.holder.value.id))
    case PlaceModuleFails => Go(s, Cleaning)
    case PlaceModule => Go(s, Placed)
    case UnlinkOut => Go(s, Cleared).(files := s.files - {OutFile(s.holder.value.id)})
    case WriteInFails => Go(s, Cleaning)
    case WriteIn => Go(s, Written).(files := s.files + {InFile(s.holder.value.id)})
    case SpawnFails => Go(s, Cleaning)
    case Spawn(pid) =>
      Go(s, Spawned(pid)).(children := s.children[pid := Alive],
            lateStarts := s.lateStarts + if s.stopping then 1 else 0)
    case Publish => Go(s, Polling(HelperPid(s).value)).(pgid := HelperPid(s))
    case SeeExit => Go(s, Reaping(HelperPid(s).value))
    case GiveUp => Go(Signal(s, HelperPid(s).value), Terminating(HelperPid(s).value))
    case KillGroup => Go(Signal(s, HelperPid(s).value), Reaping(HelperPid(s).value))
    case Unpublish => Go(s, Waiting(HelperPid(s).value)).(pgid := None)
    case Reap => Go(s, Reading).(children := s.children - {HelperPid(s).value})
    case ReadOutput => Go(s, Cleaning)
    case CleanUp =>
      Go(s, Unlocking).(files := s.files - {InFile(s.holder.value.id), OutFile(s.holder.value.id)}, active := None)
    case Release => s.(holder := None)
    case HelperWrites(pid) => s.(files := s.files + {OutFile(s.holder.value.id)})
    case HelperExits(pid) => s.(children := s.children[pid := Zombie])
    case StrangerStarts(pid) => s.(strangers := s.strangers + {pid})
    case StrangerEnds(pid) => s.(strangers := s.strangers - {pid})
    case StopSet => s.(stopping := true)
    case StopKill => if s.pgid.Some? then Signal(s, s.pgid.value) else s
    case StopUnlink => if s.active.Some? then s.(files := s.files - {InFile(s.active.value),
          OutFile(s.active.value)}) else s
  }

  predicate IsRun(s: State, events: seq<Event>)
    decreases |events|
  {
    events == [] || (Enabled(s, events[0]) && IsRun(Step(s, events[0]), events[1..]))
  }

  function After(s: State, events: seq<Event>): State
    requires IsRun(s, events)
    decreases |events|
  {
    if events == [] then s else After(Step(s, events[0]), events[1..])
  }
}
