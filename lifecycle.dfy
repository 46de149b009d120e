/** The lifecycle decisions of trafmon: how long start waits for its
    interface, what status reports and cleans up, and how stop ends an
    instance (SIGTERM, up to ten polls, then SIGKILL).

    Oracles stand for what the system answers: `present(k)` is whether
    check_iface finds the interface at its k-th check, `alive(pid)` whether
    kill(pid, 0) succeeds, `termDelivered` whether kill(pid, SIGTERM)
    succeeds, and `gone(i)` whether kill(pid, 0) fails at stop's i-th poll. */
module TrafmonLifecycle {
  import opened Common
  import opened CText
  import opened TrafmonRecords
  import opened TrafmonIndicator

  // ---- wait_for_interface ----

  const FirstWait := 10
  const WaitStep := 10
  const MaxWait := 30

  /** The back-off step: ten seconds more, but never above 30. */
  function NextWait(w: int): (r: int)
    ensures r <= MaxWait
    ensures w + WaitStep <= MaxWait ==> r == w + WaitStep
  {
    if w + WaitStep > MaxWait then MaxWait else w + WaitStep
  }

  /** The wait before the (j+1)-th check of the interface, in seconds. */
  function WaitAt(j: nat): int {
    if j == 0 then FirstWait else NextWait(WaitAt(j - 1))
  }

  /** The waits are 10, 20, then 30 for ever after. */
  lemma {:induction false} WaitAtClosedForm(j: nat)
    ensures WaitAt(j) == if j < 2 then 10 * (j + 1) else MaxWait
  {
    if j > 0 {
      WaitAtClosedForm(j - 1);
    }
  }

  /** The first n waits. */
  function Schedule(n: nat): (ws: seq<int>)
    ensures |ws| == n
    ensures forall j :: 0 <= j < n ==> ws[j] == WaitAt(j)
  {
    if n == 0 then [] else Schedule(n - 1) + [WaitAt(n - 1)]
  }

  function Sum(ws: seq<int>): int {
    if ws == [] then 0 else Sum(ws[..|ws| - 1]) + ws[|ws| - 1]
  }

  /** Every wait lies between 10 and 30 seconds. */
  lemma ScheduleBounds(n: nat)
    ensures forall j :: 0 <= j < n ==> FirstWait <= Schedule(n)[j] <= MaxWait
  {
    forall j | 0 <= j < n
      ensures FirstWait <= Schedule(n)[j] <= MaxWait
    {
      WaitAtClosedForm(j);
    }
  }

  /** After n waits the total is 0, 10, 30, 60, 90, ... seconds: 30 more
      per wait from the third on. */
  lemma {:induction false} ScheduleTotal(n: nat)
    ensures Sum(Schedule(n)) == if n == 0 then 0 else if n == 1 then 10 else 30 * n - 30
  {
    if n > 0 {
      ScheduleTotal(n - 1);
      WaitAtClosedForm(n - 1);
      var ws := Schedule(n);
      assert ws[..n - 1] == Schedule(n - 1);
      assert Sum(ws) == Sum(Schedule(n - 1)) + WaitAt(n - 1);
    }
  }

  /** wait_for_interface: check, and while the interface is missing wait
      and back off. The loop has no ceiling; it ends because the interface
      is there at check `appears`, and ends at the first such check. */
  method WaitForInterface(present: nat -> bool, ghost appears: nat) returns (waits: seq<int>, total: int)
    requires present(appears)
    ensures FirstWhere(present, 0, appears + 1) == Some(|waits|)
    ensures waits == Schedule(|waits|)
    ensures total == Sum(waits)
  {
    var waitTime := FirstWait;
    total := 0;
    waits := [];
    while !present(|waits|)
      invariant |waits| <= appears
      invariant forall j :: 0 <= j < |waits| ==> !present(j)
      invariant waits == Schedule(|waits|)
      invariant waitTime == WaitAt(|waits|)
      invariant total == Sum(waits)
      decreases appears - |waits|
    {
      assert waits + [waitTime] == Schedule(|waits| + 1);
      assert (waits + [waitTime])[..|waits|] == waits;
      waits := waits + [waitTime];
      total := total + waitTime;
      waitTime := if waitTime + WaitStep > MaxWait then MaxWait else waitTime + WaitStep;
    }
  }

  /** The pauses the waits make, in milliseconds. */
  function WaitSleeps(waits: seq<int>): (t: seq<Event>)
    ensures |t| == |waits|
    ensures forall j :: 0 <= j < |t| ==> t[j] == Sleep(1000 * waits[j])
  {
    if waits == [] then [] else WaitSleeps(waits[..|waits| - 1]) + [Sleep(1000 * waits[|waits| - 1])]
  }

  // ---- check_status ----

  datatype Status =
    | NotRunning                                          // no lock record
    | PidUnreadable                                       // a lock record without a PID
    | RunningUnknown(pid: int)                            // no .iface record: not checked further
    | Running(pid: int, iface: string, led: Option<string>)
    | Stale                                               // records found dead and removed

  /** The exit status check_status returns. */
  function StatusExit(st: Status): int {
    if st.RunningUnknown? || st.Running? then 0 else 1
  }

  /** check_status for iface: the report and the directory afterwards. */
  function StatusOf(dir: Dir, iface: string, alive: int -> bool): (r: (Status, Dir))
    ensures r.0 == NotRunning <==> ReadEntry(dir, LockPath(iface)).None?
    ensures r.0 == PidUnreadable <==> ReadEntry(dir, LockPath(iface)).Some? && PidAt(dir, LockPath(iface)).None?
    ensures r.0.RunningUnknown? <==> PidAt(dir, LockPath(iface)).Some? && ReadEntry(dir, IfacePath(iface)).None?
    ensures r.0.Running? ==> PidAt(dir, LockPath(iface)) == Some(r.0.pid) && alive(r.0.pid)
    ensures r.0 == Stale <==>
      && PidAt(dir, LockPath(iface)).Some? && ReadEntry(dir, IfacePath(iface)).Some?
      && (ReadIfaceRecord(ReadEntry(dir, IfacePath(iface)).value) == [] || !alive(PidAt(dir, LockPath(iface)).value))
    ensures r.1 == if r.0 == Stale then RemoveRecords(dir, iface) else dir
  {
    match PidAt(dir, LockPath(iface))
    case None =>
      if ReadEntry(dir, LockPath(iface)).None? then (NotRunning, dir) else (PidUnreadable, dir)
    case Some(pid) =>
      match ReadEntry(dir, IfacePath(iface))
      case None => (RunningUnknown(pid), dir)
      case Some(record) =>
        var fields := ReadIfaceRecord(record);
        if |fields| == 2 && alive(pid) then (Running(pid, fields[0], Some(fields[1])), dir)
        else if |fields| == 1 && alive(pid) then (Running(pid, fields[0], None), dir)
        else (Stale, RemoveRecords(dir, iface))
  }

  /** A second status check right after a first one gives the same answer,
      except that after a cleanup it reports the instance as not running. */
  lemma StatusRepeatable(dir: Dir, iface: string, alive: int -> bool)
    ensures var first := StatusOf(dir, iface, alive);
      StatusOf(first.1, iface, alive) == (if first.0 == Stale then NotRunning else first.0, first.1)
  {
    var first := StatusOf(dir, iface, alive);
    if first.0 == Stale {
      assert ReadEntry(first.1, LockPath(iface)).None?;
    }
  }

  /** Status of a freshly launched instance: running on its interface and
      LED while its PID is alive, otherwise found stale and cleaned up. */
  lemma StatusOfLaunch(dir: Dir, iface: string, led: string, pid: int, alive: int -> bool)
    requires IsWord(iface) && |iface| < NameCap
    requires IsWord(led) && |led| <= LedWidth
    ensures StatusOf(Launch(dir, iface, led, pid), iface, alive).0 ==
      if alive(pid) then Running(pid, iface, Some(led)) else Stale
  {
    PathsOfShortName(iface);
    LockNameNotIfaceName(iface, iface);
    ReadPidRecord(pid);
    ReadIfaceRecordOf(iface, led);
  }

  // ---- stop_process ----

  const StopPolls := 10
  const PollMs := 500
  const SettleMs := 100

  datatype StopStatus =
    | StopNotRunning          // no lock record
    | StopPidUnreadable       // a lock record without a PID
    | TermRefused(pid: int)   // kill(pid, SIGTERM) failed
    | Stopped(pid: int, polls: nat)  // gone at poll `polls`
    | Killed(pid: int)        // still there after every poll

  /** The exit status stop_process returns. */
  function StopExit(st: StopStatus): int {
    if st.Stopped? || st.Killed? then 0 else 1
  }

  datatype StopResult = StopResult(status: StopStatus, dir: Dir, events: seq<Event>)

  /** The calls stop_process makes after a SIGTERM that was delivered:
      a pause per poll that still finds the process, then either the
      settle pause and the LED back on (gone at poll k) or SIGKILL. */
  function AfterTerm(pid: int, ledName: string, goneAt: Option<nat>): seq<Event> {
    match goneAt
    case Some(k) => Repeat([Sleep(PollMs)], k) + [Sleep(SettleMs), Actuate(ledName, On)]
    case None => Repeat([Sleep(PollMs)], StopPolls) + [Signal(pid, Kill)]
  }

  /** stop_process for iface, with ledName the global LED name it
      restores. Events: kill calls, pauses and the LED restore. */
  function StopSpec(dir: Dir, iface: string, ledName: string, termDelivered: bool, gone: nat -> bool): (r: StopResult)
    ensures r.status == StopNotRunning <==> ReadEntry(dir, LockPath(iface)).None?
    ensures r.status == StopPidUnreadable <==> ReadEntry(dir, LockPath(iface)).Some? && PidAt(dir, LockPath(iface)).None?
    ensures r.status == StopNotRunning || r.status == StopPidUnreadable ==> r.dir == dir && r.events == []
    ensures !(r.status == StopNotRunning || r.status == StopPidUnreadable) ==>
      && r.dir == RemoveRecords(dir, iface)
      && r.status.pid == PidAt(dir, LockPath(iface)).value
      && |r.events| > 0 && r.events[0] == Signal(r.status.pid, Term)
    ensures r.status.TermRefused? <==> PidAt(dir, LockPath(iface)).Some? && !termDelivered
    ensures r.status.Killed? <==> PidAt(dir, LockPath(iface)).Some? && termDelivered && FirstWhere(gone, 0, StopPolls).None?
  {
    match PidAt(dir, LockPath(iface))
    case None =>
      StopResult(if ReadEntry(dir, LockPath(iface)).None? then StopNotRunning else StopPidUnreadable, dir, [])
    case Some(pid) =>
      if !termDelivered then
        StopResult(TermRefused(pid), RemoveRecords(dir, iface), [Signal(pid, Term)])
      else
        var goneAt := FirstWhere(gone, 0, StopPolls);
        var status := if goneAt.Some? then Stopped(pid, goneAt.value) else Killed(pid);
        StopResult(status, RemoveRecords(dir, iface), [Signal(pid, Term)] + AfterTerm(pid, ledName, goneAt))
  }

  /** The polls stop_process reports: a stopped process was first found
      gone at that poll, a killed one was found at every poll. */
  lemma StopPolling(dir: Dir, iface: string, ledName: string, termDelivered: bool, gone: nat -> bool)
    ensures var r := StopSpec(dir, iface, ledName, termDelivered, gone);
      && (r.status.Stopped? ==> r.status.polls < StopPolls && gone(r.status.polls))
      && (r.status.Stopped? ==> forall i :: 0 <= i < r.status.polls ==> !gone(i))
      && (r.status.Killed? ==> forall i :: 0 <= i < StopPolls ==> !gone(i))
  {}

  /** stop turns an LED on exactly when the process went away within the
      polls, and then only once. */
  lemma StopActuations(dir: Dir, iface: string, ledName: string, termDelivered: bool, gone: nat -> bool)
    ensures var r := StopSpec(dir, iface, ledName, termDelivered, gone);
      Actuations(r.events) == if r.status.Stopped? then 1 else 0
  {
    var r := StopSpec(dir, iface, ledName, termDelivered, gone);
    if PidAt(dir, LockPath(iface)).Some? && termDelivered {
      var pid := PidAt(dir, LockPath(iface)).value;
      var goneAt := FirstWhere(gone, 0, StopPolls);
      var n := if goneAt.Some? then goneAt.value else StopPolls;
      var tail: seq<Event> := if goneAt.Some? then [Sleep(SettleMs), Actuate(ledName, On)] else [Signal(pid, Kill)];
      NoActuationsInPauses(n);
      ActuationsAppend(Repeat([Sleep(PollMs)], n), tail);
      ActuationsAppend([Signal(pid, Term)], AfterTerm(pid, ledName, goneAt));
      assert [Sleep(SettleMs), Actuate(ledName, On)][..1] == [Sleep(SettleMs)];
    } else {
      assert r.events == [] || r.events == [r.events[0]];
    }
  }

  lemma {:induction false} NoActuationsInPauses(n: nat)
    ensures Actuations(Repeat([Sleep(PollMs)], n)) == 0
  {
    if n > 0 {
      NoActuationsInPauses(n - 1);
      ActuationsAppend(Repeat([Sleep(PollMs)], n - 1), [Sleep(PollMs)]);
    }
  }

  /** Whatever stop did once it found a PID, the instance is afterwards
      neither running nor listed. (A lock record without a PID is left in
      place.) */
  lemma StopLeavesNotRunning(dir: Dir, iface: string, ledName: string, termDelivered: bool, gone: nat -> bool, alive: int -> bool)
    requires |iface| < NameCap
    requires PidAt(dir, LockPath(iface)).Some?
    ensures !IsRunning(StopSpec(dir, iface, ledName, termDelivered, gone).dir, iface, alive)
    ensures !Listed(StopSpec(dir, iface, ledName, termDelivered, gone).dir, iface)
  {
    RemovedNotRunning(dir, iface, alive);
  }

  /** Stopping again after a stop that found a PID reports "not running"
      and changes nothing. */
  lemma StopIsIdempotent(dir: Dir, iface: string, ledName: string, termDelivered: bool, gone: nat -> bool,
                         termDelivered2: bool, gone2: nat -> bool)
    requires PidAt(dir, LockPath(iface)).Some?
    ensures var first := StopSpec(dir, iface, ledName, termDelivered, gone);
      StopSpec(first.dir, iface, ledName, termDelivered2, gone2) == StopResult(StopNotRunning, first.dir, [])
  {
    var first := StopSpec(dir, iface, ledName, termDelivered, gone);
    assert ReadEntry(first.dir, LockPath(iface)).None?;
  }

  /** A process that is gone at the first poll is stopped without any
      poll pause: SIGTERM, the settle pause, then the LED back on. */
  lemma GoneAtFirstPoll(dir: Dir, iface: string, ledName: string, pid: int, gone: nat -> bool)
    requires PidAt(dir, LockPath(iface)) == Some(pid)
    requires gone(0)
    ensures StopSpec(dir, iface, ledName, true, gone).events == [Signal(pid, Term), Sleep(SettleMs), Actuate(ledName, On)]
  {
    assert FirstWhere(gone, 0, StopPolls) == Some(0);
    assert Repeat([Sleep(PollMs)], 0) == [];
  }

  /** stop restores the LED named by the global led_name, which a stop
      command leaves at its initial "lan": stopping the instance that
      drives power turns lan on and leaves power alone. */
  lemma StopRestoresGlobalLed(dir: Dir, iface: string, pid: int, gone: nat -> bool)
    requires |iface| < NameCap
    requires gone(0)
    ensures StopSpec(Launch(dir, iface, "power", pid), iface, "lan", true, gone).events ==
      [Signal(pid, Term), Sleep(SettleMs), Actuate("lan", On)]
  {
    LaunchPid(dir, iface, "power", pid);
    GoneAtFirstPoll(Launch(dir, iface, "power", pid), iface, "lan", pid, gone);
  }

  /** When the process outlives every poll it is killed, and the LED is
      not restored. */
  lemma KilledLeavesLedAlone(dir: Dir, iface: string, ledName: string, gone: nat -> bool)
    requires PidAt(dir, LockPath(iface)).Some?
    requires forall i :: 0 <= i < StopPolls ==> !gone(i)
    ensures var r := StopSpec(dir, iface, ledName, true, gone);
      && r.status.Killed?
      && r.events[|r.events| - 1] == Signal(r.status.pid, Kill)
      && |r.events| == StopPolls + 2
  {
    assert FirstWhere(gone, 0, StopPolls).None?;
  }
}
