/** The trafmon process: its globals (interface_name, led_name,
    lock_file_path, iface_file_path), the /var/run directory it reads and
    writes, and the trace of what it does to LEDs, processes and time.
    Each procedure of trafmon.c that changes them is a method, proved
    against the function that specifies it. */
module Trafmon {
  import opened Common
  import opened CText
  import opened TrafmonRecords
  import opened TrafmonIndicator
  import opened TrafmonMonitor
  import opened TrafmonLifecycle

  /** How `start <iface>` ends. */
  datatype StartOutcome =
    | NoFreeLed        // lan and power both claimed: exit 1
    | AlreadyRunning   // the lock record names a live PID: exit 1
    | Monitored        // monitored until told to stop, then cleaned up: exit 0

  class Daemon {
    var interfaceName: string
    var ledName: string
    var lockFilePath: string
    var ifaceFilePath: string
    var runDir: Dir
    var trace: seq<Event>

    /** The globals as the program starts: led_name is "lan". */
    constructor (dir: Dir)
      ensures interfaceName == "" && ledName == "lan"
      ensures lockFilePath == "" && ifaceFilePath == ""
      ensures runDir == dir && trace == []
    {
      interfaceName := "";
      ledName := "lan";
      lockFilePath := "";
      ifaceFilePath := "";
      runDir := dir;
      trace := [];
    }

    /** set_file_paths. */
    method SetFilePaths(iface: string)
      modifies this`lockFilePath, this`ifaceFilePath
      ensures lockFilePath == LockPath(iface) && ifaceFilePath == IfacePath(iface)
    {
      lockFilePath := LockPath(iface);
      ifaceFilePath := IfacePath(iface);
    }

    /** check_running, on the lock record lock_file_path names. */
    method CheckRunning(alive: int -> bool) returns (running: bool)
      ensures running == RunningAt(runDir, lockFilePath, alive)
    {
      var contents := ReadEntry(runDir, lockFilePath);
      if contents.None? {
        return false;
      }
      var pid := ReadPid(contents.value);
      if pid.None? {
        return false;
      }
      running := alive(pid.value);
    }

    /** create_lock_file: the PID, then "<interface_name> <led_name>". */
    method CreateLockFile(pid: int)
      modifies this`runDir
      ensures runDir == WriteEntry(WriteEntry(old(runDir), lockFilePath, PidRecord(pid)), ifaceFilePath, IfaceRecord(interfaceName, ledName))
    {
      runDir := WriteEntry(runDir, lockFilePath, PidRecord(pid));
      runDir := WriteEntry(runDir, ifaceFilePath, IfaceRecord(interfaceName, ledName));
    }

    /** remove_lock_file. */
    method RemoveLockFile()
      modifies this`runDir
      ensures runDir == RemoveEntry(RemoveEntry(old(runDir), lockFilePath), ifaceFilePath)
    {
      runDir := RemoveEntry(runDir, lockFilePath);
      runDir := RemoveEntry(runDir, ifaceFilePath);
    }

    /** led(name, state). */
    method Led(name: string, state: LedState)
      modifies this`trace
      ensures trace == old(trace) + [Actuate(name, state)]
    {
      trace := trace + [Actuate(name, state)];
    }

    /** sleep_ms. */
    method SleepMs(ms: int)
      modifies this`trace
      ensures trace == old(trace) + [Sleep(ms)]
    {
      trace := trace + [Sleep(ms)];
    }

    /** blink_led. */
    method BlinkLed(name: string, p: Pattern, firstMs: int, secondMs: int, repeat: int)
      modifies this`trace
      ensures trace == old(trace) + BlinkTrace(name, p, firstMs, secondMs, repeat)
    {
      var i := 0;
      while i < repeat
        invariant 0 <= i <= if repeat < 0 then 0 else repeat
        invariant trace == old(trace) + Repeat(Cycle(name, p, firstMs, secondMs), i)
      {
        var states := States(p);
        Led(name, states.0);
        SleepMs(firstMs);
        Led(name, states.1);
        SleepMs(secondMs);
        i := i + 1;
      }
    }

    /** select_led_for_instance: led_name becomes the first free slot;
        without one the process exits (ok is false) and led_name stays. */
    method SelectLedForInstance() returns (ok: bool)
      modifies this`ledName
      ensures ok <==> SelectedLed(runDir).Some?
      ensures ledName == if ok then SelectedLed(runDir).value else old(ledName)
    {
      var lanInUse, powerInUse := ScanLedClaims(runDir);
      if !lanInUse {
        ledName := "lan";
        ok := true;
      } else if !powerInUse {
        ledName := "power";
        ok := true;
      } else {
        ok := false;
      }
    }

    /** One pass of monitor_traffic's loop body up to the pause: the rate,
        the LED decision, and the state the next pass starts from. */
    method MonitorTick(st: MonitorState, smp: Sample, curve: int -> int) returns (next: MonitorState)
      modifies this`trace
      ensures next == Tick(st, smp, curve).0
      ensures trace == old(trace) + ActionEvents(ledName, Tick(st, smp, curve).1)
    {
      var rate := PerKb(smp.rx - st.prevRx) + PerKb(smp.tx - st.prevTx);
      var last := st.lastActivity;
      if !smp.carrier {
        BlinkLed(ledName, DisOff, FixedHold, FixedHold, 1);
      } else if TrxHi(rate) {
        var delay := Clamp(curve(rate), MinBlinkDelay, MaxBlinkDelay);
        BlinkLed(ledName, DisOn, delay, delay, 1);
        last := smp.now;
      } else if smp.now - last > IdleTimeout {
        Led(ledName, On);
      } else {
        BlinkLed(ledName, OffOn, FixedHold, FixedHold, 1);
      }
      next := MonitorState(smp.rx, smp.tx, last);
    }

    /** One pass of monitor_traffic's loop on tick i: the tick body, then
        the `running` check and, when it still holds, the pause. `more`
        says whether the loop goes on. */
    method MonitorPass(st: MonitorState, ticks: seq<Sample>, i: nat, curve: int -> int)
      returns (next: MonitorState, more: bool)
      requires i < |ticks|
      modifies this`trace
      ensures more == ticks[i].keepRunning
      ensures !more ==> trace == old(trace) + Run(st, ticks[i..], ledName, curve)
      ensures more ==> old(trace) + Run(st, ticks[i..], ledName, curve) == trace + Run(next, ticks[i + 1..], ledName, curve)
    {
      next := MonitorTick(st, ticks[i], curve);
      more := ticks[i].keepRunning;
      if !more {
        RunEnds(st, ticks, i, ledName, curve);
        return;
      }
      RunContinues(st, ticks, i, ledName, curve, old(trace));
      SleepMs(MaxVal);
    }

    /** The loop of monitor_traffic from the counters and clock it first
        read (`first`), over the ticks the system provides. */
    method MonitorTraffic(first: MonitorState, ticks: seq<Sample>, curve: int -> int)
      modifies this`trace
      ensures trace == old(trace) + Run(first, ticks, ledName, curve)
    {
      var st := first;
      var i := 0;
      while i < |ticks|
        invariant 0 <= i <= |ticks|
        invariant old(trace) + Run(first, ticks, ledName, curve) == trace + Run(st, ticks[i..], ledName, curve)
      {
        var next, more := MonitorPass(st, ticks, i, curve);
        if !more {
          return;
        }
        st := next;
        i := i + 1;
      }
    }

    /** stop_process. */
    method StopProcess(iface: string, termDelivered: bool, gone: nat -> bool) returns (status: int)
      modifies this`lockFilePath, this`ifaceFilePath, this`runDir, this`trace
      ensures lockFilePath == LockPath(iface) && ifaceFilePath == IfacePath(iface)
      ensures var r := StopSpec(old(runDir), iface, ledName, termDelivered, gone);
        status == StopExit(r.status) && runDir == r.dir && trace == old(trace) + r.events
    {
      ghost var dir0 := runDir;
      SetFilePaths(iface);
      var contents := ReadEntry(runDir, lockFilePath);
      if contents.None? {
        return 1;
      }
      var pid := ReadPid(contents.value);
      if pid.None? {
        return 1;
      }
      assert PidAt(dir0, LockPath(iface)) == pid;
      trace := trace + [Signal(pid.value, Term)];
      if !termDelivered {
        RemoveLockFile();
        return 1;
      }
      status := AwaitExit(pid.value, gone);
    }

    /** The block of stop_process after a delivered SIGTERM: up to ten
        polls half a second apart; a process found gone has its records
        removed and led_name turned back on, one that outlives them is
        sent SIGKILL and has its records removed. */
    method AwaitExit(pid: int, gone: nat -> bool) returns (status: int)
      modifies this`runDir, this`trace
      ensures status == 0
      ensures runDir == RemoveEntry(RemoveEntry(old(runDir), lockFilePath), ifaceFilePath)
      ensures trace == old(trace) + AfterTerm(pid, ledName, FirstWhere(gone, 0, StopPolls))
    {
      var i := 0;
      while i < StopPolls
        invariant 0 <= i <= StopPolls
        invariant forall j :: 0 <= j < i ==> !gone(j)
        invariant runDir == old(runDir)
        invariant trace == old(trace) + Repeat([Sleep(PollMs)], i)
      {
        if gone(i) {
          FirstWhereIs(gone, 0, StopPolls, i);
          RemoveLockFile();
          SleepMs(SettleMs);
          Led(ledName, On);
          return 0;
        }
        SleepMs(PollMs);
        i := i + 1;
      }
      assert FirstWhere(gone, 0, StopPolls).None?;
      trace := trace + [Signal(pid, Kill)];
      RemoveLockFile();
      status := 0;
    }

    /** check_status. */
    method CheckStatus(iface: string, alive: int -> bool) returns (status: int, report: Status)
      modifies this`lockFilePath, this`ifaceFilePath, this`runDir
      ensures lockFilePath == LockPath(iface) && ifaceFilePath == IfacePath(iface)
      ensures (report, runDir) == StatusOf(old(runDir), iface, alive)
      ensures status == StatusExit(report)
    {
      SetFilePaths(iface);
      var contents := ReadEntry(runDir, lockFilePath);
      if contents.None? {
        return 1, NotRunning;
      }
      var pid := ReadPid(contents.value);
      if pid.None? {
        return 1, PidUnreadable;
      }
      var record := ReadEntry(runDir, ifaceFilePath);
      if record.None? {
        return 0, RunningUnknown(pid.value);
      }
      var fields := ReadIfaceRecord(record.value);
      if |fields| == 2 {
        if alive(pid.value) {
          return 0, Running(pid.value, fields[0], Some(fields[1]));
        }
      } else if |fields| == 1 {
        if alive(pid.value) {
          return 0, Running(pid.value, fields[0], None);
        }
      }
      RemoveLockFile();
      return 1, Stale;
    }

    /** The part of daemonize that the model keeps: the records, then the
        wait for the interface with its pauses. */
    method Daemonize(pid: int, present: nat -> bool, ghost appears: nat) returns (waits: seq<int>)
      requires lockFilePath == LockPath(interfaceName) && ifaceFilePath == IfacePath(interfaceName)
      requires present(appears)
      modifies this`runDir, this`trace
      ensures runDir == Launch(old(runDir), interfaceName, ledName, pid)
      ensures FirstWhere(present, 0, appears + 1) == Some(|waits|)
      ensures waits == Schedule(|waits|)
      ensures trace == old(trace) + WaitSleeps(waits)
    {
      CreateLockFile(pid);
      var total;
      waits, total := WaitForInterface(present, appears);
      trace := trace + WaitSleeps(waits);
    }

    /** The daemon's life once start has passed its checks: daemonize,
        monitor_traffic until told to stop, remove_lock_file. */
    method RunDaemon(pid: int, present: nat -> bool, ghost appears: nat,
                     first: MonitorState, ticks: seq<Sample>, curve: int -> int) returns (waits: seq<int>)
      requires lockFilePath == LockPath(interfaceName) && ifaceFilePath == IfacePath(interfaceName)
      requires present(appears)
      modifies this`runDir, this`trace
      ensures FirstWhere(present, 0, appears + 1) == Some(|waits|)
      ensures waits == Schedule(|waits|)
      ensures runDir == RemoveRecords(Launch(old(runDir), interfaceName, ledName, pid), interfaceName)
      ensures trace == old(trace) + WaitSleeps(waits) + Run(first, ticks, ledName, curve)
    {
      waits := Daemonize(pid, present, appears);
      MonitorTraffic(first, ticks, curve);
      RemoveLockFile();
    }

    /** The checks of the `start <iface>` path of main once interface_name
        is set, in their order: the paths, the LED slot, the running
        check. Monitored here means the checks passed. */
    method PrepareStart(alive: int -> bool) returns (outcome: StartOutcome)
      modifies this`ledName, this`lockFilePath, this`ifaceFilePath
      ensures lockFilePath == LockPath(interfaceName) && ifaceFilePath == IfacePath(interfaceName)
      ensures outcome == NoFreeLed <==> SelectedLed(runDir).None?
      ensures outcome == AlreadyRunning <==> SelectedLed(runDir).Some? && IsRunning(runDir, interfaceName, alive)
      ensures ledName == if outcome == NoFreeLed then old(ledName) else SelectedLed(runDir).value
    {
      SetFilePaths(interfaceName);
      ghost var selected := SelectedLed(runDir);
      var ok := SelectLedForInstance();
      assert ok == selected.Some?;
      if !ok {
        outcome := NoFreeLed;
      } else {
        assert ledName == selected.value;
        var running := CheckRunning(alive);
        assert running == IsRunning(runDir, interfaceName, alive);
        outcome := if running then AlreadyRunning else Monitored;
      }
    }

    /** The `start <iface>` path of main: interface_name cut to 31
        characters, the checks, then the daemon.
        `pid` is the daemon's PID after it has forked away; the monitor
        starts from the counters and clock in `first`. */
    method Start(arg: string, pid: int, alive: int -> bool, present: nat -> bool, ghost appears: nat,
                 first: MonitorState, ticks: seq<Sample>, curve: int -> int)
      returns (outcome: StartOutcome, waits: seq<int>)
      requires present(appears)
      modifies this`interfaceName, this`ledName, this`lockFilePath, this`ifaceFilePath, this`runDir, this`trace
      ensures interfaceName == Bounded(arg, NameCap)
      ensures lockFilePath == LockPath(interfaceName) && ifaceFilePath == IfacePath(interfaceName)
      ensures outcome == NoFreeLed <==> SelectedLed(old(runDir)).None?
      ensures outcome == AlreadyRunning <==> SelectedLed(old(runDir)).Some? && IsRunning(old(runDir), interfaceName, alive)
      ensures ledName == if outcome == NoFreeLed then old(ledName) else SelectedLed(old(runDir)).value
      ensures outcome != Monitored ==> runDir == old(runDir) && trace == old(trace) && waits == []
      ensures outcome == Monitored ==>
        && FirstWhere(present, 0, appears + 1) == Some(|waits|)
        && waits == Schedule(|waits|)
        && runDir == RemoveRecords(Launch(old(runDir), interfaceName, ledName, pid), interfaceName)
        && trace == old(trace) + WaitSleeps(waits) + Run(first, ticks, ledName, curve)
    {
      waits := [];
      interfaceName := Bounded(arg, NameCap);
      outcome := PrepareStart(alive);
      if outcome == Monitored {
        waits := RunDaemon(pid, present, appears, first, ticks, curve);
      }
    }
  }

  /** The exit status of `start <iface>`. */
  function StartExit(o: StartOutcome): int {
    if o == Monitored then 0 else 1
  }

  /** `stop <iface>` from the command line: a fresh process whose led_name
      is still "lan" stops the instance, so "lan" is the LED it restores. */
  method StopCommand(dir: Dir, arg: string, termDelivered: bool, gone: nat -> bool)
    returns (status: int, after: Dir, events: seq<Event>)
    ensures var r := StopSpec(dir, Bounded(arg, NameCap), "lan", termDelivered, gone);
      status == StopExit(r.status) && after == r.dir && events == r.events
  {
    var d := new Daemon(dir);
    d.interfaceName := Bounded(arg, NameCap);
    status := d.StopProcess(d.interfaceName, termDelivered, gone);
    after, events := d.runDir, d.trace;
  }

  /** `status <iface>` from the command line. */
  method StatusCommand(dir: Dir, arg: string, alive: int -> bool)
    returns (status: int, report: Status, after: Dir)
    ensures (report, after) == StatusOf(dir, Bounded(arg, NameCap), alive)
    ensures status == StatusExit(report)
  {
    var d := new Daemon(dir);
    d.interfaceName := Bounded(arg, NameCap);
    status, report := d.CheckStatus(d.interfaceName, alive);
    after := d.runDir;
  }
}
