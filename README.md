# trafmon and hgledon in Dafny

This project models the decision logic of `trafmon`, a daemon that drives a
status LED of an embedded Linux router from the traffic on one network
interface. It also models `hgledon`, the sysfs GPIO driver behind the LEDs.
It covers:

- the lock and `.iface` records trafmon keeps under `/var/run`;
- `list`, `status`, `stop` and `start` for one interface, including the
  choice of LED slot ("lan" or "power") for a new instance;
- the back-off while waiting for the interface to appear;
- the per-tick LED decision of the monitor loop and the blink patterns;
- the kernel-version pin table of the driver, and how its `lp_control`,
  `ir_control` and `exec` actions turn into pin writes.

The model is organised as follows:

| file | module | what it holds |
|---|---|---|
| `common.dfy` | `Common` | `Option` and `FirstWhere`, the first index in a range where a predicate holds |
| `ctext.dfy` | `CText` | the C text conventions the sources rely on: `snprintf`/`strncpy` truncation (`Bounded`), `scanf("%d")` (`ScanInt`), `scanf("%Ns %Ms")` (`ScanTwoWords`), `printf("%d")` (`FormatInt`) |
| `hgledon.dfy` | `Hgledon` | `get_pins`, the `init_gpio` version parse, and the class `GpioSysfs` (exported pins, direction and value per pin, the ordered log of value writes) with `export_gpio`, `set_gpio_direction`, `set_gpio_value`, `lp_control`, `ir_control` and `exec` |
| `records.dfy` | `TrafmonRecords` | `/var/run` as a map from entry name to contents, lock and `.iface` paths, `parse_iface`, the record formats, `check_running`, LED claims, `select_led_for_instance`'s scan and `list_instances` |
| `indicator.dfy` | `TrafmonIndicator` | LED states, blink patterns and the trace of events: an LED actuation, a pause, or a `kill()` call |
| `monitor.dfy` | `TrafmonMonitor` | `clamp`, `trx_hi`, the rate computation, the tick decision, and the trace of a whole monitor run |
| `lifecycle.dfy` | `TrafmonLifecycle` | the wait schedule of `wait_for_interface`, and the outcomes of `check_status` and `stop_process` as functions of the records and the oracles |
| `daemon.dfy` | `Trafmon` | class `Daemon`: the globals `interface_name`, `led_name`, `lock_file_path` and `iface_file_path`, plus the `/var/run` map and the event trace; its methods are the C routines, each proved against the specification functions above |

The environment becomes parameters:

- Process liveness `kill(pid, 0) == 0` is `alive: int -> bool`.
- Whether `kill(pid, SIGTERM)` succeeded is `termDelivered`.
- Whether poll `i` of `stop_process` finds the process gone is `gone: nat -> bool`.
- Whether `check_iface` finds the interface on the `i`-th try is `present: nat -> bool`.
- The values the monitor loop reads on one tick (counters, clock, carrier, and the `running` flag at the `if (!running) break;` check) are a `Sample`; a run of the loop is a sequence of samples.
- The value of `MAX_VAL - log10(final_rate) * 10` truncated toward zero to an `int` is `curve: int -> int`.
- The pid `getpid()` returns is `pid`.
- `led(name, state)`, `sleep_ms`/`sleep` and `kill` are events appended to the trace.

Where the code and its design description disagree, the model follows the
code:

- A slot is claimed by an entry of `/var/run` that `parse_iface` accepts as a lock name, when the `.iface` record of that interface reads as two fields and the second names the slot. The liveness of the pid in the lock is not checked, so a stale pair of records still blocks its slot. An `.iface` record with no lock entry beside it claims nothing.
- After a delivered SIGTERM and a process that went away, `stop` turns on the LED named by the global `led_name`. That global is still "lan" in a fresh `trafmon stop` process, whichever slot the stopped instance used. After SIGKILL nothing is restored.
- A refused SIGTERM still removes both records, and `stop` exits with failure.
- The wait for the interface has no overall ceiling.
- Lock creation ignores `fopen` failures.
- `start` does not turn the LED on before the loop.
- `status` also treats a `.iface` record with no readable field as stale.

## Model

| member | source | states |
|---|---|---|
| CText.Bounded | trafmon.c:601-602 | truncation to a `cap`-byte buffer keeps a prefix of fewer than `cap` characters; it is the whole string when it fits and exactly `cap - 1` characters otherwise |
| CText.ScanInt | trafmon.c:160 | `%d` either fails or consumes a non-empty prefix |
| CText.FormatInt | trafmon.c:172 | `%d` output is non-empty and starts with no white space |
| CText.ScanFormattedInt | trafmon.c:172 | reading back with `%d` what `%d` wrote, followed by any non-digit, gives the same integer and leaves the rest |
| CText.ScanWord | trafmon.c:224 | a `%Ns` field is a non-empty run of at most N non-space characters, and the text left over is shorter |
| CText.ScanTwoWords | trafmon.c:339 | `%31s %15s` reads at most two fields, each a non-empty run of non-space characters within its width |
| CText.ScanTwoFormattedWords | trafmon.c:177 | two words written as `"%s %s\n"`, each within its width, are read back as exactly those two words |
| Hgledon.GetPins | hgledon.c:8-19 | a table exists exactly for major ≥ 6 or version 5.15; every major ≥ 6 gets the kernel-6 table; the five pins of a table are distinct |
| Hgledon.ReleaseVersion | hgledon.c:139 | a version is found only when the release string starts with an integer |
| Hgledon.InitGpio | hgledon.c:124-145 | a pin table is returned only when the release was read and `major.minor` parsed, and it is `get_pins(major, minor)` |
| Hgledon.ReleaseVersionOfFormatted | hgledon.c:139 | a release string `"<major>.<minor>"` followed by a non-digit parses to exactly (major, minor), negative numbers included |
| Hgledon.InitGpioOnRelease | hgledon.c:139-144 | on such a release: kernel 6 and later give the kernel-6 pins, 5.15 gives the 5.15 pins, every other version fails |
| Hgledon.InitGpioNeedsNumber | hgledon.c:139-142 | a release that does not start with an integer always fails |
| Hgledon.LpLevels | hgledon.c:52-77 | exactly the actions on, off, warn and dis are accepted; pin_on ends high exactly for on and warn, pin_off exactly for off and warn, and both pins end at 0 or 1 |
| Hgledon.LpLevelsInjective | hgledon.c:64-76 | the four accepted actions leave four different level pairs: on (1,0), off (0,1), warn (1,1), dis (0,0) |
| Hgledon.IrWrites | hgledon.c:79-98 | exactly on, dis and reset are accepted; the last value written is 1 for on and 0 otherwise |
| Hgledon.Route | hgledon.c:101-112 | exactly -power, -lan and -ir are routed: to the power pins, the lan pins and the IR pin |
| Hgledon.GpioSysfs.ExportGpio | hgledon.c:21-30 | succeeds iff the pin was already exported or the export file is writable; an exported pin is left as it is |
| Hgledon.GpioSysfs.SetGpioDirection | hgledon.c:32-40 | sets the direction of an exported pin and changes nothing for any other pin |
| Hgledon.GpioSysfs.SetGpioValue | hgledon.c:42-50 | writes and logs the value of an exported pin, and is a no-op for a pin whose file does not exist |
| Hgledon.GpioSysfs.LpControl | hgledon.c:52-77 | an unknown action fails before any pin is touched; otherwise both pins are exported, set to out, and end at the action's levels, written in the order pin_on then pin_off; no other pin changes |
| Hgledon.GpioSysfs.IrControl | hgledon.c:79-98 | an unknown action fails before any pin is touched; otherwise the IR pin is exported, set to out, and gets the action's writes in order, so reset writes 1 then 0 |
| Hgledon.GpioSysfs.Exec | hgledon.c:101-112 | an unknown command fails and changes nothing; a known command succeeds exactly when the routed control does, and leaves the routed pins at the action's levels |
| Hgledon.ExportTwice | hgledon.c:21-30 | when the first export of a pin succeeds the second succeeds too, and the exported set is the old set plus that pin; when the first fails nothing is exported |
| TrafmonIndicator.ActionsAccepted | trafmon.c:377-397 | every state trafmon sends is an action `lp_control` accepts, and different states give different pin levels |
| TrafmonIndicator.States | trafmon.c:375-399 | each pattern shows two different states |
| TrafmonIndicator.BlinkActuations | trafmon.c:373-404 | `blink_led` makes exactly 2·repeat LED calls, and none when repeat ≤ 0 |
| TrafmonIndicator.BlinkTraceAt | trafmon.c:374-399 | repetition k shows the pattern's first state, holds it first_ms, shows the second state and holds it second_ms |
| TrafmonRecords.LockPath | trafmon.c:41 | the lock path lies under `/var/run/` and fits the 64-byte buffer; it is `/var/run/trafmon_<iface>.lock` for short names and is cut at 63 characters otherwise |
| TrafmonRecords.IfacePath | trafmon.c:42 | the same for `/var/run/trafmon_<iface>.iface` |
| TrafmonRecords.PathsOfShortName | trafmon.c:40-43 | for names shorter than 32 characters neither path is cut |
| TrafmonRecords.ReadEntry | trafmon.c:156 | opening for reading succeeds exactly on an existing entry under `/var/run/`, and yields its contents |
| TrafmonRecords.WriteEntry | trafmon.c:170-173 | writing replaces the contents of the entry and changes no other entry |
| TrafmonRecords.RemoveEntry | trafmon.c:183 | removing deletes that entry only |
| TrafmonRecords.ParseIface | trafmon.c:45-63 | a name is accepted only when it is `trafmon_<x>.lock` with 1 ≤ \|x\| < size, and then x is returned |
| TrafmonRecords.ParseLockName | trafmon.c:45-63 | the lock name of x is parsed back to x exactly when 1 ≤ \|x\| < size |
| TrafmonRecords.ParseIfaceExact | trafmon.c:45-63 | parsing gives x if and only if the name is the lock name of x and 1 ≤ \|x\| < size |
| TrafmonRecords.IfaceNameRejected | trafmon.c:53-55 | a `.iface` companion entry is never taken for an instance |
| TrafmonRecords.LockNameNotIfaceName | trafmon.c:41-42 | a lock name and an `.iface` name never coincide |
| TrafmonRecords.ReadPid | trafmon.c:160 | a pid is read exactly when the record starts with an integer |
| TrafmonRecords.ReadPidRecord | trafmon.c:172 | the `"%d\n"` record of a pid is read back as that pid |
| TrafmonRecords.ReadIfaceRecord | trafmon.c:224 | at most two fields are read, the interface within 31 and the LED within 15 non-space characters |
| TrafmonRecords.ReadIfaceRecordOf | trafmon.c:177 | the record `"<iface> <led>\n"` is read back as those two fields |
| TrafmonRecords.PidAt | trafmon.c:155-163 | a pid is found only when the lock entry exists and its contents read as that pid |
| TrafmonRecords.Launch | trafmon.c:169-180 | creating the records adds the lock and `.iface` entries and no others |
| TrafmonRecords.RemoveRecords | trafmon.c:182-185 | removing the records deletes the lock and `.iface` entries and keeps every other entry unchanged |
| TrafmonRecords.LaunchPid | trafmon.c:169-174 | after the records are created, the lock yields the daemon's pid |
| TrafmonRecords.LaunchIsRunning | trafmon.c:155-167 | after the records are created, `check_running` is exactly the liveness of that pid |
| TrafmonRecords.RemovedNotRunning | trafmon.c:182-185 | after the records are removed the instance is neither running nor listed |
| TrafmonRecords.LaunchListed | trafmon.c:65-93 | an instance whose records were created is listed |
| TrafmonRecords.SelectedLed | trafmon.c:235-242 | "lan" iff no record claims lan; otherwise "power" iff no record claims power; otherwise no slot |
| TrafmonRecords.ScanLedClaims | trafmon.c:211-233 | the scan of `/var/run` finds lan (power) in use iff some entry's `.iface` record names it in its second field |
| TrafmonRecords.LedNamesAreWords | trafmon.c:236-238 | both slot names fit the `%15s` field |
| TrafmonRecords.LaunchClaimsOwn | trafmon.c:175-179 | a new instance's own lock entry claims its LED |
| TrafmonRecords.LaunchClaimsLed | trafmon.c:219-226 | once an instance's records exist, its LED counts as in use |
| TrafmonRecords.ClaimSurvivesLaunch | trafmon.c:207-233 | starting another instance does not remove an existing claim |
| TrafmonRecords.LaunchPowerFillsSlots | trafmon.c:235-242 | with lan claimed, once a power instance starts no slot is left |
| TrafmonRecords.NoThirdSlot | trafmon.c:239-241 | after a lan and a power instance start, a third start finds no slot |
| TrafmonRecords.ListInstances | trafmon.c:65-93 | exactly the instances with a well-formed lock entry are listed, each once; the exit status is 1 iff there is none |
| TrafmonMonitor.Clamp | trafmon.c:406-410 | the result lies in [min, max] when min ≤ max; it is val when val is in range, min when val < min, and max when val > max ≥ min |
| TrafmonMonitor.PerKb | trafmon.c:432-433 | the quotient by 1024 truncated toward zero: r·1024 ≤ delta < r·1024 + 1024 for a non-negative delta, and r·1024 − 1024 < delta ≤ r·1024 with r ≤ 0 for a non-positive one |
| TrafmonMonitor.Decide | trafmon.c:447-458 | the conditions are examined in the source's order: carrier down ⇒ dis/off at 100/100 ms; else rate > 10 ⇒ dis/on at the clamped delay; else idle over 1000 ms ⇒ steady on; else off/on at 100/100 ms; every blink hold lies in [50, 150] |
| TrafmonMonitor.Tick | trafmon.c:429-461 | the next state takes the new counters, and takes `now` as last activity exactly on a traffic tick; the decision is `Decide` on this tick's rate, delay and idle time |
| TrafmonMonitor.ResetNeverHigh | trafmon.c:432-451 | falling counters never count as traffic and do not refresh the activity time |
| TrafmonMonitor.SmallDeltasNotHigh | trafmon.c:432-449 | less than 11 KiB moved in a tick is never traffic |
| TrafmonMonitor.NoSteadyOnRightAfterTraffic | trafmon.c:449-454 | within the idle timeout after a traffic tick the LED does not settle to steady on |
| TrafmonMonitor.ActionEventsWellFormed | trafmon.c:447-458 | a tick only actuates its own LED and only pauses between 50 and 150 ms |
| TrafmonMonitor.RunWellFormed | trafmon.c:428-466 | whatever the samples, the whole loop only actuates its own LED and pauses between 50 and 150 ms |
| TrafmonMonitor.RunContinues | trafmon.c:463-465 | a tick that sees `running` set is followed by the 100 ms pause and the rest of the loop |
| TrafmonMonitor.RunEnds | trafmon.c:463 | a tick that sees `running` cleared ends the loop before the pause |
| TrafmonMonitor.LinkDownRun | trafmon.c:447-448 | while the carrier stays down the LED repeats dis/off and the pause, whatever the counters |
| TrafmonMonitor.IdleRunSettles | trafmon.c:453-454 | with the carrier up, still counters and old activity, the LED stays steadily on |
| TrafmonLifecycle.NextWait | trafmon.c:257 | the next wait never exceeds 30 s and grows by 10 s while that fits |
| TrafmonLifecycle.WaitAtClosedForm | trafmon.c:246-257 | the waits are 10, 20, then 30 s for ever |
| TrafmonLifecycle.Schedule | trafmon.c:250-258 | the first n waits, in order |
| TrafmonLifecycle.ScheduleBounds | trafmon.c:246-257 | every wait lies between 10 and 30 s |
| TrafmonLifecycle.ScheduleTotal | trafmon.c:256 | the total wait after n retries is 0, 10, and 30·n − 30 from n = 2 on |
| TrafmonLifecycle.WaitForInterface | trafmon.c:245-269 | it waits once per failed check, stops at the first check that finds the interface, follows the schedule, and `total_wait` is the sum of the waits |
| TrafmonLifecycle.WaitSleeps | trafmon.c:255 | one `sleep(wait)` per wait, in seconds |
| TrafmonLifecycle.StatusOf | trafmon.c:313-357 | no lock ⇒ not running; no pid ⇒ failure without cleanup; no `.iface` record ⇒ running, with no liveness check; one or two fields and a live pid ⇒ running; anything else ⇒ stale, and both records removed |
| TrafmonLifecycle.StatusRepeatable | trafmon.c:354-356 | a second status after a stale cleanup reports not running, and otherwise repeats the first answer |
| TrafmonLifecycle.StatusOfLaunch | trafmon.c:313-357 | the status of a freshly started instance is running with its interface and LED iff its pid is alive, and stale otherwise |
| TrafmonLifecycle.StopSpec | trafmon.c:271-311 | no lock or no pid ⇒ failure with nothing removed and no signal; otherwise SIGTERM comes first and both records are removed; a refused SIGTERM ⇒ failure; the process outliving every poll ⇒ SIGKILL |
| TrafmonLifecycle.StopPolling | trafmon.c:291-300 | a graceful stop after k polls means polls 0 to k−1 found the process alive and poll k (k < 10) found it gone; SIGKILL means all ten polls found it alive |
| TrafmonLifecycle.StopActuations | trafmon.c:291-303 | stop turns an LED on exactly once when the process went away during the polls, and never otherwise |
| TrafmonLifecycle.StopLeavesNotRunning | trafmon.c:293-306 | once a pid was read, stop leaves the instance neither running nor listed |
| TrafmonLifecycle.StopIsIdempotent | trafmon.c:271-286 | a second stop finds no lock, fails, and changes nothing |
| TrafmonLifecycle.GoneAtFirstPoll | trafmon.c:288-297 | a process gone at the first poll gives SIGTERM, a 100 ms pause and the LED back on |
| TrafmonLifecycle.StopRestoresGlobalLed | trafmon.c:295 | stopping a "power" instance from a process whose `led_name` is "lan" turns on "lan" |
| TrafmonLifecycle.KilledLeavesLedAlone | trafmon.c:291-303 | a process alive at every poll is sent SIGKILL after ten pauses, and no LED is touched |
| Trafmon.Daemon.constructor | trafmon.c:26-31 | the globals start empty, `led_name` starts as "lan", and nothing has happened yet |
| Trafmon.Daemon.SetFilePaths | trafmon.c:40-43 | both path globals are set from the interface name |
| Trafmon.Daemon.CheckRunning | trafmon.c:155-167 | true iff the lock holds a pid and that pid is alive |
| Trafmon.Daemon.CreateLockFile | trafmon.c:169-180 | writes the pid record to the lock path, then the interface and LED record to the `.iface` path |
| Trafmon.Daemon.RemoveLockFile | trafmon.c:182-185 | removes the lock entry and then the `.iface` entry |
| Trafmon.Daemon.Led | trafmon.c:135-146 | one LED call appended to the trace |
| Trafmon.Daemon.SleepMs | trafmon.c:148-153 | one pause appended to the trace |
| Trafmon.Daemon.BlinkLed | trafmon.c:373-404 | the trace grows by exactly `BlinkTrace`: repeat copies of the pattern's four calls, or nothing |
| Trafmon.Daemon.SelectLedForInstance | trafmon.c:207-243 | succeeds iff a slot is free, and then sets `led_name` to the slot `SelectedLed` picks; on failure `led_name` is unchanged |
| Trafmon.Daemon.MonitorTick | trafmon.c:429-461 | one tick body: the state and LED calls of `Tick` |
| Trafmon.Daemon.MonitorPass | trafmon.c:428-466 | one pass of the loop keeps the trace on course for `Run` from tick i on, and says whether the loop goes on |
| Trafmon.Daemon.MonitorTraffic | trafmon.c:422-467 | the loop appends exactly `Run` of the samples to the trace |
| Trafmon.Daemon.StopProcess | trafmon.c:271-311 | exit status, records and trace are exactly those of `StopSpec` |
| Trafmon.Daemon.AwaitExit | trafmon.c:291-303 | the poll loop: pauses until the first poll that finds the process gone, then the settle pause and the LED on; SIGKILL after ten polls that find it alive; both records removed either way |
| Trafmon.Daemon.CheckStatus | trafmon.c:313-357 | report, records and exit status are exactly those of `StatusOf` |
| Trafmon.Daemon.Daemonize | trafmon.c:481-485 | the records are created, then the interface is awaited on the schedule |
| Trafmon.Daemon.RunDaemon | trafmon.c:619-621 | records created, the waits, the monitor loop, then the records removed |
| Trafmon.Daemon.PrepareStart | trafmon.c:604-611 | the slot is chosen before `check_running`: no free slot fails first, whatever the lock says; a free slot and a live pid gives "already running" |
| Trafmon.Daemon.Start | trafmon.c:600-624 | `start <iface>` end to end: the truncated name, the slot, the already-running check, and, when it proceeds, records created, the waits, the loop's trace and the records removed; nothing happens otherwise |
| Trafmon.StopCommand | trafmon.c:516-521 | `stop <iface>` is `StopSpec` on the truncated name, restoring "lan" |
| Trafmon.StatusCommand | trafmon.c:557-562 | `status <iface>` is `StatusOf` on the truncated name |

## Left out

- `daemonize`'s two forks, `setsid`, `setup_signals`, `umask`, `chdir` and `redirect_stdio_to_null` are not modelled; the `start` parent exits at the first fork, and `Start` models the surviving daemon's sequential life.
- The `stop_daemon` signal handler is not modelled; its effect is the `keepRunning` flag of each sample.
- `log_msg`/syslog, `printf` and the help text produce no events.
- `check_iface`, `get_traffic` and `current_time_ms` are oracles, as described above, because they read sysfs and the clock.
- The floating-point expression `MAX_VAL - log10(final_rate) * 10` is the `curve` parameter. For a rate ≤ 0 the C conversion of -inf or NaN to int is undefined, so it is not modelled.
- The lazy `init_gpio` inside `led()` is not modelled. trafmon's LED calls stay abstract: trafmon.c calls `hgl_exec` with "lan"/"power", but `exec` in hgledon.c expects "-lan"/"-power", so the two files are not composed.
- `stop` with no interface and `status` with no interface loop over `/var/run`; those loops are left out. The single-interface operations they call are modelled.
- `opendir` failure in `list_instances` and `select_led_for_instance` is not modelled.
- A `fopen` for writing never fails in the model, so `CreateLockFile` always writes both records. A failing `fopen` only skips a record in the source.
- `fgets` in `init_gpio` is the `Option` its release string comes in; the 64-byte buffer limit is not modelled.
- `%d` overflow and the width of `long` are not modelled; counters, pids and rates are unbounded integers.
- The 100 ms `usleep` between the two IR writes of reset is not modelled; only the order of the writes is.
- Interface names containing '/' are not treated specially; each path is one `/var/run` entry name.
- `kill`'s special meanings for pid 0 and negative pids are left to the `alive` oracle.
- TrafmonLifecycle.WaitForInterface: requires that the interface eventually appears (a ghost index), because the source's loop has no other bound.
- Trafmon.Daemon.Daemonize: the same eventual-appearance requirement.
- Trafmon.Daemon.RunDaemon: the same eventual-appearance requirement.
- Trafmon.Daemon.Start: the same eventual-appearance requirement.
- TrafmonLifecycle.StopLeavesNotRunning: requires that a pid was read, because without one `stop_process` removes nothing.
- The `usage` printer of hgledon.c and the CLI of main.c are not modelled.
- Hgledon.GpioSysfs.ExportGpio: a successful write to `/sys/class/gpio/export` is taken to create `gpio<N>`; the kernel may refuse the pin, and the source does not check. The `ok ==>` pin levels promised by `LpControl`, `IrControl` and `Exec` rest on this.
- Hgledon.GpioSysfs.SetGpioValue: a `direction` or `value` file that opens is taken to accept the write; a failing `fprintf` is not modelled. The same holds for `SetGpioDirection`.
- CText.Bounded: cuts at `cap - 1` characters, while `snprintf` and `strncpy` cut at `cap - 1` bytes; names are sequences of characters, and multi-byte encodings are not modelled.
- Concurrent trafmon processes are not interleaved: each operation sees one `/var/run` that nothing else changes while it runs. Two racing `start`s can both find the same slot free, because lock creation uses `fopen(..., "w")` with no exclusive creation; this race is not modelled.
