/** The records a trafmon instance keeps in /var/run: for an interface
    <iface> the lock record trafmon_<iface>.lock holds the daemon's PID
    ("%d\n") and the companion trafmon_<iface>.iface holds the interface
    and the LED the instance drives ("%s %s\n"). The directory is a map
    from entry name to file contents; a path names an entry when it starts
    with "/var/run/". */
module TrafmonRecords {
  import opened Common
  import opened CText

  const RunDir := "/var/run/"
  const Prefix := "trafmon_"
  const LockSuffix := ".lock"
  const IfaceSuffix := ".iface"
  /** Size of lock_file_path, iface_file_path and of the LED path buffer. */
  const PathCap := 64
  /** Size of interface_name and of the buffers parse_iface fills. */
  const NameCap := 32
  /** Widths of the two %s conversions that read a .iface record. */
  const IfaceWidth := 31
  const LedWidth := 15

  /** /var/run: entry name to contents. */
  type Dir = map<string, string>

  function LockName(iface: string): string {
    Prefix + iface + LockSuffix
  }

  function IfaceName(iface: string): string {
    Prefix + iface + IfaceSuffix
  }

  lemma PrefixOfBounded(p: string, s: string, cap: nat)
    requires cap > 0 && p <= s && |p| < cap
    ensures p <= Bounded(s, cap)
  {
    var r := Bounded(s, cap);
    assert |p| <= |r|;
    assert forall i :: 0 <= i < |p| ==> r[i] == s[i];
  }

  /** set_file_paths, lock half: snprintf into 64 bytes. Short interface
      names give the full path; long ones are cut to 63 characters. */
  function LockPath(iface: string): (p: string)
    ensures RunDir <= p && |p| < PathCap
    ensures |iface| < PathCap - 22 ==> p == RunDir + LockName(iface)
    ensures |iface| >= PathCap - 22 ==> |p| == PathCap - 1 && p < RunDir + LockName(iface)
  {
    var full := RunDir + LockName(iface);
    assert RunDir <= full;
    PrefixOfBounded(RunDir, full, PathCap);
    Bounded(full, PathCap)
  }

  /** set_file_paths, iface half. */
  function IfacePath(iface: string): (p: string)
    ensures RunDir <= p && |p| < PathCap
    ensures |iface| < PathCap - 23 ==> p == RunDir + IfaceName(iface)
    ensures |iface| >= PathCap - 23 ==> |p| == PathCap - 1 && p < RunDir + IfaceName(iface)
  {
    var full := RunDir + IfaceName(iface);
    assert RunDir <= full;
    PrefixOfBounded(RunDir, full, PathCap);
    Bounded(full, PathCap)
  }

  /** fopen(path, "r") followed by reading the whole file. */
  function ReadEntry(dir: Dir, path: string): (r: Option<string>)
    ensures r.Some? <==> RunDir <= path && path[|RunDir|..] in dir
    ensures r.Some? ==> r.value == dir[path[|RunDir|..]]
  {
    if RunDir <= path && path[|RunDir|..] in dir then Some(dir[path[|RunDir|..]]) else None
  }

  /** fopen(path, "w") and a write of contents; a path outside /var/run
      is outside this model and changes nothing in it. */
  function WriteEntry(dir: Dir, path: string, contents: string): (d: Dir)
    ensures RunDir <= path ==> d == dir[path[|RunDir|..] := contents]
    ensures !(RunDir <= path) ==> d == dir
  {
    if RunDir <= path then dir[path[|RunDir|..] := contents] else dir
  }

  /** remove(path); nothing happens when the entry does not exist. */
  function RemoveEntry(dir: Dir, path: string): (d: Dir)
    ensures RunDir <= path ==> d.Keys == dir.Keys - {path[|RunDir|..]}
    ensures !(RunDir <= path) ==> d == dir
    ensures forall n :: n in d ==> n in dir && d[n] == dir[n]
  {
    if RunDir <= path then dir - {path[|RunDir|..]} else dir
  }

  /** parse_iface: the interface named by a lock record's entry name, if
      the name is "trafmon_" + x + ".lock" with x non-empty and shorter
      than size. */
  function ParseIface(filename: string, size: nat): (r: Option<string>)
    ensures r.Some? ==> filename == LockName(r.value) && 1 <= |r.value| < size
  {
    var len := |filename|;
    if len <= |Prefix| + |LockSuffix| then None
    else if filename[..|Prefix|] != Prefix then None
    else if filename[len - |LockSuffix|..] != LockSuffix then None
    else
      var ifaceLen := len - |Prefix| - |LockSuffix|;
      if ifaceLen >= size then None
      else
        var x := filename[|Prefix|..len - |LockSuffix|];
        assert filename == filename[..|Prefix|] + x + filename[len - |LockSuffix|..];
        Some(x)
  }

  /** The lock name set_file_paths builds parses back to the interface
      exactly when the interface is non-empty and fits the buffer. */
  lemma ParseLockName(x: string, size: nat)
    ensures ParseIface(LockName(x), size) == if 1 <= |x| < size then Some(x) else None
  {
    var f := LockName(x);
    var len := |f|;
    assert f[..|Prefix|] == Prefix;
    assert f[len - |LockSuffix|..] == LockSuffix;
    assert f[|Prefix|..len - |LockSuffix|] == x;
  }

  /** parse_iface accepts a name iff it is the lock name of what it yields. */
  lemma ParseIfaceExact(name: string, x: string, size: nat)
    ensures ParseIface(name, size) == Some(x) <==> name == LockName(x) && 1 <= |x| < size
  {
    if name == LockName(x) {
      ParseLockName(x, size);
    }
  }

  /** A .iface companion entry is never taken for an instance. */
  lemma IfaceNameRejected(x: string, size: nat)
    ensures ParseIface(IfaceName(x), size) == None
  {
    var f := IfaceName(x);
    var len := |f|;
    if len > |Prefix| + |LockSuffix| {
      assert f[len - |LockSuffix|..][0] == 'i';
    }
  }

  /** The lock record: the PID as "%d\n". */
  function PidRecord(pid: int): string {
    FormatInt(pid) + "\n"
  }

  /** fscanf(file, "%d", &pid) == 1 on a lock record's contents. */
  function ReadPid(contents: string): (r: Option<int>)
    ensures r.Some? <==> ScanInt(contents).Some?
  {
    match ScanInt(contents)
    case None => None
    case Some((pid, _)) => Some(pid)
  }

  lemma ReadPidRecord(pid: int)
    ensures ReadPid(PidRecord(pid)) == Some(pid)
  {
    ScanFormattedInt(pid, "\n");
  }

  /** The .iface record: "%s %s\n" of the interface and the LED name. */
  function IfaceRecord(iface: string, led: string): string {
    iface + " " + led + "\n"
  }

  /** fscanf(f, "%31s %15s", ...) on a .iface record: the fields read. */
  function ReadIfaceRecord(contents: string): (fields: seq<string>)
    ensures |fields| <= 2
    ensures |fields| > 0 ==> IsWord(fields[0]) && |fields[0]| <= IfaceWidth
    ensures |fields| > 1 ==> IsWord(fields[1]) && |fields[1]| <= LedWidth
  {
    ScanTwoWords(contents, IfaceWidth, LedWidth)
  }

  lemma ReadIfaceRecordOf(iface: string, led: string)
    requires IsWord(iface) && |iface| <= IfaceWidth
    requires IsWord(led) && |led| <= LedWidth
    ensures ReadIfaceRecord(IfaceRecord(iface, led)) == [iface, led]
  {
    ScanTwoFormattedWords(iface, led, IfaceWidth, LedWidth);
  }

  /** The PID fscanf reads from the lock record at path, if any. */
  function PidAt(dir: Dir, path: string): (r: Option<int>)
    ensures r.Some? ==> ReadEntry(dir, path).Some? && ReadPid(ReadEntry(dir, path).value) == r
  {
    match ReadEntry(dir, path)
    case None => None
    case Some(contents) => ReadPid(contents)
  }

  /** check_running on the lock record at path: false without the record
      or without a PID in it, otherwise whether kill(pid, 0) succeeds. */
  predicate RunningAt(dir: Dir, path: string, alive: int -> bool) {
    PidAt(dir, path).Some? && alive(PidAt(dir, path).value)
  }

  /** check_running for the records of iface. */
  predicate IsRunning(dir: Dir, iface: string, alive: int -> bool) {
    RunningAt(dir, LockPath(iface), alive)
  }

  /** create_lock_file: the lock record, then the .iface record. */
  function Launch(dir: Dir, iface: string, led: string, pid: int): (d: Dir)
    ensures d.Keys == dir.Keys + {LockPath(iface)[|RunDir|..], IfacePath(iface)[|RunDir|..]}
  {
    WriteEntry(WriteEntry(dir, LockPath(iface), PidRecord(pid)), IfacePath(iface), IfaceRecord(iface, led))
  }

  /** remove_lock_file. */
  function RemoveRecords(dir: Dir, iface: string): (d: Dir)
    ensures d.Keys == dir.Keys - {LockPath(iface)[|RunDir|..], IfacePath(iface)[|RunDir|..]}
    ensures forall n :: n in d ==> d[n] == dir[n]
  {
    RemoveEntry(RemoveEntry(dir, LockPath(iface)), IfacePath(iface))
  }

  /** A directory entry that claims led for select_led_for_instance: the
      entry parses as an instance and its .iface record has two fields,
      the second being led. Whether the instance is alive is not asked. */
  predicate Claims(dir: Dir, name: string, led: string) {
    match ParseIface(name, NameCap)
    case None => false
    case Some(iface) =>
      match ReadEntry(dir, IfacePath(iface))
      case None => false
      case Some(contents) =>
        var fields := ReadIfaceRecord(contents);
        |fields| == 2 && fields[1] == led
  }

  /** Some entry among names claims led. */
  predicate ClaimedAmong(dir: Dir, names: set<string>, led: string) {
    exists name {:trigger Claims(dir, name, led)} :: name in names && Claims(dir, name, led)
  }

  predicate LedClaimed(dir: Dir, led: string) {
    ClaimedAmong(dir, dir.Keys, led)
  }

  lemma ClaimedAmongAdd(dir: Dir, names: set<string>, name: string, led: string)
    ensures ClaimedAmong(dir, names + {name}, led) <==> ClaimedAmong(dir, names, led) || Claims(dir, name, led)
  {
    if ClaimedAmong(dir, names + {name}, led) && !Claims(dir, name, led) {
      var n :| n in names + {name} && Claims(dir, n, led);
      assert n in names;
    }
  }

  /** The slot select_led_for_instance picks: "lan" unless claimed, then
      "power" unless claimed, else none. */
  function SelectedLed(dir: Dir): (r: Option<string>)
    ensures r == Some("lan") <==> !LedClaimed(dir, "lan")
    ensures r == Some("power") <==> LedClaimed(dir, "lan") && !LedClaimed(dir, "power")
    ensures r.None? <==> LedClaimed(dir, "lan") && LedClaimed(dir, "power")
  {
    if !LedClaimed(dir, "lan") then Some("lan")
    else if !LedClaimed(dir, "power") then Some("power")
    else None
  }

  /** The directory scan of select_led_for_instance, in whatever order
      readdir yields the entries. */
  method ScanLedClaims(dir: Dir) returns (lanInUse: bool, powerInUse: bool)
    ensures lanInUse <==> LedClaimed(dir, "lan")
    ensures powerInUse <==> LedClaimed(dir, "power")
  {
    lanInUse, powerInUse := false, false;
    var todo := dir.Keys;
    while todo != {}
      invariant todo <= dir.Keys
      invariant lanInUse <==> ClaimedAmong(dir, dir.Keys - todo, "lan")
      invariant powerInUse <==> ClaimedAmong(dir, dir.Keys - todo, "power")
      decreases |todo|
    {
      var name :| name in todo;
      var parsed := ParseIface(name, NameCap);
      if parsed.Some? {
        var record := ReadEntry(dir, IfacePath(parsed.value));
        if record.Some? {
          var fields := ReadIfaceRecord(record.value);
          if |fields| == 2 {
            if fields[1] == "lan" {
              lanInUse := true;
            }
            if fields[1] == "power" {
              powerInUse := true;
            }
          }
        }
      }
      ClaimedAmongAdd(dir, dir.Keys - todo, name, "lan");
      ClaimedAmongAdd(dir, dir.Keys - todo, name, "power");
      assert dir.Keys - (todo - {name}) == (dir.Keys - todo) + {name};
      todo := todo - {name};
    }
  }

  /** An instance list_instances reports: a lock record whose name parses. */
  predicate Listed(dir: Dir, iface: string) {
    LockName(iface) in dir && 1 <= |iface| < NameCap
  }

  /** found holds exactly the instances whose lock entries are among names. */
  ghost predicate FoundExactly(found: seq<string>, names: set<string>) {
    forall x :: x in found <==> LockName(x) in names && 1 <= |x| < NameCap
  }

  predicate Distinct(s: seq<string>) {
    forall i, j :: 0 <= i < j < |s| ==> s[i] != s[j]
  }

  /** One entry of list_instances's scan: the instance it names, if any,
      joins the list, and it was not in the list before. */
  lemma FoundStep(found: seq<string>, names: set<string>, name: string)
    requires FoundExactly(found, names) && Distinct(found) && name !in names
    ensures var p := ParseIface(name, NameCap);
      var found' := if p.Some? then found + [p.value] else found;
      FoundExactly(found', names + {name}) && Distinct(found')
  {
    var p := ParseIface(name, NameCap);
    var found' := if p.Some? then found + [p.value] else found;
    forall x
      ensures x in found' <==> LockName(x) in names + {name} && 1 <= |x| < NameCap
    {
      ParseIfaceExact(name, x, NameCap);
      assert x in found' <==> x in found || p == Some(x);
    }
    if p.Some? {
      assert LockName(p.value) == name;
      assert p.value !in found;
    }
  }

  /** list_instances: every instance once, in readdir's order; the exit
      status is EXIT_FAILURE (1) when there is none. */
  method ListInstances(dir: Dir) returns (status: int, found: seq<string>)
    ensures forall x :: x in found <==> Listed(dir, x)
    ensures forall i, j :: 0 <= i < j < |found| ==> found[i] != found[j]
    ensures status == (if found == [] then 1 else 0)
  {
    found := [];
    var todo := dir.Keys;
    ghost var seen: set<string> := {};
    while todo != {}
      invariant todo <= dir.Keys && seen == dir.Keys - todo
      invariant FoundExactly(found, seen) && Distinct(found)
      decreases |todo|
    {
      var name :| name in todo;
      FoundStep(found, seen, name);
      var parsed := ParseIface(name, NameCap);
      if parsed.Some? {
        found := found + [parsed.value];
      }
      todo := todo - {name};
      seen := seen + {name};
    }
    assert seen == dir.Keys;
    status := if found == [] then 1 else 0;
  }

  /** Interface names that fit interface_name give paths that are not cut,
      and the paths name exactly the two entries of the instance. */
  lemma PathsOfShortName(iface: string)
    requires |iface| < NameCap
    ensures LockPath(iface)[|RunDir|..] == LockName(iface)
    ensures IfacePath(iface)[|RunDir|..] == IfaceName(iface)
  {
    assert (RunDir + LockName(iface))[|RunDir|..] == LockName(iface);
    assert (RunDir + IfaceName(iface))[|RunDir|..] == IfaceName(iface);
  }

  lemma LockNameNotIfaceName(a: string, b: string)
    ensures LockName(a) != IfaceName(b)
  {
    var l, f := LockName(a), IfaceName(b);
    assert l[|l| - 1] == 'k' && f[|f| - 1] == 'e';
  }

  /** The lock record of a launched instance holds its PID. */
  lemma LaunchPid(dir: Dir, iface: string, led: string, pid: int)
    requires |iface| < NameCap
    ensures PidAt(Launch(dir, iface, led, pid), LockPath(iface)) == Some(pid)
  {
    PathsOfShortName(iface);
    LockNameNotIfaceName(iface, iface);
    ReadPidRecord(pid);
  }

  /** While a launched instance's records exist, check_running reports it
      exactly when its PID is alive. */
  lemma LaunchIsRunning(dir: Dir, iface: string, led: string, pid: int, alive: int -> bool)
    requires |iface| < NameCap
    ensures IsRunning(Launch(dir, iface, led, pid), iface, alive) <==> alive(pid)
  {
    LaunchPid(dir, iface, led, pid);
  }

  /** A launched instance is listed. */
  lemma LaunchListed(dir: Dir, iface: string, led: string, pid: int)
    requires 1 <= |iface| < NameCap
    ensures Listed(Launch(dir, iface, led, pid), iface)
  {
    PathsOfShortName(iface);
  }

  /** The two LED names the daemon records are tokens %15s reads whole. */
  lemma LedNamesAreWords()
    ensures IsWord("lan") && |"lan"| <= LedWidth
    ensures IsWord("power") && |"power"| <= LedWidth
  {
    assert forall i :: 0 <= i < 3 ==> !IsSpace("lan"[i]);
    assert forall i :: 0 <= i < 5 ==> !IsSpace("power"[i]);
  }

  lemma LaunchClaimsOwn(dir: Dir, iface: string, led: string, pid: int)
    requires IsWord(iface) && |iface| < NameCap
    requires IsWord(led) && |led| <= LedWidth
    ensures LockName(iface) in Launch(dir, iface, led, pid)
    ensures Claims(Launch(dir, iface, led, pid), LockName(iface), led)
  {
    PathsOfShortName(iface);
    ParseLockName(iface, NameCap);
    ReadIfaceRecordOf(iface, led);
  }

  /** A launched instance claims its LED, whether or not its process is
      still alive. */
  lemma LaunchClaimsLed(dir: Dir, iface: string, led: string, pid: int)
    requires IsWord(iface) && |iface| < NameCap
    requires IsWord(led) && |led| <= LedWidth
    ensures LedClaimed(Launch(dir, iface, led, pid), led)
  {
    LaunchClaimsOwn(dir, iface, led, pid);
  }

  /** Once its records are removed, an instance is neither listed nor
      running. */
  lemma RemovedNotRunning(dir: Dir, iface: string, alive: int -> bool)
    requires |iface| < NameCap
    ensures !IsRunning(RemoveRecords(dir, iface), iface, alive)
    ensures !Listed(RemoveRecords(dir, iface), iface)
  {
    PathsOfShortName(iface);
  }

  lemma IfaceNameInjective(a: string, b: string)
    requires IfaceName(a) == IfaceName(b)
    ensures a == b
  {
    var f := IfaceName(a);
    assert a == f[|Prefix|..|f| - |IfaceSuffix|];
    assert b == f[|Prefix|..|f| - |IfaceSuffix|];
  }

  /** A claim made by one instance's records survives launching another
      instance. */
  lemma ClaimSurvivesLaunch(dir: Dir, a: string, led: string, b: string, ledB: string, pid: int)
    requires |a| < NameCap && |b| < NameCap && a != b
    requires LockName(a) in dir && Claims(dir, LockName(a), led)
    ensures LockName(a) in Launch(dir, b, ledB, pid) && Claims(Launch(dir, b, ledB, pid), LockName(a), led)
  {
    var d := Launch(dir, b, ledB, pid);
    PathsOfShortName(a);
    PathsOfShortName(b);
    ParseLockName(a, NameCap);
    LockNameNotIfaceName(b, a);
    if IfaceName(a) == IfaceName(b) {
      IfaceNameInjective(a, b);
    }
    assert ReadEntry(d, IfacePath(a)) == ReadEntry(dir, IfacePath(a));
  }

  /** A directory where lan is claimed has no slot left once an instance
      on power is launched on another interface. */
  lemma LaunchPowerFillsSlots(dir: Dir, a: string, b: string, pid: int)
    requires |a| < NameCap && IsWord(b) && |b| < NameCap && a != b
    requires LockName(a) in dir && Claims(dir, LockName(a), "lan")
    ensures SelectedLed(Launch(dir, b, "power", pid)).None?
  {
    var d := Launch(dir, b, "power", pid);
    ClaimSurvivesLaunch(dir, a, "lan", b, "power", pid);
    LedNamesAreWords();
    LaunchClaimsOwn(dir, b, "power", pid);
    assert ClaimedAmong(d, d.Keys, "lan");
    assert ClaimedAmong(d, d.Keys, "power");
  }

  /** With lan and power both claimed by launched instances, no slot is
      left for a third. */
  lemma NoThirdSlot(dir: Dir, a: string, pa: int, b: string, pb: int)
    requires IsWord(a) && |a| < NameCap && IsWord(b) && |b| < NameCap && a != b
    ensures SelectedLed(Launch(Launch(dir, a, "lan", pa), b, "power", pb)).None?
  {
    LedNamesAreWords();
    LaunchClaimsOwn(dir, a, "lan", pa);
    LaunchPowerFillsSlots(Launch(dir, a, "lan", pa), a, b, pb);
  }
}
