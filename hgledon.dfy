/** The GPIO LED driver of hgledon.c: the kernel-version pin table, the
    parse of the kernel release string, and the sysfs writes that turn a
    command ("-power", "-lan", "-ir") and an action into pin levels.
    A call of exit(1) is an error result (an `ok` of false, or None). */
module Hgledon {
  import opened Common
  import opened CText

  /** The two legs of a bicolour LED, in the order lp_control takes them. */
  datatype PinPair = PinPair(on: int, off: int)

  /** GPIO_PINS of hgledon.h: power[2], lan[2], ir. */
  datatype GpioPins = GpioPins(power: PinPair, lan: PinPair, ir: int)

  const Kernel6Pins := GpioPins(PinPair(547, 548), PinPair(521, 517), 580)
  const Kernel515Pins := GpioPins(PinPair(425, 426), PinPair(510, 506), 507)

  /** No pin serves two purposes. */
  predicate DistinctPins(p: GpioPins) {
    var pins := [p.power.on, p.power.off, p.lan.on, p.lan.off, p.ir];
    forall i, j :: 0 <= i < j < 5 ==> pins[i] != pins[j]
  }

  /** get_pins: the pin table for a kernel version; every kernel 6 or
      later shares one table, 5.15 has its own, anything else is refused. */
  function GetPins(major: int, minor: int): (r: Option<GpioPins>)
    ensures r.Some? <==> major >= 6 || (major == 5 && minor == 15)
    ensures r.Some? ==> DistinctPins(r.value)
    ensures major >= 6 ==> r == Some(Kernel6Pins)
  {
    if major >= 6 then Some(Kernel6Pins)
    else if major == 5 && minor == 15 then Some(Kernel515Pins)
    else None
  }

  /** sscanf(release, "%d.%d", &major, &minor) == 2: a number, a dot right
      after it, then a second number (which may follow white space). */
  function ReleaseVersion(release: string): (r: Option<(int, int)>)
    ensures r.Some? ==> ScanInt(release).Some?
  {
    match ScanInt(release)
    case None => None
    case Some((major, rest)) =>
      if rest != [] && rest[0] == '.' then
        match ScanInt(rest[1..])
        case None => None
        case Some((minor, _)) => Some((major, minor))
      else None
  }

  /** init_gpio once fgets has produced the release line (None when
      /proc/sys/kernel/osrelease cannot be opened or read). */
  function InitGpio(release: Option<string>): (r: Option<GpioPins>)
    ensures r.Some? ==> release.Some? && ReleaseVersion(release.value).Some?
    ensures r.Some? ==> r == GetPins(ReleaseVersion(release.value).value.0, ReleaseVersion(release.value).value.1)
  {
    match release
    case None => None
    case Some(line) =>
      match ReleaseVersion(line)
      case None => None
      case Some((major, minor)) => GetPins(major, minor)
  }

  /** A release string printed as "<major>.<minor><tail>" is parsed back
      to the same two numbers, whatever the tail holds after the minor. */
  lemma ReleaseVersionOfFormatted(major: int, minor: int, tail: string)
    requires tail == [] || !IsDigit(tail[0])
    ensures ReleaseVersion(FormatInt(major) + "." + FormatInt(minor) + tail) == Some((major, minor))
  {
    var second := FormatInt(minor) + tail;
    var rest := "." + second;
    var s := FormatInt(major) + rest;
    assert FormatInt(major) + "." + FormatInt(minor) + tail == s;
    ScanFormattedInt(major, rest);
    assert ScanInt(s) == Some((major, rest));
    assert rest[1..] == second;
    ScanFormattedInt(minor, tail);
    assert ScanInt(second) == Some((minor, tail));
  }

  /** Any kernel 6.x release selects the kernel 6 table, 5.15.x the 5.15
      table, and every other well-formed release is refused. */
  lemma InitGpioOnRelease(major: int, minor: int, tail: string)
    requires tail == [] || !IsDigit(tail[0])
    ensures var r := InitGpio(Some(FormatInt(major) + "." + FormatInt(minor) + tail));
      && (major >= 6 ==> r == Some(Kernel6Pins))
      && (major == 5 && minor == 15 ==> r == Some(Kernel515Pins))
      && (major < 6 && !(major == 5 && minor == 15) ==> r == None)
  {
    ReleaseVersionOfFormatted(major, minor, tail);
  }

  /** A release string that does not begin with a number is refused. */
  lemma InitGpioNeedsNumber(release: string)
    requires ScanInt(release).None?
    ensures InitGpio(Some(release)).None?
  {}

  /** lp_control's actions and the levels they leave on (pin_on, pin_off). */
  function LpLevels(act: string): (r: Option<(int, int)>)
    ensures r.Some? <==> act in {"on", "off", "warn", "dis"}
    ensures r.Some? ==> r.value.0 in {0, 1} && r.value.1 in {0, 1}
    ensures r.Some? ==> (r.value.0 == 1 <==> act in {"on", "warn"})
    ensures r.Some? ==> (r.value.1 == 1 <==> act in {"off", "warn"})
  {
    if act == "on" then Some((1, 0))
    else if act == "off" then Some((0, 1))
    else if act == "warn" then Some((1, 1))
    else if act == "dis" then Some((0, 0))
    else None
  }

  /** Each valid action leaves a different pair of levels, so the four
      actions are told apart by the LED alone: on raises pin_on only, off
      raises pin_off only, warn raises both and dis neither. */
  lemma LpLevelsInjective(a: string, b: string)
    requires LpLevels(a).Some? && LpLevels(b).Some? && a != b
    ensures LpLevels(a).value != LpLevels(b).value
    ensures LpLevels("on") == Some((1, 0)) && LpLevels("off") == Some((0, 1))
    ensures LpLevels("warn") == Some((1, 1)) && LpLevels("dis") == Some((0, 0))
  {}

  /** ir_control's actions and the values they write to the IR pin, in
      order: "reset" pulses the pin high and then low. */
  function IrWrites(act: string): (r: Option<seq<int>>)
    ensures r.Some? <==> act in {"on", "dis", "reset"}
    ensures r.Some? ==> |r.value| > 0 && r.value[|r.value| - 1] == (if act == "on" then 1 else 0)
  {
    if act == "on" then Some([1])
    else if act == "dis" then Some([0])
    else if act == "reset" then Some([1, 0])
    else None
  }

  /** What exec drives for a command. */
  datatype Target = Leds(legs: PinPair) | IrPin(pin: int)

  function Route(command: string, pins: GpioPins): (t: Option<Target>)
    ensures t.Some? <==> command in {"-power", "-lan", "-ir"}
    ensures command == "-power" ==> t == Some(Leds(pins.power))
    ensures command == "-lan" ==> t == Some(Leds(pins.lan))
    ensures command == "-ir" ==> t == Some(IrPin(pins.ir))
  {
    if command == "-power" then Some(Leds(pins.power))
    else if command == "-lan" then Some(Leds(pins.lan))
    else if command == "-ir" then Some(IrPin(pins.ir))
    else None
  }

  /** The pairs (pin, value) a run of writes to one pin records. */
  function PinWrites(pin: int, values: seq<int>): (w: seq<(int, int)>)
    ensures |w| == |values|
    ensures forall k :: 0 <= k < |w| ==> w[k] == (pin, values[k])
  {
    if values == [] then [] else [(pin, values[0])] + PinWrites(pin, values[1..])
  }

  /** The sysfs GPIO interface as hgledon sees it. A pin is `exported`
      when /sys/class/gpio/gpio<N> exists, and only then can its direction
      and value files be opened; /sys/class/gpio/export can be opened for
      writing when `exportWritable` holds. `writes` records every value
      written, in order. */
  class GpioSysfs {
    var exported: set<int>
    var exportWritable: bool
    var direction: map<int, string>
    var value: map<int, int>
    var writes: seq<(int, int)>

    constructor (initiallyExported: set<int>, canExport: bool)
      ensures exported == initiallyExported && exportWritable == canExport
      ensures direction == map[] && value == map[] && writes == []
    {
      exported := initiallyExported;
      exportWritable := canExport;
      direction := map[];
      value := map[];
      writes := [];
    }

    /** export_gpio: nothing to do when the pin is already exported;
        otherwise the pin number goes to the export file, and the process
        exits when that file cannot be opened. */
    method ExportGpio(pin: int) returns (ok: bool)
      modifies this`exported
      ensures ok <==> pin in old(exported) || exportWritable
      ensures exported == if ok then old(exported) + {pin} else old(exported)
      ensures pin in old(exported) ==> exported == old(exported)
    {
      if pin in exported {
        return true;
      }
      if !exportWritable {
        return false;
      }
      exported := exported + {pin};
      ok := true;
    }

    /** set_gpio_direction: silently nothing when the file cannot be opened. */
    method SetGpioDirection(pin: int, dir: string)
      modifies this`direction
      ensures direction == if pin in exported then old(direction)[pin := dir] else old(direction)
    {
      if pin in exported {
        direction := direction[pin := dir];
      }
    }

    /** set_gpio_value: silently nothing when the file cannot be opened. */
    method SetGpioValue(pin: int, v: int)
      modifies this`value, this`writes
      ensures pin in exported ==> value == old(value)[pin := v] && writes == old(writes) + [(pin, v)]
      ensures pin !in exported ==> value == old(value) && writes == old(writes)
    {
      if pin in exported {
        value := value[pin := v];
        writes := writes + [(pin, v)];
      }
    }

    /** lp_control: an unknown action is refused before any pin is
        touched; otherwise both legs are exported, set to output and
        written in the order pin_on, pin_off. */
    method LpControl(act: string, pinOn: int, pinOff: int) returns (ok: bool)
      modifies this`exported, this`direction, this`value, this`writes
      ensures LpLevels(act).None? ==> !ok && exported == old(exported)
      ensures ok <==> LpLevels(act).Some? && (exportWritable || {pinOn, pinOff} <= old(exported))
      ensures ok ==> exported == old(exported) + {pinOn, pinOff}
      ensures ok ==> direction == old(direction)[pinOn := "out"][pinOff := "out"]
      ensures ok ==> var levels := LpLevels(act).value;
        && value == old(value)[pinOn := levels.0][pinOff := levels.1]
        && writes == old(writes) + [(pinOn, levels.0), (pinOff, levels.1)]
      ensures !ok ==> direction == old(direction) && value == old(value) && writes == old(writes)
      ensures !ok ==> old(exported) <= exported <= old(exported) + {pinOn}
    {
      var levels := LpLevels(act);
      if levels.None? {
        return false;
      }
      ok := ExportGpio(pinOn);
      if !ok {
        return;
      }
      ok := ExportGpio(pinOff);
      if !ok {
        return;
      }
      SetGpioDirection(pinOn, "out");
      SetGpioDirection(pinOff, "out");
      SetGpioValue(pinOn, levels.value.0);
      SetGpioValue(pinOff, levels.value.1);
    }

    /** ir_control: an unknown action is refused before the pin is
        touched; otherwise the pin is exported, set to output and written
        as IrWrites says. The 100 ms pause inside "reset" is not modelled. */
    method IrControl(act: string, pin: int) returns (ok: bool)
      modifies this`exported, this`direction, this`value, this`writes
      ensures IrWrites(act).None? ==> !ok && exported == old(exported)
      ensures ok <==> IrWrites(act).Some? && (exportWritable || pin in old(exported))
      ensures ok ==> exported == old(exported) + {pin}
      ensures ok ==> direction == old(direction)[pin := "out"]
      ensures ok ==> var vs := IrWrites(act).value;
        && value == old(value)[pin := vs[|vs| - 1]]
        && writes == old(writes) + PinWrites(pin, vs)
      ensures !ok ==> direction == old(direction) && value == old(value) && writes == old(writes)
      ensures !ok ==> exported == old(exported)
    {
      var vs := IrWrites(act);
      if vs.None? {
        return false;
      }
      ok := ExportGpio(pin);
      if !ok {
        return;
      }
      SetGpioDirection(pin, "out");
      if act == "on" {
        SetGpioValue(pin, 1);
      } else if act == "dis" {
        SetGpioValue(pin, 0);
      } else {
        SetGpioValue(pin, 1);
        SetGpioValue(pin, 0);
      }
    }

    /** exec: hand the action to the pin group the command names; an
        unknown command is refused without touching any pin. */
    method Exec(command: string, action: string, pins: GpioPins) returns (ok: bool)
      modifies this`exported, this`direction, this`value, this`writes
      ensures Route(command, pins).None? ==> !ok && unchanged(this)
      ensures ok ==> Route(command, pins).Some?
      ensures ok && Route(command, pins).value.Leds? ==>
        var legs := Route(command, pins).value.legs;
        LpLevels(action).Some? &&
        var levels := LpLevels(action).value;
        value == old(value)[legs.on := levels.0][legs.off := levels.1]
      ensures ok && Route(command, pins).value.IrPin? ==>
        IrWrites(action).Some? &&
        var vs := IrWrites(action).value;
        value == old(value)[pins.ir := vs[|vs| - 1]]
      ensures Route(command, pins).Some? && Route(command, pins).value.Leds? ==>
        (ok <==> LpLevels(action).Some? && (exportWritable || {Route(command, pins).value.legs.on, Route(command, pins).value.legs.off} <= old(exported)))
      ensures Route(command, pins).Some? && Route(command, pins).value.IrPin? ==>
        (ok <==> IrWrites(action).Some? && (exportWritable || pins.ir in old(exported)))
    {
      if command == "-power" {
        ok := LpControl(action, pins.power.on, pins.power.off);
      } else if command == "-lan" {
        ok := LpControl(action, pins.lan.on, pins.lan.off);
      } else if command == "-ir" {
        ok := IrControl(action, pins.ir);
      } else {
        ok := false;
      }
    }
  }

  /** export_gpio run twice on a pin leaves the same state as running it
      once, and the second run writes nothing. */
  method ExportTwice(gpio: GpioSysfs, pin: int) returns (first: bool, second: bool)
    modifies gpio`exported
    ensures first ==> second && gpio.exported == old(gpio.exported) + {pin}
    ensures !first ==> gpio.exported == old(gpio.exported)
  {
    first := gpio.ExportGpio(pin);
    ghost var afterFirst := gpio.exported;
    second := gpio.ExportGpio(pin);
    assert first ==> gpio.exported == afterFirst;
  }
}
