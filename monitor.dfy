/** One tick of monitor_traffic: the byte counters are read, turned into
    a rate in KB per tick, and the LED shows link down, traffic (blinking
    faster the more traffic there is), recent activity, or idle.

    The delay formula MAX_VAL - 10 * log10(rate) is computed in floating
    point; here `curve` gives the int it is converted to for a rate. It is
    consulted only for rates above the traffic threshold, where the
    logarithm is defined. */
module TrafmonMonitor {
  import opened TrafmonIndicator

  const IdleTimeout := 1000
  const TrafficThreshold := 10
  const MinBlinkDelay := 50
  const MaxBlinkDelay := 150
  /** Also the pause between ticks, in milliseconds. */
  const MaxVal := 100
  const KB := 1024
  /** The hold of each half of the link-down and recent-activity patterns. */
  const FixedHold := 100

  /** clamp. */
  function Clamp(val: int, min: int, max: int): (r: int)
    ensures min <= max ==> min <= r <= max
    ensures min <= val <= max ==> r == val
    ensures r == val || r == min || r == max
    ensures val < min ==> r == min
    ensures min <= max && val > max ==> r == max
  {
    if val < min then min
    else if val > max then max
    else val
  }

  /** trx_hi. */
  predicate TrxHi(rate: int) {
    rate > TrafficThreshold
  }

  /** A counter delta over KB with C's long division, which truncates
      toward zero. */
  function PerKb(delta: int): (r: int)
    ensures delta >= 0 ==> 0 <= r && r * KB <= delta < r * KB + KB
    ensures delta <= 0 ==> r <= 0 && r * KB - KB < delta <= r * KB
  {
    if delta >= 0 then delta / KB else -((-delta) / KB)
  }

  /** What one tick reads: the two counters, the clock, the carrier, and
      whether `running` still holds at the check before the pause. */
  datatype Sample = Sample(rx: int, tx: int, now: int, carrier: bool, keepRunning: bool)

  /** The variables monitor_traffic carries from tick to tick. */
  datatype MonitorState = MonitorState(prevRx: int, prevTx: int, lastActivity: int)

  datatype TickAction =
    | Blink(pattern: Pattern, firstMs: int, secondMs: int)
    | SteadyOn

  /** final_rate of a tick. */
  function FinalRate(s: MonitorState, smp: Sample): int {
    PerKb(smp.rx - s.prevRx) + PerKb(smp.tx - s.prevTx)
  }

  /** The LED decision, taken in the order the source examines it: carrier,
      then traffic, then idleness. */
  function Decide(carrier: bool, finalRate: int, delay: int, idleMs: int): (a: TickAction)
    ensures a == Blink(DisOff, FixedHold, FixedHold) <==> !carrier
    ensures a.Blink? && a.pattern == DisOn <==> carrier && TrxHi(finalRate)
    ensures a.SteadyOn? <==> carrier && !TrxHi(finalRate) && idleMs > IdleTimeout
    ensures a == Blink(OffOn, FixedHold, FixedHold) <==> carrier && !TrxHi(finalRate) && idleMs <= IdleTimeout
    ensures a.Blink? ==> a.firstMs == a.secondMs && MinBlinkDelay <= a.firstMs <= MaxBlinkDelay
    ensures a.Blink? && a.pattern == DisOn ==> a.firstMs == Clamp(delay, MinBlinkDelay, MaxBlinkDelay)
  {
    if !carrier then Blink(DisOff, FixedHold, FixedHold)
    else if TrxHi(finalRate) then
      var d := Clamp(delay, MinBlinkDelay, MaxBlinkDelay);
      Blink(DisOn, d, d)
    else if idleMs > IdleTimeout then SteadyOn
    else Blink(OffOn, FixedHold, FixedHold)
  }

  /** The tick body: the decision, and the state the next tick starts
      from. Activity is recorded only for traffic seen with the carrier up. */
  function Tick(s: MonitorState, smp: Sample, curve: int -> int): (r: (MonitorState, TickAction))
    ensures r.0.prevRx == smp.rx && r.0.prevTx == smp.tx
    ensures r.0.lastActivity == if r.1.Blink? && r.1.pattern == DisOn then smp.now else s.lastActivity
    ensures r.1 == Decide(smp.carrier, FinalRate(s, smp), curve(FinalRate(s, smp)), smp.now - s.lastActivity)
  {
    var rate := FinalRate(s, smp);
    var a := Decide(smp.carrier, rate, curve(rate), smp.now - s.lastActivity);
    var last := if smp.carrier && TrxHi(rate) then smp.now else s.lastActivity;
    (MonitorState(smp.rx, smp.tx, last), a)
  }

  /** The LED calls a decision makes: one pass of blink_led, or led(on). */
  function ActionEvents(led: string, a: TickAction): seq<Event> {
    match a
    case Blink(p, f, g) => BlinkTrace(led, p, f, g, 1)
    case SteadyOn => [Actuate(led, On)]
  }

  /** The trace of the monitor loop over a run of ticks. A tick whose
      keepRunning is false ends the loop before the pause; otherwise the
      pause follows, and the loop ends when the ticks run out. */
  function Run(s: MonitorState, ticks: seq<Sample>, led: string, curve: int -> int): seq<Event>
    decreases |ticks|
  {
    if ticks == [] then []
    else
      var next := Tick(s, ticks[0], curve);
      ActionEvents(led, next.1) + (if ticks[0].keepRunning then [Sleep(MaxVal)] + Run(next.0, ticks[1..], led, curve) else [])
  }

  /** A falling counter (a reset) never counts as traffic, so it neither
      blinks the traffic pattern nor refreshes the activity time. */
  lemma ResetNeverHigh(s: MonitorState, smp: Sample, curve: int -> int)
    requires smp.rx <= s.prevRx && smp.tx <= s.prevTx
    ensures !TrxHi(FinalRate(s, smp))
    ensures Tick(s, smp, curve).0.lastActivity == s.lastActivity
  {}

  /** Less than 11 KB moved per tick in total is never traffic. */
  lemma SmallDeltasNotHigh(s: MonitorState, smp: Sample)
    requires 0 <= smp.rx - s.prevRx && 0 <= smp.tx - s.prevTx
    requires (smp.rx - s.prevRx) + (smp.tx - s.prevTx) < (TrafficThreshold + 1) * KB
    ensures !TrxHi(FinalRate(s, smp))
  {}

  /** After a traffic tick the LED cannot settle to steady on within the
      idle timeout. */
  lemma NoSteadyOnRightAfterTraffic(s: MonitorState, first: Sample, second: Sample, curve: int -> int)
    requires Tick(s, first, curve).1.Blink? && Tick(s, first, curve).1.pattern == DisOn
    requires second.now - first.now <= IdleTimeout
    ensures !Tick(Tick(s, first, curve).0, second, curve).1.SteadyOn?
  {}

  /** An event the monitor loop may emit on led: an actuation of that LED,
      or a pause between the minimum and maximum blink delay. */
  predicate MonitorEvent(e: Event, led: string) {
    match e
    case Actuate(l, _) => l == led
    case Sleep(ms) => MinBlinkDelay <= ms <= MaxBlinkDelay
    case Signal(_, _) => false
  }

  lemma ActionEventsWellFormed(led: string, a: TickAction)
    requires a.Blink? ==> MinBlinkDelay <= a.firstMs <= MaxBlinkDelay && MinBlinkDelay <= a.secondMs <= MaxBlinkDelay
    ensures forall e :: e in ActionEvents(led, a) ==> MonitorEvent(e, led)
  {
    if a.Blink? {
      assert ActionEvents(led, a) == Cycle(led, a.pattern, a.firstMs, a.secondMs);
    }
  }

  /** Whatever the counters, carrier and clock do, the monitor loop only
      actuates its own LED and never pauses outside [50, 150] ms. */
  lemma {:induction false} RunWellFormed(s: MonitorState, ticks: seq<Sample>, led: string, curve: int -> int)
    ensures forall e :: e in Run(s, ticks, led, curve) ==> MonitorEvent(e, led)
    decreases |ticks|
  {
    if ticks != [] {
      var next := Tick(s, ticks[0], curve);
      ActionEventsWellFormed(led, next.1);
      RunWellFormed(next.0, ticks[1..], led, curve);
    }
  }

  /** One link-down tick: dis for 100 ms, off for 100 ms, then the pause. */
  function LinkDownTick(led: string): seq<Event> {
    Cycle(led, DisOff, FixedHold, FixedHold) + [Sleep(MaxVal)]
  }

  lemma LinkDownActions(s: MonitorState, smp: Sample, led: string, curve: int -> int)
    requires !smp.carrier
    ensures ActionEvents(led, Tick(s, smp, curve).1) == Cycle(led, DisOff, FixedHold, FixedHold)
  {
    var c := Cycle(led, DisOff, FixedHold, FixedHold);
    assert Tick(s, smp, curve).1 == Blink(DisOff, FixedHold, FixedHold);
    assert Repeat(c, 1) == c;
  }

  /** One step of the monitor loop that goes on to the pause. */
  lemma RunStep(s: MonitorState, ticks: seq<Sample>, led: string, curve: int -> int)
    requires ticks != [] && ticks[0].keepRunning
    ensures Run(s, ticks, led, curve) ==
      ActionEvents(led, Tick(s, ticks[0], curve).1) + ([Sleep(MaxVal)] + Run(Tick(s, ticks[0], curve).0, ticks[1..], led, curve))
  {}

  /** The loop from tick i on, when tick i goes on to the pause. */
  lemma Regroup(d: seq<Event>, a: seq<Event>, b: seq<Event>, r: seq<Event>)
    ensures d + (a + (b + r)) == (d + a + b) + r
  {}

  lemma RunContinues(s: MonitorState, ticks: seq<Sample>, i: nat, led: string, curve: int -> int, done: seq<Event>)
    requires i < |ticks| && ticks[i].keepRunning
    ensures done + Run(s, ticks[i..], led, curve) ==
      (done + ActionEvents(led, Tick(s, ticks[i], curve).1) + [Sleep(MaxVal)]) + Run(Tick(s, ticks[i], curve).0, ticks[i + 1..], led, curve)
  {
    var rest := ticks[i..];
    assert rest[0] == ticks[i] && rest[1..] == ticks[i + 1..];
    RunStep(s, rest, led, curve);
    Regroup(done, ActionEvents(led, Tick(s, ticks[i], curve).1), [Sleep(MaxVal)],
      Run(Tick(s, ticks[i], curve).0, ticks[i + 1..], led, curve));
  }

  /** The loop from tick i on, when tick i is the last. */
  lemma RunEnds(s: MonitorState, ticks: seq<Sample>, i: nat, led: string, curve: int -> int)
    requires i < |ticks| && !ticks[i].keepRunning
    ensures Run(s, ticks[i..], led, curve) == ActionEvents(led, Tick(s, ticks[i], curve).1)
  {
    var rest := ticks[i..];
    assert rest[0] == ticks[i];
  }

  /** Every tick sees the carrier down and the daemon still running. */
  predicate AllLinkDown(ticks: seq<Sample>) {
    forall i :: 0 <= i < |ticks| ==> !ticks[i].carrier && ticks[i].keepRunning
  }

  lemma AllLinkDownTail(ticks: seq<Sample>)
    requires ticks != [] && AllLinkDown(ticks)
    ensures !ticks[0].carrier && ticks[0].keepRunning && AllLinkDown(ticks[1..])
  {
    var rest := ticks[1..];
    forall i | 0 <= i < |rest|
      ensures !rest[i].carrier && rest[i].keepRunning
    {
      assert rest[i] == ticks[i + 1];
    }
  }

  /** A tick with the carrier down that goes on to the pause. */
  lemma LinkDownStep(s: MonitorState, ticks: seq<Sample>, led: string, curve: int -> int)
    requires ticks != [] && !ticks[0].carrier && ticks[0].keepRunning
    ensures Run(s, ticks, led, curve) == LinkDownTick(led) + Run(Tick(s, ticks[0], curve).0, ticks[1..], led, curve)
  {
    RunStep(s, ticks, led, curve);
    LinkDownActions(s, ticks[0], led, curve);
    var r := Run(Tick(s, ticks[0], curve).0, ticks[1..], led, curve);
    Regroup([], Cycle(led, DisOff, FixedHold, FixedHold), [Sleep(MaxVal)], r);
    assert [] + Cycle(led, DisOff, FixedHold, FixedHold) == Cycle(led, DisOff, FixedHold, FixedHold);
  }

  /** While the carrier stays down the LED repeats the link-down pattern,
      whatever the counters say. */
  lemma {:induction false} LinkDownRun(s: MonitorState, ticks: seq<Sample>, led: string, curve: int -> int)
    requires AllLinkDown(ticks)
    ensures Run(s, ticks, led, curve) == Repeat(LinkDownTick(led), |ticks|)
    decreases |ticks|
  {
    if ticks != [] {
      AllLinkDownTail(ticks);
      LinkDownStep(s, ticks, led, curve);
      LinkDownRun(Tick(s, ticks[0], curve).0, ticks[1..], led, curve);
      RepeatFront(LinkDownTick(led), |ticks|);
    }
  }

  /** One idle tick: steady on, then the pause. */
  function IdleTick(led: string): seq<Event> {
    [Actuate(led, On), Sleep(MaxVal)]
  }

  /** With the carrier up, the counters still and the last activity more
      than the idle timeout ago, the LED stays steadily on. */
  lemma {:induction false} IdleRunSettles(s: MonitorState, ticks: seq<Sample>, led: string, curve: int -> int)
    requires forall i :: 0 <= i < |ticks| ==>
      && ticks[i].rx == s.prevRx && ticks[i].tx == s.prevTx
      && ticks[i].carrier && ticks[i].keepRunning
      && ticks[i].now - s.lastActivity > IdleTimeout
    ensures Run(s, ticks, led, curve) == Repeat(IdleTick(led), |ticks|)
    decreases |ticks|
  {
    if ticks != [] {
      var next := Tick(s, ticks[0], curve);
      assert next.0 == s;
      IdleRunSettles(s, ticks[1..], led, curve);
      RepeatFront(IdleTick(led), |ticks|);
    }
  }
}
