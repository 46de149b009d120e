/** What trafmon does to its LED, as a trace of events: a call of
    led(name, state) is an actuation, sleep_ms and sleep are pauses, and
    kill with SIGTERM or SIGKILL is a signal. */
module TrafmonIndicator {
  import Hgledon

  datatype LedState = On | Off | Dis

  /** The action string led() hands the driver for a state. */
  function ActionName(s: LedState): string {
    match s
    case On => "on"
    case Off => "off"
    case Dis => "dis"
  }

  /** Every state trafmon asks for is an action lp_control accepts, and
      the driver shows the three states as three different pin levels. */
  lemma ActionsAccepted(s: LedState, t: LedState)
    ensures Hgledon.LpLevels(ActionName(s)).Some?
    ensures s != t ==> Hgledon.LpLevels(ActionName(s)) != Hgledon.LpLevels(ActionName(t))
  {}

  datatype Sig = Term | Kill

  datatype Event =
    | Actuate(led: string, state: LedState)
    | Sleep(ms: int)
    | Signal(pid: int, sig: Sig)

  /** The blink patterns of blink_led. */
  datatype Pattern = DisOn | DisOff | OnOff | OffOn

  /** The two states a pattern shows, in order. */
  function States(p: Pattern): (r: (LedState, LedState))
    ensures r.0 != r.1
  {
    match p
    case DisOn => (Dis, On)
    case DisOff => (Dis, Off)
    case OnOff => (On, Off)
    case OffOn => (Off, On)
  }

  /** One pass of blink_led's loop body. */
  function Cycle(led: string, p: Pattern, firstMs: int, secondMs: int): seq<Event> {
    [Actuate(led, States(p).0), Sleep(firstMs), Actuate(led, States(p).1), Sleep(secondMs)]
  }

  /** xs, n times over. */
  function Repeat<T>(xs: seq<T>, n: nat): (r: seq<T>)
    ensures |r| == n * |xs|
  {
    if n == 0 then [] else Repeat(xs, n - 1) + xs
  }

  /** a + b repetitions are a repetitions followed by b more. */
  lemma {:induction false} RepeatSplit<T>(xs: seq<T>, a: nat, b: nat)
    ensures Repeat(xs, a + b) == Repeat(xs, a) + Repeat(xs, b)
  {
    if b > 0 {
      RepeatSplit(xs, a, b - 1);
      assert Repeat(xs, a + b) == (Repeat(xs, a) + Repeat(xs, b - 1)) + xs;
    }
  }

  /** Repeat is the same unrolled from the front. */
  lemma {:induction false} RepeatFront<T>(xs: seq<T>, n: nat)
    requires n > 0
    ensures Repeat(xs, n) == xs + Repeat(xs, n - 1)
  {
    if n > 1 {
      RepeatFront(xs, n - 1);
      assert Repeat(xs, n) == (xs + Repeat(xs, n - 2)) + xs;
    }
  }

  /** The trace blink_led(led, p, firstMs, secondMs, repeat) leaves. */
  function BlinkTrace(led: string, p: Pattern, firstMs: int, secondMs: int, repeat: int): seq<Event> {
    if repeat <= 0 then [] else Repeat(Cycle(led, p, firstMs, secondMs), repeat)
  }

  /** Number of actuations in a trace. */
  function Actuations(t: seq<Event>): (n: nat)
    ensures n <= |t|
  {
    if t == [] then 0 else Actuations(t[..|t| - 1]) + (if t[|t| - 1].Actuate? then 1 else 0)
  }

  lemma {:induction false} ActuationsAppend(a: seq<Event>, b: seq<Event>)
    ensures Actuations(a + b) == Actuations(a) + Actuations(b)
  {
    if b != [] {
      assert (a + b)[..|a + b| - 1] == a + b[..|b| - 1];
      ActuationsAppend(a, b[..|b| - 1]);
    } else {
      assert a + b == a;
    }
  }

  /** blink_led actuates the LED exactly twice per repetition, and not at
      all when repeat is zero or negative. */
  lemma {:induction false} BlinkActuations(led: string, p: Pattern, firstMs: int, secondMs: int, repeat: int)
    ensures Actuations(BlinkTrace(led, p, firstMs, secondMs, repeat)) == if repeat <= 0 then 0 else 2 * repeat
  {
    if repeat > 0 {
      var c := Cycle(led, p, firstMs, secondMs);
      assert Actuations(c) == 2 by {
        assert c == [c[0], c[1]] + [c[2], c[3]];
        ActuationsAppend([c[0], c[1]], [c[2], c[3]]);
        assert [c[0], c[1]][..1] == [c[0]];
        assert [c[2], c[3]][..1] == [c[2]];
      }
      if repeat > 1 {
        BlinkActuations(led, p, firstMs, secondMs, repeat - 1);
      }
      ActuationsAppend(Repeat(c, repeat - 1), c);
    }
  }

  /** Repetition k of blink_led shows the pattern's first state for
      firstMs, then its second state for secondMs. */
  lemma BlinkTraceAt(led: string, p: Pattern, firstMs: int, secondMs: int, repeat: int, k: nat)
    requires k < repeat
    ensures var t := BlinkTrace(led, p, firstMs, secondMs, repeat);
      && |t| == 4 * repeat
      && t[4 * k] == Actuate(led, States(p).0)
      && t[4 * k + 1] == Sleep(firstMs)
      && t[4 * k + 2] == Actuate(led, States(p).1)
      && t[4 * k + 3] == Sleep(secondMs)
  {
    var c := Cycle(led, p, firstMs, secondMs);
    RepeatSplit(c, k, repeat - k);
    RepeatFront(c, repeat - k);
    var front := Repeat(c, k);
    assert |front| == 4 * k;
    var t := front + (c + Repeat(c, repeat - k - 1));
    assert t[4 * k] == c[0] && t[4 * k + 1] == c[1];
    assert t[4 * k + 2] == c[2] && t[4 * k + 3] == c[3];
  }
}
