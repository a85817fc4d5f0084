/** `animateCounter`: the ramp of a statistic's number from 0 up to the value
    its text showed, one tick per loop iteration, in exact arithmetic. */
module Counter {
  import opened Wrappers
  import opened Text

  /** Length of the ramp and period of its timer, in milliseconds. */
  const Duration := 2000
  const Period := 50

  /** Number of ticks it takes a non-zero counter to reach its target. */
  const Steps := Duration / Period

  /** `parseInt(text.replace(/[^0-9]/g, ''))`: the number the digit
      characters of the text spell, in order. */
  function Target(text: string): nat
    requires HasDigit(text)
  {
    NumeralValue(KeepDigits(text), false)
  }

  /** The target is what `parseInt` gives for the digits of the text. */
  lemma TargetIsParseInt(text: string)
    requires HasDigit(text)
    ensures ParseInt(KeepDigits(text)) == Some(Target(text) as int)
  {
    KeepDigitsNonEmpty(text);
    ParseIntOfDigits(KeepDigits(text));
  }

  /** The floor of the counter's value after `k` ticks of a ramp not yet
      clamped: `k * target / 40`. */
  function TickValue(target: nat, k: nat): nat
  {
    var x: int := k * target;
    assert x >= 0 by { MulMonotone(0, k, target); }
    x / Steps
  }

  /** The values the counter shows, tick by tick: the floor of `k * target / 40`
      for `k = 1 .. 40`, or a single 0 when the target is 0. */
  function Ramp(target: nat): (r: seq<nat>)
    ensures |r| > 0 && r[|r| - 1] == target
  {
    if target == 0 then [0]
    else seq(Steps, k requires 0 <= k < Steps => TickValue(target, k + 1))
  }

  lemma DivMonotone(a: nat, b: nat)
    requires a <= b
    ensures a / Steps <= b / Steps
  {
  }

  /** The ramp is non-empty, never decreases, stays below the target until
      its last value, and its last value is the target. */
  lemma RampShape(target: nat)
    ensures |Ramp(target)| > 0 && Ramp(target)[|Ramp(target)| - 1] == target
    ensures forall i, j :: 0 <= i <= j < |Ramp(target)| ==> Ramp(target)[i] <= Ramp(target)[j]
    ensures forall i :: 0 <= i < |Ramp(target)| - 1 ==> Ramp(target)[i] < target
  {
    var r := Ramp(target);
    if target > 0 {
      forall i, j | 0 <= i <= j < |r| ensures r[i] <= r[j] {
        MulMonotone(i + 1, j + 1, target);
        DivMonotone((i + 1) * target, (j + 1) * target);
      }
      forall i | 0 <= i < |r| - 1 ensures r[i] < target {
        MulMonotone(i + 2, Steps, target);
        DivMonotone((i + 1) * target, Steps * target - 1);
      }
    }
  }

  lemma MulMonotone(a: nat, b: nat, c: nat)
    requires a <= b
    ensures a * c <= b * c
  {
  }

  /** The text of a displayed value: the number, then `+` when the counter's
      text carried one. */
  function Label(value: nat, plus: bool): string
  {
    NatToString(value) + (if plus then "+" else "")
  }

  /** A label carries a `+` exactly when asked to. */
  lemma LabelPlus(value: nat, plus: bool)
    ensures ('+' in Label(value, plus)) == plus
  {
    var d := NatToString(value);
    assert forall k :: 0 <= k < |d| ==> d[k] != '+';
    assert Label(value, plus) == d + (if plus then "+" else "");
  }

  /** Reading a label back gives its value: a counter started again on its
      own final text ramps to the same target. */
  lemma LabelTarget(value: nat, plus: bool)
    ensures HasDigit(Label(value, plus)) && Target(Label(value, plus)) == value
  {
    var d := NatToString(value);
    var tail := if plus then "+" else "";
    var s := Label(value, plus);
    assert s == d + tail;
    KeepDigitsAppend(d, tail);
    KeepDigitsOfDigits(d);
    assert KeepDigits(tail) == [];
    assert KeepDigits(s) == d;
    KeepDigitsNonEmpty(s);
    NatToStringRoundTrip(value);
  }

  /** A counter seen again after one tick of its ramp to `500+` shows `12+`,
      and a run started on that text ramps to 12, not 500. */
  lemma RestartMidRamp()
    ensures Ramp(500)[0] == 12 && Label(12, true) == "12+"
    ensures HasDigit("12+") && Target("12+") == 12
  {
    assert Steps == 40;
    assert NatToString(12) == "12";
    LabelTarget(12, true);
  }

  /** The floor of `x / 40` in the reals is the integer quotient. */
  lemma FloorOfQuotient(x: nat)
    ensures (x as real / Steps as real).Floor == x / Steps
  {
    var q, r := x / Steps, x % Steps;
    assert Steps == 40;
    assert x as real == 40.0 * q as real + r as real;
    assert x as real / 40.0 == q as real + r as real / 40.0;
    assert 0.0 <= r as real / 40.0 < 1.0;
  }

  /** After `k` ticks the counter holds `k * target / 40`; before the last
      tick of a non-zero ramp that is below the target and its floor is the
      ramp's value. */
  lemma TickBelowTarget(target: nat, k: nat)
    requires 0 < target && 0 < k < Steps
    ensures var current := (k * target) as real / Steps as real;
      current < target as real && current.Floor == (k * target) / Steps
  {
    assert Steps == 40;
    MulMonotone(k, Steps - 1, target);
    assert k * target < 40 * target;
    assert (k * target) as real < (40 * target) as real;
    FloorOfQuotient(k * target);
  }

  /** One more increment of `target / 40`. */
  lemma TickStep(target: nat, k: nat)
    ensures (k * target) as real / Steps as real + target as real / Steps as real
      == ((k + 1) * target) as real / Steps as real
  {
    assert (k + 1) * target == k * target + target;
  }

  /** The ticks of `animateCounter`, each one iteration: add `target / 40`,
      clamp to the target and stop the timer once reached, and show the floor
      of the value with a `+` when the element's current text has one.
      Returns the texts shown, in order; the last one stays on the element. */
  method AnimateCounter(text: string) returns (shown: seq<string>)
    requires HasDigit(text)
    ensures |shown| == |Ramp(Target(text))|
    ensures forall k :: 0 <= k < |shown| ==> shown[k] == Label(Ramp(Target(text))[k], '+' in text)
  {
    var target := Target(text);
    var increment: real := target as real / Steps as real;
    var current: real := 0.0;
    var running := true;
    var display := text;
    ghost var plus := '+' in text;
    ghost var ramp := Ramp(target);
    ghost var ticks: nat := 0;
    shown := [];
    while running
      invariant ticks <= |ramp| && |shown| == ticks
      invariant running ==> ticks < |ramp| && current == (ticks * target) as real / Steps as real
      invariant !running ==> ticks == |ramp|
      invariant forall k :: 0 <= k < ticks ==> shown[k] == Label(ramp[k], plus)
      invariant ('+' in display) == plus
      decreases |ramp| - ticks
    {
      TickStep(target, ticks);
      current := current + increment;
      ticks := ticks + 1;
      if target > 0 && ticks < Steps {
        TickBelowTarget(target, ticks);
      }
      if current >= target as real {
        current := target as real;
        running := false;
      }
      var displayValue := current.Floor;
      assert displayValue == ramp[ticks - 1];
      display := IntToString(displayValue) + (if '+' in display then "+" else "");
      LabelPlus(ramp[ticks - 1], plus);
      shown := shown + [display];
    }
  }
}
