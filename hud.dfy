/**
  The HUD: an elapsed-time score shown as minutes and two-digit seconds, and
  a battery level that drains by a step on each battery-timer tick while it is
  above its minimum and is topped up by pickups, never beyond its maximum.
  The level is shown as a whole percentage of one hundredth of the stored value.
*/
module HudCounters {
  import opened Wrappers
  import opened Numbers
  import opened Decimal

  const InitialBatteryPercent: real := 10000.0
  const InitialBatteryStep: real := 1.0
  const InitialBatteryMin: real := 0.0

  /**
    The score text: the minutes' shortest digits, ':', then the seconds in
    exactly two digits.
  */
  function ScoreText(elapsedSeconds: nat): (s: string)
    ensures |s| == |NatText(elapsedSeconds / 60)| + 3
    ensures s[..|s| - 3] == NatText(elapsedSeconds / 60) && s[|s| - 3] == ':'
    ensures s[|s| - 2..] == PaddedText(elapsedSeconds % 60, 2)
  {
    TwoDigitsAtMost(elapsedSeconds % 60);
    var m, p := PaddedText(elapsedSeconds / 60, 1), PaddedText(elapsedSeconds % 60, 2);
    var s := m + ":" + p;
    assert s[..|s| - 3] == m && s[|s| - 2..] == p;
    s
  }

  /** Reading a score text back as a number of seconds. */
  function ParseScore(s: string): Option<nat> {
    if |s| < 4 || s[|s| - 3] != ':' then None
    else
      var seconds := s[|s| - 2..];
      if !AllDigits(seconds) || ValueOf(seconds) >= 60 then None
      else
        match ParseNat(s[..|s| - 3])
        case Some(minutes) => Some(minutes * 60 + ValueOf(seconds))
        case None => None
  }

  lemma MinutesAndSeconds(m: nat, sec: nat)
    requires sec < 60
    ensures (m * 60 + sec) / 60 == m && (m * 60 + sec) % 60 == sec
  {
  }

  /** The score text of `e` reads back as `e`. */
  lemma ScoreTextRoundTrip(e: nat)
    ensures ParseScore(ScoreText(e)) == Some(e)
  {
    PaddedTextReadsBack(e % 60, 2);
    NatTextRoundTrip(e / 60);
  }

  /** Whatever `ParseScore` accepts is the score text of the time it reads. */
  lemma ParsedScoreIsText(s: string, e: nat)
    requires ParseScore(s) == Some(e)
    ensures s == ScoreText(e)
  {
    var seconds := s[|s| - 2..];
    var minutes := ParseNat(s[..|s| - 3]).value;
    NatTextOfValue(s[..|s| - 3]);
    PaddedTwoOfValue(seconds);
    MinutesAndSeconds(minutes, ValueOf(seconds));
    assert s == s[..|s| - 3] + ":" + seconds;
  }

  /**
    Score texts and elapsed times are in one-to-one correspondence: a text
    reads back as `e` exactly when it is the score text of `e`.
  */
  lemma ParseScoreIffScoreText(s: string, e: nat)
    ensures ParseScore(s) == Some(e) <==> s == ScoreText(e)
  {
    if s == ScoreText(e) {
      ScoreTextRoundTrip(e);
    }
    if ParseScore(s) == Some(e) {
      ParsedScoreIsText(s, e);
    }
  }

  /** Sixty-five seconds show as "1:05"; the start shows "0:00". */
  lemma ScoreTextExamples()
    ensures ScoreText(65) == "1:05"
    ensures ScoreText(0) == "0:00"
  {
    assert Zeros(1) == "0";
    assert PaddedText(1, 1) == "1";
    assert PaddedText(5, 2) == "05";
    assert PaddedText(0, 1) == "0";
    assert PaddedText(0, 2) == "00";
  }

  /** The battery text: `batteryPercent / 100` rounded to an integer, then '%'. */
  function BatteryText(batteryPercent: real): (s: string)
    ensures 2 <= |s| && s[|s| - 1] == '%'
    ensures ParseInt(s[..|s| - 1]) == Some(RoundToEven(batteryPercent / 100.0))
  {
    var n := RoundToEven(batteryPercent / 100.0);
    IntTextRoundTrip(n);
    var s := IntText(n) + "%";
    assert s[..|s| - 1] == IntText(n);
    s
  }

  /** Reading a battery text back as the integer it shows. */
  function ParseBattery(s: string): Option<int> {
    if 1 <= |s| && s[|s| - 1] == '%' then ParseInt(s[..|s| - 1]) else None
  }

  /** The battery text shows the integer nearest to one hundredth of the level. */
  lemma BatteryTextShowsNearest(batteryPercent: real)
    ensures var shown := ParseBattery(BatteryText(batteryPercent));
      shown.Some? && Abs(shown.value as real - batteryPercent / 100.0) <= 0.5
  {
    var n := RoundToEven(batteryPercent / 100.0);
    var s := BatteryText(batteryPercent);
    assert s[..|s| - 1] == IntText(n);
    ParseIntIffIntText(IntText(n), n);
  }

  /** A full battery at the initial level shows "100%". */
  lemma InitialBatteryText()
    ensures BatteryText(InitialBatteryPercent) == "100%"
  {
    assert RoundToEven(100.0) == 100;
    assert NatText(1) == "1" && NatText(0) == "0";
    assert NatText(10) == "10";
    assert NatText(100) == "100";
  }

  /** One battery-timer tick: the level drops by `step` only while it is above `min`. */
  function Drain(percent: real, step: real, min: real): (r: real)
    ensures 0.0 <= step ==> r <= percent
    ensures percent <= min ==> r == percent
    ensures min < percent ==> r == percent - step
    ensures IsWhole(percent) && IsWhole(min) && step == 1.0 && min <= percent ==> min <= r && IsWhole(r)
  {
    if percent > min then
      WholeGap(percent, min);
      percent - step
    else percent
  }

  /** Between two whole numbers, one above the other, there is a gap of at least one. */
  lemma WholeGap(x: real, y: real)
    ensures IsWhole(x) && IsWhole(y) && y < x ==> y <= x - 1.0 && IsWhole(x - 1.0)
  {
    if IsWhole(x) && IsWhole(y) && y < x {
      assert y.Floor < x.Floor;
      assert x - 1.0 == (x.Floor - 1) as real;
    }
  }

  /** One pickup: the level rises by `value`, capped at `max`. */
  function Recharge(percent: real, value: real, max: real): (r: real)
    ensures r <= max
    ensures percent + value <= max ==> r == percent + value
    ensures max < percent + value ==> r == max
    ensures 0.0 <= value && percent <= max ==> percent <= r
  {
    if percent + value > max then max else percent + value
  }

  datatype BatteryEvent = Tick | Pickup(value: real)

  /** The level after a sequence of ticks and pickups, the first event first. */
  function Battery(percent: real, events: seq<BatteryEvent>, step: real, min: real, max: real): (r: real)
    ensures 0.0 <= step ==> r <= Max(percent, max)
    decreases |events|
  {
    if events == [] then percent
    else
      var next := match events[0]
        case Tick => Drain(percent, step, min)
        case Pickup(v) => Recharge(percent, v, max);
      Battery(next, events[1..], step, min, max)
  }

  /** A whole level between whole bounds. */
  predicate InRange(percent: real, min: real, max: real) {
    IsWhole(percent) && IsWhole(min) && IsWhole(max) && min <= percent <= max
  }

  /** Pickups of whole, non-negative amounts. */
  predicate WholePickups(events: seq<BatteryEvent>) {
    forall i :: 0 <= i < |events| && events[i].Pickup? ==> IsWhole(events[i].value) && 0.0 <= events[i].value
  }

  /**
    With whole numbers, a step of one and whole, non-negative pickups, the level
    never leaves the range from the minimum to the maximum.
  */
  lemma {:induction false} BatteryStaysInRange(percent: real, events: seq<BatteryEvent>, min: real, max: real)
    requires InRange(percent, min, max) && WholePickups(events)
    ensures InRange(Battery(percent, events, 1.0, min, max), min, max)
    decreases |events|
  {
    if events != [] {
      var next := match events[0]
        case Tick => Drain(percent, 1.0, min)
        case Pickup(v) => Recharge(percent, v, max);
      if events[0].Pickup? {
        var v := events[0].value;
        assert IsWhole(v) && 0.0 <= v;
        WholeSum(percent, v);
      }
      assert InRange(next, min, max);
      assert WholePickups(events[1..]) by {
        forall i | 0 <= i < |events[1..]| && events[1..][i].Pickup?
          ensures IsWhole(events[1..][i].value) && 0.0 <= events[1..][i].value
        {
          assert events[1..][i] == events[i + 1];
        }
      }
      BatteryStaysInRange(next, events[1..], min, max);
    }
  }

  lemma WholeSum(x: real, y: real)
    requires IsWhole(x) && IsWhole(y)
    ensures IsWhole(x + y)
  {
    assert x + y == (x.Floor + y.Floor) as real;
  }

  /** The HUD node's counters and the text of its two labels. */
  class Hud {
    var elapsedSeconds: nat
    var batteryPercent: real
    /** The last value shown, as a hundredth of the level. */
    var batteryText: real
    var batteryStep: real
    var batteryMin: real
    var batteryMax: real
    /** `ScoreLabel.Text` and `BatteryLabel.Text`. */
    var scoreLabel: string
    var batteryLabel: string
    /** The levels sent with each `BatteryUpdate` signal, oldest first. */
    var batteryUpdates: seq<real>

    /** The level is whole, drains by one and lies within its whole bounds. */
    predicate Charged()
      reads this`batteryStep, this`batteryPercent, this`batteryMin, this`batteryMax
    {
      batteryStep == 1.0 && InRange(batteryPercent, batteryMin, batteryMax)
    }

    /** The field defaults; the labels start empty. */
    constructor ()
      ensures elapsedSeconds == 0 && batteryPercent == InitialBatteryPercent && batteryText == 0.0
      ensures batteryStep == InitialBatteryStep && batteryMin == InitialBatteryMin && batteryMax == 0.0
      ensures scoreLabel == "" && batteryLabel == "" && batteryUpdates == []
    {
      elapsedSeconds, batteryPercent, batteryText := 0, InitialBatteryPercent, 0.0;
      batteryStep, batteryMin, batteryMax := InitialBatteryStep, InitialBatteryMin, 0.0;
      scoreLabel, batteryLabel, batteryUpdates := "", "", [];
    }

    /** `_Ready`: the maximum becomes the current level, and both labels are drawn. */
    method Ready()
      modifies this`batteryMax, this`batteryText, this`scoreLabel, this`batteryLabel, this`batteryUpdates
      ensures batteryMax == batteryPercent
      ensures scoreLabel == ScoreText(elapsedSeconds)
      ensures batteryLabel == BatteryText(batteryPercent) && batteryText == batteryPercent / 100.0
      ensures batteryUpdates == old(batteryUpdates) + [batteryPercent]
      ensures old(IsWhole(batteryPercent) && IsWhole(batteryMin) && batteryMin <= batteryPercent && batteryStep == 1.0) ==> Charged()
    {
      batteryMax := batteryPercent;
      UpdateScoreLabel();
      UpdateBattery();
    }

    /** `OnScoreTimerTimeout`: one more second, and the score label redrawn. */
    method OnScoreTimerTimeout()
      modifies this`elapsedSeconds, this`scoreLabel
      ensures elapsedSeconds == old(elapsedSeconds) + 1
      ensures scoreLabel == ScoreText(elapsedSeconds)
    {
      elapsedSeconds := elapsedSeconds + 1;
      UpdateScoreLabel();
    }

    /** `OnBatteryTimerTimeout`: drain one step while above the minimum, then redraw and signal. */
    method OnBatteryTimerTimeout()
      modifies this`batteryPercent, this`batteryText, this`batteryLabel, this`batteryUpdates
      ensures batteryPercent == Drain(old(batteryPercent), batteryStep, batteryMin)
      ensures batteryLabel == BatteryText(batteryPercent) && batteryText == batteryPercent / 100.0
      ensures batteryUpdates == old(batteryUpdates) + [batteryPercent]
      ensures old(Charged()) ==> Charged()
    {
      if batteryPercent > batteryMin {
        batteryPercent := batteryPercent - batteryStep;
      }
      UpdateBattery();
    }

    /** `UpdateScoreLabel`. */
    method UpdateScoreLabel()
      modifies this`scoreLabel
      ensures scoreLabel == ScoreText(elapsedSeconds)
    {
      var minutes := elapsedSeconds / 60;
      var seconds := elapsedSeconds % 60;
      scoreLabel := PaddedText(minutes, 1) + ":" + PaddedText(seconds, 2);
    }

    /** `UpdateBattery`: redraw the battery label and signal the current level. */
    method UpdateBattery()
      modifies this`batteryText, this`batteryLabel, this`batteryUpdates
      ensures batteryText == batteryPercent / 100.0
      ensures batteryLabel == BatteryText(batteryPercent)
      ensures batteryUpdates == old(batteryUpdates) + [batteryPercent]
    {
      batteryText := batteryPercent / 100.0;
      batteryLabel := IntText(RoundToEven(batteryText)) + "%";
      batteryUpdates := batteryUpdates + [batteryPercent];
    }

    /** `OnBatteryPickup`: add the pickup's value, capped at the maximum; the label is not redrawn. */
    method OnBatteryPickup(batteryValue: real)
      modifies this`batteryPercent
      ensures batteryPercent == Recharge(old(batteryPercent), batteryValue, batteryMax)
      ensures old(Charged()) && IsWhole(batteryValue) && 0.0 <= batteryValue ==> Charged()
    {
      var batteryIncrease := batteryPercent + batteryValue;
      if batteryIncrease > batteryMax {
        batteryPercent := batteryMax;
      } else {
        batteryPercent := batteryPercent + batteryValue;
      }
      if old(Charged()) && IsWhole(batteryValue) && 0.0 <= batteryValue {
        WholeSum(old(batteryPercent), batteryValue);
      }
    }
  }

  /** A freshly readied HUD shows "0:00" and "100%", with a full, in-range battery. */
  method ReadiedHud() returns (hud: Hud)
    ensures fresh(hud) && hud.Charged()
    ensures hud.scoreLabel == "0:00" && hud.batteryLabel == "100%"
    ensures hud.batteryMax == InitialBatteryPercent && hud.batteryUpdates == [InitialBatteryPercent]
  {
    ScoreTextExamples();
    InitialBatteryText();
    assert IsWhole(InitialBatteryPercent) && IsWhole(InitialBatteryMin);
    hud := new Hud();
    hud.Ready();
  }
}
