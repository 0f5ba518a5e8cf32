/**
 The touch and vsync boost of the power HAL. The state machine keeps a few
 counters and flags; after any run of hints each of them equals a definition
 over the whole history that mentions neither the state nor the machine.

 Times are clock() ticks, a millionth of a second each.
 */
module PowerHint {

  const SHORT_TOUCH: int := 20_000
  const LONG_TOUCH: int := 100_000
  const VSYNC_TOUCH: int := 30_000
  const VSYNC_BOOST_COUNT: int := 4

  datatype Hint = Interaction(now: int) | Vsync(now: int, one: bool) | OtherHint

  /** The module's flags and statics, and the pulses written to the touch boost node so far. */
  datatype State = State(
    disable: bool, timer: bool, boost: bool,
    touchTime: int, vsyncCount: int, consecutive: int,
    touchPulses: nat, vsyncPulses: nat)

  const INITIAL := State(false, false, false, 0, 0, 0, 0, 0)

  // ----- one hint -----

  function Touch(s: State, now: int): State {
    var gap := now - s.touchTime;
    var s1 := if gap < SHORT_TOUCH then s.(consecutive := s.consecutive + 1)
              else if gap > LONG_TOUCH then
                s.(boost := false, timer := false, disable := false, vsyncCount := 0, consecutive := 0)
              else s;
    var disable := s1.disable || (gap < SHORT_TOUCH && s1.consecutive > 4);
    s1.(touchTime := now, disable := disable,
        timer := s1.timer || (disable && s1.consecutive > 15),
        touchPulses := s1.touchPulses + if disable then 0 else 1)
  }

  /** The vsync that ends a scroll: the boost is off and the last touch is long enough ago. */
  predicate Grants(s: State, hint: Hint) {
    hint.Vsync? && s.disable && hint.now - s.touchTime > VSYNC_TOUCH
  }

  function Refresh(s: State, hint: Hint): State
    requires hint.Vsync?
  {
    var s1 := if Grants(s, hint) then s.(timer := false, boost := true, disable := false, vsyncCount := VSYNC_BOOST_COUNT)
              else s;
    if s1.boost && hint.one && s1.vsyncCount > 0 then
      s1.(vsyncPulses := s1.vsyncPulses + 1, vsyncCount := s1.vsyncCount - 1, boost := s1.vsyncCount != 1)
    else s1
  }

  function Step(s: State, hint: Hint): State {
    match hint
    case Interaction(now) => Touch(s, now)
    case Vsync(_, _) => Refresh(s, hint)
    case OtherHint => s
  }

  class PowerModule {
    var touchboostDisable: int
    var timerSet: int
    var vsyncBoost: int
    var currTime: int
    var prevTime: int
    var vsyncTime: int
    var vsyncCount: int
    var consecutiveTouchInt: int
    var touchPulses: nat
    var vsyncPulses: nat

    /** The flags are 0 or 1, and between hints both touch clocks agree. */
    ghost predicate Valid()
      reads this
    {
      && touchboostDisable in {0, 1} && timerSet in {0, 1} && vsyncBoost in {0, 1}
      && currTime == prevTime
    }

    ghost function Abs(): State
      reads this
    {
      State(touchboostDisable == 1, timerSet == 1, vsyncBoost == 1, currTime, vsyncCount, consecutiveTouchInt,
            touchPulses, vsyncPulses)
    }

    constructor ()
      ensures Valid() && Abs() == INITIAL
    {
      touchboostDisable, timerSet, vsyncBoost := 0, 0, 0;
      currTime, prevTime, vsyncTime := 0, 0, 0;
      vsyncCount, consecutiveTouchInt := 0, 0;
      touchPulses, vsyncPulses := 0, 0;
    }

    method IntelPowerHint(hint: Hint)
      requires Valid()
      modifies this
      ensures Valid() && Abs() == Step(old(Abs()), hint)
    {
      match hint
      case Interaction(now) =>
        currTime := now;
        var diff := currTime - prevTime;
        prevTime := currTime;
        if diff < SHORT_TOUCH {
          consecutiveTouchInt := consecutiveTouchInt + 1;
        } else if diff > LONG_TOUCH {
          vsyncBoost := 0;
          timerSet := 0;
          touchboostDisable := 0;
          vsyncCount := 0;
          consecutiveTouchInt := 0;
        }
        if diff < SHORT_TOUCH && touchboostDisable == 0 && consecutiveTouchInt > 4 {
          touchboostDisable := 1;
        }
        if touchboostDisable == 1 && consecutiveTouchInt > 15 && timerSet == 0 {
          timerSet := 1;
        }
        if touchboostDisable == 0 {
          touchPulses := touchPulses + 1;
        }
      case Vsync(now, one) =>
        if touchboostDisable == 1 {
          vsyncTime := now;
          var diff := vsyncTime - currTime;
          if diff > VSYNC_TOUCH {
            timerSet := 0;
            vsyncBoost := 1;
            touchboostDisable := 0;
            vsyncCount := VSYNC_BOOST_COUNT;
          }
        }
        if vsyncBoost != 0 {
          if one && vsyncCount > 0 {
            vsyncPulses := vsyncPulses + 1;
            vsyncCount := vsyncCount - 1;
            if vsyncCount == 0 {
              vsyncBoost := 0;
            }
          }
        }
      case OtherHint =>
    }
  }

  function Init<T>(h: seq<T>): seq<T>
    requires h != []
  {
    h[..|h| - 1]
  }

  function Last<T>(h: seq<T>): T
    requires h != []
  {
    h[|h| - 1]
  }

  function Run(h: seq<Hint>): State {
    if h == [] then INITIAL else Step(Run(Init(h)), Last(h))
  }

  // ----- the same from the history alone -----

  const MILLISECOND: int := 1000

  /** The time of the last touch, 0 before any. */
  function LastTouch(h: seq<Hint>): int {
    if h == [] then 0 else if Last(h).Interaction? then Last(h).now else LastTouch(Init(h))
  }

  /** Touch i comes less than 20 ms after the touch before it. */
  predicate Fast(h: seq<Hint>, i: nat)
    requires i < |h|
  {
    h[i].Interaction? && h[i].now - LastTouch(h[..i]) < 20 * MILLISECOND
  }

  /** Touch i comes more than 100 ms after the touch before it: everything is reset. */
  predicate Resets(h: seq<Hint>, i: nat)
    requires i < |h|
  {
    h[i].Interaction? && h[i].now - LastTouch(h[..i]) > 100 * MILLISECOND
  }

  /** Vsync i comes more than 30 ms after the last touch. */
  predicate Late(h: seq<Hint>, i: nat)
    requires i < |h|
  {
    h[i].Vsync? && h[i].now - LastTouch(h[..i]) > 30 * MILLISECOND
  }

  /** The position after the last reset. */
  function AfterReset(h: seq<Hint>): (n: nat)
    ensures n <= |h|
  {
    if h == [] then 0 else if Resets(h, |h| - 1) then |h| else AfterReset(Init(h))
  }

  /** The position after the last late vsync. */
  function AfterLate(h: seq<Hint>): (n: nat)
    ensures n <= |h|
  {
    if h == [] then 0 else if Late(h, |h| - 1) then |h| else AfterLate(Init(h))
  }

  /** Fast touches from position `from` on. */
  function FastFrom(h: seq<Hint>, from: nat): nat {
    if |h| <= from then 0 else FastFrom(Init(h), from) + if Fast(h, |h| - 1) then 1 else 0
  }

  /** Fast touches since the last reset. */
  function Burst(h: seq<Hint>): nat {
    FastFrom(h, AfterReset(h))
  }

  function Max(a: nat, b: nat): nat { if a < b then b else a }

  /** Where the present scroll could have begun: after the last reset and the last late vsync. */
  function WindowStart(h: seq<Hint>): nat {
    Max(AfterReset(h), AfterLate(h))
  }

  /** Touch i is fast and more than the fourth of its burst. */
  predicate Scrolls(h: seq<Hint>, i: nat)
    requires i < |h|
  {
    Fast(h, i) && Burst(h[..i + 1]) > 4
  }

  ghost predicate Scrolling(h: seq<Hint>) {
    exists i :: WindowStart(h) <= i < |h| && Scrolls(h, i)
  }

  /** Some touch of the window had both a scroll at or before it and a burst of more than fifteen. */
  predicate LongScrollAt(h: seq<Hint>, i: nat, j: nat)
    requires i <= j < |h|
  {
    Scrolls(h, i) && h[j].Interaction? && Burst(h[..j + 1]) > 15
  }

  ghost predicate LongScroll(h: seq<Hint>) {
    exists i, j :: WindowStart(h) <= i <= j < |h| && LongScrollAt(h, i, j)
  }

  /** Vsync i ends a scroll. */
  ghost predicate EndsScroll(h: seq<Hint>, i: nat)
    requires i < |h|
  {
    Late(h, i) && Scrolling(h[..i])
  }

  /** The position of the last scroll end plus one, 0 if there is none. */
  ghost function AfterScrollEnd(h: seq<Hint>): (n: nat)
    ensures n <= |h|
  {
    if h == [] then 0 else if EndsScroll(h, |h| - 1) then |h| else AfterScrollEnd(Init(h))
  }

  /** Vsyncs that carry the value one, from position `from` on. */
  function OnesFrom(h: seq<Hint>, from: nat): nat {
    if |h| <= from then 0 else OnesFrom(Init(h), from) + if Last(h).Vsync? && Last(h).one then 1 else 0
  }

  /** Four boosts from the last scroll end, unless a reset came after it, less those used. */
  ghost function BoostsLeft(h: seq<Hint>): int {
    var end := AfterScrollEnd(h);
    if end == 0 || end <= AfterReset(h) then 0
    else
      var used := OnesFrom(h, end - 1);
      if used >= 4 then 0 else 4 - used
  }

  /** Touches at which no scroll was going on, the touch itself included. */
  ghost function QuietTouches(h: seq<Hint>): nat {
    if h == [] then 0 else QuietTouches(Init(h)) + if Last(h).Interaction? && !Scrolling(h) then 1 else 0
  }

  /** Vsyncs with the value one that found a boost left or ended a scroll. */
  ghost function BoostedVsyncs(h: seq<Hint>): nat {
    if h == [] then 0
    else
      var boosted := BoostsLeft(Init(h)) > 0 || EndsScroll(h, |h| - 1);
      BoostedVsyncs(Init(h)) + if Last(h).Vsync? && Last(h).one && boosted then 1 else 0
  }

  // ----- a history and its last hint -----

  lemma PrefixOfInit(h: seq<Hint>, n: nat)
    requires h != [] && n < |h|
    ensures Init(h)[..n] == h[..n]
  {
  }

  lemma {:induction false} FastFromEnd(h: seq<Hint>)
    ensures FastFrom(h, |h|) == 0
  {
  }

  /** A hint that opens no new window keeps exactly the scrolls of the window. */
  lemma ScrollingSnoc(h: seq<Hint>)
    requires h != [] && WindowStart(h) == WindowStart(Init(h))
    ensures Scrolling(h) <==> Scrolling(Init(h)) || Scrolls(h, |h| - 1)
  {
    var init := Init(h);
    forall i | 0 <= i < |init|
      ensures Scrolls(init, i) <==> Scrolls(h, i)
    {
      PrefixOfInit(h, i);
      PrefixOfInit(h, i + 1);
    }
    assert Scrolls(h, |h| - 1) ==> Scrolling(h);
  }

  lemma LongScrollAtInit(h: seq<Hint>, i: nat, j: nat)
    requires h != [] && i <= j < |h| - 1
    ensures LongScrollAt(Init(h), i, j) <==> LongScrollAt(h, i, j)
  {
    PrefixOfInit(h, i);
    PrefixOfInit(h, i + 1);
    PrefixOfInit(h, j + 1);
  }

  /** Likewise for long scrolls; a new one can only be the last touch's. */
  lemma LongScrollSnoc(h: seq<Hint>)
    requires h != [] && WindowStart(h) == WindowStart(Init(h))
    ensures LongScroll(h) <==> LongScroll(Init(h)) || (Scrolling(h) && Last(h).Interaction? && Burst(h) > 15)
  {
    var init := Init(h);
    assert h[..|h|] == h;
    if LongScroll(h) {
      var i, j :| WindowStart(h) <= i <= j < |h| && LongScrollAt(h, i, j);
      if j < |init| {
        LongScrollAtInit(h, i, j);
      } else {
        assert Scrolls(h, i);
      }
    } else {
      if LongScroll(init) {
        var i, j :| WindowStart(init) <= i <= j < |init| && LongScrollAt(init, i, j);
        LongScrollAtInit(h, i, j);
      }
      if Scrolling(h) && Last(h).Interaction? && Burst(h) > 15 {
        var i :| WindowStart(h) <= i < |h| && Scrolls(h, i);
        assert LongScrollAt(h, i, |h| - 1);
      }
    }
  }

  /** A reset or a late vsync opens an empty window. */
  lemma NewWindowEmpty(h: seq<Hint>)
    requires WindowStart(h) == |h|
    ensures !Scrolling(h) && !LongScroll(h)
  {
  }

  // ----- the state is the history's -----

  ghost predicate Matches(s: State, h: seq<Hint>) {
    && s.touchTime == LastTouch(h)
    && s.consecutive == Burst(h)
    && s.disable == Scrolling(h)
    && s.timer == LongScroll(h)
    && s.vsyncCount == BoostsLeft(h)
    && s.boost == (BoostsLeft(h) > 0)
    && s.touchPulses == QuietTouches(h)
    && s.vsyncPulses == BoostedVsyncs(h)
  }

  lemma BurstSnoc(h: seq<Hint>)
    requires h != []
    ensures Burst(h) == if Resets(h, |h| - 1) then 0 else Burst(Init(h)) + if Fast(h, |h| - 1) then 1 else 0
  {
    if Resets(h, |h| - 1) {
      FastFromEnd(h);
    }
  }

  lemma {:induction false} OnesFromEnd(h: seq<Hint>, from: nat)
    requires |h| <= from
    ensures OnesFrom(h, from) == 0
  {
  }

  /** How the last hint changes the boosts left. */
  lemma BoostsSnoc(h: seq<Hint>)
    requires h != []
    ensures var before, one := BoostsLeft(Init(h)), Last(h).Vsync? && Last(h).one;
      BoostsLeft(h)
      == if Resets(h, |h| - 1) then 0
         else if EndsScroll(h, |h| - 1) then VSYNC_BOOST_COUNT - (if one then 1 else 0)
         else if one && before > 0 then before - 1
         else before
  {
    if EndsScroll(h, |h| - 1) {
      OnesFromEnd(Init(h), |h| - 1);
    }
  }

  lemma TouchMatches(s: State, h: seq<Hint>)
    requires h != [] && Last(h).Interaction? && Matches(s, Init(h))
    ensures Matches(Touch(s, Last(h).now), h)
  {
    assert h[..|h| - 1] == Init(h) && h[..|h|] == h;
    BurstSnoc(h);
    if Resets(h, |h| - 1) {
      NewWindowEmpty(h);
    } else {
      ScrollingSnoc(h);
      LongScrollSnoc(h);
    }
    BoostsSnoc(h);
  }

  lemma VsyncMatches(s: State, h: seq<Hint>)
    requires h != [] && Last(h).Vsync? && Matches(s, Init(h))
    ensures Matches(Refresh(s, Last(h)), h)
  {
    assert h[..|h| - 1] == Init(h);
    BurstSnoc(h);
    BoostsSnoc(h);
    if Late(h, |h| - 1) {
      NewWindowEmpty(h);
      NotScrollingNoLongScroll(Init(h));
    } else {
      ScrollingSnoc(h);
      LongScrollSnoc(h);
    }
  }

  lemma NotScrollingNoLongScroll(h: seq<Hint>)
    ensures LongScroll(h) ==> Scrolling(h)
  {
    if LongScroll(h) {
      var i, j :| WindowStart(h) <= i <= j < |h| && LongScrollAt(h, i, j);
      assert Scrolls(h, i);
    }
  }

  lemma OtherMatches(s: State, h: seq<Hint>)
    requires h != [] && Last(h).OtherHint? && Matches(s, Init(h))
    ensures Matches(s, h)
  {
    assert h[..|h| - 1] == Init(h);
    BurstSnoc(h);
    ScrollingSnoc(h);
    LongScrollSnoc(h);
  }

  /** After any run of hints every counter and flag, and every pulse written, is what the history says. */
  lemma {:induction false} StateIsHistory(h: seq<Hint>)
    ensures Matches(Run(h), h)
  {
    if h != [] {
      StateIsHistory(Init(h));
      match Last(h)
      case Interaction(_) => TouchMatches(Run(Init(h)), h);
      case Vsync(_, _) => VsyncMatches(Run(Init(h)), h);
      case OtherHint => OtherMatches(Run(Init(h)), h);
    }
  }

  /** The flags in every reachable state: a timer means a long scroll, a boost means credits left. */
  lemma {:induction false} FlagsAgree(h: seq<Hint>)
    ensures var s := Run(h);
      && (s.timer ==> s.disable && s.consecutive > 15)
      && (s.boost <==> 0 < s.vsyncCount <= 4)
      && 0 <= s.vsyncCount
  {
    if h != [] {
      FlagsAgree(Init(h));
    }
  }

  // ----- pulses -----

  /** Scroll ends that granted boosts. */
  ghost function GrantCount(h: seq<Hint>): nat {
    if h == [] then 0 else GrantCount(Init(h)) + if EndsScroll(h, |h| - 1) then 1 else 0
  }

  /** Boosts thrown away: left over when a reset or the next grant came. */
  ghost function Discarded(h: seq<Hint>): int {
    if h == [] then 0
    else Discarded(Init(h))
         + if Resets(h, |h| - 1) || EndsScroll(h, |h| - 1) then BoostsLeft(Init(h)) else 0
  }

  /** Times the touch boost was switched off, and times a reset switched it on again. */
  ghost function SwitchedOff(h: seq<Hint>): nat {
    if h == [] then 0 else SwitchedOff(Init(h)) + if !Scrolling(Init(h)) && Scrolling(h) then 1 else 0
  }

  ghost function ResetWhileOff(h: seq<Hint>): nat {
    if h == [] then 0 else ResetWhileOff(Init(h)) + if Scrolling(Init(h)) && Resets(h, |h| - 1) then 1 else 0
  }

  /** Every granted boost is pulsed, left or discarded; no other vsync pulses are made. */
  lemma {:induction false} PulsesBalance(h: seq<Hint>)
    ensures Run(h).vsyncPulses + BoostsLeft(h) + Discarded(h) == 4 * GrantCount(h)
  {
    if h != [] {
      PulsesBalance(Init(h));
      StateIsHistory(Init(h));
      StateIsHistory(h);
      assert h[..|h| - 1] == Init(h);
    }
  }

  /** Each switch-off is undone once: by a grant, by a reset, or not yet. */
  lemma {:induction false} SwitchesBalance(h: seq<Hint>)
    ensures SwitchedOff(h) == GrantCount(h) + ResetWhileOff(h) + if Scrolling(h) then 1 else 0
    ensures GrantCount(h) <= SwitchedOff(h)
  {
    if h != [] {
      SwitchesBalance(Init(h));
      StateIsHistory(Init(h));
      StateIsHistory(h);
      assert h[..|h| - 1] == Init(h);
    } else {
      assert !Scrolling(h);
    }
  }

  /** Touches among the hints. */
  function Touches(tail: seq<Hint>): nat {
    if tail == [] then 0 else Touches(Init(tail)) + if Last(tail).Interaction? then 1 else 0
  }

  /** After `h`, every touch of `tail` is fast and no vsync of it ends a scroll. */
  ghost predicate FastTail(h: seq<Hint>, tail: seq<Hint>) {
    forall k :: |h| <= k < |h + tail| ==>
      ((h + tail)[k].Interaction? ==> Fast(h + tail, k)) && !EndsScroll(h + tail, k)
  }

  lemma FastTailInit(h: seq<Hint>, tail: seq<Hint>)
    requires tail != [] && FastTail(h, tail)
    ensures FastTail(h, Init(tail))
  {
    var all := h + tail;
    assert Init(all) == h + Init(tail);
    forall k | |h| <= k < |h + Init(tail)|
      ensures (Init(all)[k].Interaction? ==> Fast(Init(all), k)) && !EndsScroll(Init(all), k)
    {
      PrefixOfInit(all, k);
      assert all[k].Interaction? ==> Fast(all, k);
      assert !EndsScroll(all, k);
    }
  }

  /**
   After a long gap, a burst of n fast touches that no scroll end interrupts
   pulses for the first touch and for at most four of the burst, and no vsync pulses.
   */
  lemma {:induction false} BurstPulses(h: seq<Hint>, tail: seq<Hint>)
    requires h != [] && Resets(h, |h| - 1) && FastTail(h, tail)
    ensures var s, n := Run(h + tail), Touches(tail);
      && s.touchPulses == Run(Init(h)).touchPulses + 1 + (if n < 4 then n else 4)
      && s.vsyncPulses == Run(Init(h)).vsyncPulses
      && s.consecutive == n && s.disable == (n > 4) && !s.boost
    decreases |tail|
  {
    if tail == [] {
      assert h + tail == h && h[..|h| - 1] == Init(h);
      StateIsHistory(Init(h));
    } else {
      var all := h + tail;
      assert Init(all) == h + Init(tail) && all[..|all| - 1] == Init(all) && Last(all) == Last(tail);
      FastTailInit(h, tail);
      BurstPulses(h, Init(tail));
      StateIsHistory(Init(all));
      assert all[|all| - 1].Interaction? ==> Fast(all, |all| - 1);
      assert !EndsScroll(all, |all| - 1);
    }
  }
}
