/**
 * The menu / button state machine of the front panel (src/UI.cpp).
 *
 * The menu position is the pair (mainState, subState); subState == 1 is
 * browsing, a larger subState edits the entry selected by mainState.  Four
 * buttons drive it.  Besides the position, a press may change the speed
 * index (an index into the 13 labels of SpeedDisp) and the emergency-stop
 * flag.  A shared 250 ms gate lets at most one press through per poll.
 *
 * The pure functions (Step, Gate, Label) say what one press, one poll and
 * one redraw do; the class UserInterface holds the mutable globals and its
 * methods are proved to follow those functions.
 */
module Menu {
  import Decimal

  datatype Option<T> = None | Some(value: T)

  /** Number of top-level entries; only "Speed" is live. */
  const MaxMainState: int := 1
  /** Deepest subState of each entry, indexed by mainState - 1. */
  const MaxSubState: seq<int> := [2]
  /** Labels of the speed indices 0 .. 12. */
  const SpeedDisp: seq<string> :=
    ["-6", "-5", "-4", "-3", "-2", "-1", "0", "1", "2", "3", "4", "5", "6"]
  /** Refractory period of the button gate, in milliseconds. */
  const ButtonPeriod: int := 250

  datatype Button = Up | Select | Down | Back

  /** The order in which a poll scans the buttons. */
  const Buttons: seq<Button> := [Up, Select, Down, Back]

  /** Everything a press can change. */
  datatype MenuState = MenuState(mainState: int, subState: int, targetSpeed: int, emergStop: bool)

  predicate ValidSpeed(i: int) { 0 <= i < |SpeedDisp| }

  /** The position invariant: both indices are in range for the tables. */
  predicate InBounds(s: MenuState)
  {
    1 <= s.mainState <= MaxMainState && 1 <= s.subState <= MaxSubState[s.mainState - 1]
  }

  /**
   * The only table lookup a press performs is MaxSubState[mainState - 1],
   * on Select while browsing; that is all a press demands of the state.
   */
  predicate LookupSafe(s: MenuState, b: Button)
  {
    s.subState == 1 && b == Select ==> 1 <= s.mainState <= MaxMainState
  }

  /** The state after start-up: position (1, 1), flag clear. */
  function Init(targetSpeed: int): (s: MenuState)
    ensures InBounds(s) && s.subState == 1
    ensures s.targetSpeed == targetSpeed && !s.emergStop
  {
    MenuState(1, 1, targetSpeed, false)
  }

  /** Up while browsing: one entry back, from the first entry to the last. */
  function WrapPrev(m: int, max: int): (r: int)
    ensures 1 <= m <= max ==> 1 <= r <= max
    ensures 1 < m ==> r == m - 1
  {
    if m - 1 == 0 then max else m - 1
  }

  /** Down while browsing: one entry on, from the last entry to the first. */
  function WrapNext(m: int, max: int): (r: int)
    ensures 1 <= m <= max ==> 1 <= r <= max
    ensures m < max ==> r == m + 1
  {
    if m + 1 > max then 1 else m + 1
  }

  /** A new speed index is taken only when it is a valid index. */
  function SpeedAfter(current: int, newSpeed: int): (r: int)
    ensures ValidSpeed(current) ==> ValidSpeed(r)
    ensures r == newSpeed || r == current
    ensures r == newSpeed <== ValidSpeed(newSpeed)
    ensures r == current <== !ValidSpeed(newSpeed)
  {
    if 0 <= newSpeed <= 12 then newSpeed else current
  }

  /** Up or Down while editing: acts on the entry being edited, if any. */
  function Adjust(s: MenuState, increment: int): (r: MenuState)
    ensures r.mainState == s.mainState && r.subState == s.subState
    ensures r.emergStop != s.emergStop <==> s.mainState == 2 && s.subState == 2
    ensures r.targetSpeed != s.targetSpeed ==> s.mainState == 1 && s.subState == 2 && increment != 0
    ensures ValidSpeed(s.targetSpeed) ==> ValidSpeed(r.targetSpeed)
  {
    if s.mainState == 1 && s.subState == 2 then
      if increment > 0 then s.(targetSpeed := SpeedAfter(s.targetSpeed, s.targetSpeed + 1))
      else if increment < 0 then s.(targetSpeed := SpeedAfter(s.targetSpeed, s.targetSpeed - 1))
      else s
    else if s.mainState == 2 && s.subState == 2 then
      s.(emergStop := !s.emergStop)
    else s
  }

  /** One press of b. */
  function Step(s: MenuState, b: Button): (r: MenuState)
    requires LookupSafe(s, b)
    ensures InBounds(s) ==> InBounds(r)
    ensures ValidSpeed(s.targetSpeed) ==> ValidSpeed(r.targetSpeed)
    ensures InBounds(s) ==> r.emergStop == s.emergStop
  {
    if s.subState == 1 then
      match b
      case Up => s.(mainState := WrapPrev(s.mainState, MaxMainState))
      case Down => s.(mainState := WrapNext(s.mainState, MaxMainState))
      case Select =>
        var sub, max := s.subState + 1, MaxSubState[s.mainState - 1];
        s.(subState := if sub > max then max else sub)
      case Back => s
    else
      match b
      case Back => s.(subState := if s.subState - 1 == 0 then 1 else s.subState - 1)
      case Up => Adjust(s, 1)
      case Down => Adjust(s, -1)
      case Select => s
  }

  /** The state after pressing the buttons of bs one after another. */
  function Run(s: MenuState, bs: seq<Button>): (r: MenuState)
    requires InBounds(s)
    ensures InBounds(r)
    decreases |bs|
  {
    if bs == [] then s else Run(Step(s, bs[0]), bs[1..])
  }

  // ---------------------------------------------------------------------
  // Browsing

  function NextTimes(m: int, max: int, k: nat): int
    decreases k
  {
    if k == 0 then m else NextTimes(WrapNext(m, max), max, k - 1)
  }

  function PrevTimes(m: int, max: int, k: nat): int
    decreases k
  {
    if k == 0 then m else PrevTimes(WrapPrev(m, max), max, k - 1)
  }

  lemma {:induction false} NextTimesClimbs(m: int, max: int, k: nat)
    requires 1 <= m && m + k <= max
    ensures NextTimes(m, max, k) == m + k
    decreases k
  {
    if k > 0 { NextTimesClimbs(m + 1, max, k - 1); }
  }

  lemma {:induction false} PrevTimesDescends(m: int, max: int, k: nat)
    requires k < m <= max
    ensures PrevTimes(m, max, k) == m - k
    decreases k
  {
    if k > 0 { PrevTimesDescends(m - 1, max, k - 1); }
  }

  lemma {:induction false} NextTimesAdd(m: int, max: int, a: nat, b: nat)
    ensures NextTimes(m, max, a + b) == NextTimes(NextTimes(m, max, a), max, b)
    decreases a
  {
    if a > 0 { NextTimesAdd(WrapNext(m, max), max, a - 1, b); }
  }

  lemma {:induction false} PrevTimesAdd(m: int, max: int, a: nat, b: nat)
    ensures PrevTimes(m, max, a + b) == PrevTimes(PrevTimes(m, max, a), max, b)
    decreases a
  {
    if a > 0 { PrevTimesAdd(WrapPrev(m, max), max, a - 1, b); }
  }

  /** Down, pressed once per entry, comes back to where it started, for any menu size. */
  lemma NextTimesCycle(m: int, max: int)
    requires 1 <= m <= max
    ensures NextTimes(m, max, max) == m
  {
    NextTimesAdd(m, max, max - m + 1, m - 1);
    NextTimesAdd(m, max, max - m, 1);
    NextTimesClimbs(m, max, max - m);
    NextTimesClimbs(1, max, m - 1);
  }

  /** Up, pressed once per entry, comes back to where it started, for any menu size. */
  lemma PrevTimesCycle(m: int, max: int)
    requires 1 <= m <= max
    ensures PrevTimes(m, max, max) == m
  {
    PrevTimesAdd(m, max, m, max - m);
    PrevTimesAdd(m, max, m - 1, 1);
    PrevTimesDescends(m, max, m - 1);
    if max > m { PrevTimesDescends(max, max, max - m); }
  }

  /** Up undoes Down and Down undoes Up, for any menu size. */
  lemma WrapInverse(m: int, max: int)
    requires 1 <= m <= max
    ensures WrapPrev(WrapNext(m, max), max) == m
    ensures WrapNext(WrapPrev(m, max), max) == m
  {
  }

  /** While browsing, Up and Down move among the entries and change nothing else. */
  lemma BrowseUpDown(s: MenuState)
    requires InBounds(s) && s.subState == 1
    ensures Step(s, Up) == s.(mainState := Step(s, Up).mainState)
    ensures Step(s, Down) == s.(mainState := Step(s, Down).mainState)
    ensures Step(s, Up).mainState == PrevTimes(s.mainState, MaxMainState, 1)
    ensures Step(s, Down).mainState == NextTimes(s.mainState, MaxMainState, 1)
    ensures Step(Step(s, Down), Up) == s
  {
  }

  /** k presses of the same button. */
  function Presses(b: Button, k: nat): seq<Button>
    decreases k
  {
    if k == 0 then [] else [b] + Presses(b, k - 1)
  }

  /** k presses of Down while browsing move k entries on, wrapping, and change nothing else. */
  lemma {:induction false} BrowseDownTimes(s: MenuState, k: nat)
    requires InBounds(s) && s.subState == 1
    ensures Run(s, Presses(Down, k)) == s.(mainState := NextTimes(s.mainState, MaxMainState, k))
    decreases k
  {
    if k > 0 {
      var bs := Presses(Down, k);
      assert bs[0] == Down && bs[1..] == Presses(Down, k - 1);
      BrowseDownTimes(Step(s, Down), k - 1);
    }
  }

  /** k presses of Up while browsing move k entries back, wrapping, and change nothing else. */
  lemma {:induction false} BrowseUpTimes(s: MenuState, k: nat)
    requires InBounds(s) && s.subState == 1
    ensures Run(s, Presses(Up, k)) == s.(mainState := PrevTimes(s.mainState, MaxMainState, k))
    decreases k
  {
    if k > 0 {
      var bs := Presses(Up, k);
      assert bs[0] == Up && bs[1..] == Presses(Up, k - 1);
      BrowseUpTimes(Step(s, Up), k - 1);
    }
  }

  /** While browsing, pressing Up or Down once per entry returns to the same state. */
  lemma BrowseCycle(s: MenuState)
    requires InBounds(s) && s.subState == 1
    ensures Run(s, Presses(Down, MaxMainState)) == s
    ensures Run(s, Presses(Up, MaxMainState)) == s
  {
    BrowseDownTimes(s, MaxMainState);
    NextTimesCycle(s.mainState, MaxMainState);
    BrowseUpTimes(s, MaxMainState);
    PrevTimesCycle(s.mainState, MaxMainState);
  }

  /** While browsing, Select goes one level deeper, never past the entry's depth; Back does nothing. */
  lemma BrowseSelectBack(s: MenuState)
    requires InBounds(s) && s.subState == 1
    ensures var r := Step(s, Select);
      r.mainState == s.mainState && r.targetSpeed == s.targetSpeed && r.emergStop == s.emergStop &&
      r.subState == (if MaxSubState[s.mainState - 1] >= 2 then 2 else 1)
    ensures Step(s, Back) == s
  {
  }

  /**
   * While editing, Back goes one level up and Select does nothing.  The
   * floor at 1 never acts here: subState - 1 is 0 only for subState 1,
   * which is browsing.
   */
  lemma EditBackSelect(s: MenuState)
    requires s.subState != 1
    ensures Step(s, Back) == s.(subState := s.subState - 1)
    ensures InBounds(s) ==> Step(s, Back).subState >= 1
    ensures Step(s, Select) == s
  {
  }

  /**
   * Editing the speed: Up and Down move the index by one within 0 .. 12
   * and stop at the ends; the position and the flag do not change.
   */
  lemma EditSpeed(s: MenuState)
    requires s.mainState == 1 && s.subState == 2 && ValidSpeed(s.targetSpeed)
    ensures Step(s, Up) == s.(targetSpeed := if s.targetSpeed < 12 then s.targetSpeed + 1 else 12)
    ensures Step(s, Down) == s.(targetSpeed := if s.targetSpeed > 0 then s.targetSpeed - 1 else 0)
  {
  }

  /**
   * Up and Down at (2, 2) toggle the flag; nothing else in the machine
   * touches it, and the speed index moves the same whatever the flag says.
   */
  lemma EmergStopOnlyToggled(s: MenuState, b: Button)
    requires LookupSafe(s, b)
    ensures Step(s, b).emergStop != s.emergStop <==>
      s.mainState == 2 && s.subState == 2 && (b == Up || b == Down)
    ensures Step(s, b).targetSpeed == Step(s.(emergStop := !s.emergStop), b).targetSpeed
  {
  }

  /**
   * Every state reachable from start-up is in bounds, sits on the one live
   * entry, keeps a valid speed index and never has the flag set.
   */
  lemma {:induction false} Reachable(targetSpeed: int, bs: seq<Button>)
    requires ValidSpeed(targetSpeed)
    ensures var r := Run(Init(targetSpeed), bs);
      InBounds(r) && r.mainState == 1 && ValidSpeed(r.targetSpeed) && !r.emergStop
  {
    RunKeeps(Init(targetSpeed), bs);
  }

  lemma {:induction false} RunKeeps(s: MenuState, bs: seq<Button>)
    requires InBounds(s) && ValidSpeed(s.targetSpeed)
    ensures ValidSpeed(Run(s, bs).targetSpeed)
    ensures Run(s, bs).emergStop == s.emergStop
    decreases |bs|
  {
    if bs != [] { RunKeeps(Step(s, bs[0]), bs[1..]); }
  }

  // ---------------------------------------------------------------------
  // The display label

  /** The label the screen shows for a state, or None when it draws nothing. */
  function Label(s: MenuState): (r: Option<string>)
    requires s.mainState == 1 && s.subState == 2 ==> ValidSpeed(s.targetSpeed)
    ensures r.Some? <==> (s.mainState == 1 || s.mainState == 2) && (s.subState == 1 || s.subState == 2)
    ensures r.Some? ==> 0 < |r.value| <= 10
  {
    match (s.mainState, s.subState)
    case (1, 1) => Some("Speed")
    case (1, 2) => Some(SpeedDisp[s.targetSpeed])
    case (2, 1) => Some("Emerg Stop")
    case (2, 2) => if s.emergStop then Some("ENABLED") else Some("DISABLED")
    case _ => None
  }

  /** The speed screen shows the signed offset of the index from the middle entry 6. */
  lemma SpeedLabelIsOffset(s: MenuState)
    requires s.mainState == 1 && s.subState == 2 && ValidSpeed(s.targetSpeed)
    ensures Label(s) == Some(Decimal.Show(s.targetSpeed - 6))
  {
    var i := s.targetSpeed;
    assert Label(s) == Some(SpeedDisp[i]);
    ShowSmall(i - 6);
  }

  /** The labels of the speed indices, in decimal. */
  lemma ShowSmall(n: int)
    requires -6 <= n <= 6
    ensures SpeedDisp[n + 6] == Decimal.Show(n)
  {
    if n == -6 { assert Decimal.Show(-6) == "-6"; }
    else if n == -5 { assert Decimal.Show(-5) == "-5"; }
    else if n == -4 { assert Decimal.Show(-4) == "-4"; }
    else if n == -3 { assert Decimal.Show(-3) == "-3"; }
    else if n == -2 { assert Decimal.Show(-2) == "-2"; }
    else if n == -1 { assert Decimal.Show(-1) == "-1"; }
    else if n == 0 { assert Decimal.Show(0) == "0"; }
    else if n == 1 { assert Decimal.Show(1) == "1"; }
    else if n == 2 { assert Decimal.Show(2) == "2"; }
    else if n == 3 { assert Decimal.Show(3) == "3"; }
    else if n == 4 { assert Decimal.Show(4) == "4"; }
    else if n == 5 { assert Decimal.Show(5) == "5"; }
    else { assert Decimal.Show(6) == "6"; }
  }

  /**
   * Start, Select, then Up from index 6 ("0") gives index 7 ("1"); Down
   * twice more gives index 5 ("-1").
   */
  lemma Scenario()
    ensures var s1 := Step(Init(6), Select);
      s1 == MenuState(1, 2, 6, false) && Label(s1) == Some("0") &&
      var s2 := Step(s1, Up);
      s2.targetSpeed == 7 && Label(s2) == Some("1") &&
      var s3 := Step(Step(s2, Down), Down);
      s3 == MenuState(1, 2, 5, false) && Label(s3) == Some("-1")
  {
  }

  // ---------------------------------------------------------------------
  // The button gate

  /** Index of the first true entry of p. */
  function FirstIndex(p: seq<bool>): (r: Option<nat>)
    ensures r.Some? ==> r.value < |p| && p[r.value] && forall j :: 0 <= j < r.value ==> !p[j]
    ensures r.None? ==> forall j :: 0 <= j < |p| ==> !p[j]
  {
    if p == [] then None
    else if p[0] then Some(0)
    else match FirstIndex(p[1..])
      case None => None
      case Some(k) => Some(k + 1)
  }

  /** The press a poll honours: the first pressed button in scan order, if the gate is open. */
  function Honoured(pressed: seq<bool>, now: int, waitTime: int): (r: Option<Button>)
    requires |pressed| <= |Buttons|
    ensures r.Some? <==> now > waitTime && exists j :: 0 <= j < |pressed| && pressed[j]
  {
    if now > waitTime then
      match FirstIndex(pressed)
      case None => None
      case Some(k) => Some(Buttons[k])
    else None
  }

  /** One poll: the state and the gate after it. */
  function Gate(s: MenuState, waitTime: int, pressed: seq<bool>, now: int): (g: (MenuState, int))
    requires InBounds(s) && |pressed| <= |Buttons|
    ensures InBounds(g.0)
    ensures g.1 == waitTime || (now > waitTime && g.1 == now + ButtonPeriod)
    ensures g.1 == waitTime ==> g.0 == s
    ensures ValidSpeed(s.targetSpeed) ==> ValidSpeed(g.0.targetSpeed)
  {
    match Honoured(pressed, now, waitTime)
    case None => (s, waitTime)
    case Some(b) => (Step(s, b), now + ButtonPeriod)
  }

  /** Up wins over every other button, Select over Down and Back, Down over Back. */
  lemma Priority(pressed: seq<bool>, now: int, waitTime: int)
    requires |pressed| == |Buttons| && now > waitTime
    ensures pressed[0] ==> Honoured(pressed, now, waitTime) == Some(Up)
    ensures !pressed[0] && pressed[1] ==> Honoured(pressed, now, waitTime) == Some(Select)
    ensures !pressed[0] && !pressed[1] && pressed[2] ==> Honoured(pressed, now, waitTime) == Some(Down)
    ensures !pressed[0] && !pressed[1] && !pressed[2] && pressed[3] ==> Honoured(pressed, now, waitTime) == Some(Back)
  {
  }

  /** Two honoured polls, the second after the first, are more than the period apart. */
  lemma GateSeparation(s: MenuState, waitTime: int, p1: seq<bool>, now1: int, p2: seq<bool>, now2: int)
    requires InBounds(s) && |p1| == |Buttons| && |p2| == |Buttons|
    requires Honoured(p1, now1, waitTime).Some?
    requires Honoured(p2, now2, Gate(s, waitTime, p1, now1).1).Some?
    ensures now2 > now1 + ButtonPeriod
  {
  }

  /** How the first i buttons of a scan decide the honoured press. */
  lemma FirstIndexExtend(p: seq<bool>, i: nat)
    requires i < |p|
    ensures FirstIndex(p[..i + 1]) ==
      match FirstIndex(p[..i])
      case Some(k) => Some(k)
      case None => if p[i] then Some(i) else None
  {
    var q := p[..i + 1];
    assert p[..i] == q[..i];
    match FirstIndex(p[..i])
    case Some(k) =>
      assert q[k];
    case None =>
      if p[i] { assert q[i]; }
  }

  // ---------------------------------------------------------------------
  // The mutable front panel

  class UserInterface {
    var mainState: int
    var subState: int
    /** The speed index the caller passes by reference. */
    var targetSpeed: int
    var emergStop: bool
    /** Time before which the gate stays shut. */
    var waitTime: int

    function View(): MenuState
      reads this
    {
      MenuState(mainState, subState, targetSpeed, emergStop)
    }

    ghost predicate Valid()
      reads this
    {
      InBounds(View()) && ValidSpeed(targetSpeed)
    }

    /** Start-up: position (1, 1), flag clear, gate open. */
    constructor (targetSpeed: int)
      requires ValidSpeed(targetSpeed)
      ensures Valid()
      ensures View() == Init(targetSpeed) && waitTime == 0
    {
      mainState, subState := 1, 1;
      this.targetSpeed := targetSpeed;
      emergStop := false;
      waitTime := 0;
    }

    method SetSpeed(newSpeed: int)
      modifies this`targetSpeed
      ensures targetSpeed == SpeedAfter(old(targetSpeed), newSpeed)
      ensures old(Valid()) ==> Valid()
    {
      if 0 <= newSpeed && newSpeed <= 12 {
        targetSpeed := newSpeed;
      }
    }

    method UpdateValue(b: Button)
      requires LookupSafe(View(), b)
      modifies this
      ensures View() == Step(old(View()), b)
      ensures waitTime == old(waitTime)
      ensures old(Valid()) ==> Valid()
    {
      if subState == 1 {
        match b {
          case Up =>
            mainState := mainState - 1;
            if mainState == 0 {
              mainState := MaxMainState;
            }
          case Down =>
            mainState := mainState + 1;
            if mainState > MaxMainState {
              mainState := 1;
            }
          case Select =>
            var sub, max := subState + 1, MaxSubState[mainState - 1];
            if sub > max {
              sub := max;
            }
            subState := sub;
          case Back =>
        }
        return;
      }

      var increment := 0;
      match b {
        case Back =>
          var sub := subState - 1;
          if sub == 0 {
            sub := 1;
          }
          subState := sub;
          return;
        case Up =>
          increment := 1;
        case Down =>
          increment := -1;
        case Select =>
          return;
      }

      if mainState == 1 {
        if subState == 2 {
          if increment > 0 {
            SetSpeed(targetSpeed + 1);
          } else if increment < 0 {
            SetSpeed(targetSpeed - 1);
          }
        }
      } else if mainState == 2 {
        if subState == 2 {
          emergStop := !emergStop;
        }
      }
    }

    /**
     * One poll of the buttons at time now; pressed[i] tells whether
     * Buttons[i] is held down.
     */
    method BtnUpdate(pressed: seq<bool>, now: int)
      requires Valid() && |pressed| == |Buttons|
      modifies this
      ensures Valid()
      ensures (View(), waitTime) == Gate(old(View()), old(waitTime), pressed, now)
    {
      var i := 0;
      while i < |Buttons|
        invariant 0 <= i <= |Buttons|
        invariant Valid()
        invariant (View(), waitTime) == Gate(old(View()), old(waitTime), pressed[..i], now)
      {
        FirstIndexExtend(pressed, i);
        if pressed[i] && now > waitTime {
          UpdateValue(Buttons[i]);
          waitTime := now + ButtonPeriod;
        }
        i := i + 1;
      }
      assert pressed[..i] == pressed;
    }
  }
}
