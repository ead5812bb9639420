/**
 * The PWM actuator and its serial command surface (src/main.cpp).
 *
 * Two output pins always receive the same compare value, computed from the
 * carrier frequency and the duty percentage with C's truncating integer
 * division.  Text lines "D <n>" and "F <n>" set the duty and the frequency;
 * out-of-range values are rejected, never clamped.  A frequency of 0 is
 * accepted by the range check and then divides by zero: here that is a
 * precondition of every operation that would compute with it.
 *
 * Pin writes are recorded in a ghost log; characters arrive as parameters.
 */
module Pwm {
  import Decimal

  /** Processor clock, in Hz. */
  const ClkFreq: int := 16000000
  const PinPwm: int := 10
  const PinPwm2: int := 9
  const DefaultDuty: int := 50
  /** Start-up carrier frequency, in Hz. */
  const DefaultFreq: int := 35714

  function Abs(x: int): nat { if x < 0 then -x else x }

  /** C's integer division: the quotient is truncated toward zero. */
  function Quot(a: int, b: int): (q: int)
    requires b != 0
    ensures Abs(q) == Abs(a) / Abs(b)
    ensures q > 0 ==> (a < 0) == (b < 0)
    ensures q < 0 ==> (a < 0) != (b < 0)
  {
    var m := Abs(a) / Abs(b);
    DivNonNegative(Abs(a), Abs(b));
    if (a < 0) == (b < 0) then m else -m
  }

  /**
   * Quot is C's division: the remainder it leaves is smaller than the
   * divisor and has the sign of the dividend (or is zero).
   */
  lemma QuotRemainder(a: int, b: int)
    requires b != 0
    ensures var q := Quot(a, b);
      Abs(a - q * b) < Abs(b) && (a - q * b == 0 || (a - q * b < 0 <==> a < 0))
  {
    TruncatedRemainder(a, b, Abs(a) / Abs(b));
  }

  /** The remainder left by the truncated quotient, case by case on the signs. */
  lemma TruncatedRemainder(a: int, b: int, m: int)
    requires b != 0 && m == Abs(a) / Abs(b)
    ensures var q := if (a < 0) == (b < 0) then m else -m;
      Abs(a - q * b) < Abs(b) && (a - q * b == 0 || (a - q * b < 0 <==> a < 0))
  {
    var A: int, B: int := Abs(a), Abs(b);
    var r: int := A % B;
    assert A == m * B + r && 0 <= r < B;
    NegatedProducts(m, B);
    if a >= 0 && b > 0 {
      assert a - m * b == r;
    } else if a < 0 && b < 0 {
      assert b == -B;
      assert a - m * b == -r;
    } else if a >= 0 {
      assert b == -B;
      assert a - (-m) * b == r;
    } else {
      assert b == B;
      assert a - (-m) * b == -r;
    }
  }

  lemma NegatedProducts(x: int, y: int)
    ensures x * -y == -(x * y) && (-x) * y == -(x * y) && (-x) * (-y) == x * y
  {
  }

  lemma QuotNonNegative(a: int, b: int)
    requires a >= 0 && b > 0
    ensures Quot(a, b) == a / b
  {
  }

  /** The compare value for a carrier frequency and a duty percentage. */
  function GetAWrite(freq: int, duty: int): (r: int)
    requires freq != 0
    ensures freq > 0 && 0 <= duty <= 100 ==> 0 <= r <= Quot(ClkFreq, 2 * freq)
  {
    var x := Quot(ClkFreq, 2 * freq);
    ScaleBounds(x, duty);
    Quot(x * duty, 100)
  }

  /** A percentage (0 .. 100) of a non-negative quantity lies between 0 and the quantity. */
  lemma ScaleBounds(x: int, d: int)
    ensures x >= 0 && 0 <= d <= 100 ==> 0 <= Quot(x * d, 100) <= x
  {
    if x >= 0 && 0 <= d <= 100 {
      assert 0 <= x * d by { MulNonNegative(x, d); }
      assert x * 100 - x * d == x * (100 - d);
      assert x * d <= x * 100 by { MulNonNegative(x, 100 - d); }
      QuotNonNegative(x * d, 100);
    }
  }

  lemma DivNonNegative(a: int, b: int)
    requires a >= 0 && b > 0
    ensures a / b >= 0
  {
  }

  lemma MulNonNegative(x: int, y: int)
    requires x >= 0 && y >= 0
    ensures x * y >= 0
  {
  }

  /** At a positive frequency the compare value never decreases as the duty grows. */
  lemma GetAWriteMonotone(freq: int, d1: int, d2: int)
    requires freq > 0 && 0 <= d1 <= d2
    ensures GetAWrite(freq, d1) <= GetAWrite(freq, d2)
  {
    var x := Quot(ClkFreq, 2 * freq);
    QuotNonNegative(ClkFreq, 2 * freq);
    DivNonNegative(ClkFreq, 2 * freq);
    assert 0 <= x * d1 by { MulNonNegative(x, d1); }
    assert x * d2 - x * d1 == x * (d2 - d1);
    assert x * d1 <= x * d2 by { MulNonNegative(x, d2 - d1); }
    QuotNonNegative(x * d1, 100);
    QuotNonNegative(x * d2, 100);
  }

  /**
   * 40 kHz at 50 % gives 100; the start-up setting gives 112; a negative
   * duty is truncated toward zero (-266 / 100 is -2, not -3); at 100 Hz
   * the value no longer fits the 16-bit int the firmware returns it in.
   */
  lemma GetAWriteExamples()
    ensures GetAWrite(40000, 50) == 100
    ensures GetAWrite(DefaultFreq, DefaultDuty) == 112
    ensures GetAWrite(30000, -1) == -2
    ensures GetAWrite(100, DefaultDuty) == 40000 > 32767
  {
    QuotNonNegative(ClkFreq, 200);
    QuotNonNegative(ClkFreq, 80000);
    QuotNonNegative(ClkFreq, 2 * DefaultFreq);
    QuotNonNegative(ClkFreq, 60000);
  }

  // ---------------------------------------------------------------------
  // Parsing a command line

  /** Position of the first c in s, or -1 (String::indexOf). */
  function IndexOf(s: string, c: char): (i: int)
    ensures -1 <= i < |s|
    ensures i == -1 <==> c !in s
    ensures 0 <= i ==> s[i] == c && c !in s[..i]
  {
    if s == [] then -1
    else if s[0] == c then 0
    else
      var j := IndexOf(s[1..], c);
      assert s == [s[0]] + s[1..];
      if j == -1 then -1
      else
        assert s[..j + 1] == [s[0]] + s[1..][..j];
        j + 1
  }

  /**
   * com.substring(0, com.indexOf(' ')).  With no space the -1 end index is
   * passed as an unsigned int, i.e. past the end, so the whole line is kept.
   */
  function Part1(com: string): (p: string)
    ensures |p| <= |com| && p == com[..|p|]
    ensures ' ' !in p
    ensures |p| < |com| ==> com[|p|] == ' '
  {
    var sp := IndexOf(com, ' ');
    if sp < 0 then com else com[..sp]
  }

  /** com.substring(com.indexOf(' ') + 1): with no space, the whole line. */
  function Part2(com: string): (q: string)
    ensures ' ' in com ==> com == Part1(com) + [' '] + q
    ensures ' ' !in com ==> q == com
  {
    com[IndexOf(com, ' ') + 1..]
  }

  /** C's tolower on ASCII letters, as equalsIgnoreCase applies it to each character. */
  function Lower(c: char): char
  {
    if 'A' <= c <= 'Z' then (c as int + 32) as char else c
  }

  /**
   * part1.equalsIgnoreCase("D") and part1.equalsIgnoreCase("F")
   * (src/main.cpp:111, 128): equal lengths and equal characters up to case.
   */
  predicate EqualsIgnoreCase(a: string, b: string)
  {
    |a| == |b| && forall i :: 0 <= i < |a| ==> Lower(a[i]) == Lower(b[i])
  }

  datatype Request = DutyRequest(value: int) | FreqRequest(value: int) | Unknown

  /**
   * What a line asks for, before any range check: a one-letter first token
   * D or F (any case), ended by a space or by the end of the line.
   */
  function Decode(com: string): (r: Request)
    ensures r.DutyRequest? ==> com != [] && Lower(com[0]) == 'd'
    ensures r.FreqRequest? ==> com != [] && Lower(com[0]) == 'f'
  {
    var part1 := Part1(com);
    OneLetter(part1, 'D');
    OneLetter(part1, 'F');
    if EqualsIgnoreCase(part1, "D") then DutyRequest(Decimal.ToInt(Part2(com)))
    else if EqualsIgnoreCase(part1, "F") then FreqRequest(Decimal.ToInt(Part2(com)))
    else Unknown
  }

  /** Which lines Decode recognises: exactly "x" or "x ..." with x one of D, d, F, f. */
  lemma DecodeShape(com: string)
    ensures Decode(com).DutyRequest? <==> com != [] && Lower(com[0]) == 'd' && (|com| == 1 || com[1] == ' ')
    ensures Decode(com).FreqRequest? <==> com != [] && Lower(com[0]) == 'f' && (|com| == 1 || com[1] == ' ')
  {
    FirstToken(com);
    OneLetter(Part1(com), 'D');
    OneLetter(Part1(com), 'F');
    assert Lower('D') == 'd' && Lower('F') == 'f' && Lower(' ') == ' ';
  }

  /**
   * A line made of a word without spaces, a space and any text: the word
   * picks the request and toInt of the text is its value.
   */
  lemma DecodeSplit(p: string, q: string)
    requires ' ' !in p
    ensures Decode(p + [' '] + q) ==
      if EqualsIgnoreCase(p, "D") then DutyRequest(Decimal.ToInt(q))
      else if EqualsIgnoreCase(p, "F") then FreqRequest(Decimal.ToInt(q))
      else Unknown
  {
    var com := p + [' '] + q;
    assert com[|p|] == ' ';
    assert com[..|p|] == p;
    assert IndexOf(com, ' ') == |p|;
    assert Part1(com) == p && Part2(com) == q;
  }

  /** The first token is one character long exactly when the line starts "x " or is "x". */
  lemma FirstToken(com: string)
    ensures |Part1(com)| == 1 <==> com != [] && com[0] != ' ' && (|com| == 1 || com[1] == ' ')
    ensures |Part1(com)| == 1 ==> Part1(com)[0] == com[0]
  {
    var sp := IndexOf(com, ' ');
    if com != [] && com[0] != ' ' && |com| > 1 && com[1] == ' ' {
      assert com[..1] == [com[0]];
      assert sp == 1;
    }
    if sp == 1 {
      assert com[..sp] == [com[0]];
    }
  }

  lemma OneLetter(p: string, c: char)
    ensures EqualsIgnoreCase(p, [c]) <==> |p| == 1 && Lower(p[0]) == Lower(c)
  {
    if |p| == 1 && Lower(p[0]) == Lower(c) {
      assert p == [p[0]];
    }
  }

  /** The range checks: duty 0 .. 100, any frequency that is not negative. */
  predicate Accepted(r: Request)
  {
    match r
    case DutyRequest(v) => 0 <= v <= 100
    case FreqRequest(v) => v >= 0
    case Unknown => false
  }

  /** The lines that reach the division by zero: an accepted frequency of 0. */
  predicate DividesByZero(com: string)
  {
    Decode(com) == FreqRequest(0)
  }

  /** Round trip: a letter, a space and a rendered number decode to that number. */
  lemma DecodeShow(c: char, n: int, rest: string)
    requires Lower(c) == 'd' || Lower(c) == 'f'
    requires rest == [] || !Decimal.IsDigit(rest[0])
    ensures Decode([c, ' '] + Decimal.Show(n) + rest) ==
      if Lower(c) == 'd' then DutyRequest(n) else FreqRequest(n)
  {
    var q := Decimal.Show(n) + rest;
    assert [c, ' '] + Decimal.Show(n) + rest == [c] + [' '] + q;
    DecodeSplit([c], q);
    OneLetter([c], 'D');
    OneLetter([c], 'F');
    Decimal.ToIntShow(n, rest);
  }

  /**
   * Without a space the whole line is both the token and the number, so a
   * lone letter reads as the number 0: "D" sets the duty to 0 and "F"
   * reaches the division by zero.
   */
  lemma LoneLetter(c: char)
    requires c == 'D' || c == 'd' || c == 'F' || c == 'f'
    ensures Decode([c]) == if c == 'D' || c == 'd' then DutyRequest(0) else FreqRequest(0)
  {
    assert Part2([c]) == [c] by {
      assert ' ' !in [c];
    }
    assert Decimal.ToInt([c]) == 0 by {
      assert !Decimal.IsDigit(c) && !Decimal.IsSpace(c);
      Decimal.ToIntNoDigits([c]);
    }
    DecodeShape([c]);
  }

  /** A letter, a space and "0" decode to the value 0. */
  lemma LetterZero(c: char)
    requires Lower(c) == 'd' || Lower(c) == 'f'
    ensures Decode([c, ' ', '0']) == if Lower(c) == 'd' then DutyRequest(0) else FreqRequest(0)
  {
    assert Decimal.Show(0) == "0";
    assert [c, ' ', '0'] == [c, ' '] + Decimal.Show(0) + [];
    DecodeShow(c, 0, []);
  }

  /** The lines that reach the division by zero include "F 0", "f 0", "F" and "f". */
  lemma ZeroFrequencyLines()
    ensures DividesByZero("F 0") && DividesByZero("f 0")
    ensures DividesByZero("F") && DividesByZero("f")
    ensures Accepted(Decode("D")) && !DividesByZero("D")
  {
    assert "F 0" == ['F', ' ', '0'] && "f 0" == ['f', ' ', '0'];
    LetterZero('F');
    LetterZero('f');
    LoneLetter('F');
    LoneLetter('f');
    LoneLetter('D');
  }

  // ---------------------------------------------------------------------
  // The actuator and its line buffer

  /** A hardware call the firmware makes. */
  datatype PinEvent = AnalogWrite(pin: int, value: int) | SetPinFrequency(pin: int, hz: int)

  /** The same compare value, written to both output pins. */
  function BothPins(value: int): seq<PinEvent>
  {
    [AnalogWrite(PinPwm, value), AnalogWrite(PinPwm2, value)]
  }

  datatype Settings = Settings(duty: int, freq: int)

  /** The settings after an accepted request; a rejected one changes nothing. */
  function Apply(st: Settings, r: Request): (st': Settings)
    ensures Accepted(r) && r.DutyRequest? ==> st' == st.(duty := r.value) && 0 <= st'.duty <= 100
    ensures Accepted(r) && r.FreqRequest? ==> st' == st.(freq := r.value) && st'.freq >= 0
    ensures !Accepted(r) ==> st' == st
  {
    if !Accepted(r) then st
    else match r
      case DutyRequest(v) => st.(duty := v)
      case FreqRequest(v) => st.(freq := v)
  }

  /** The hardware calls an accepted request makes; a rejected one makes none. */
  function Writes(st: Settings, r: Request): (w: seq<PinEvent>)
    requires st.freq != 0 && r != FreqRequest(0)
    ensures Accepted(r) <==> w != []
    ensures w != [] ==> |w| >= 2 && w[|w| - 1].AnalogWrite? && w[|w| - 2..] == BothPins(w[|w| - 1].value)
  {
    if !Accepted(r) then []
    else match r
      case DutyRequest(v) => BothPins(GetAWrite(st.freq, v))
      case FreqRequest(v) => [SetPinFrequency(PinPwm, v)] + BothPins(GetAWrite(v, st.duty))
  }

  /**
   * Commands alone keep the duty within 0 .. 100 and the frequency
   * non-negative; the frequency becomes 0 exactly through an "F 0" line.
   */
  lemma ApplyKeepsRanges(st: Settings, com: string)
    requires 0 <= st.duty <= 100 && st.freq > 0
    ensures var st' := Apply(st, Decode(com));
      0 <= st'.duty <= 100 && st'.freq >= 0 && (st'.freq == 0 <==> DividesByZero(com))
  {
  }

  class Firmware {
    var duty: int
    var freq: int
    /** The characters of the line received so far. */
    var command: string
    ghost var pinLog: seq<PinEvent>

    ghost predicate Valid()
      reads this
    {
      freq != 0 && '\n' !in command
    }

    function Current(): Settings
      reads this
    {
      Settings(duty, freq)
    }

    /** The globals' initial values. */
    constructor ()
      ensures Valid()
      ensures duty == DefaultDuty && freq == DefaultFreq && command == [] && pinLog == []
    {
      duty, freq, command := DefaultDuty, DefaultFreq, [];
      pinLog := [];
    }

    /** Sets the duty, unclamped, and writes its compare value to both pins. */
    method SetDutyCycle(d: int)
      requires freq != 0
      modifies this`duty, this`pinLog
      ensures duty == d
      ensures pinLog == old(pinLog) + BothPins(GetAWrite(freq, d))
    {
      duty := d;
      pinLog := pinLog + [AnalogWrite(PinPwm, GetAWrite(freq, d))];
      pinLog := pinLog + [AnalogWrite(PinPwm2, GetAWrite(freq, d))];
    }

    /** Sets the frequency, unclamped, and rewrites both pins at the kept duty. */
    method SetFreq(f: int)
      requires f != 0
      modifies this`freq, this`pinLog
      ensures freq == f
      ensures pinLog == old(pinLog) + [SetPinFrequency(PinPwm, f)] + BothPins(GetAWrite(f, duty))
    {
      freq := f;
      pinLog := pinLog + [SetPinFrequency(PinPwm, f)];
      pinLog := pinLog + [AnalogWrite(PinPwm, GetAWrite(f, duty))];
      pinLog := pinLog + [AnalogWrite(PinPwm2, GetAWrite(f, duty))];
    }

    /** Carries out one command line; the result says whether it was accepted. */
    method ParseCommand(com: string) returns (ok: bool)
      requires freq != 0 && !DividesByZero(com)
      modifies this`duty, this`freq, this`pinLog
      ensures freq != 0
      ensures ok == Accepted(Decode(com))
      ensures Current() == Apply(old(Current()), Decode(com))
      ensures pinLog == old(pinLog) + Writes(old(Current()), Decode(com))
    {
      ok := Execute(Decode(com));
    }

    /** The range checks on a decoded line, then the matching setter. */
    method Execute(r: Request) returns (ok: bool)
      requires freq != 0 && r != FreqRequest(0)
      modifies this`duty, this`freq, this`pinLog
      ensures freq != 0
      ensures ok == Accepted(r)
      ensures Current() == Apply(old(Current()), r)
      ensures pinLog == old(pinLog) + Writes(old(Current()), r)
    {
      match r {
        case DutyRequest(val) =>
          if val > 100 || val < 0 {
            return false;
          }
          SetDutyCycle(val);
          return true;
        case FreqRequest(val) =>
          if val < 0 {
            return false;
          }
          SetFreq(val);
          return true;
        case Unknown =>
          return false;
      }
    }

    /**
     * One pass of the main loop with character c available: a newline runs
     * the buffered line and empties the buffer, anything else is appended.
     * rejected tells whether the line was refused ("Invalid Input").
     */
    method Receive(c: char) returns (rejected: bool)
      requires Valid()
      requires c == '\n' ==> !DividesByZero(command)
      modifies this
      ensures Valid()
      ensures c != '\n' ==>
        command == old(command) + [c] && Current() == old(Current()) && pinLog == old(pinLog) && !rejected
      ensures c == '\n' ==>
        command == [] && rejected == !Accepted(Decode(old(command))) &&
        Current() == Apply(old(Current()), Decode(old(command))) &&
        pinLog == old(pinLog) + Writes(old(Current()), Decode(old(command)))
    {
      rejected := false;
      if c == '\n' {
        ghost var r, st, log := Decode(command), Current(), pinLog;
        var ok := ParseCommand(command);
        assert Current() == Apply(st, r) && pinLog == log + Writes(st, r) && ok == Accepted(r);
        rejected := !ok;
        command := [];
      } else {
        command := command + [c];
      }
    }
  }
}
