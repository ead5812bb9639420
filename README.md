# RES-PCA firmware: front-panel menu and PWM actuator

This Dafny project models the two parts of the RES-PCA Arduino firmware that hold
logic:

- **The front-panel menu** (`src/UI.cpp`). Four active-low push buttons (Up,
  Select, Down, Back) move a position `(mainState, subState)` through a small menu
  and edit a speed index `targetSpeed` (0 .. 12, shown as "-6" .. "6"). They also
  edit an emergency-stop flag. A poll of the buttons honours at most one press
  every 250 ms. The redraw picks one label per position.
- **The PWM actuator and its serial commands** (`src/main.cpp`). Two output pins
  always get the same compare value, `(16000000 / (2·freq)) · duty / 100`, in C
  integer arithmetic. Lines such as `D 50` and `F 10000`, collected from the
  serial port character by character, set the duty percentage and the carrier
  frequency. Out-of-range values are rejected, never clamped.

Files:

- `decimal.dfy` (module `Decimal`): Arduino's `String::toInt`, which is C's
  `atol`, and an independent decimal rendering `Show`. The two are linked by a
  round-trip lemma.
- `menu.dfy` (module `Menu`): pure functions for one press (`Step`), one poll
  (`Gate`) and one redraw (`Label`), with lemmas about them. The class
  `UserInterface` holds the globals `Display_State`, `Emerg_Stop`, the static
  `waitTime` and the speed, and its methods are proved to follow those
  functions.
- `pwm.dfy` (module `Pwm`): C's truncating division `Quot`, the compare value
  `GetAWrite`, the command decoder `Decode` and the range checks. The class
  `Firmware` holds `Duty`, `Freq` and the line buffer `Command`, plus a ghost log
  of the pin writes it makes.

The model follows the code as written:

- Up moves to the previous menu entry and Down to the next.
- In the emergency-stop editor (2, 2), both Up and Down toggle the flag. The
  test `if (BTN_SELECT)` at src/UI.cpp:250 is on a non-zero pin constant, so it
  always holds. Select never reaches it, because it returns at
  src/UI.cpp:219-220.
- Only one main entry (Speed) is reachable, because `MAX_MAINSTATE` is 1. The
  emergency-stop branch therefore never runs from the start state.
- The speed is range-checked, never clamped. The emergency-stop flag does not
  force the speed or the duty to anything.
- A frequency of 0 passes the range check of `parseCommand` and then divides by
  zero in `getAWrite`. The model exposes this as a precondition
  (`!DividesByZero(com)`) and does not correct it.

## Model

| member | source | states |
|---|---|---|
| Decimal.ToInt | src/main.cpp:113 | toInt of text that is blank after the white space is 0, and a negative result needs a leading '-' |
| Decimal.ToIntMinus | src/main.cpp:113 | a '-' in front of unsigned text negates the value toInt reads from that text |
| Decimal.ToIntPlus | src/main.cpp:130 | a '+' in front of unsigned text leaves the value unchanged, so "D +50" asks for 50 |
| Decimal.ToIntDigits | src/main.cpp:113 | a run of digits followed by a non-digit or the end reads as its decimal value |
| Decimal.ToIntMinusDigits | src/main.cpp:113 | a '-' and a run of digits followed by a non-digit or the end read as minus its decimal value |
| Decimal.ToIntShow | src/main.cpp:113 | toInt reads back any integer rendered in decimal, whatever non-digit text follows it |
| Decimal.ToIntSkipsSpace | src/main.cpp:130 | leading white space before the number is ignored |
| Decimal.ToIntNoDigits | src/main.cpp:113 | text that starts with neither white space, a sign nor a digit reads as 0 |
| Menu.Init | src/UI.cpp:94-95 | the start position (1, 1) is in bounds and browsing; the emergency-stop flag starts clear |
| Menu.WrapPrev | src/UI.cpp:174-181 | Up while browsing keeps mainState in 1 .. max and steps back by one except from entry 1 |
| Menu.WrapNext | src/UI.cpp:182-188 | Down while browsing keeps mainState in 1 .. max and steps on by one except from the last entry |
| Menu.WrapInverse | src/UI.cpp:174-188 | Up undoes Down and Down undoes Up on every in-range entry |
| Menu.NextTimesClimbs | src/UI.cpp:182-188 | k presses of Down from entry m reach m + k while that stays in range |
| Menu.PrevTimesDescends | src/UI.cpp:174-181 | k presses of Up from entry m reach m - k while that stays at least 1 |
| Menu.NextTimesAdd | src/UI.cpp:182-188 | a + b presses of Down are a presses followed by b presses |
| Menu.PrevTimesAdd | src/UI.cpp:174-181 | a + b presses of Up are a presses followed by b presses |
| Menu.NextTimesCycle | src/UI.cpp:182-188 | max presses of Down return to the starting entry (the list is cyclic) |
| Menu.PrevTimesCycle | src/UI.cpp:174-181 | max presses of Up return to the starting entry |
| Menu.BrowseDownTimes | src/UI.cpp:182-188 | k presses of Down while browsing move mainState k entries on, wrapping, and change nothing else |
| Menu.BrowseUpTimes | src/UI.cpp:174-181 | k presses of Up while browsing move mainState k entries back, wrapping, and change nothing else |
| Menu.BrowseCycle | src/UI.cpp:174-188 | while browsing, pressing Down (or Up) MAX_MAINSTATE times returns the machine to the same state |
| Menu.SpeedAfter | src/UI.cpp:150-162 | a new speed is taken exactly when it is in 0 .. 12, and otherwise the old one is kept; a valid speed stays valid |
| Menu.Adjust | src/UI.cpp:213-261 | Up and Down while editing never move the position; they flip the flag exactly in editor (2, 2), and they change the speed only in editor (1, 2), keeping a valid speed valid |
| Menu.Step | src/UI.cpp:164-262 | one press keeps the position within MAX_MAINSTATE / MAX_SUBSTATE, keeps the speed valid and, from an in-bounds state, never changes the emergency-stop flag |
| Menu.Run | src/UI.cpp:164-262 | any sequence of presses from an in-bounds state stays in bounds |
| Menu.BrowseUpDown | src/UI.cpp:170-188 | while browsing, Up and Down change only mainState (one wrap step back or on), and Up after Down restores the state |
| Menu.BrowseSelectBack | src/UI.cpp:189-199 | while browsing, Select enters the entry's editor (subState capped at MAX_SUBSTATE) and Back does nothing |
| Menu.EditBackSelect | src/UI.cpp:203-221 | while editing, Back steps subState down by exactly one (the floor at 1 never acts there) and Select does nothing |
| Menu.EditSpeed | src/UI.cpp:227-240 | in the speed editor, Up raises the speed by one and Down lowers it by one, holding at 12 and at 0 |
| Menu.EmergStopOnlyToggled | src/UI.cpp:246-258 | a press changes the flag exactly when it is Up or Down in editor (2, 2); the speed never depends on the flag |
| Menu.RunKeeps | src/UI.cpp:164-262 | from an in-bounds state with a valid speed, any sequence of presses keeps the speed valid and the flag unchanged |
| Menu.Reachable | src/UI.cpp:9-10 | every state reachable from start-up has mainState 1, a valid speed and the emergency-stop flag clear |
| Menu.Label | src/UI.cpp:98-148 | a label is drawn exactly for positions with main and sub in {1, 2}, and it is 1 to 10 characters long |
| Menu.SpeedLabelIsOffset | src/UI.cpp:12-19 | the speed editor shows speed index i as the decimal number i - 6 |
| Menu.ShowSmall | src/UI.cpp:12-19 | entry n + 6 of the speed label table is the decimal rendering of n, for -6 .. 6 |
| Menu.Scenario | src/UI.cpp:189-240 | from (1, 1) at speed 6, Select shows "0", Up then shows "1", and Down twice more shows "-1" |
| Menu.FirstIndex | src/UI.cpp:269-278 | the index of the first pressed button, or none when no button is pressed |
| Menu.Honoured | src/UI.cpp:264-279 | a poll honours a press exactly when some button is pressed and the clock is past waitTime |
| Menu.Gate | src/UI.cpp:264-279 | a poll keeps the position in bounds and a valid speed valid; it either leaves waitTime and the state alone or sets waitTime to now + 250 |
| Menu.Priority | src/UI.cpp:5-6 | when several buttons are held, the first in the order Up, Select, Down, Back wins |
| Menu.GateSeparation | src/UI.cpp:266-277 | two honoured presses are more than 250 ms apart |
| Menu.FirstIndexExtend | src/UI.cpp:269-278 | scanning one more button finds it only if no earlier button was pressed |
| Menu.UserInterface.constructor | src/UI.cpp:94-95 | the globals start at position (1, 1) with the flag clear and waitTime 0; given a valid start speed, the class invariant (in-bounds position, valid speed) holds |
| Menu.UserInterface.SetSpeed | src/UI.cpp:150-162 | stores the new speed exactly when it is in 0 .. 12, changes nothing else, and keeps the class invariant |
| Menu.UserInterface.UpdateValue | src/UI.cpp:164-262 | the new globals are Step of the old ones, waitTime is untouched, and the class invariant is kept |
| Menu.UserInterface.BtnUpdate | src/UI.cpp:264-279 | the scan loop's effect is Gate of the old state: at most one press, the first pressed button, and the position stays in bounds |
| Pwm.Quot | src/main.cpp:82-84 | C's `/`: the quotient's magnitude is the quotient of the magnitudes, and it is positive only for operands of one sign and negative only for operands of opposite signs |
| Pwm.QuotRemainder | src/main.cpp:82-84 | C division: the remainder is smaller than the divisor in magnitude and has the dividend's sign (or is 0), which is rounding toward zero |
| Pwm.QuotNonNegative | src/main.cpp:82-84 | for non-negative operands, C division is ordinary division |
| Pwm.ScaleBounds | src/main.cpp:84 | for x at least 0, scaling by a percentage in 0 .. 100 stays within 0 .. x |
| Pwm.GetAWrite | src/main.cpp:80-85 | for a positive frequency and a duty of 0 .. 100, the compare value lies in 0 .. clkFreq / (2·freq) |
| Pwm.GetAWriteMonotone | src/main.cpp:80-85 | at a fixed positive frequency, a larger duty never gives a smaller compare value |
| Pwm.GetAWriteExamples | src/main.cpp:80-85 | 40 kHz at 50 % gives 100, the start-up setting gives 112, a negative duty is not clamped, and 100 Hz at the start-up duty gives 40000, beyond a 16-bit int |
| Pwm.IndexOf | src/main.cpp:107-108 | the position of the first space, or -1 when there is none |
| Pwm.Part1 | src/main.cpp:107 | the first token is the longest prefix of the line without a space: a prefix, free of spaces, followed by a space or the end |
| Pwm.Part2 | src/main.cpp:108 | with a space, the line is the first token, a space and the rest; with none, the rest is the whole line |
| Pwm.Decode | src/main.cpp:107-130 | a duty request comes only from a line starting with D or d, and a frequency request only from one starting with F or f |
| Pwm.FirstToken | src/main.cpp:107 | the first token is one character long exactly when the line is "x" or starts "x " |
| Pwm.OneLetter | src/main.cpp:111 | a case-insensitive comparison with a one-letter word matches exactly one character, in either case |
| Pwm.DecodeShape | src/main.cpp:107-128 | a line is a duty request exactly when it is "d"/"D" or starts with it followed by a space, and likewise for frequency |
| Pwm.DecodeSplit | src/main.cpp:107-130 | for a word without spaces, a space and any text, the word (matched ignoring case) picks the request and toInt of the text is its value |
| Pwm.DecodeShow | src/main.cpp:107-130 | round trip: a letter, a space and a rendered number decode to that number |
| Pwm.LetterZero | src/main.cpp:107-130 | "D 0" and "F 0" (either case) decode to the value 0 |
| Pwm.LoneLetter | src/main.cpp:107-108 | with no space the whole line is also the number text, so "D" decodes to duty 0 and "F" to frequency 0 |
| Pwm.ZeroFrequencyLines | src/main.cpp:131-137 | "F 0", "f 0", "F" and "f" reach the division by zero; "D" does not |
| Pwm.Apply | src/main.cpp:110-145 | an accepted duty (0 .. 100) or frequency (at least 0) replaces only that setting; anything else changes nothing |
| Pwm.Writes | src/main.cpp:87-100 | an accepted request writes the pins and a rejected one does not; the last two writes put one value on both pins |
| Pwm.ApplyKeepsRanges | src/main.cpp:114-137 | command lines keep the duty in 0 .. 100 and the frequency non-negative; it becomes 0 exactly through a zero-frequency line |
| Pwm.Firmware.constructor | src/main.cpp:20-26 | Duty starts at 50, Freq at 35714 Hz and the line buffer empty |
| Pwm.Firmware.SetDutyCycle | src/main.cpp:87-92 | sets Duty unclamped, leaves Freq alone and writes getAWrite(Freq, d) to both pins |
| Pwm.Firmware.SetFreq | src/main.cpp:94-100 | sets Freq unclamped, leaves Duty alone, reprograms the timer and writes getAWrite(f, Duty) to both pins |
| Pwm.Firmware.ParseCommand | src/main.cpp:102-146 | returns whether the line was accepted; the settings and pin writes are those of Apply and Writes for its decoded request |
| Pwm.Firmware.Execute | src/main.cpp:110-145 | the range checks on a decoded request, then the matching setter; the same effect as Apply and Writes |
| Pwm.Firmware.Receive | src/main.cpp:177-198 | a newline runs the buffered line, reports a rejection and empties the buffer; any other character is appended and nothing else changes |

## Left out

- Drawing on the SSD1306 OLED (`drawCentreString`, `mainMenuDisplay`, the splash screen in `UI_init`) is hardware output. `Label` stands for which string is drawn.
- `digitalRead`, `millis`, `Serial.read` and `Serial.available` become parameters. A poll receives the four button levels (true = LOW = pressed) and one clock value.
- Menu.UserInterface.BtnUpdate: the source reads `millis()` twice per honoured press. The model uses one `now` for both reads, so time passing within a single poll is not modelled.
- Menu.GateSeparation: `waitTime` and `millis()` are `unsigned long` in the source. Their 32-bit wrap-around after about 49 days is not modelled.
- The `uint8_t` width of `mainState` and `subState` is not modelled. Those fields stay in range throughout (see `Menu.Run`), and `Menu.Step` works on them as unbounded integers.
- Pwm.GetAWrite: computed on unbounded integers, so its bound 0 .. clkFreq / (2·freq) does not carry over to the firmware for every accepted input. The 16-bit `int` it returns, the `int32_t` of `Freq`, `2*freq` and the parsed value are not modelled:
  - `parseCommand` accepts any frequency of at least 0. For 1 .. 244 Hz the compare value can exceed 32767 and wraps on the 8-bit AVR; `GetAWriteExamples` shows 40000 for "F 100" at the start-up duty.
  - Above 1073741823 Hz, `2*freq` overflows `int32_t` at src/main.cpp:82.
  - The overflow of `atol` on digit runs beyond the range of `long` is not modelled either.
- Serial output (`Serial.print`, the "Invalid Input" help text) is left out. `Receive` returns whether that text would be printed.
- `SetPinFrequencySafe`, `InitTimersSafe`, `PWMInit` and the timer register write in `PWMInit` are hardware set-up. `setFreq`'s call is recorded as a `SetPinFrequency` event, and its return value is ignored, as in the source.
- `targetSpeed` is a pointer into the caller in the source. Here it is a field of `UserInterface`, and its start value is a constructor argument.
- Pwm.Firmware.ParseCommand requires `!DividesByZero(com)`, and Pwm.Firmware.Receive requires the same of the buffered line on a newline. A zero frequency divides by zero in `getAWrite`, and the model does not give that division a meaning.
- `updateValue`'s `default:` case for an unknown button value is not modelled. Every call passes one of the four button pins.
- `include/UI.h` supplies only pin numbers and declarations; its commented-out tables are not part of this model.
