# Calculator state machine in Dafny

This project models the arithmetic core of the `Calculator` React component in `index.tsx`. It has four pieces of state:

- `displayValue`, the text on the display;
- `operator`, the pending operator;
- `previousValue`, the stored first operand;
- `waitingForNewValue`, which says that the next digit starts a new number.

Six handlers change this state: `clear`, `toggleSign`, `inputPercent`, `inputDigit`, `inputDot` and `performOperation`. They rely on the pure helper `calculate`.

React applies a handler's `set…` calls only after the handler returns. Each handler therefore reads the state from before the press. The model writes each handler as a pure function from the state before a press to the state after it.

The project has three modules:

- `Numerals` (`numerals.dfy`) models the two JavaScript built-ins the handlers depend on. Both are concrete definitions.
  - `Parse` models `parseFloat`. It reads an optional `-` and then the longest `digits[.digits]` prefix.
  - `Show` models `String(number)`. It writes a number in canonical fixed-point form: no leading zeros, no trailing fractional zeros, no `-0`. It keeps at most `FractionDigits` (6) digits after the point and cuts toward zero.
  - Numbers are exact `real`s. The central fact is the round trip `Parse(Show(r)) == Truncate(r)`. Here `Truncate` cuts `r` toward zero to six fractional digits.
- `Calculator` (`calculator.dfy`) holds the state, the six handlers, `calculate` and a `Key` for each button. It defines `Step` for one press and `Run` for a sequence of presses. It also states the invariants every press keeps.
- `Scenarios` (`scenarios.dfy`) covers concrete key sequences and the displays they lead to:
  - `5 + 3 =` gives 8;
  - `6 ÷ 0 =` gives 0;
  - `2 + 3 + 4 =` runs left to right;
  - `5 + ×` applies the first operator to the shown number;
  - `5 0 % %` shows `0.5` and then `0.005`.

## Model

| member | source | states |
|---|---|---|
| Calculator.Clear | index.tsx:97-102 | AC gives the start-up state: display `0`, no operator, no stored operand, not waiting. That state is valid. |
| Calculator.ClearResetsAnyRun | index.tsx:97-102 | AC pressed after any sequence of keys, from any state, gives the start-up state. |
| Calculator.ToggleSign | index.tsx:104-108 | +/- changes only the display. A display that reads as zero is left exactly as it was. Otherwise the new display is a literal that reads as the negation of the old value, cut to six fractional digits. |
| Calculator.ToggleSignTwice | index.tsx:104-108 | Pressing +/- twice, from any state, gives a display that reads as the original value cut to six fractional digits. For values `String` prints exactly, that is the original value itself. For such values that are non-zero, it also restores the display's canonical spelling. |
| Calculator.InputPercent | index.tsx:110-113 | % changes only the display. It shows a literal that reads as the old value divided by 100, cut to six fractional digits. |
| Scenarios.PercentShiftsPoint | index.tsx:110-113 | For `0 < k` and `k + 2 <= 6`: % on a display showing `n / 10^k` (last digit non-zero) shows `n / 10^(k+2)` spelled with `k + 2` fractional digits. The decimal point moves two places left. |
| Scenarios.PercentOfTens | index.tsx:110-113 | % on any state whose display shows `d0` (`d` a digit from 1 to 9) shows `0.d` and changes nothing else. |
| Scenarios.PercentTwice | index.tsx:110-113 | Typing `5 0 % %` from start-up shows `0.5` after the first % and `0.005` after the second. |
| Calculator.InputDigit | index.tsx:115-122 | A digit key clears the waiting flag and leaves the operator and the stored operand alone. After an operator, or on a display of `0`, the display becomes the digit. Otherwise the digit is appended. |
| Calculator.TypeDigits | index.tsx:115-122 | Typing a digit string into a fresh number shows the string without its leading zeros, or `0` if nothing else is left. The display reads as the number the digits denote. Nothing else changes. |
| Calculator.InputDot | index.tsx:124-131 | After the point key the display contains a point and the waiting flag is clear. After an operator the display is `0.`. A display that already has a point is left unchanged. Otherwise `.` is appended. |
| Calculator.InputDotIdempotent | index.tsx:124-131 | Pressing the point key a second time changes nothing. |
| Calculator.InputDotSinglePoint | index.tsx:124-131 | A display with at most one point has exactly one point after the point key. |
| Calculator.InputDotKeepsValue | index.tsx:124-131 | The point key keeps the display a literal. While a number is being entered its value does not change (`12.` reads as 12). After an operator the new display reads as 0. |
| Calculator.Calculate | index.tsx:150-163 | `+`, `-` and `×` compute the sum, difference and product. `÷` gives the quotient, or 0 for a zero divisor. `=` and no operator give the second operand. |
| Calculator.PerformOperation | index.tsx:133-148 | An operator key always sets the waiting flag and makes `next` the pending operator. The first press after a clear stores the shown value, cut to six fractional digits, and keeps the display. With an operator pending, it shows and stores the pending operation applied to the stored and shown values, cut to six fractional digits. With a stored operand but no operator, it changes nothing else. |
| Calculator.EqualsRepeated | index.tsx:133-163 | `=` after `=` shows and stores the shown value again, in canonical spelling. A pending `=` passes its second operand through. |
| Scenarios.FirstOperator | index.tsx:133-137 | The first operator key on a whole number `n` stores `n`'s digits and keeps the display. |
| Scenarios.NextOperator | index.tsx:138-147 | With an operator pending between two whole numbers whose result is a whole number, the next operator key shows and stores the result's digits. |
| Scenarios.FivePlusThree | index.tsx:133-163 | `5 + 3 =` shows `8`. |
| Scenarios.SixDividedByZero | index.tsx:158-159 | `6 ÷ 0 =` shows `0`. |
| Scenarios.ChainedAdditionMidway | index.tsx:138-144 | `2 + 3 +` shows `5`: the second operator key completes the first addition. |
| Scenarios.ChainedAddition | index.tsx:138-144 | `2 + 3 + 4 =` shows `9`: operations run left to right, with no precedence. |
| Scenarios.OperatorTwice | index.tsx:138-144 | `5 + ×` shows `10`. The second operator key adds the shown 5 to the stored 5. |
| Calculator.StepKeepsPaired | index.tsx:92-148 | Every press keeps the rule that an operator is pending exactly when an operand is stored. |
| Calculator.RunKeepsPaired | index.tsx:92-148 | The same holds for any sequence of presses. |
| Calculator.StepKeepsValid | index.tsx:92-148 | Every keypad press keeps the state valid: the display and the stored operand are numeric literals, the pairing above holds, and the waiting flag is only set with an operator pending. |
| Calculator.RunKeepsValid | index.tsx:92-148 | The same holds for any sequence of keypad presses. |
| Calculator.ReachableDisplay | index.tsx:92-148 | After any keypad sequence from start-up, the display is a numeric literal with at most one decimal point. |
| Numerals.ParseShow | index.tsx:137-139 | `String(x)` is a numeric literal, and `parseFloat` reads it back as `x` cut to six fractional digits. |
| Numerals.ParseShowExact | index.tsx:137-139 | A number `String` prints exactly is read back unchanged. |
| Numerals.TruncateIdempotent | index.tsx:137-139 | What `String` prints is printed exactly: a second round trip changes nothing. |
| Numerals.ShowNat | index.tsx:137 | `String(n)` for a natural number `n` is its canonical digits. |
| Numerals.ParseNat | index.tsx:134 | `parseFloat` of `n`'s canonical digits is `n`. |
| Numerals.ParseDigits | index.tsx:134 | `parseFloat` of any non-empty digit string, leading zeros included, is the number the digits denote. |
| Numerals.ParseAppendPoint | index.tsx:128-129 | Appending a point to a literal that has none leaves the value `parseFloat` reads unchanged. |
| Numerals.LiteralPoints | index.tsx:128 | A numeric literal has at most one decimal point. |

At index.tsx:139 the stored operand is parsed only when it is non-empty; an empty one reads as 0. The model keeps that test. The empty case cannot arise, because the stored operand is always the output of `String`.

## Left out

- The JSX and CSS rendering, `getFontSize`, the display's `.`→`,` substitution and the AC/C label are left out. They are presentation and do not affect the state.
- IEEE-754 double arithmetic is left out. Numbers are exact reals, so rounding errors (`0.1 + 0.2`), overflow to `Infinity` and exponent notation (`1e21`, `1e-7`) are not modelled.
- `NaN` is left out. So is `parseFloat` on strings with no digit right after the optional minus and point (`""`, `"-"`, `"."`, `"abc"`), which the model reads as 0. The handlers never produce such strings: `Calculator.RunKeepsValid` proves every reachable display is a literal.
- Numerals.ParseShow: `String` is modelled as fixed-point output with six fractional digits, cut toward zero, not as JavaScript's exact shortest round-tripping output. The cut value is what later presses show, store and compute with. Wherever a handler writes a number (+/-, %, operator keys), every non-zero value below 10^-6 in magnitude becomes 0. For example, `0.0000005` then `×` stores 0, where the browser stores `5e-7`.
- Calculator.ToggleSign: because of that cut, +/- on a display such as `0.0000005` shows `0`. The source never turns a non-zero display into zero.
- Scenarios.PercentShiftsPoint: stated only for `k + 2 <= 6`. Past six fractional digits the model's `Show` drops digits, so the point does not simply move. For example, % on `0.03125` shows `0.000312`, where the browser shows `0.0003125`.
- Calculator.ToggleSignTwice: restores the exact value and spelling only for values the six-digit `Show` prints exactly. For other values it gives back the value cut to six digits. JavaScript's `String` round-trips every double, so in the source toggling twice always restores the value. The limitation comes from the model's cut alone.
- Calculator.InputDigit: a digit is any `char`. The keypad supplies only `0`–`9`, and the invariant lemmas require that through `OnKeypad`.
- Click dispatch: the buttons' `onClick` wiring (index.tsx:184-248) is modelled only as the `Key` datatype and `Step`.
