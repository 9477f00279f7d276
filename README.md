# Calculator engine in Dafny

This project models `CalculatorModel`, the engine behind a four-function
pocket calculator app written in Swift, and proves properties of it.

The engine is one object with five fields:

- `value`: the text on the display;
- `currentOperand`: the text being typed;
- `firstOperand`: the pending left operand, kept as text;
- `currentOperation`: the pending `Operation` (`+`, `-`, `x`, `÷`, or none);
- `hasDecimal`: the flag that blocks a second decimal point.

`didTap` routes each keypad button (`CalcButton`) to one private handler.
Each handler updates the fields in place.

The project has five modules:

- `Numerics` stands in for Swift's numeric text conversions, over exact
  integers and reals. It covers `Int(String)`, `Double(String)`, `"\(int)"`
  and `"\(double)"`, plus `isInteger`. It proves that parsing reads back what
  formatting writes.
- `Buttons` is the keypad enum with its labels (raw values).
- `Engine` holds the state as a value (`State`) and one function per handler.
  It also holds `Route` (the `didTap` switch), `Tap` and `Run` (one press and
  a run of presses), and lemmas about single presses and runs of presses.
  These functions are the specification.
- `Calculator` is the class `CalculatorModel`, with the same five mutable
  fields and one method per handler. Each method performs the source's
  assignments. Each one is proved to leave the fields exactly as the matching
  `Engine` function says: `Snapshot() == Engine.X(old(Snapshot()))`.
- `Scenarios` works through short key sequences and states what the display
  shows afterwards.

Numbers are exact. `Double(String)` accepts an optional sign, then digits
with at most one point, with at least one digit in all. `"\(double)"` writes
the integral part, a point, and the fraction digits without trailing zeros.
It writes at most `FractionDigits` (16) fraction digits and at least one
("56.0"): "0.5" for a half and "0.25" for a quarter
(`Numerics.FractionTextShape`, `Numerics.ShowsDecimal`). `Int(result)` is truncation toward zero.

Some behaviour of the code differs from what one might expect of a pocket
calculator. The model follows the code:

- One might expect the decimal flag to be up exactly when the operand
  contains a point. In the code only "AC" lowers the flag, and operators do
  not. After "1 . 5 +", typing "2 ." leaves the operand "2"
  (`Scenarios.DecimalBlockedAfterOperator`).
- One might expect the display never to be empty. In the code,
  "5 + -/+ -/+" empties it (`Scenarios.DisplayCanBeEmpty`).
- One might expect division by zero always to show "Error". In the code it
  does so only when the left operand parses. Otherwise the display is left
  unchanged (`Engine.PerformOperation`).
- A digit typed after "Error" is appended to it, giving "Error5"
  (`Scenarios.ErrorThenDigit`).

`toggleNegative` calls `removeFirst()` on the operand whenever the display
starts with "-". That call traps when the operand is empty. The model turns
this into a precondition: `Engine.NegateAllowed` for the handler, and
`Engine.Enabled` for a button press. `Scenarios.NegateTrapReachable` shows
the trap is reachable with "2 - 5 = +" followed by "-/+".

## Model

| member | source | states |
|---|---|---|
| Calculator.CalculatorModel.constructor | Calculator/Models/CalculatorModel.swift:14-18 | a new model holds the defaults: display "0", empty operands, no operation, flag down |
| Calculator.CalculatorModel.DidTap | Calculator/Models/CalculatorModel.swift:20-53 | a press updates the five fields exactly as `Engine.Tap` prescribes for that button; the sign toggle only where it cannot trap |
| Calculator.CalculatorModel.AppendDigit | Calculator/Models/CalculatorModel.swift:55-58 | the new fields are `Engine.AppendDigit` of the old ones |
| Calculator.CalculatorModel.AppendDecimal | Calculator/Models/CalculatorModel.swift:60-66 | the new fields are `Engine.AppendDecimal` of the old ones |
| Calculator.CalculatorModel.ToggleNegative | Calculator/Models/CalculatorModel.swift:68-76 | the new fields are `Engine.ToggleNegative` of the old ones, under the no-trap precondition |
| Calculator.CalculatorModel.Percent | Calculator/Models/CalculatorModel.swift:78-82 | the new fields are `Engine.Percent` of the old ones |
| Calculator.CalculatorModel.HandleOperation | Calculator/Models/CalculatorModel.swift:84-94 | the new fields are `Engine.HandleOperation` of the old ones |
| Calculator.CalculatorModel.PerformOperation | Calculator/Models/CalculatorModel.swift:96-123 | the new fields are `Engine.PerformOperation` of the old ones |
| Calculator.CalculatorModel.Clear | Calculator/Models/CalculatorModel.swift:129-135 | the fields are the defaults, whatever they held before |
| Engine.AppendDigit | Calculator/Models/CalculatorModel.swift:55-58 | the operand grows and keeps its old text as a prefix; for a digit 0-9 it gains exactly that digit's character; the display equals the operand; the other fields are unchanged |
| Engine.AppendDecimal | Calculator/Models/CalculatorModel.swift:60-66 | with the flag down, exactly one "." is appended, the display shows the operand and the flag goes up; with the flag up, nothing changes |
| Engine.ToggleNegative | Calculator/Models/CalculatorModel.swift:68-76 | a display starting with "-" drops the operand's first character; otherwise "-" is put in front of the operand; the display equals the new operand; the other fields are unchanged |
| Engine.HandleOperation | Calculator/Models/CalculatorModel.swift:84-94 | the display never changes and the operation is always set; a typed operand becomes the pending operand and is emptied; with no typed operand, the pending operand becomes the display's number re-described if the display parses, and stays as it was otherwise |
| Engine.PerformOperation | Calculator/Models/CalculatorModel.swift:96-123 | afterwards the operand equals the display; with no operation, or an operand that does not parse, the display is unchanged; dividing a parsable operand by zero shows "Error"; the pending operand, operation and flag are unchanged |
| Engine.Outcome | Calculator/Models/CalculatorModel.swift:101-120 | the switch on the operation: no operation keeps the display, a zero divisor shows "Error", anything else shows the formatted result (its effect is stated through `Engine.PerformOperation` and `Engine.PerformShowsResult`) |
| Engine.Clear | Calculator/Models/CalculatorModel.swift:129-135 | all five fields hold their defaults |
| Engine.Percent | Calculator/Models/CalculatorModel.swift:78-82 | its own contract is frame-only: the pending operand, the operation and the flag are unchanged |
| Engine.PercentEffect | Calculator/Models/CalculatorModel.swift:78-82 | a display of "0" or one that does not parse leaves every field unchanged; otherwise the display and the operand both become the text of the hundredth of the displayed number |
| Engine.PercentReadsBack | Calculator/Models/CalculatorModel.swift:79-81 | the text `percent` shows parses back as exactly the hundredth of the old number, when that hundredth has at most 16 fraction digits |
| Engine.DecimalIdempotent | Calculator/Models/CalculatorModel.swift:60-66 | pressing "." twice is pressing it once, and from a lowered flag it appends exactly one "." |
| Engine.NegateTwice | Calculator/Models/CalculatorModel.swift:68-76 | when the display equals the operand and does not start with "--", toggling twice is allowed both times and restores every field |
| Engine.PendingOperandReadsBack | Calculator/Models/CalculatorModel.swift:85-88 | the pending operand set from the display parses back as the displayed number, for displayed values with at most 16 fraction digits |
| Engine.PerformShowsResult | Calculator/Models/CalculatorModel.swift:100-114 | with both operands parsing and a defined operation (and a non-zero divisor), the display is the formatted exact result, for every result; when the result has at most 16 fraction digits, the display parses back as it |
| Engine.EmptyOperandIsZero | Calculator/Models/CalculatorModel.swift:97-99 | an empty operand takes part in `performOperation` exactly as "0" does |
| Engine.Route | Calculator/Models/CalculatorModel.swift:21-52 | the `didTap` switch: every keypad button reaches one of the handlers, none the final `return` |
| Engine.LabelParse | Calculator/Models/CalculatorModel.swift:33 | `Int(button.rawValue)` succeeds for exactly the ten digit buttons, with the button's digit |
| Engine.RouteDigits | Calculator/Models/CalculatorModel.swift:32-34 | a press reaches `appendDigit` exactly when the button is a digit button, with that button's digit, whose text is the button's label |
| Engine.RouteOperators | Calculator/Models/CalculatorModel.swift:35-50 | a press reaches `handleOperation` exactly for the four operator buttons, each with its own operation |
| Engine.TapDigit | Calculator/Models/CalculatorModel.swift:33-34 | a digit press can always be taken and is `appendDigit` with the button's digit |
| Engine.DecimalFlag | Calculator/Models/CalculatorModel.swift:60-66 | after any press the flag is down after "AC", up after ".", and unchanged after every other button |
| Engine.DecimalPersists | Calculator/Models/CalculatorModel.swift:129-135 | once raised, the flag stays up through any run of presses without "AC" |
| Engine.Tap | Calculator/Models/CalculatorModel.swift:20-53 | one press as `didTap` performs it; if the operand is empty or equals the display before the press, the same holds after it |
| Engine.RunMirrors | Calculator/Models/CalculatorModel.swift:55-123 | the same holds after any run of presses |
| Engine.RunAppend | Calculator/Models/CalculatorModel.swift:20-53 | running two runs of presses one after the other is running their concatenation |
| Engine.RunCons | Calculator/Models/CalculatorModel.swift:20-53 | a run that starts with one press is that press followed by the rest of the run |
| Engine.ClearAfterRun | Calculator/Models/CalculatorModel.swift:129-135 | "AC" after any run of presses, "Error" included, gives back the defaults |
| Engine.TypedDigits | Calculator/Models/CalculatorModel.swift:55-58 | a run of digit presses appends the buttons' labels to the operand and shows the operand; the other fields are unchanged |
| Engine.TypedNumber | Calculator/Models/CalculatorModel.swift:55-58 | from the defaults, the display after digit presses is the concatenation of their labels |
| Buttons.RawValue | Calculator/Views/CalculatorView.swift:99-117 | the nineteen labels; `Buttons.RawValuesDistinct` proves them pairwise distinct and `Engine.LabelParse` which of them are numbers |
| Buttons.DigitOf | Calculator/Views/CalculatorView.swift:99-108 | the digit of a digit button is below ten |
| Buttons.RawValuesDistinct | Calculator/Views/CalculatorView.swift:98-117 | no two buttons share a raw value |
| Numerics.ParseInt | Calculator/Models/CalculatorModel.swift:33 | a parsed `Int` lies in the 64-bit range and the text holds a digit |
| Numerics.IntToStringRoundTrip | Calculator/Models/CalculatorModel.swift:56 | `Int(String)` reads back every 64-bit integer that `"\(i)"` writes |
| Numerics.ParseIntToString | Calculator/Models/CalculatorModel.swift:104 | `Double(String)` reads back an integral result as written by `"\(Int(result))"` |
| Numerics.ParseDescribe | Calculator/Models/CalculatorModel.swift:87 | `Double(String)` reads back what `"\(x)"` writes, for every value with at most 16 fraction digits |
| Numerics.ParseFormatResult | Calculator/Models/CalculatorModel.swift:104 | the displayed form of a result, integral or not, parses back as the result, for results with at most 16 fraction digits |
| Numerics.FormatResultPoint | Calculator/Models/CalculatorModel.swift:104 | a result is shown without a point exactly when it is integral |
| Numerics.IsInteger | Calculator/Models/CalculatorModel.swift:125-127 | a zero remainder of truncation toward zero holds exactly when the number equals its floor |
| Numerics.FormatResult | Calculator/Models/CalculatorModel.swift:104-114 | a result is shown with a leading "-" exactly when it is negative, and is never empty |
| Numerics.Describe | Calculator/Models/CalculatorModel.swift:87 | `"\(x)"` starts with "-" exactly when `x` is negative, and is never empty |
| Numerics.ParseDouble | Calculator/Models/CalculatorModel.swift:79 | `Double(String)` accepts no empty text; what it reads is stated by `Numerics.ParseSigned`, `Numerics.ParseDigits`, `Numerics.ParsePointed`, `Numerics.ParseFraction` and `Numerics.ParseRejects` |
| Numerics.FractionTextShape | Calculator/Models/CalculatorModel.swift:80 | `"\(x)"` writes at least one fraction digit, the lone "0" exactly for a whole number, and otherwise no trailing zero |
| Numerics.ShowsDecimal | Calculator/Models/CalculatorModel.swift:80 | a value below one whose sixteen fraction digits are the digits of `n` then zeros is written "0." and the digits of `n` |
| Numerics.ParsePointed | Calculator/Models/CalculatorModel.swift:100 | digits, a point and digits parse as the integral part plus the fraction digits over their power of ten |
| Numerics.ParseFraction | Calculator/Models/CalculatorModel.swift:100 | a point followed by digits (".5") parses as those digits over their power of ten |
| Numerics.ParseSigned | Calculator/Models/CalculatorModel.swift:100 | a leading "-" negates the unsigned reading, a leading "+" keeps it, and unsigned text is read unsigned |
| Numerics.ParseRejects | Calculator/Models/CalculatorModel.swift:79 | "Error", ".", "-" and the empty text are not numbers, so `percent`, `handleOperation` and `performOperation` leave them alone |
| Numerics.IntToString | Calculator/Models/CalculatorModel.swift:56 | `"\(i)"` is never empty and starts with "-" exactly for a negative integer |
| Numerics.Trunc | Calculator/Models/CalculatorModel.swift:104 | `Int(result)` is the integer next to the result toward zero: within one below a non-negative result, within one above a negative one |
| Numerics.ParseDigits | Calculator/Models/CalculatorModel.swift:100 | a string of digits parses as its decimal value |
| Numerics.FractionTextValue | Calculator/Models/CalculatorModel.swift:80 | the fraction digits written for `f / 10^16` are worth exactly that |
| Scenarios.MultiplyShowsInteger | Calculator/Models/CalculatorModel.swift:108-110 | "7 x 8 =" shows "56", without a point, and leaves it as the operand |
| Scenarios.ChainedOperations | Calculator/Models/CalculatorModel.swift:84-123 | "5 + 3 =" shows "8", and a following "+ 2 =" continues from it to "10" |
| Scenarios.DivideShowsFraction | Calculator/Models/CalculatorModel.swift:111-114 | "1 ÷ 4 =" shows "0.25" and leaves it as the operand |
| Scenarios.PercentOfFifty | Calculator/Models/CalculatorModel.swift:78-82 | "%" on a display of "50" shows "0.5" in the display and the operand |
| Scenarios.ErrorThenDigit | Calculator/Models/CalculatorModel.swift:111-122 | "1 ÷ 0 =" shows "Error", and a digit typed next makes the display "Error5" |
| Scenarios.NegateTrapReachable | Calculator/Models/CalculatorModel.swift:68-70 | "2 - 5 = +" leaves "-3" displayed with an empty operand, where "-/+" would trap |
| Scenarios.DisplayCanBeEmpty | Calculator/Models/CalculatorModel.swift:68-76 | "5 +" then "-/+" twice shows "-" and then an empty display |
| Scenarios.DecimalBlockedAfterOperator | Calculator/Models/CalculatorModel.swift:60-66 | after "1 . 5 +" and "2", the flag is still up, so "." changes nothing |

## Left out

- Numbers are exact reals. IEEE-754 rounding, overflow to infinity, NaN and
  negative zero are not modelled, so `+ - x ÷` give exact results. After
  the digit "0" is typed, "-/+" then "%" shows "-0.0" in Swift; the model
  reads "-0" as zero and shows "0.0".
- `"\(double)"` is modelled as a positional decimal with at most 16 fraction
  digits. Swift writes the shortest text that round-trips, and uses exponent
  form for very large and very small magnitudes ("1e-05"). For example,
  10 ÷ 3 reads differently in the model.
- `Double(String)` is modelled for signed decimal text only. Swift also
  accepts exponents, hexadecimal, "inf" and "nan". The engine only parses
  text it wrote itself or the user typed, and the model never writes those
  forms.
- Numerics.FormatResult: `Int(result)` traps in Swift when an integral result
  is outside the 64-bit range. The model converts any integral value without
  a bound.
- Calculator.CalculatorModel.ToggleNegative: requires a non-empty operand
  whenever the display starts with "-", because `removeFirst()` traps there.
  The trap is made a precondition instead of being modelled.
- Calculator.CalculatorModel.DidTap: requires `Engine.Enabled`, which is the
  same trap condition applied to the "-/+" button.
- Engine.Percent: its own contract states only what it leaves unchanged. Its
  effect is stated in `Engine.PercentEffect`, and the text it shows in
  `Engine.PercentReadsBack`.
- Numerics.ParseDouble: its own contract states only that accepted text is
  not empty. What it reads is stated in `Numerics.ParseSigned`,
  `Numerics.ParseDigits`, `Numerics.ParsePointed`, `Numerics.ParseFraction`
  and `Numerics.ParseRejects`, and the round trips in
  `Numerics.ParseDescribe` and `Numerics.ParseFormatResult`.
- Engine.Outcome and Buttons.RawValue: no contract of their own; they are
  stated through the members their rows name.
- The key sequences in `Scenarios` are stated through the handlers the
  buttons reach, as `Engine.RouteDigits` and `Engine.RouteOperators` prove.
  They are not stated as `Engine.Run` over button lists.
- `ObservableObject` and `@Published` change notification is left out: it is
  framework observation with no logic.
- The SwiftUI view (layout, colours, screen size) and the app entry point
  are left out: they hold no engine logic. Only the button enum is
  modelled.
