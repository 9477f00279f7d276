/** The calculator's state machine as values: the five fields of the model,
    one function per button handler, the dispatch of a button press, and the
    properties of runs of presses. The class in module Calculator performs the
    same updates in place and is proved against these functions. */
module Engine {
  import opened Numerics
  import Buttons

  /** The operation waiting for its second operand; `NoOperation` is Swift's
      `.none`. */
  datatype Operation = Add | Subtract | Multiply | Divide | NoOperation

  /** The five fields of the model: the display, the operand being typed, the
      pending left operand (as text), the pending operation and the flag that
      blocks a second decimal point. */
  datatype State = State(
    value: string,
    currentOperand: string,
    firstOperand: string,
    currentOperation: Operation,
    hasDecimal: bool)

  /** The fields' defaults, set at construction and by `Clear`. */
  function Initial(): State
  {
    State("0", "", "", NoOperation, false)
  }

  /** `value.prefix(1) == "-"`. */
  predicate StartsWithMinus(v: string)
  {
    |v| > 0 && v[0] == '-'
  }

  /** `toggleNegative` calls `currentOperand.removeFirst()` when the display
      starts with "-", which traps on an empty operand. */
  predicate NegateAllowed(s: State)
  {
    StartsWithMinus(s.value) ==> s.currentOperand != ""
  }

  // ---------------------------------------------------------------------------
  // The handlers

  /** `appendDigit`: the digit's text goes at the end of the operand, and the
      display shows the operand. */
  function AppendDigit(s: State, digit: int): (r: State)
    ensures |r.currentOperand| > |s.currentOperand|
    ensures r.currentOperand[..|s.currentOperand|] == s.currentOperand
    ensures 0 <= digit <= 9 ==> r.currentOperand == s.currentOperand + [DigitChar(digit)]
    ensures r.value == r.currentOperand
    ensures r.firstOperand == s.firstOperand && r.currentOperation == s.currentOperation
    ensures r.hasDecimal == s.hasDecimal
  {
    var operand := s.currentOperand + IntToString(digit);
    s.(currentOperand := operand, value := operand)
  }

  /** `appendDecimal`: one point, and only while the flag is down. */
  function AppendDecimal(s: State): (r: State)
    ensures s.hasDecimal ==> r == s
    ensures !s.hasDecimal ==> r.currentOperand == s.currentOperand + "." && r.value == r.currentOperand
    ensures r.hasDecimal
    ensures r.firstOperand == s.firstOperand && r.currentOperation == s.currentOperation
  {
    if s.hasDecimal then s
    else
      var operand := s.currentOperand + ".";
      s.(currentOperand := operand, value := operand, hasDecimal := true)
  }

  /** `toggleNegative`: a textual sign toggle on the operand, decided by the
      display. */
  function ToggleNegative(s: State): (r: State)
    requires NegateAllowed(s)
    ensures StartsWithMinus(s.value) ==> r.currentOperand == s.currentOperand[1..]
    ensures !StartsWithMinus(s.value) ==> r.currentOperand == "-" + s.currentOperand
    ensures r.value == r.currentOperand
    ensures r.firstOperand == s.firstOperand && r.currentOperation == s.currentOperation
    ensures r.hasDecimal == s.hasDecimal
  {
    var operand := if StartsWithMinus(s.value) then s.currentOperand[1..] else "-" + s.currentOperand;
    s.(currentOperand := operand, value := operand)
  }

  /** `percent`: the displayed number divided by 100, unless the display is
      "0" or is not a number. */
  function Percent(s: State): (r: State)
    ensures r.firstOperand == s.firstOperand && r.currentOperation == s.currentOperation
    ensures r.hasDecimal == s.hasDecimal
  {
    var current := ParseDouble(s.value);
    if s.value == "0" || current.None? then s
    else
      var operand := Describe(current.value / 100.0);
      s.(currentOperand := operand, value := operand)
  }

  /** `handleOperation`: the typed operand, or else the displayed number,
      becomes the pending left operand. */
  function HandleOperation(s: State, op: Operation): (r: State)
    ensures r.value == s.value && r.currentOperation == op && r.hasDecimal == s.hasDecimal
    ensures r.currentOperand == ""
    ensures s.currentOperand != "" ==> r.firstOperand == s.currentOperand
    ensures s.currentOperand == "" && ParseDouble(s.value).Some? ==>
              r.firstOperand == Describe(ParseDouble(s.value).value)
    ensures s.currentOperand == "" && ParseDouble(s.value).None? ==> r.firstOperand == s.firstOperand
  {
    if s.currentOperand == "" then
      match ParseDouble(s.value)
      case Some(last) => s.(firstOperand := Describe(last), currentOperation := op)
      case None => s.(currentOperation := op)
    else
      s.(firstOperand := s.currentOperand, currentOperand := "", currentOperation := op)
  }

  /** The right operand `performOperation` uses: an empty operand counts as "0". */
  function SecondOperand(s: State): string
  {
    if s.currentOperand == "" then "0" else s.currentOperand
  }

  /** The arithmetic of one operation. */
  function Apply(op: Operation, a: real, b: real): real
    requires op != NoOperation && (op == Divide ==> b != 0.0)
  {
    match op
    case Add => a + b
    case Subtract => a - b
    case Multiply => a * b
    case Divide => a / b
  }

  /** What `performOperation` displays once both operands are numbers. */
  function Outcome(op: Operation, a: real, b: real, shown: string): string
  {
    if op == NoOperation then shown
    else if op == Divide && b == 0.0 then "Error"
    else FormatResult(Apply(op, a, b))
  }

  /** `performOperation`: the pending operation applied to both operands, the
      display updated, and the operand set to the display. */
  function PerformOperation(s: State): (r: State)
    ensures r.currentOperand == r.value
    ensures r.firstOperand == s.firstOperand && r.currentOperation == s.currentOperation
    ensures r.hasDecimal == s.hasDecimal
    ensures s.currentOperation == NoOperation ==> r.value == s.value
    ensures ParseDouble(s.firstOperand).None? || ParseDouble(SecondOperand(s)).None? ==>
              r.value == s.value
    ensures (s.currentOperation == Divide && ParseDouble(s.firstOperand).Some?
             && ParseDouble(SecondOperand(s)) == Some(0.0)) ==> r.value == "Error"
  {
    var first, second := ParseDouble(s.firstOperand), ParseDouble(SecondOperand(s));
    var shown :=
      if first.Some? && second.Some? then Outcome(s.currentOperation, first.value, second.value, s.value)
      else s.value;
    s.(value := shown, currentOperand := shown)
  }

  /** `clear`: every field back to its default. */
  function Clear(): (r: State)
    ensures r.value == "0" && r.currentOperand == "" && r.firstOperand == ""
    ensures r.currentOperation == NoOperation && !r.hasDecimal
  {
    Initial()
  }

  // ---------------------------------------------------------------------------
  // Dispatch

  /** The handler a button press reaches in `didTap`. */
  datatype Handler =
    | ClearAll | ToggleSign | TakePercent | AddPoint | Perform
    | Digit(digit: int) | Operate(op: Operation) | Ignore

  /** `didTap`'s switch: five buttons by name, then whatever parses as an `Int`
      is a digit, then the four operators, and anything else is ignored. Every keypad
      button reaches a handler. */
  function Route(b: Buttons.CalcButton): (r: Handler)
    ensures r != Ignore
  {
    LabelParse(b);
    match b
    case Clear => ClearAll
    case Negative => ToggleSign
    case Percent => TakePercent
    case Decimal => AddPoint
    case Equal => Perform
    case _ =>
      match ParseInt(Buttons.RawValue(b))
      case Some(d) => Digit(d)
      case None =>
        match b
        case Add => Operate(Add)
        case Subtract => Operate(Subtract)
        case Multiply => Operate(Multiply)
        case Divide => Operate(Divide)
        case _ => Ignore
  }

  /** A press the model can take: the sign toggle must not trap. */
  predicate Enabled(s: State, b: Buttons.CalcButton)
  {
    Route(b) == ToggleSign ==> NegateAllowed(s)
  }

  /** The state after one press. */
  function Tap(s: State, b: Buttons.CalcButton): (r: State)
    requires Enabled(s, b)
    ensures Mirrors(s) ==> Mirrors(r)
  {
    match Route(b)
    case ClearAll => Clear()
    case ToggleSign => ToggleNegative(s)
    case TakePercent => Percent(s)
    case AddPoint => AppendDecimal(s)
    case Perform => PerformOperation(s)
    case Digit(d) => AppendDigit(s, d)
    case Operate(op) => HandleOperation(s, op)
    case Ignore => s
  }

  /** Every press in `bs`, in order, can be taken from `s`. */
  predicate Runnable(s: State, bs: seq<Buttons.CalcButton>)
    decreases |bs|
  {
    bs == [] || (Enabled(s, bs[0]) && Runnable(Tap(s, bs[0]), bs[1..]))
  }

  /** The state after the presses `bs`. */
  function Run(s: State, bs: seq<Buttons.CalcButton>): State
    requires Runnable(s, bs)
    decreases |bs|
  {
    if bs == [] then s else Run(Tap(s, bs[0]), bs[1..])
  }

  /** The keypad labels of `bs`, one after the other. */
  function Labels(bs: seq<Buttons.CalcButton>): string
  {
    if bs == [] then "" else Buttons.RawValue(bs[0]) + Labels(bs[1..])
  }

  predicate AllDigitButtons(bs: seq<Buttons.CalcButton>)
  {
    forall i :: 0 <= i < |bs| ==> bs[i].IsDigit()
  }

  /** The display mirrors the operand whenever one is being typed. */
  predicate Mirrors(s: State)
  {
    s.currentOperand == "" || s.currentOperand == s.value
  }

  // ---------------------------------------------------------------------------
  // Properties of single presses

  /** `percent` leaves a display of "0" or a non-number alone, and otherwise
      shows the hundredth of the displayed number in both display and operand. */
  lemma PercentEffect(s: State)
    ensures s.value == "0" ==> Percent(s) == s
    ensures ParseDouble(s.value).None? ==> Percent(s) == s
    ensures s.value != "0" && ParseDouble(s.value).Some? ==>
              var r := Percent(s);
              r.value == Describe(ParseDouble(s.value).value / 100.0) && r.currentOperand == r.value
  {
  }

  /** A second decimal point is never added: pressing "." twice is pressing it
      once. */
  lemma DecimalIdempotent(s: State)
    ensures AppendDecimal(AppendDecimal(s)) == AppendDecimal(s)
    ensures !s.hasDecimal ==> AppendDecimal(AppendDecimal(s)).currentOperand == s.currentOperand + "."
  {
  }

  /** Toggling the sign twice restores an operand that the display equals. */
  lemma NegateTwice(s: State)
    requires s.value == s.currentOperand
    requires !(|s.value| >= 2 && s.value[0] == '-' && s.value[1] == '-')
    ensures NegateAllowed(s) && NegateAllowed(ToggleNegative(s))
    ensures ToggleNegative(ToggleNegative(s)) == s
  {
    var once := ToggleNegative(s);
    if StartsWithMinus(s.value) {
      assert "-" + s.currentOperand[1..] == s.currentOperand;
    } else {
      assert ("-" + s.currentOperand)[1..] == s.currentOperand;
    }
  }

  /** `handleOperation` keeps the number it sets aside: the pending operand
      reads back as the typed operand, or as the displayed number. */
  lemma PendingOperandReadsBack(s: State, op: Operation)
    requires s.currentOperand == "" && ParseDouble(s.value).Some?
    requires ExactlyDescribable(ParseDouble(s.value).value)
    ensures ParseDouble(HandleOperation(s, op).firstOperand) == ParseDouble(s.value)
  {
    ParseDescribe(ParseDouble(s.value).value);
  }

  /** `percent` shows a number that reads back as the hundredth of the
      displayed one. */
  lemma PercentReadsBack(s: State, x: real)
    requires s.value != "0" && ParseDouble(s.value) == Some(x)
    requires ExactlyDescribable(x / 100.0)
    ensures ParseDouble(Percent(s).value) == Some(x / 100.0)
  {
    PercentEffect(s);
    ParseDescribe(x / 100.0);
  }

  /** `performOperation` shows the formatted exact result of the pending
      operation on the two operands, which reads back as that result when it
      has at most `FractionDigits` fraction digits. */
  lemma PerformShowsResult(s: State, a: real, b: real)
    requires ParseDouble(s.firstOperand) == Some(a) && ParseDouble(SecondOperand(s)) == Some(b)
    requires s.currentOperation != NoOperation && (s.currentOperation == Divide ==> b != 0.0)
    ensures PerformOperation(s).value == FormatResult(Apply(s.currentOperation, a, b))
    ensures ExactlyDescribable(Apply(s.currentOperation, a, b)) ==>
              ParseDouble(PerformOperation(s).value) == Some(Apply(s.currentOperation, a, b))
  {
    if ExactlyDescribable(Apply(s.currentOperation, a, b)) {
      ParseFormatResult(Apply(s.currentOperation, a, b));
    }
  }

  /** An empty operand takes part in `performOperation` as "0". */
  lemma EmptyOperandIsZero(s: State)
    requires s.currentOperand == ""
    ensures PerformOperation(s) == PerformOperation(s.(currentOperand := "0"))
  {
  }

  // ---------------------------------------------------------------------------
  // Dispatch

  /** `Int(String)` accepts exactly the labels of the digit buttons. */
  lemma LabelParse(b: Buttons.CalcButton)
    ensures ParseInt(Buttons.RawValue(b)) == if b.IsDigit() then Some(Buttons.DigitOf(b) as int) else None
  {
    var s := Buttons.RawValue(b);
    if b.IsDigit() {
      assert s == [DigitChar(Buttons.DigitOf(b))];
      ParseSingleDigit(s[0]);
    } else {
      assert !IsDigit(s[0]);
      assert s[0] == '-' || s[0] == '+' ==> |s| == 1 || !IsDigit(s[1]);
    }
  }

  /** The digit buttons, and only they, reach `appendDigit`, each with its own
      digit, whose text is the button's label. */
  lemma RouteDigits(b: Buttons.CalcButton)
    ensures Route(b).Digit? <==> b.IsDigit()
    ensures b.IsDigit() ==> Route(b) == Digit(Buttons.DigitOf(b))
    ensures b.IsDigit() ==> IntToString(Buttons.DigitOf(b)) == Buttons.RawValue(b)
  {
    LabelParse(b);
  }

  /** The four operator buttons, and only they, reach `handleOperation`, each
      with its own operation; no button falls through to the final `return`. */
  lemma RouteOperators(b: Buttons.CalcButton)
    ensures Route(b).Operate? <==> b.IsOperator()
    ensures b == Buttons.Add <==> Route(b) == Operate(Add)
    ensures b == Buttons.Subtract <==> Route(b) == Operate(Subtract)
    ensures b == Buttons.Multiply <==> Route(b) == Operate(Multiply)
    ensures b == Buttons.Divide <==> Route(b) == Operate(Divide)
  {
    LabelParse(b);
  }

  /** Only "AC" clears the flag, only "." raises it. */
  lemma DecimalFlag(s: State, b: Buttons.CalcButton)
    requires Enabled(s, b)
    ensures Tap(s, b).hasDecimal
            == if b == Buttons.Clear then false
               else if b == Buttons.Decimal then true
               else s.hasDecimal
  {
    RouteDigits(b);
    RouteOperators(b);
  }

  // ---------------------------------------------------------------------------
  // Runs of presses

  lemma {:induction false} RunAppend(s: State, xs: seq<Buttons.CalcButton>, ys: seq<Buttons.CalcButton>)
    ensures Runnable(s, xs + ys) <==> Runnable(s, xs) && Runnable(Run(s, xs), ys)
    ensures Runnable(s, xs + ys) ==> Run(s, xs + ys) == Run(Run(s, xs), ys)
    decreases |xs|
  {
    if xs == [] {
      assert xs + ys == ys;
    } else {
      assert (xs + ys)[0] == xs[0];
      assert (xs + ys)[1..] == xs[1..] + ys;
      if Enabled(s, xs[0]) {
        RunAppend(Tap(s, xs[0]), xs[1..], ys);
      }
    }
  }

  /** "AC" after any run of presses gives the defaults back, "Error" or not. */
  lemma ClearAfterRun(s: State, bs: seq<Buttons.CalcButton>)
    requires Runnable(s, bs)
    ensures Runnable(s, bs + [Buttons.Clear])
    ensures Run(s, bs + [Buttons.Clear]) == Initial()
  {
    RunAppend(s, bs, [Buttons.Clear]);
  }

  /** Once raised, the decimal flag stays up until "AC". */
  lemma {:induction false} DecimalPersists(s: State, bs: seq<Buttons.CalcButton>)
    requires Runnable(s, bs) && s.hasDecimal
    requires forall i :: 0 <= i < |bs| ==> bs[i] != Buttons.Clear
    ensures Run(s, bs).hasDecimal
    decreases |bs|
  {
    if bs != [] {
      DecimalFlag(s, bs[0]);
      DecimalPersists(Tap(s, bs[0]), bs[1..]);
    }
  }

  /** Runs keep the display mirroring a non-empty operand. */
  lemma {:induction false} RunMirrors(s: State, bs: seq<Buttons.CalcButton>)
    requires Runnable(s, bs) && Mirrors(s)
    ensures Mirrors(Run(s, bs))
    decreases |bs|
  {
    if bs != [] {
      RunMirrors(Tap(s, bs[0]), bs[1..]);
    }
  }

  /** A digit press appends the button's label to the operand. */
  lemma TapDigit(s: State, b: Buttons.CalcButton)
    requires b.IsDigit()
    ensures Enabled(s, b)
    ensures Tap(s, b) == AppendDigit(s, Buttons.DigitOf(b))
    ensures IntToString(Buttons.DigitOf(b)) == Buttons.RawValue(b)
  {
    RouteDigits(b);
  }

  /** A run that starts with `b` is the press `b` and then the rest. */
  lemma RunCons(s: State, b: Buttons.CalcButton, bs: seq<Buttons.CalcButton>)
    requires Enabled(s, b) && Runnable(Tap(s, b), bs)
    ensures Runnable(s, [b] + bs) && Run(s, [b] + bs) == Run(Tap(s, b), bs)
  {
    assert ([b] + bs)[0] == b && ([b] + bs)[1..] == bs;
  }

  /** Concatenation is associative; stated once so that proofs about runs
      need not rediscover it element by element. */
  lemma Concat3(a: string, b: string, c: string)
    ensures (a + b) + c == a + (b + c)
  {
  }

  /** Digit presses append their labels to the operand, and the display shows
      the operand; nothing else changes. */
  lemma {:induction false} TypedDigits(s: State, ds: seq<Buttons.CalcButton>)
    requires AllDigitButtons(ds)
    ensures Runnable(s, ds)
    ensures Run(s, ds)
            == if ds == [] then s
               else s.(currentOperand := s.currentOperand + Labels(ds),
                       value := s.currentOperand + Labels(ds))
    decreases |ds|
  {
    if ds != [] {
      TapDigit(s, ds[0]);
      var t := Tap(s, ds[0]);
      assert AllDigitButtons(ds[1..]);
      TypedDigits(t, ds[1..]);
      assert ds == [ds[0]] + ds[1..];
      RunCons(s, ds[0], ds[1..]);
      assert Labels(ds) == Buttons.RawValue(ds[0]) + Labels(ds[1..]);
      Concat3(s.currentOperand, Buttons.RawValue(ds[0]), Labels(ds[1..]));
    }
  }

  /** From the defaults, the display after a run of digit presses is the
      concatenation of their labels. */
  lemma TypedNumber(ds: seq<Buttons.CalcButton>)
    requires AllDigitButtons(ds) && ds != []
    ensures Runnable(Initial(), ds) && Run(Initial(), ds).value == Labels(ds)
  {
    TypedDigits(Initial(), ds);
  }
}
