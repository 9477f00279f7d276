/** Key sequences worked through the handlers they route to (see
    `Engine.RouteDigits` and `Engine.RouteOperators`): what the display and the
    operands hold afterwards. Each starts from any state with no operand being
    typed, as after "AC" or an operator. */
module Scenarios {
  import opened Numerics
  import opened Engine
  import Buttons

  // ---------------------------------------------------------------------------
  // Texts of small numbers

  lemma ShowsFiftySix()
    ensures FormatResult(56.0) == "56"
  {
    assert NatToString(5) == "5";
    assert NatToString(56) == NatToString(5) + [DigitChar(6)];
  }

  lemma ShowsEight()
    ensures FormatResult(8.0) == "8"
  {
    assert NatToString(8) == "8";
  }

  lemma ShowsTen()
    ensures FormatResult(10.0) == "10"
  {
    assert NatToString(1) == "1";
    assert NatToString(10) == NatToString(1) + [DigitChar(0)];
  }

  lemma ShowsMinusThree()
    ensures FormatResult(-3.0) == "-3"
  {
    assert Trunc(-3.0) == -3;
    assert NatToString(3) == "3";
  }

  lemma ShowsHalf()
    ensures Describe(0.5) == "0.5"
  {
    ScaleIsPow10();
    assert Pow10(FractionDigits) == 10 * Pow10(15);
    assert (5 * Pow10(15)) as real / Scale as real == 0.5;
    ShowsDecimal(5, 15);
  }

  lemma ShowsQuarter()
    ensures Describe(0.25) == "0.25"
  {
    ScaleIsPow10();
    Pow10Add(2, 14);
    assert Pow10(2) == 100;
    assert (25 * Pow10(14)) as real / Scale as real == 0.25;
    assert NatToString(25) == NatToString(2) + [DigitChar(5)];
    ShowsDecimal(25, 14);
  }

  /** `performOperation` on two typed single digits. */
  lemma PerformDigits(s: State, a: nat, b: nat)
    requires a < 10 && b < 10
    requires s.firstOperand == [DigitChar(a)] && s.currentOperand == [DigitChar(b)]
    requires s.currentOperation != NoOperation && (s.currentOperation == Divide ==> b != 0)
    ensures PerformOperation(s).value == FormatResult(Apply(s.currentOperation, a as real, b as real))
  {
    ParseSingleDigitReal(a);
    ParseSingleDigitReal(b);
  }

  lemma ParseSingleDigitReal(d: nat)
    requires d < 10
    ensures ParseDouble([DigitChar(d)]) == Some(d as real)
  {
    ParseDigits([DigitChar(d)]);
    assert [DigitChar(d)][..0] == [];
  }

  // ---------------------------------------------------------------------------
  // Scenarios

  /** "7", "x", "8", "=" shows "56": an integral result has no point. */
  lemma MultiplyShowsInteger(s: State)
    requires s.currentOperand == ""
    ensures var r := PerformOperation(AppendDigit(HandleOperation(AppendDigit(s, 7), Multiply), 8));
            r.value == "56" && r.currentOperand == "56"
  {
    var s1 := AppendDigit(s, 7);
    var s2 := HandleOperation(s1, Multiply);
    var s3 := AppendDigit(s2, 8);
    PerformDigits(s3, 7, 8);
    assert Apply(Multiply, 7.0, 8.0) == 56.0;
    ShowsFiftySix();
  }

  /** "5", "+", "3", "=", "+", "2", "=" shows "10": "=" leaves the result as
      the operand, and the next operator takes it as its first operand. */
  lemma ChainedOperations(s: State)
    requires s.currentOperand == ""
    ensures var t := PerformOperation(AppendDigit(HandleOperation(AppendDigit(s, 5), Add), 3));
            var r := PerformOperation(AppendDigit(HandleOperation(t, Add), 2));
            t.value == "8" && r.value == "10"
  {
    var s3 := AppendDigit(HandleOperation(AppendDigit(s, 5), Add), 3);
    PerformDigits(s3, 5, 3);
    assert Apply(Add, 5.0, 3.0) == 8.0;
    ShowsEight();
    var t := PerformOperation(s3);
    var u := AppendDigit(HandleOperation(t, Add), 2);
    assert u.firstOperand == [DigitChar(8)] && u.currentOperand == [DigitChar(2)];
    PerformDigits(u, 8, 2);
    assert Apply(Add, 8.0, 2.0) == 10.0;
    ShowsTen();
  }

  /** "1", "÷", "4", "=" shows "0.25": a result that is not whole is written
      with its fraction digits and no trailing zeros. */
  lemma DivideShowsFraction(s: State)
    requires s.currentOperand == ""
    ensures var r := PerformOperation(AppendDigit(HandleOperation(AppendDigit(s, 1), Divide), 4));
            r.value == "0.25" && r.currentOperand == "0.25"
  {
    var s3 := AppendDigit(HandleOperation(AppendDigit(s, 1), Divide), 4);
    PerformDigits(s3, 1, 4);
    assert Apply(Divide, 1.0, 4.0) == 0.25;
    assert !IsInteger(0.25);
    ShowsQuarter();
  }

  /** "%" on a display of "50" shows "0.5", in the display and the operand. */
  lemma PercentOfFifty(s: State)
    requires s.value == "50"
    ensures Percent(s).value == "0.5" && Percent(s).currentOperand == "0.5"
  {
    ParseDigits("50");
    assert "50"[..1] == "5";
    assert DigitsValue("50") == 50;
    ShowsHalf();
  }

  /** "1", "÷", "0", "=" shows "Error", and a digit typed next is appended to
      it: the display then reads "Error5". */
  lemma ErrorThenDigit(s: State)
    requires s.currentOperand == ""
    ensures var t := PerformOperation(AppendDigit(HandleOperation(AppendDigit(s, 1), Divide), 0));
            t.value == "Error" && AppendDigit(t, 5).value == "Error5"
  {
    var s3 := AppendDigit(HandleOperation(AppendDigit(s, 1), Divide), 0);
    ParseSingleDigitReal(1);
    ParseSingleDigitReal(0);
    assert SecondOperand(s3) == [DigitChar(0)];
  }

  /** "2", "-", "5", "=", "+" reaches a state in which "-/+" would take the
      first character of an empty operand: the display reads "-3" while no
      operand is being typed. */
  lemma NegateTrapReachable(s: State)
    requires s.currentOperand == ""
    ensures var t := HandleOperation(PerformOperation(AppendDigit(HandleOperation(AppendDigit(s, 2), Subtract), 5)), Add);
            t.value == "-3" && t.currentOperand == "" && !NegateAllowed(t) && !Enabled(t, Buttons.Negative)
  {
    var s3 := AppendDigit(HandleOperation(AppendDigit(s, 2), Subtract), 5);
    PerformDigits(s3, 2, 5);
    assert Apply(Subtract, 2.0, 5.0) == -3.0;
    ShowsMinusThree();
    TrapAfterOperator(PerformOperation(s3));
  }

  /** An operator pressed while the operand equals a negative display empties
      the operand and leaves the "-" on display. */
  lemma TrapAfterOperator(u: State)
    requires u.value == "-3" && u.currentOperand == "-3"
    ensures var t := HandleOperation(u, Add);
            t.value == "-3" && t.currentOperand == "" && !NegateAllowed(t) && !Enabled(t, Buttons.Negative)
  {
    assert Route(Buttons.Negative) == ToggleSign;
  }

  /** "5", "+", "-/+", "-/+" leaves the display empty: the first toggle puts a
      lone "-" in front of the empty operand, the second removes it. */
  lemma DisplayCanBeEmpty(s: State)
    requires s.currentOperand == ""
    ensures var t := HandleOperation(AppendDigit(s, 5), Add);
            NegateAllowed(t) && NegateAllowed(ToggleNegative(t))
            && ToggleNegative(t).value == "-"
            && ToggleNegative(ToggleNegative(t)).value == ""
  {
    var t := HandleOperation(AppendDigit(s, 5), Add);
    assert t.value == [DigitChar(5)];
    assert ToggleNegative(t).currentOperand == "-";
  }

  /** "1", ".", "5", "+", "2", "." leaves the operand "2": the decimal flag
      raised for the first operand is still up. */
  lemma DecimalBlockedAfterOperator(s: State)
    requires s.currentOperand == "" && !s.hasDecimal
    ensures var t := AppendDigit(HandleOperation(AppendDigit(AppendDecimal(AppendDigit(s, 1)), 5), Add), 2);
            t.hasDecimal && AppendDecimal(t) == t && t.currentOperand == "2"
            && t.firstOperand == "1.5"
  {
    var s3 := AppendDigit(AppendDecimal(AppendDigit(s, 1)), 5);
    assert s3.currentOperand == [DigitChar(1)] + "." + [DigitChar(5)];
  }
}
