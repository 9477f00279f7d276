/** The calculator model as the app holds it: one object whose five fields
    every button press updates in place. Each method performs the source's
    assignments and is proved to leave the fields as the matching function of
    module Engine prescribes. */
module Calculator {
  import opened Numerics
  import opened Engine
  import Buttons

  class CalculatorModel {
    var value: string
    var currentOperand: string
    var firstOperand: string
    var currentOperation: Operation
    var hasDecimal: bool

    /** The five fields as one value. */
    function Snapshot(): State
      reads this
    {
      State(value, currentOperand, firstOperand, currentOperation, hasDecimal)
    }

    constructor ()
      ensures Snapshot() == Initial()
    {
      value := "0";
      currentOperand := "";
      firstOperand := "";
      currentOperation := NoOperation;
      hasDecimal := false;
    }

    /** The single entry point: one button press, routed to one handler. */
    method DidTap(button: Buttons.CalcButton)
      requires Enabled(Snapshot(), button)
      modifies this
      ensures Snapshot() == Tap(old(Snapshot()), button)
    {
      RouteDigits(button);
      RouteOperators(button);
      LabelParse(button);
      if button == Buttons.Clear {
        Clear();
      } else if button == Buttons.Negative {
        ToggleNegative();
      } else if button == Buttons.Percent {
        Percent();
      } else if button == Buttons.Decimal {
        AppendDecimal();
      } else if button == Buttons.Equal {
        PerformOperation();
      } else {
        var digit := ParseInt(Buttons.RawValue(button));
        if digit.Some? {
          AppendDigit(digit.value);
        } else {
          var operation: Operation;
          if button == Buttons.Add {
            operation := Add;
          } else if button == Buttons.Subtract {
            operation := Subtract;
          } else if button == Buttons.Multiply {
            operation := Multiply;
          } else if button == Buttons.Divide {
            operation := Divide;
          } else {
            return;
          }
          HandleOperation(operation);
        }
      }
    }

    method AppendDigit(digit: int)
      modifies this
      ensures Snapshot() == Engine.AppendDigit(old(Snapshot()), digit)
    {
      currentOperand := currentOperand + IntToString(digit);
      value := currentOperand;
    }

    method AppendDecimal()
      modifies this
      ensures Snapshot() == Engine.AppendDecimal(old(Snapshot()))
    {
      if !hasDecimal {
        currentOperand := currentOperand + ".";
        value := currentOperand;
        hasDecimal := true;
      }
    }

    method ToggleNegative()
      requires NegateAllowed(Snapshot())
      modifies this
      ensures Snapshot() == Engine.ToggleNegative(old(Snapshot()))
    {
      if StartsWithMinus(value) {
        currentOperand := currentOperand[1..];
        value := currentOperand;
      } else {
        currentOperand := "-" + currentOperand;
        value := currentOperand;
      }
    }

    method Percent()
      modifies this
      ensures Snapshot() == Engine.Percent(old(Snapshot()))
    {
      var currentValue := ParseDouble(value);
      if value == "0" || currentValue.None? {
        return;
      }
      currentOperand := Describe(currentValue.value / 100.0);
      value := currentOperand;
    }

    method HandleOperation(operation: Operation)
      modifies this
      ensures Snapshot() == Engine.HandleOperation(old(Snapshot()), operation)
    {
      if currentOperand == "" {
        var lastValue := ParseDouble(value);
        if lastValue.Some? {
          firstOperand := Describe(lastValue.value);
        }
      } else {
        firstOperand := currentOperand;
        currentOperand := "";
      }
      currentOperation := operation;
    }

    method PerformOperation()
      modifies this
      ensures Snapshot() == Engine.PerformOperation(old(Snapshot()))
    {
      if currentOperand == "" {
        currentOperand := "0";
      }
      var firstValue := ParseDouble(firstOperand);
      var secondValue := ParseDouble(currentOperand);
      if firstValue.Some? && secondValue.Some? {
        var a, b := firstValue.value, secondValue.value;
        match currentOperation {
          case Add =>
            value := FormatResult(Apply(Add, a, b));
          case Subtract =>
            value := FormatResult(Apply(Subtract, a, b));
          case Multiply =>
            value := FormatResult(Apply(Multiply, a, b));
          case Divide =>
            if b != 0.0 {
              value := FormatResult(Apply(Divide, a, b));
            } else {
              value := "Error";
            }
          case NoOperation =>
        }
      }
      currentOperand := value;
    }

    method Clear()
      modifies this
      ensures Snapshot() == Engine.Clear()
    {
      value := "0";
      currentOperand := "";
      firstOperand := "";
      currentOperation := NoOperation;
      hasDecimal := false;
    }
  }
}
