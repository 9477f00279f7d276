/** The keypad's buttons, each with the label (raw value) the keypad shows. */
module Buttons {

  datatype CalcButton =
    | One | Two | Three | Four | Five | Six | Seven | Eight | Nine | Zero
    | Add | Subtract | Divide | Multiply
    | Equal | Clear | Decimal | Percent | Negative
  {
    predicate IsDigit() {
      this in {One, Two, Three, Four, Five, Six, Seven, Eight, Nine, Zero}
    }

    predicate IsOperator() {
      this in {Add, Subtract, Divide, Multiply}
    }
  }

  /** The button's raw value: its label on the keypad. */
  function RawValue(b: CalcButton): string
  {
    match b
    case One => "1"
    case Two => "2"
    case Three => "3"
    case Four => "4"
    case Five => "5"
    case Six => "6"
    case Seven => "7"
    case Eight => "8"
    case Nine => "9"
    case Zero => "0"
    case Add => "+"
    case Subtract => "-"
    case Divide => "÷"
    case Multiply => "x"
    case Equal => "="
    case Clear => "AC"
    case Decimal => "."
    case Percent => "%"
    case Negative => "-/+"
  }

  /** The digit a digit button stands for. */
  function DigitOf(b: CalcButton): (d: nat)
    requires b.IsDigit()
    ensures d < 10
  {
    match b
    case One => 1
    case Two => 2
    case Three => 3
    case Four => 4
    case Five => 5
    case Six => 6
    case Seven => 7
    case Eight => 8
    case Nine => 9
    case Zero => 0
  }

  /** Every button has its own raw value. */
  lemma RawValuesDistinct(a: CalcButton, b: CalcButton)
    ensures RawValue(a) == RawValue(b) ==> a == b
  {
  }
}
