/**
  The calculator's state-transition engine. Each handler of the component reads
  the current state record and replaces it with a successor built by object
  spread; here each handler is a function from the record to its successor.
  The component's closure snapshot and the updater's argument are taken to be
  the same record.
*/
module Calculator {
  import opened Wrappers
  import opened Decimals

  /** The four binary operators; `null` is `None` in an `Option<Operator>`. */
  datatype Operator = Plus | Minus | Times | Divide

  /** The character the component uses for the operator in history text. */
  function Symbol(op: Operator): string {
    match op
    case Plus => "+"
    case Minus => "-"
    case Times => "*"
    case Divide => "/"
  }

  /** The calculator's state record. */
  datatype State = State(
    currentValue: string,
    previousValue: string,
    operator: Option<Operator>,
    overwrite: bool,
    history: string,
    error: Option<string>)

  /** The only error message the engine produces. */
  const DivideByZero: string := "Cannot divide by zero"

  /** The record the component is created with. */
  const Initial: State := State("0", "", None, false, "", None)

  /** `state.error` is truthy: set, and not the empty string. */
  predicate HasError(s: State) {
    s.error.Some? && s.error.value != ""
  }

  /** What `evaluate` returns: a number, or an error message. */
  datatype Outcome = Computed(number: Number) | Failed(message: string)

  /** The number `parseFloat` gives for an operand. */
  function AsNumber(p: Option<Decimal>): (n: Number)
    ensures n.NaN? <==> p.None?
  {
    match p
    case None => NaN
    case Some(d) => Finite(d)
  }

  /** The pending division has a right operand that parses to zero. */
  predicate DividesByZero(s: State) {
    && s.operator == Some(Divide)
    && Parse(s.previousValue).Some?
    && Parse(s.currentValue).Some?
    && Parse(s.currentValue).value.mantissa == 0
  }

  /** The exact value of `x op y` (a division by zero is never asked for). */
  ghost function Exact(op: Operator, x: real, y: real): real {
    match op
    case Plus => x + y
    case Minus => x - y
    case Times => x * y
    case Divide => if y == 0.0 then 0.0 else x / y
  }

  /** `parseFloat((x op y).toFixed(8))`: the exact result rounded to eight places. */
  function Apply(op: Operator, x: Decimal, y: Decimal): (r: Decimal)
    requires op == Divide ==> y.mantissa != 0
    ensures NearestAt8(r, Exact(op, Value(x), Value(y)))
  {
    match op
    case Plus => RoundedExact(Add(x, y), Exact(op, Value(x), Value(y)))
    case Minus => RoundedExact(Sub(x, y), Exact(op, Value(x), Value(y)))
    case Times => RoundedExact(Mul(x, y), Exact(op, Value(x), Value(y)))
    case Divide =>
      ZeroValue(y);
      var r := Quotient8(x, y);
      assert Exact(op, Value(x), Value(y)) == Value(x) / Value(y);
      r
  }

  /** An exactly computed result, rounded to eight places. */
  function RoundedExact(exact: Decimal, ghost e: real): (r: Decimal)
    requires Value(exact) == e
    ensures NearestAt8(r, e)
  {
    Round8(exact)
  }

  /**
    `evaluate`: applies the pending operator to the two operands. Fails only on
    a division whose right operand is zero; when an operand does not parse, or
    no operator is pending, it passes the parsed current operand through.
    Otherwise the exact result is rounded to eight decimal places.
  */
  function Evaluate(s: State): (r: Outcome)
    ensures r.Failed? <==> DividesByZero(s)
    ensures r.Failed? ==> r.message == DivideByZero
    ensures Parse(s.previousValue).None? || Parse(s.currentValue).None? || s.operator.None? ==>
              r == Computed(AsNumber(Parse(s.currentValue)))
    ensures Parse(s.previousValue).Some? && Parse(s.currentValue).Some? && s.operator.Some? && !DividesByZero(s) ==>
              && r.Computed? && r.number.Finite?
              && r.number.value == Apply(s.operator.value, Parse(s.previousValue).value, Parse(s.currentValue).value)
  {
    var previous, current := Parse(s.previousValue), Parse(s.currentValue);
    if previous.None? || current.None? then Computed(AsNumber(current))
    else
      var x, y := previous.value, current.value;
      match s.operator
      case None => Computed(Finite(y))
      case Some(op) =>
        if op == Divide && y.mantissa == 0 then Failed(DivideByZero)
        else Computed(Finite(Apply(op, x, y)))
  }

  /** `clear`: back to the record the component starts with, whatever the state. */
  function Clear(): (r: State)
    ensures r == Initial
  {
    State("0", "", None, false, "", None)
  }

  /** `deleteDigit`: backspace over the operand being entered. */
  function DeleteDigit(s: State): (r: State)
    ensures HasError(s) ==> r == Initial
    ensures !HasError(s) ==> r.(currentValue := s.currentValue, overwrite := s.overwrite) == s
    ensures !HasError(s) ==> !r.overwrite
    ensures !HasError(s) && s.overwrite ==> r.currentValue == "0"
    ensures !HasError(s) && !s.overwrite ==>
              r.currentValue == if s.currentValue == "0" || |s.currentValue| == 1 then "0"
                                else DropLast(s.currentValue)
    ensures s.currentValue != "" ==> r.currentValue != ""
    ensures Occurrences(r.currentValue, '.') <= Occurrences(s.currentValue, '.')
    ensures NoLeadingZero(s.currentValue) ==> NoLeadingZero(r.currentValue)
  {
    if HasError(s) then Clear()
    else if s.overwrite then s.(currentValue := "0", overwrite := false)
    else if s.currentValue == "0" then s
    else if |s.currentValue| == 1 then s.(currentValue := "0")
    else s.(currentValue := DropLast(s.currentValue))
  }

  /** `s.slice(0, -1)`: every character but the last; the empty string stays empty. */
  function DropLast(s: string): (r: string)
    ensures |r| == if s == [] then 0 else |s| - 1
    ensures r <= s
  {
    if s == [] then s else s[..|s| - 1]
  }

  /** `appendDigit`: a key from '0'..'9' or '.' extends the operand being entered. */
  function AppendDigit(s: State, digit: char): (r: State)
    ensures HasError(s) ==> r == s
    ensures r.(currentValue := s.currentValue, overwrite := s.overwrite) == s
    ensures !HasError(s) ==> !r.overwrite
    ensures !HasError(s) && s.overwrite ==> r.currentValue == [digit]
    ensures !s.overwrite && s.currentValue == "0" && digit == '0' ==> r == s
    ensures !s.overwrite && digit == '.' && '.' in s.currentValue ==> r == s
    ensures !HasError(s) && !s.overwrite && s.currentValue == "0" && digit != '.' ==> r.currentValue == [digit]
    ensures !HasError(s) && !s.overwrite && (digit == '.' ==> '.' !in s.currentValue) && (digit != '.' ==> s.currentValue != "0") ==>
              r.currentValue == s.currentValue + [digit]
    ensures Occurrences(s.currentValue, '.') <= 1 ==> Occurrences(r.currentValue, '.') <= 1
    ensures s.currentValue != "" ==> r.currentValue != ""
    ensures NoLeadingZero(s.currentValue) ==> NoLeadingZero(r.currentValue)
  {
    OccurrencesAppend(s.currentValue, [digit], '.');
    if HasError(s) then s
    else if s.overwrite then s.(currentValue := [digit], overwrite := false)
    else if digit == '0' && s.currentValue == "0" then s
    else if digit == '.' && '.' in s.currentValue then s
    else if s.currentValue == "0" && digit != '.' then s.(currentValue := [digit])
    else
      AppendKeepsNoLeadingZero(s.currentValue, digit);
      s.(currentValue := s.currentValue + [digit])
  }

  /** Extending an operand that is not the bare placeholder keeps its leading digit honest. */
  lemma AppendKeepsNoLeadingZero(cv: string, digit: char)
    requires cv == "0" ==> digit == '.'
    ensures NoLeadingZero(cv) ==> NoLeadingZero(cv + [digit])
  {
    var r := cv + [digit];
    if cv != [] && NoLeadingZero(cv) && cv[0] == '0' {
      assert r[0] == '0';
      if cv == "0" {
        assert r[1] == '.';
      } else {
        assert r[1] == cv[1];
      }
    }
  }

  /**
    `chooseOperator`: starts an expression with the entered operand, chains a
    pending one (evaluating it first), or replaces the pending operator.
  */
  function ChooseOperator(s: State, op: Operator): (r: State)
    ensures HasError(s) || (s.currentValue == "0" && s.previousValue == "") ==> r == s
    ensures r.overwrite == s.overwrite
    ensures r.error == s.error || r.error == Some(DivideByZero)
    ensures !HasError(s) && s.previousValue == "" && s.currentValue != "0" ==>
              r == s.(operator := Some(op), previousValue := s.currentValue, currentValue := "0",
                      history := s.currentValue + " " + Symbol(op))
    ensures !HasError(s) && s.previousValue != "" && s.operator.Some? && !s.overwrite ==>
              r.currentValue == "0"
              && (DividesByZero(s) ==> r == s.(error := Some(DivideByZero), currentValue := "0"))
              && (!DividesByZero(s) ==>
                    var result := RenderNumber(Evaluate(s).number);
                    r == s.(operator := Some(op), previousValue := result, currentValue := "0",
                            history := result + " " + Symbol(op)))
    ensures !HasError(s) && s.previousValue != "" && (s.operator.None? || s.overwrite) ==>
              r == s.(operator := Some(op), history := s.previousValue + " " + Symbol(op))
    ensures NoLeadingZero(s.currentValue) ==> NoLeadingZero(r.currentValue)
  {
    if HasError(s) then s
    else if s.currentValue == "0" && s.previousValue == "" then s
    else if s.previousValue == "" then
      s.(operator := Some(op), previousValue := s.currentValue, currentValue := "0",
         history := s.currentValue + " " + Symbol(op))
    else if s.operator.Some? && !s.overwrite then
      match Evaluate(s)
      case Failed(message) => s.(error := Some(message), currentValue := "0")
      case Computed(result) =>
        s.(operator := Some(op), previousValue := RenderNumber(result), currentValue := "0",
           history := RenderNumber(result) + " " + Symbol(op))
    else s.(operator := Some(op), history := s.previousValue + " " + Symbol(op))
  }

  /** `computeResult`: the "=" key. */
  function ComputeResult(s: State): (r: State)
    ensures s.operator.None? || s.previousValue == "" || s.overwrite ==> r == s
    ensures s.operator.Some? && s.previousValue != "" && !s.overwrite ==>
              if DividesByZero(s) then
                r == s.(error := Some(DivideByZero), currentValue := "0", history := "")
              else
                && r.overwrite && r.operator.None? && r.previousValue == "" && r.error == s.error
                && r.currentValue == RenderNumber(Evaluate(s).number)
                && r.history == s.previousValue + " " + Symbol(s.operator.value) + " " + s.currentValue + " ="
    ensures r.error == s.error || r.error == Some(DivideByZero)
    ensures NoLeadingZero(s.currentValue) ==> NoLeadingZero(r.currentValue)
  {
    if s.operator.None? || s.previousValue == "" || s.overwrite then s
    else
      match Evaluate(s)
      case Failed(message) => s.(error := Some(message), currentValue := "0", history := "")
      case Computed(result) =>
        s.(overwrite := true, operator := None, previousValue := "",
           currentValue := RenderNumber(result),
           history := s.previousValue + " " + Symbol(s.operator.value) + " " + s.currentValue + " =")
  }
}
