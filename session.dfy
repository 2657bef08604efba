/**
  Sequences of key presses driving the engine, the invariant every reachable
  state keeps, and the behaviour of the error mode over whole sessions.
*/
module Session {
  import opened Wrappers
  import opened Decimals
  import opened Calculator

  /** One key press, routed to one engine operation. */
  datatype Event = Digit(key: char) | Choose(op: Operator) | Equals | ClearAll | Backspace

  /** The engine operation an event triggers. */
  function Step(s: State, e: Event): (r: State)
    ensures e.ClearAll? ==> r == Initial
    ensures s.error.Some? && r.error.None? ==> e.ClearAll? || e.Backspace?
  {
    match e
    case Digit(c) => AppendDigit(s, c)
    case Choose(op) => ChooseOperator(s, op)
    case Equals => ComputeResult(s)
    case ClearAll => Clear()
    case Backspace => DeleteDigit(s)
  }

  /** The state after the events `es`, in order, starting from `s`. */
  function Run(s: State, es: seq<Event>): State
    decreases |es|
  {
    if es == [] then s else Run(Step(s, es[0]), es[1..])
  }

  /** The error mode: a division by zero was attempted and is still pending. */
  predicate ErrorMode(s: State) {
    && s.error == Some(DivideByZero)
    && DividesByZero(s)
    && s.currentValue == "0"
    && !s.overwrite
  }

  /**
    What holds of every state a session can reach: the operand being entered is
    never empty, has at most one decimal point and no superfluous leading zero,
    an operator is pending exactly when a left operand is held, and an error
    only ever comes with the division by zero that caused it.
  */
  predicate Consistent(s: State) {
    && s.currentValue != ""
    && Occurrences(s.currentValue, '.') <= 1
    && NoLeadingZero(s.currentValue)
    && (s.operator.None? <==> s.previousValue == "")
    && (s.error.Some? ==> ErrorMode(s))
  }

  lemma ParseZero()
    ensures Parse("0") == Some(Decimal(0, 0))
  {
    assert AllDigits("0");
    assert "0"[..0] == [];
    assert DigitsValue("0") == 0;
  }

  lemma InitialConsistent()
    ensures Consistent(Initial)
  {
    assert Occurrences("0", '.') == 0;
  }

  lemma ChooseConsistent(s: State, op: Operator)
    requires Consistent(s)
    ensures Consistent(ChooseOperator(s, op))
  {
    ParseZero();
  }

  lemma ComputeConsistent(s: State)
    requires Consistent(s)
    ensures Consistent(ComputeResult(s))
  {
    ParseZero();
  }

  lemma {:induction false} StepConsistent(s: State, e: Event)
    requires Consistent(s)
    ensures Consistent(Step(s, e))
  {
    match e
    case Digit(c) =>
    case Choose(op) => ChooseConsistent(s, op);
    case Equals => ComputeConsistent(s);
    case ClearAll => InitialConsistent();
    case Backspace => InitialConsistent();
  }

  /** Every state reachable from a consistent one is consistent. */
  lemma {:induction false} RunConsistent(s: State, es: seq<Event>)
    requires Consistent(s)
    ensures Consistent(Run(s, es))
    decreases |es|
  {
    if es != [] {
      StepConsistent(s, es[0]);
      RunConsistent(Step(s, es[0]), es[1..]);
    }
  }

  /** Every state a session reaches from the start is consistent. */
  lemma Reachable(es: seq<Event>)
    ensures Consistent(Run(Initial, es))
  {
    InitialConsistent();
    RunConsistent(Initial, es);
  }

  // ---------------------------------------------------------------- the error mode

  /** Neither clearing nor backspacing. */
  predicate KeepsError(e: Event) {
    !e.ClearAll? && !e.Backspace?
  }

  /** Once set, the error stays until "AC" or backspace. */
  lemma {:induction false} ErrorIsSticky(s: State, es: seq<Event>)
    requires HasError(s)
    requires forall i :: 0 <= i < |es| ==> KeepsError(es[i])
    ensures HasError(Run(s, es))
    decreases |es|
  {
    if es != [] {
      var next := Step(s, es[0]);
      assert HasError(next);
      ErrorIsSticky(next, es[1..]);
    }
  }

  /**
    In the error mode digits and operators change nothing; "=" evaluates the
    retained division by zero again and only blanks the history.
  */
  lemma ErrorModeAbsorbs(s: State, e: Event)
    requires Consistent(s) && s.error.Some?
    ensures e.Digit? || e.Choose? ==> Step(s, e) == s
    ensures e.Equals? ==> Step(s, e) == s.(history := "")
    ensures e.Backspace? ==> Step(s, e) == Initial
  {
    ParseZero();
  }

  /** A second "=" changes nothing, whether the first one succeeded or failed. */
  lemma EqualsIdempotent(s: State)
    ensures ComputeResult(ComputeResult(s)) == ComputeResult(s)
  {
    ParseZero();
  }

  // ---------------------------------------------------------------- editing

  /** Backspace undoes a digit that changed the operand. */
  lemma DeleteUndoesAppend(s: State, digit: char)
    requires !HasError(s) && !s.overwrite && s.currentValue != ""
    requires AppendDigit(s, digit) != s
    ensures DeleteDigit(AppendDigit(s, digit)) == s
  {
  }

  /** With a fresh operand pending, typing a digit and deleting it is just deleting. */
  lemma DeleteAfterOverwrite(s: State, digit: char)
    requires !HasError(s) && s.overwrite
    ensures DeleteDigit(AppendDigit(s, digit)) == DeleteDigit(s)
  {
  }

  /** Two '.' keys in a row leave exactly one decimal point. */
  lemma TwoPointsMakeOne(s: State)
    requires !HasError(s) && Occurrences(s.currentValue, '.') <= 1
    ensures Occurrences(AppendDigit(AppendDigit(s, '.'), '.').currentValue, '.') == 1
  {
    var t := AppendDigit(s, '.');
    assert '.' in t.currentValue by {
      if !s.overwrite && '.' !in s.currentValue {
        assert t.currentValue[|t.currentValue| - 1] == '.';
      }
    }
  }

  // ---------------------------------------------------------------- results

  /** After chaining, the new left operand reads back as the rounded result. */
  lemma ChainedOperandReadsBack(s: State, op: Operator)
    requires !HasError(s) && s.previousValue != "" && s.operator.Some? && !s.overwrite
    requires Parse(s.previousValue).Some? && Parse(s.currentValue).Some? && !DividesByZero(s)
    ensures var x, y := Parse(s.previousValue).value, Parse(s.currentValue).value;
            var left := Parse(ChooseOperator(s, op).previousValue);
            && left.Some?
            && Value(left.value) == Value(Apply(s.operator.value, x, y))
  {
    ParseRender(Apply(s.operator.value, Parse(s.previousValue).value, Parse(s.currentValue).value));
  }

  /** After "=", the display reads back as the rounded result of the pending expression. */
  lemma ResultReadsBack(s: State)
    requires s.previousValue != "" && s.operator.Some? && !s.overwrite
    requires Parse(s.previousValue).Some? && Parse(s.currentValue).Some? && !DividesByZero(s)
    ensures var x, y := Parse(s.previousValue).value, Parse(s.currentValue).value;
            var shown := Parse(ComputeResult(s).currentValue);
            && shown.Some?
            && Value(shown.value) == Value(Apply(s.operator.value, x, y))
  {
    ParseRender(Apply(s.operator.value, Parse(s.previousValue).value, Parse(s.currentValue).value));
  }

  /**
    A bare "." reads as NaN. As the right operand it is what "=" shows; as the
    left operand the right operand's parsed value is shown, rendered afresh.
  */
  lemma BarePointOperand(s: State)
    requires s.operator.Some? && !s.overwrite && s.previousValue != ""
    ensures s.currentValue == "." ==> ComputeResult(s).currentValue == "NaN"
    ensures s.previousValue == "." && Parse(s.currentValue).Some? ==>
              ComputeResult(s).currentValue == Render(Parse(s.currentValue).value)
  {
  }

  // ---------------------------------------------------------------- sessions

  lemma PlacesValue()
    ensures Pow10(Places) == 100000000
  {
    assert Pow10(8) == 100000000;
  }

  /** The entered "5" divided by "0". */
  lemma FiveOverZero(s: State)
    requires s.operator == Some(Divide) && s.previousValue == "5" && s.currentValue == "0"
    ensures DividesByZero(s)
  {
    assert AllDigits("5");
    ParseZero();
  }

  /** 5 / = : the division by zero is reported and the operand reset. */
  lemma DivideByZeroSession()
    ensures var s := Run(Initial, [Digit('5'), Choose(Divide), Equals]);
            s.error == Some(DivideByZero) && s.currentValue == "0" && s.history == ""
  {
    var s1 := Initial.(currentValue := "5");
    var s2 := State("0", "5", Some(Divide), false, "5 /", None);
    assert Step(Initial, Digit('5')) == s1;
    assert Step(s1, Choose(Divide)) == s2;
    FiveOverZero(s2);
    var s3 := Step(s2, Equals);
    assert s3 == s2.(error := Some(DivideByZero), history := "");
    assert Run(s3, []) == s3;
  }

  /** 5 / / : choosing an operator again evaluates 5 / 0 and enters the error mode. */
  lemma RepeatedDivideSession()
    ensures var s := Run(Initial, [Digit('5'), Choose(Divide), Choose(Divide)]);
            s.error == Some(DivideByZero) && s.currentValue == "0" && s.history == "5 /"
  {
    var s1 := Initial.(currentValue := "5");
    var s2 := State("0", "5", Some(Divide), false, "5 /", None);
    assert Step(Initial, Digit('5')) == s1;
    assert Step(s1, Choose(Divide)) == s2;
    FiveOverZero(s2);
    var s3 := Step(s2, Choose(Divide));
    assert s3 == s2.(error := Some(DivideByZero));
    assert Run(s3, []) == s3;
  }

  lemma RenderFive()
    ensures Render(Decimal(5 * Pow10(Places), Places)) == "5"
  {
    NormalizeScaled(5, 0, Places);
    assert Normalize(Decimal(5, 0)) == Decimal(5, 0);
    assert NatToString(5) == [DigitChar(5)];
  }

  /** With 2 + pending and 3 entered, choosing * evaluates the sum first. */
  lemma ChainStep()
    ensures ChooseOperator(State("3", "2", Some(Plus), false, "2 +", None), Times)
         == State("0", "5", Some(Times), false, "5 *", None)
  {
    var s := State("3", "2", Some(Plus), false, "2 +", None);
    assert AllDigits("2") && AllDigits("3");
    PlacesValue();
    assert Apply(Plus, Decimal(2, 0), Decimal(3, 0)) == Decimal(5 * Pow10(Places), Places);
    assert Evaluate(s) == Computed(Finite(Decimal(5 * Pow10(Places), Places)));
    RenderFive();
    assert "5" + " " + Symbol(Times) == "5 *";
  }

  /** 2 + 3 * : the pending sum is evaluated and becomes the left operand of the product. */
  lemma ChainingSession()
    ensures var s := Run(Initial, [Digit('2'), Choose(Plus), Digit('3'), Choose(Times)]);
            s.previousValue == "5" && s.operator == Some(Times) && s.history == "5 *" && s.currentValue == "0"
  {
    var s1 := Initial.(currentValue := "2");
    var s2 := State("0", "2", Some(Plus), false, "2 +", None);
    var s3 := s2.(currentValue := "3");
    assert Step(Initial, Digit('2')) == s1;
    assert Step(s1, Choose(Plus)) == s2;
    assert Step(s2, Digit('3')) == s3;
    ChainStep();
    var s4 := Step(s3, Choose(Times));
    assert Run(s4, []) == s4;
  }

  lemma ParseTenths(c: char)
    requires IsDigit(c)
    ensures Parse("0." + [c]) == Some(Decimal((c as int) - ('0' as int), 1))
  {
    assert "0" + "." + [c] == "0." + [c];
    ParsePointed("0", [c]);
    DigitsValueAppend("0", [c]);
    assert DigitsValue("0") == 0 by {
      assert "0"[..0] == [];
    }
    assert DigitsValue([c]) == (c as int) - ('0' as int) by {
      assert [c][..0] == [];
    }
  }

  lemma RenderPointThree()
    ensures Render(Decimal(3 * Pow10(7), 1 + 7)) == "0.3"
  {
    NormalizeScaled(3, 1, 7);
    assert Normalize(Decimal(3, 1)) == Decimal(3, 1);
    assert Pow10(1) == 10;
    assert NatToString(0) == "0";
    assert PadDigits(3, 1) == PadDigits(0, 0) + [DigitChar(3)];
  }

  lemma SumOfTenths()
    ensures Apply(Plus, Decimal(1, 1), Decimal(2, 1)) == Decimal(3 * Pow10(7), 1 + 7)
  {
    assert Add(Decimal(1, 1), Decimal(2, 1)) == Decimal(3, 1);
    PlacesValue();
    assert Pow10(1) == 10 && Pow10(7) == 10000000;
    assert RoundDiv(3 * 100000000, 10) == 30000000;
  }

  /** The history line of the rounding session, kept apart from the heavier steps. */
  lemma RoundingHistory()
    ensures "0.1" + " " + Symbol(Plus) + " " + "0.2" + " =" == "0.1 + 0.2 ="
  {
  }

  lemma TenthsParse()
    ensures Parse("0.1") == Some(Decimal(1, 1)) && Parse("0.2") == Some(Decimal(2, 1))
  {
    ParseTenths('1');
    ParseTenths('2');
    assert "0." + ['1'] == "0.1" && "0." + ['2'] == "0.2";
  }

  lemma EvaluateTenths(s: State)
    requires s.currentValue == "0.2" && s.previousValue == "0.1" && s.operator == Some(Plus)
    ensures Evaluate(s) == Computed(Finite(Decimal(3 * Pow10(7), 1 + 7)))
  {
    TenthsParse();
    SumOfTenths();
  }

  /** With 0.1 + pending and 0.2 entered, "=" shows 0.3. */
  lemma RoundingStep()
    ensures ComputeResult(State("0.2", "0.1", Some(Plus), false, "0.1 +", None))
         == State("0.3", "", None, true, "0.1 + 0.2 =", None)
  {
    var s := State("0.2", "0.1", Some(Plus), false, "0.1 +", None);
    EvaluateTenths(s);
    TenthsParse();
    assert !DividesByZero(s);
    RenderPointThree();
    RoundingHistory();
  }

  /** The first event of a list, then the rest. */
  lemma RunCons(s: State, e: Event, es: seq<Event>)
    ensures Run(s, [e] + es) == Run(Step(s, e), es)
  {
    assert ([e] + es)[1..] == es;
  }

  /** Three events in a row. */
  lemma RunThree(s: State, a: Event, b: Event, c: Event)
    ensures Run(s, [a, b, c]) == Step(Step(Step(s, a), b), c)
  {
    assert [a, b, c] == [a] + ([b] + ([c] + []));
    RunCons(s, a, [b] + ([c] + []));
    RunCons(Step(s, a), b, [c] + []);
    RunCons(Step(Step(s, a), b), c, []);
  }

  /** Keying 0 . and one digit on a fresh operand. */
  lemma EnterTenths(s: State, d: char)
    requires !HasError(s) && !s.overwrite && s.currentValue == "0" && d != '.' && d != '0'
    ensures Run(s, [Digit('0'), Digit('.'), Digit(d)]) == s.(currentValue := "0." + [d])
  {
    RunThree(s, Digit('0'), Digit('.'), Digit(d));
    assert AppendDigit(s, '0') == s;
    assert '.' !in "0";
    assert "0" + ['.'] == "0.";
    var s1 := AppendDigit(s, '.');
    assert s1 == s.(currentValue := "0.");
    assert AppendDigit(s1, d) == s.(currentValue := "0." + [d]);
  }

  /** Running two lists one after the other. */
  lemma {:induction false} RunConcat(s: State, es: seq<Event>, fs: seq<Event>)
    ensures Run(s, es + fs) == Run(Run(s, es), fs)
    decreases |es|
  {
    if es == [] {
      assert es + fs == fs;
    } else {
      assert (es + fs)[1..] == es[1..] + fs;
      RunConcat(Step(s, es[0]), es[1..], fs);
    }
  }

  /** 0.1 + : the first operand is held and the sum is pending. */
  lemma FirstTenth(rest: seq<Event>)
    ensures Run(Initial, [Digit('0'), Digit('.'), Digit('1'), Choose(Plus)] + rest)
         == Run(State("0", "0.1", Some(Plus), false, "0.1 +", None), rest)
  {
    var a := [Digit('0'), Digit('.'), Digit('1')];
    assert [Digit('0'), Digit('.'), Digit('1'), Choose(Plus)] + rest == a + ([Choose(Plus)] + rest);
    var s3 := Initial.(currentValue := "0.1");
    EnterTenths(Initial, '1');
    assert "0." + ['1'] == "0.1";
    RunConcat(Initial, a, [Choose(Plus)] + rest);
    RunCons(s3, Choose(Plus), rest);
    assert "0.1" + " " + Symbol(Plus) == "0.1 +";
  }

  /** 0.2 = with 0.1 + pending. */
  lemma SecondTenth(s: State)
    requires s == State("0", "0.1", Some(Plus), false, "0.1 +", None)
    ensures Run(s, [Digit('0'), Digit('.'), Digit('2'), Equals])
         == State("0.3", "", None, true, "0.1 + 0.2 =", None)
  {
    var b := [Digit('0'), Digit('.'), Digit('2')];
    assert [Digit('0'), Digit('.'), Digit('2'), Equals] == b + [Equals];
    EnterTenths(s, '2');
    assert "0." + ['2'] == "0.2";
    RunConcat(s, b, [Equals]);
    assert [Equals] == [Equals] + [];
    RunCons(s.(currentValue := "0.2"), Equals, []);
    RoundingStep();
  }

  /** 0.1 + 0.2 = shows 0.3: the rounding to eight places leaves no binary noise. */
  lemma RoundingSession()
    ensures var s := Run(Initial, [Digit('0'), Digit('.'), Digit('1'), Choose(Plus),
                                   Digit('0'), Digit('.'), Digit('2'), Equals]);
            s.currentValue == "0.3" && s.history == "0.1 + 0.2 =" && s.overwrite
  {
    var rest := [Digit('0'), Digit('.'), Digit('2'), Equals];
    assert [Digit('0'), Digit('.'), Digit('1'), Choose(Plus),
            Digit('0'), Digit('.'), Digit('2'), Equals]
        == [Digit('0'), Digit('.'), Digit('1'), Choose(Plus)] + rest;
    FirstTenth(rest);
    SecondTenth(State("0", "0.1", Some(Plus), false, "0.1 +", None));
  }
}
