# Calculator engine

A model of the state-transition engine of a basic four-function calculator
written as a React component. The engine keeps one record (`currentValue`,
`previousValue`, the pending `operator`, the `overwrite` flag, the `history`
line and an optional `error` message) and six handlers turn it into a
successor record: `clear`, `deleteDigit`, `appendDigit`, `chooseOperator`,
`computeResult`, and `evaluate`, which applies the pending operator and
reports a division by zero as a message instead of a number.

Every handler builds its successor by object spread from guarded branches,
so each one is a Dafny function from `State` to `State` over a datatype:

- `wrappers.dfy` — `Option`, standing for `null`.
- `decimals.dfy` — the numbers the engine handles: exact decimals
  (`mantissa / 10^scale`) or NaN; `parseFloat` (longest numeric prefix, NaN
  when there is no digit), `Number.prototype.toString` in plain decimal
  notation, exact `+ - *`, and `toFixed(8)` as rounding half away from zero
  to eight places. The round trip from rendering back through parsing is
  proved.
- `engine.dfy` — the record, the defaults, and the six handlers.
- `session.dfy` — key presses as an `Event` datatype, runs of events, the
  invariant every reachable record keeps, the sticky error mode, and whole
  sessions (`5 / =`, `5 / /`, `2 + 3 *`, `0.1 + 0.2 =`).

The component reads the record twice per handler: once through its closure
for the guards, once through the updater's argument for the new value. The
model reads one record for both, as if every update were applied before the
next key press.

Behaviour of the code that is easy to miss, all of it modelled as written:

- `chooseOperator` never sets `overwrite` (`App.tsx:56-87`), so after `5 /`
  a second `/` evaluates `5 / 0` and enters the error mode
  (`Session.RepeatedDivideSession`).
- `computeResult` has no error guard (`App.tsx:117`): in the error mode it
  evaluates the retained division by zero again and blanks `history`
  (`Session.ErrorModeAbsorbs`).
- A bare `"."` is kept as typed (`App.tsx:44-45`), and `parseFloat(".")` is
  NaN. As the right operand, "=" then shows `NaN`; as the left operand,
  `evaluate` returns the parsed right operand (`App.tsx:92`), which "=" shows
  rendered afresh, so "2.50" is shown as "2.5" (`Session.BarePointOperand`).
- "Error is set" is JavaScript truthiness of `state.error`: a message that is
  the empty string does not count (`Calculator.HasError`).

## Model

| member | source | states |
|---|---|---|
| Calculator.Clear | App.tsx:16-25 | the result is exactly the default record of App.tsx:7-14, whatever the state |
| Calculator.DeleteDigit | App.tsx:27-39 | in the error mode it is `clear`; otherwise only `currentValue` and `overwrite` change, `overwrite` ends false, a fresh result becomes "0", "0" and one-character operands become "0", longer ones lose their last character; a non-empty operand stays non-empty, never gains a '.' and gains no leading zero |
| Calculator.DropLast | App.tsx:37 | `slice(0, -1)`: a prefix one shorter, the empty string kept empty |
| Calculator.AppendDigit | App.tsx:41-54 | a no-op in the error mode; only `currentValue` and `overwrite` change; after a result the digit starts a fresh operand; '0' on "0" and a second '.' are no-ops; a digit replaces the "0" placeholder; otherwise the key is appended; at most one '.' is preserved, a leading '0' stays alone or before the point, and the operand never becomes empty |
| Calculator.AppendKeepsNoLeadingZero | App.tsx:47-52 | appending a key to an operand other than the bare "0" placeholder (or a '.' to it) keeps a leading '0' alone or before the point |
| Calculator.ChooseOperator | App.tsx:56-87 | no-op in the error mode and on the untouched start; `overwrite` never changes; the error only ever becomes the division-by-zero message; starting an expression moves the operand left with history "{cv} {op}"; chaining either enters the error mode keeping operator and history, or makes the rendered result the left operand with history "{result} {op}"; after a result it only switches the operator |
| Calculator.Evaluate | App.tsx:89-114 | fails exactly when a division's operands both parse and the right one is zero, with the fixed message; an unparsable operand or no operator gives the parsed current operand (possibly NaN); otherwise the rounded result of the operator |
| Calculator.Apply | App.tsx:95-113 | the result of `+ - * /` is within half a unit of the eighth decimal place of the exact value |
| Calculator.ComputeResult | App.tsx:116-132 | no-op without operator, without left operand or right after a result; on a division by zero the error is set, the operand reset and history blanked; otherwise the rendered result is shown, operator and left operand cleared, `overwrite` set, history "{pv} {op} {cv} =" from the record before; the error is never cleared |
| Decimals.Parse | App.tsx:90-91 | `parseFloat`: "", ".", "-" and "NaN" give NaN; a string of digits gives its integer value |
| Decimals.FromParts | App.tsx:90-91 | `parseFloat` finds NaN exactly when there is no digit before or after the point; otherwise the signed value of all the digits, scaled by the number of fraction digits |
| Decimals.ParsePointed | App.tsx:90-91 | an operand with a point (such as ".5" or "5.") reads as the value of its digits scaled by the number of digits after the point |
| Decimals.ParseDecimalText | App.tsx:90-91 | a signed decimal text with digits before an optional point reads as its signed value |
| Decimals.RenderNumber | App.tsx:79 | `toString` of a result: NaN spelt "NaN", a finite value rendered by `Render`; never empty, at most one '.', no superfluous leading zero |
| Decimals.RenderLeadingZero | App.tsx:128 | a rendered decimal starts with '0' only as "0" or "0." followed by the fraction |
| Decimals.RenderShape | App.tsx:79 | a rendered decimal has at most one '.' and starts with '-' exactly when it is negative |
| Decimals.ParseRender | App.tsx:79 | parsing a rendered decimal gives it back in shortest form, with the same value |
| Decimals.Normalize | App.tsx:128 | `toString` drops trailing fraction zeros without changing the value |
| Decimals.Add | App.tsx:97 | the sum is exact |
| Decimals.Sub | App.tsx:100 | the difference is exact |
| Decimals.Mul | App.tsx:103 | the product is exact |
| Decimals.RoundDiv | App.tsx:113 | the quotient is rounded to the nearest integer, a tie away from zero |
| Decimals.Round8 | App.tsx:113 | `parseFloat(x.toFixed(8))` is within half a unit of the eighth place of `x` |
| Decimals.Quotient8 | App.tsx:105-113 | a division by a non-zero operand, rounded to eight places, is within half a unit of the exact quotient |
| Session.Step | App.tsx:136-146 | each key runs one handler; "AC" gives the defaults; the error is only ever cleared by "AC" or backspace |
| Session.StepConsistent | App.tsx:27-132 | every handler keeps the record consistent: non-empty operand with at most one '.' and a leading '0' only alone or before the point, an operator exactly when a left operand is held, an error only with the pending division by zero that caused it |
| Session.RunConsistent | App.tsx:27-132 | consistency is kept by any sequence of keys |
| Session.Reachable | App.tsx:7-14 | every record a session reaches from the defaults is consistent |
| Session.InitialConsistent | App.tsx:7-14 | the default record is consistent |
| Session.ErrorIsSticky | App.tsx:28 | once set, the error survives every key but "AC" and backspace |
| Session.ErrorModeAbsorbs | App.tsx:117-121 | in the error mode digits and operators change nothing, "=" only blanks the history, backspace resets |
| Session.EqualsIdempotent | App.tsx:116-132 | a second "=" changes nothing, after a result and after an error alike |
| Session.DeleteUndoesAppend | App.tsx:27-54 | while an operand is being entered (no result pending, no error), backspace undoes a key that changed it |
| Session.DeleteAfterOverwrite | App.tsx:27-54 | after a result, typing a key and deleting it is the same as deleting |
| Session.TwoPointsMakeOne | App.tsx:48 | two '.' keys leave exactly one '.' |
| Session.ChainedOperandReadsBack | App.tsx:71-82 | the left operand written by chaining parses back to the rounded result |
| Session.ResultReadsBack | App.tsx:123-130 | the value shown after "=" parses back to the rounded result |
| Session.BarePointOperand | App.tsx:90-92 | with a bare "." as right operand "=" shows "NaN"; with "." as left operand the right operand's parsed value is shown, rendered afresh (so "2.50" shows as "2.5") |
| Session.DivideByZeroSession | App.tsx:116-121 | `5 / =` sets the message, resets the operand to "0" and blanks the history |
| Session.RepeatedDivideSession | App.tsx:56-74 | `5 / /` evaluates 5 / 0 and enters the error mode keeping history "5 /" |
| Session.ChainingSession | App.tsx:71-82 | `2 + 3 *` leaves "5" as left operand, `*` pending, history "5 *" |
| Session.RoundingSession | App.tsx:113-130 | `0.1 + 0.2 =` shows "0.3" with history "0.1 + 0.2 =" |

## Left out

- Rendering of the display and buttons (`App.tsx:151-207`) and
  `components/CalcButton.tsx`: presentation only.
- Registering and removing the keyboard listener (`App.tsx:135-149`): browser
  plumbing; only the key-to-handler mapping is kept, as `Session.Step`.
- React's batching and the stale closure: the guard record and the updater's
  record are taken to be the same.
- IEEE-754 doubles: operands and results are exact decimals, so overflow,
  `Infinity`, negative zero and binary representation error do not arise;
  `toFixed(8)` rounds the exact value, not the nearest double.
- `Number.prototype.toString` exponent notation (below 1e-6 or from 1e21 on)
  and `toFixed` from 1e21 on are not modelled; `parseFloat` does not read
  exponents, `Infinity` or leading whitespace. The keys cannot type these,
  but the component's own `toString` writes exponent text into an operand (a
  result of 0.0000001 becomes "1e-7", `App.tsx:79` and `App.tsx:128`), which
  `parseFloat` then reads back. `Render` never writes an exponent, so that
  path does not arise in the model.
- The digit handed to `appendDigit` is one character; the component only
  passes '0'-'9' and '.'.
- Decimals.Round8: states nearness to the exact value only; which way a tie
  goes is stated on `Decimals.RoundDiv`, which it uses.
- Calculator.Apply: same as `Decimals.Round8`, nearness only.
