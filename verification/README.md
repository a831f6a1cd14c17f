# Calculator state machine, modelled in Dafny

The browser calculator in `Calculator/script.js` keeps three globals:
`currentOperand` (the text being typed, or the sentinel `"Error"`),
`previousOperand` (the committed left operand) and `operation` (the
pending operator, or `undefined`). Five handlers change them — `appendNumber`,
`chooseOperation`, `compute`, `deleteLast`, `clearAll` — and `formatOperand`
turns an operand into display text.

This project models each handler as a pure function from
`State(cur, prev, op)` to a new `State`. It proves what each handler changes
and what it leaves alone, and that two invariants hold in every reachable
state:
- each operand has at most one decimal point;
- an operation is pending exactly when a previous operand is committed.

Modules:
- `Text` (`text.dfy`): the JavaScript string operations the script uses:
  `split` on one separator, with `join` as its inverse and a first-separator
  search (`IndexOf`) to define it, and `slice(0, -1)`. A character count
  states the at-most-one-point invariant; `includes` is written as Dafny's
  `in`.
- `Calculator` (`calculator.dfy`): the state, the five handlers, the
  invariant and one preservation lemma per handler.
- `Display` (`display.dfy`): `formatOperand` and the two lines
  `updateDisplay` writes. `Symbol` is the operator text appended to the
  previous line (line 66).
- `Session` (`session.dfy`): a session as a fold of the handlers over a
  sequence of actions. `Step` is the dispatch of one handled event to
  exactly one handler (lines 94-98 and 102-112; other keys run none), and
  `Run` applies the events of a session in order. The module holds the reachable-state invariant, a
  reference definition of typing, and two worked sessions.

IEEE arithmetic and locale formatting are not modelled. They are three
function-valued fields of `Calculator.Env`, passed in as parameters:
- `parse` stands for `parseFloat`, with `None` for `NaN`.
- `render(p, o, c)` stands for the arithmetic, the 8-decimal rounding and
  `toString` (lines 40-42, 51, 56-57).
- `group` stands for `Number(intPart).toLocaleString('en-IN')`.

Only the divisor-is-zero test of the division branch is concrete. The facts
the lemmas rely on are collected in `Calculator.Sound`:
- `parseFloat("")` and `parseFloat("Error")` are `NaN`;
- a rendered number is non-empty and has at most one decimal point.

Display behaviour worth knowing:
- A trailing decimal point is not displayed while typing. `formatOperand`
  tests the fractional piece for truthiness, and `""` is falsy, so `"12."`
  shows as `"12"` (`Display.FormatHidesTrailingDot`).
- `formatOperand` uses only the first two pieces of `split('.')`, so text
  after a second point is dropped (`Display.FormatDropsAfterSecondDot`). No
  reachable operand has two points (`Session.ReachableInv`).
- `Calculator.Op` has the four operators `+ - * /` that the keyboard passes
  (line 104) and that `compute` switches on.

## Model

| member | source | states |
|---|---|---|
| `Calculator.AppendNumber` | Calculator/script.js:15-19 | a `'.'` typed when the operand already holds one leaves the state unchanged; any other character, the sentinel included, is appended; previous operand and operation never change |
| `Calculator.Compute` | Calculator/script.js:34-61 | no change unless both operands parse and an operation is pending; a parsed zero divisor under `/` gives `("Error", "", unset)`; otherwise the rendered result becomes the current operand with previous and operation cleared; any change consumes the pending operation |
| `Calculator.ChooseOperation` | Calculator/script.js:22-31 | no-op on an empty current operand; otherwise the current operand is emptied, the operation set, and the previous operand becomes the current one as it stands after the chained `compute` (taken only when a previous operand exists) |
| `Calculator.ClearAll` | Calculator/script.js:77-82 | yields the empty state from any state |
| `Calculator.DeleteLast` | Calculator/script.js:70-74 | on `"Error"` equals all clear; otherwise exactly the last character of the current operand is removed, `""` stays `""`, nothing else changes |
| `Calculator.AppendNumberKeepsInv` | Calculator/script.js:16-17 | the at-most-one-point and operation-iff-previous invariant survives `appendNumber` |
| `Calculator.ComputeKeepsOperand` | Calculator/script.js:44-57 | `compute` never empties a non-empty current operand: it keeps it, or writes the sentinel or a rendered number |
| `Calculator.ComputeKeepsInv` | Calculator/script.js:43-59 | the invariant survives `compute` |
| `Calculator.ChooseOperationCommitsOperand` | Calculator/script.js:23-28 | the operand `chooseOperation` commits is never empty |
| `Calculator.ChooseOperationKeepsInv` | Calculator/script.js:22-29 | the invariant survives `chooseOperation`, including its chained `compute` |
| `Calculator.DeleteLastKeepsInv` | Calculator/script.js:70-73 | the invariant survives `deleteLast` |
| `Calculator.ClearAllKeepsInv` | Calculator/script.js:77-80 | the empty state satisfies the invariant |
| `Calculator.InitInv` | Calculator/script.js:10-12 | the starting state satisfies the invariant |
| `Calculator.ComputeIdempotent` | Calculator/script.js:53-59 | pressing `=` twice equals pressing it once |
| `Calculator.ComputeEmptyOperandIsNoop` | Calculator/script.js:35-37 | `compute` with an empty operand on either side changes nothing |
| `Calculator.DeleteLastUndoesAppend` | Calculator/script.js:70-73 | deleting right after an appended character restores the state, unless that character completed the text `"Error"` |
| `Calculator.ErrorSentinel` | Calculator/script.js:15-37 | typing `5` on `"Error"` gives `"Error5"`; an operator moves `"Error"` into the previous operand; `compute` then does nothing because `"Error"` does not parse |
| `Display.FormatOperand` | Calculator/script.js:85-91 | `""` formats to `""`, `"Error"` to `"Error"`, an operand without a point to its grouped text |
| `Display.FormatShowsFraction` | Calculator/script.js:88-90 | `i.d` with a non-empty fraction `d` formats as grouped `i`, a point, then `d` verbatim |
| `Display.FormatHidesTrailingDot` | Calculator/script.js:88-90 | `i.` formats as grouped `i` alone, the same as `i` for any ordinary operand |
| `Display.FormatAtOnlyDot` | Calculator/script.js:88-90 | for an operand with exactly one point, the displayed fraction is all the text after it, omitted when empty |
| `Display.FormatDropsAfterSecondDot` | Calculator/script.js:88-90 | for an operand with two or more points, the displayed fraction is the text between the first and the second point, omitted when empty |
| `Display.CurrentLine` | Calculator/script.js:65 | the current line is the formatted operand whenever that is non-empty, and `"0"` otherwise; so it is never empty, is `"0"` for an empty operand and `"Error"` for the sentinel |
| `Display.PreviousLine` | Calculator/script.js:66 | the previous line is non-empty exactly when an operation and a previous operand are both set, and is then the formatted operand, a space and the operator |
| `Display.PreviousLineShownIffCommitted` | Calculator/script.js:66 | in a reachable state the previous line shows exactly when a previous operand is committed |
| `Text.Split` | Calculator/script.js:88 | `split` yields one more piece than there are separators; no piece holds the separator; joining the pieces restores the text |
| `Text.SplitJoin` | Calculator/script.js:88 | splitting the join of separator-free pieces gives the pieces back |
| `Text.IndexOf` | Calculator/script.js:88 | the first-separator search that defines `split`: the index found holds the separator and no earlier index does |
| `Text.DropLast` | Calculator/script.js:72 | `slice(0, -1)` removes exactly the last character and leaves `""` as `""` |
| `Session.RunKeepsInv` | Calculator/script.js:94-98 | any sequence of handler calls from a state satisfying the invariant keeps it |
| `Session.ReachableInv` | Calculator/script.js:10-12 | every state reachable from the starting state satisfies the invariant |
| `Session.RunAppend` | Calculator/script.js:94-98 | running two sequences of events back to back equals running their concatenation |
| `Session.TypingMatchesTyped` | Calculator/script.js:15-17 | typing a string appends it with every point after the first dropped, as the handler-free `Typed` defines it; previous operand and operation stay |
| `Session.TypingConcatenates` | Calculator/script.js:15-17 | typing characters that hold at most one point in all yields exactly their concatenation |
| `Session.ChainedOperators` | Calculator/script.js:22-29 | `5 + 3 -` commits the rendered sum of 5 and 3 under `-` with an empty current operand |
| `Session.DivisionByZeroRecovery` | Calculator/script.js:43-49 | `7 / 0 =` gives `("Error", "", unset)`, and delete then returns to the empty state |

## Left out

- DOM lookups and the writes to `innerText` (lines 2-8, 64-67). The text the
  two lines would receive is modelled (`Display.CurrentLine`,
  `Display.PreviousLine`); the handlers' trailing `updateDisplay()` calls are
  side effects only.
- The key-to-action mapping and the listener registration (lines 94-113).
  This is an input adapter. `Session.Action` stands for the five kinds of
  event it dispatches.
- Floating-point parsing, arithmetic, the `Math.round(... + Number.EPSILON)`
  rounding and `Number.prototype.toString`. They are IEEE doubles and are
  kept behind `Env.parse` and `Env.render`. Parsed values are reals, so
  `Infinity` has no exact counterpart. The model only observes whether a
  divisor is zero and passes values to `render`, so any nonzero real stands
  for it.
- `toLocaleString('en-IN')` digit grouping. It is a locale library call,
  kept behind `Env.group`; no particular grouping output is claimed.
- `formatOperand`'s `operand == null` test. Operands in the model are
  always strings.
- `appendNumber` with a multi-character argument. The model takes one
  character, which is what the keyboard handler passes (lines 102-103). The
  digit buttons pass their `data-number` values (line 94); those are page
  markup, which is not modelled.
- `chooseOperation` with an operator other than `+ - * /`. `Calculator.Op`
  covers only the four characters the keyboard handler passes (line 104).
  The operator buttons pass their `data-operation` values (line 95); those
  are page markup, which is not modelled. With any other string the source
  would record it as the pending operation, and `compute` would then do
  nothing (`default: return`, line 53).
