/** The operand/operator state machine of `Calculator/script.js`.

    The page keeps three globals: the operand being typed, the operand
    already committed as the left side of a pending operation, and that
    operation. Each handler is modelled as a pure function from the old
    state to the new one; the DOM refresh each handler ends with is left
    to the `Display` module.

    Floating-point parsing, the arithmetic with its 8-decimal rounding and
    `Number.prototype.toString`, and the locale grouping of the integer part
    are not modelled: they are fields of an `Env` of uninterpreted functions
    passed to every operation that needs them. */
module Calculator {
  import opened Text

  datatype Option<T> = None | Some(value: T)

  /** The four operators the buttons and keys can choose (`+ - * /`). */
  datatype Op = Add | Sub | Mul | Div

  /** `currentOperand`, `previousOperand`, `operation` (`None` is `undefined`). */
  datatype State = State(cur: string, prev: string, op: Option<Op>)

  /** The sentinel written into the current operand on division by zero. */
  const ErrorText: string := "Error"

  /** The page's starting state, and the result of "all clear". */
  const Init: State := State("", "", None)

  /** The parts of the page that are IEEE arithmetic or locale formatting:
      - `parse` is `parseFloat`, `None` standing for `NaN`;
      - `render(p, o, c)` is `o` applied to `p` and `c`, rounded to eight
        decimals and turned back into text by `toString`;
      - `group` is `Number(s).toLocaleString('en-IN')`. */
  datatype Env = Env(
    parse: string -> Option<real>,
    render: (real, Op, real) -> string,
    group: string -> string)

  /** What the model assumes of those functions: `parseFloat` gives `NaN`
      for the empty string and for the error sentinel, and a number's
      `toString` is never empty and has at most one decimal point. */
  ghost predicate Sound(env: Env)
  {
    && env.parse("") == None
    && env.parse(ErrorText) == None
    && forall p, o, c :: env.render(p, o, c) != "" && Count(env.render(p, o, c), '.') <= 1
  }

  /** The state every reachable state satisfies: neither operand holds
      more than one decimal point, and an operation is pending exactly when
      a previous operand has been committed. */
  ghost predicate Inv(s: State)
  {
    && Count(s.cur, '.') <= 1
    && Count(s.prev, '.') <= 1
    && (s.op.Some? <==> s.prev != "")
  }

  /** `appendNumber(num)`: a second decimal point is dropped silently;
      anything else, the sentinel included, is extended by `num`. */
  function AppendNumber(s: State, num: char): (r: State)
    ensures r.prev == s.prev && r.op == s.op
    ensures num == '.' && '.' in s.cur ==> r == s
    ensures !(num == '.' && '.' in s.cur) ==> r.cur == s.cur + [num]
  {
    if num == '.' && '.' in s.cur then s
    else s.(cur := s.cur + [num])
  }

  /** `compute()`: nothing happens unless both operands parse and an
      operation is pending; dividing by a parsed zero yields the error
      sentinel; otherwise the rendered result replaces the current operand.
      Whenever anything happens the pending operation is consumed. */
  function Compute(env: Env, s: State): (r: State)
    ensures env.parse(s.prev).None? || env.parse(s.cur).None? || s.op.None? ==> r == s
    ensures (s.op == Some(Div) && env.parse(s.prev).Some? && env.parse(s.cur) == Some(0.0))
      ==> r == State(ErrorText, "", None)
    ensures (&& env.parse(s.prev).Some? && env.parse(s.cur).Some? && s.op.Some?
             && !(s.op.value == Div && env.parse(s.cur).value == 0.0))
      ==> r == State(env.render(env.parse(s.prev).value, s.op.value, env.parse(s.cur).value), "", None)
    ensures r == s || (r.prev == "" && r.op == None)
  {
    match (env.parse(s.prev), env.parse(s.cur), s.op)
    case (Some(p), Some(c), Some(o)) =>
      if o == Div && c == 0.0 then State(ErrorText, "", None)
      else State(env.render(p, o, c), "", None)
    case _ => s
  }

  /** `chooseOperation(o)`: a no-op on an empty current operand; otherwise
      a pending operation is first resolved by `compute`, and the (possibly
      new) current operand becomes the previous one under operation `o`. */
  function ChooseOperation(env: Env, s: State, o: Op): (r: State)
    ensures s.cur == "" ==> r == s
    ensures s.cur != "" ==> r.cur == "" && r.op == Some(o)
    ensures s.cur != "" && s.prev == "" ==> r.prev == s.cur
    ensures s.cur != "" && s.prev != "" ==> r.prev == Compute(env, s).cur
  {
    if s.cur == "" then s
    else
      var t := if s.prev != "" then Compute(env, s) else s;
      State("", t.cur, Some(o))
  }

  /** `clearAll()`: back to the starting state from anywhere. */
  function ClearAll(s: State): (r: State)
    ensures r.cur == "" && r.prev == "" && r.op == None
  {
    Init
  }

  /** `deleteLast()`: on the error sentinel it is "all clear"; otherwise it
      removes exactly the last character of the current operand (an empty
      operand stays empty) and touches nothing else. */
  function DeleteLast(s: State): (r: State)
    ensures s.cur == ErrorText ==> r == Init
    ensures s.cur != ErrorText ==> r.prev == s.prev && r.op == s.op
    ensures s.cur == "" ==> r == s
    ensures s.cur != ErrorText && s.cur != "" ==> r.cur + [s.cur[|s.cur| - 1]] == s.cur
  {
    if s.cur == ErrorText then ClearAll(s)
    else s.(cur := DropLast(s.cur))
  }

  lemma InitInv()
    ensures Inv(Init)
  {
  }

  lemma AppendNumberKeepsInv(s: State, num: char)
    requires Inv(s)
    ensures Inv(AppendNumber(s, num))
  {
    if !(num == '.' && '.' in s.cur) {
      CountConcat(s.cur, [num], '.');
      CountZero(s.cur, '.');
      assert Count([num], '.') == (if num == '.' then 1 else 0);
    }
  }

  /** A successful or failed `compute` leaves a non-empty current operand
      non-empty: the sentinel and every rendered number are non-empty. */
  lemma ComputeKeepsOperand(env: Env, s: State)
    requires Sound(env)
    requires s.cur != ""
    ensures Compute(env, s).cur != ""
  {
  }

  lemma ComputeKeepsInv(env: Env, s: State)
    requires Sound(env)
    requires Inv(s)
    ensures Inv(Compute(env, s))
  {
  }

  /** The operand `chooseOperation` commits is never empty. */
  lemma ChooseOperationCommitsOperand(env: Env, s: State, o: Op)
    requires Sound(env)
    requires s.cur != ""
    ensures ChooseOperation(env, s, o).prev != ""
  {
  }

  lemma ChooseOperationKeepsInv(env: Env, s: State, o: Op)
    requires Sound(env)
    requires Inv(s)
    ensures Inv(ChooseOperation(env, s, o))
  {
  }

  lemma DeleteLastKeepsInv(s: State)
    requires Inv(s)
    ensures Inv(DeleteLast(s))
  {
    if s.cur != ErrorText && s.cur != "" {
      var r := DeleteLast(s);
      CountConcat(r.cur, [s.cur[|s.cur| - 1]], '.');
    }
  }

  lemma ClearAllKeepsInv(s: State)
    ensures Inv(ClearAll(s))
  {
    InitInv();
  }

  /** Pressing `=` twice is the same as pressing it once. */
  lemma ComputeIdempotent(env: Env, s: State)
    ensures Compute(env, Compute(env, s)) == Compute(env, s)
  {
  }

  /** `compute` with an empty operand on either side does nothing: `=`
      right after an operator, or with nothing pending, is ignored. */
  lemma ComputeEmptyOperandIsNoop(env: Env, s: State)
    requires Sound(env)
    requires s.cur == "" || s.prev == ""
    ensures Compute(env, s) == s
  {
  }

  /** Deleting right after typing a character undoes it, unless the
      character completed the error sentinel's text. */
  lemma DeleteLastUndoesAppend(s: State, num: char)
    requires !(num == '.' && '.' in s.cur)
    requires s.cur + [num] != ErrorText
    ensures DeleteLast(AppendNumber(s, num)) == s
  {
  }

  /** The error sentinel is not a number, but it is still an operand:
      digits are appended to it, an operator commits it, and the `compute`
      that follows does nothing because it does not parse. */
  lemma ErrorSentinel(env: Env, p: string, pending: Option<Op>, o: Op)
    requires Sound(env)
    ensures AppendNumber(State(ErrorText, p, pending), '5').cur == "Error5"
    ensures ChooseOperation(env, State(ErrorText, p, pending), o) == State("", ErrorText, Some(o))
    ensures Compute(env, State("", ErrorText, Some(o))) == State("", ErrorText, Some(o))
    ensures Compute(env, State("7", ErrorText, Some(o))) == State("7", ErrorText, Some(o))
  {
  }
}
