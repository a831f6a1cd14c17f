/** A session: every handled button press or key runs exactly one handler
    (other keys run none), so a session is a fold of the handlers over a
    sequence of actions. */
module Session {
  import opened Text
  import opened Calculator

  /** A digit or point, an operator, `=`, delete, all clear. */
  datatype Action = Digit(key: char) | Operator(op: Op) | Equals | Delete | AllClear

  /** The handler an action runs. */
  function Step(env: Env, s: State, a: Action): State
  {
    match a
    case Digit(key) => AppendNumber(s, key)
    case Operator(o) => ChooseOperation(env, s, o)
    case Equals => Compute(env, s)
    case Delete => DeleteLast(s)
    case AllClear => ClearAll(s)
  }

  /** The state after the actions, in order, starting from `s`. */
  function Run(env: Env, s: State, actions: seq<Action>): State
    decreases |actions|
  {
    if actions == [] then s else Run(env, Step(env, s, actions[0]), actions[1..])
  }

  /** Running two sessions back to back is running their concatenation. */
  lemma {:induction false} RunAppend(env: Env, s: State, first: seq<Action>, second: seq<Action>)
    ensures Run(env, s, first + second) == Run(env, Run(env, s, first), second)
    decreases |first|
  {
    if first == [] {
      assert first + second == second;
    } else {
      assert (first + second)[1..] == first[1..] + second;
      RunAppend(env, Step(env, s, first[0]), first[1..], second);
    }
  }

  lemma StepKeepsInv(env: Env, s: State, a: Action)
    requires Sound(env)
    requires Inv(s)
    ensures Inv(Step(env, s, a))
  {
    match a
    case Digit(key) => AppendNumberKeepsInv(s, key);
    case Operator(o) => ChooseOperationKeepsInv(env, s, o);
    case Equals => ComputeKeepsInv(env, s);
    case Delete => DeleteLastKeepsInv(s);
    case AllClear => ClearAllKeepsInv(s);
  }

  lemma {:induction false} RunKeepsInv(env: Env, s: State, actions: seq<Action>)
    requires Sound(env)
    requires Inv(s)
    ensures Inv(Run(env, s, actions))
    decreases |actions|
  {
    if actions != [] {
      StepKeepsInv(env, s, actions[0]);
      RunKeepsInv(env, Step(env, s, actions[0]), actions[1..]);
    }
  }

  /** Every state the page can reach has at most one decimal point in each
      operand and a pending operation exactly when a previous operand is
      committed. */
  lemma ReachableInv(env: Env, actions: seq<Action>)
    requires Sound(env)
    ensures Inv(Run(env, Init, actions))
  {
    InitInv();
    RunKeepsInv(env, Init, actions);
  }

  /** The actions for typing the characters of `keys` one by one. */
  function Keystrokes(keys: string): (actions: seq<Action>)
    ensures |actions| == |keys|
    ensures forall i :: 0 <= i < |keys| ==> actions[i] == Digit(keys[i])
  {
    if keys == [] then [] else [Digit(keys[0])] + Keystrokes(keys[1..])
  }

  /** What typing `keys` onto `cur` should give, stated without the
      handlers: the text with every decimal point after the first removed. */
  function Typed(cur: string, keys: string): string
  {
    if '.' in cur then cur + Remove(keys, '.')
    else if '.' in keys then
      var i := IndexOf(keys, '.');
      cur + keys[..i + 1] + Remove(keys[i + 1..], '.')
    else cur + keys
  }

  /** One keystroke on its own: typing `k` and then `rest` is typing
      `[k] + rest` as far as the reference is concerned. */
  lemma TypedStep(s: State, k: char, rest: string)
    ensures Typed(AppendNumber(s, k).cur, rest) == Typed(s.cur, [k] + rest)
  {
    var keys := [k] + rest;
    var cur := AppendNumber(s, k).cur;
    assert keys[1..] == rest;
    assert Remove(keys, '.') == (if k == '.' then [] else [k]) + Remove(rest, '.');
    if '.' in s.cur {
      assert '.' in cur;
    } else if k == '.' {
      assert IndexOf(keys, '.') == 0;
      assert keys[..1] == ['.'];
    } else {
      assert cur == s.cur + [k];
      assert '.' !in cur;
      if '.' in rest {
        TypedStepBeforeDot(s.cur, k, rest);
      }
    }
  }

  lemma TypedStepBeforeDot(cur: string, k: char, rest: string)
    requires '.' !in cur && k != '.' && '.' in rest
    ensures Typed(cur + [k], rest) == Typed(cur, [k] + rest)
  {
    var keys := [k] + rest;
    var j := IndexOf(rest, '.');
    assert keys[1..] == rest;
    assert IndexOf(keys, '.') == j + 1;
    var typedK := cur + [k];
    assert '.' !in typedK;
    var tail := Remove(rest[j + 1..], '.');
    calc {
      Typed(typedK, rest);
      typedK + rest[..j + 1] + tail;
      { assert keys[..j + 2] == [k] + rest[..j + 1]; }
      cur + keys[..j + 2] + tail;
      { assert keys[j + 2..] == rest[j + 1..]; }
      Typed(cur, keys);
    }
  }

  /** Typing a run of characters appends them, dropping every decimal point
      after the first, and leaves the pending operation alone. */
  lemma {:induction false} TypingMatchesTyped(env: Env, s: State, keys: string)
    ensures Run(env, s, Keystrokes(keys)) == s.(cur := Typed(s.cur, keys))
    decreases |keys|
  {
    if keys == [] {
      assert Remove(keys, '.') == [];
    } else {
      var k, rest := keys[0], keys[1..];
      assert keys == [k] + rest;
      var t := AppendNumber(s, k);
      assert Keystrokes(keys)[1..] == Keystrokes(rest);
      TypingMatchesTyped(env, t, rest);
      TypedStep(s, k, rest);
    }
  }

  /** Text with a single decimal point has none after it. */
  lemma NoDotAfterOnlyDot(keys: string)
    requires '.' in keys
    requires Count(keys, '.') <= 1
    ensures '.' !in keys[IndexOf(keys, '.') + 1..]
  {
    var i := IndexOf(keys, '.');
    var before, after := keys[..i + 1], keys[i + 1..];
    assert keys == before + after;
    assert before[i] == '.';
    CountConcat(before, after, '.');
    CountZero(before, '.');
    CountZero(after, '.');
  }

  /** With at most one decimal point in all, the reference drops nothing. */
  lemma TypedKeepsSingleDot(cur: string, keys: string)
    requires Count(cur + keys, '.') <= 1
    ensures Typed(cur, keys) == cur + keys
  {
    CountConcat(cur, keys, '.');
    CountZero(cur, '.');
    if '.' in cur {
      CountZero(keys, '.');
      RemoveAbsent(keys, '.');
    } else if '.' in keys {
      NoDotAfterOnlyDot(keys);
      TypedKeepsOnlyDot(cur, keys);
    }
  }

  lemma TypedKeepsOnlyDot(cur: string, keys: string)
    requires '.' !in cur && '.' in keys
    requires '.' !in keys[IndexOf(keys, '.') + 1..]
    ensures Typed(cur, keys) == cur + keys
  {
    var i := IndexOf(keys, '.');
    RemoveAbsent(keys[i + 1..], '.');
    ConcatSlices(cur, keys, i + 1);
  }

  /** Cutting a string in two and gluing it back, behind a prefix. */
  lemma ConcatSlices(cur: string, keys: string, n: nat)
    requires n <= |keys|
    ensures cur + keys[..n] + keys[n..] == cur + keys
  {
  }

  /** Typing characters that hold at most one decimal point in total gives
      exactly their concatenation. */
  lemma TypingConcatenates(env: Env, s: State, keys: string)
    requires Count(s.cur + keys, '.') <= 1
    ensures Run(env, s, Keystrokes(keys)) == s.(cur := s.cur + keys)
  {
    TypingMatchesTyped(env, s, keys);
    TypedKeepsSingleDot(s.cur, keys);
  }

  /** Choosing a second operator chains: `5 + 3 -` leaves the sum of 5 and
      3 committed under `-`. */
  lemma ChainedOperators(env: Env, five: real, three: real)
    requires env.parse("5") == Some(five)
    requires env.parse("3") == Some(three)
    ensures Run(env, Init, [Digit('5'), Operator(Add), Digit('3'), Operator(Sub)])
              == State("", env.render(five, Add, three), Some(Sub))
  {
    var acts := [Digit('5'), Operator(Add), Digit('3'), Operator(Sub)];
    var s1 := Step(env, Init, acts[0]);
    assert s1 == State("5", "", None);
    var s2 := Step(env, s1, acts[1]);
    assert s2 == State("", "5", Some(Add));
    var s3 := Step(env, s2, acts[2]);
    assert s3 == State("3", "5", Some(Add));
    assert Run(env, Init, acts) == Run(env, s3, acts[3..]);
  }

  /** Dividing by a zero operand shows the error sentinel, and delete then
      clears everything. */
  lemma DivisionByZeroRecovery(env: Env, seven: real)
    requires env.parse("7") == Some(seven)
    requires env.parse("0") == Some(0.0)
    ensures Run(env, Init, [Digit('7'), Operator(Div), Digit('0'), Equals]) == State(ErrorText, "", None)
    ensures Run(env, Init, [Digit('7'), Operator(Div), Digit('0'), Equals, Delete]) == Init
  {
    var acts := [Digit('7'), Operator(Div), Digit('0'), Equals, Delete];
    var s1 := Step(env, Init, acts[0]);
    assert s1 == State("7", "", None);
    var s2 := Step(env, s1, acts[1]);
    assert s2 == State("", "7", Some(Div));
    var s3 := Step(env, s2, acts[2]);
    assert s3 == State("0", "7", Some(Div));
    var s4 := Step(env, s3, acts[3]);
    assert s4 == State(ErrorText, "", None);
    RunAppend(env, Init, acts[..4], [Delete]);
    assert acts == acts[..4] + [Delete];
  }
}
