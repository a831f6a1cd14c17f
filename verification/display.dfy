/** `formatOperand` and the two text lines `updateDisplay` writes.

    The integer part of an operand goes through the locale grouping
    (`env.group`, uninterpreted); the text after the decimal point is copied
    as typed. */
module Display {
  import opened Text
  import opened Calculator

  /** `formatOperand(operand)`. The operand is split at every `'.'` and only
      the first two pieces are used; a missing or empty fractional piece is
      falsy, so it is shown as the grouped integer part alone. */
  function FormatOperand(env: Env, operand: string): (r: string)
    ensures operand == "" ==> r == ""
    ensures operand == ErrorText ==> r == ErrorText
    ensures operand != "" && operand != ErrorText && '.' !in operand ==> r == env.group(operand)
  {
    if operand == "" then ""
    else if operand == ErrorText then ErrorText
    else
      var parts := Split(operand, '.');
      var intPart := parts[0];
      // `undefined` (no '.') and `""` (a trailing '.') are both falsy
      var decPart := if |parts| > 1 then parts[1] else "";
      if decPart != "" then env.group(intPart) + "." + decPart
      else env.group(intPart)
  }

  /** A fractional part is copied verbatim after the grouped integer part. */
  lemma FormatShowsFraction(env: Env, intPart: string, decPart: string)
    requires '.' !in intPart && '.' !in decPart
    requires decPart != ""
    ensures FormatOperand(env, intPart + "." + decPart) == env.group(intPart) + "." + decPart
  {
    var s := intPart + "." + decPart;
    assert s[|intPart|] == '.';
    assert '.' in s && '.' !in ErrorText;
    SplitJoin([intPart, decPart], '.');
    assert Join([intPart, decPart], '.') == s;
  }

  /** A trailing decimal point is not shown: `"12."` is displayed as the
      grouped `"12"`, exactly like `"12"` itself. */
  lemma FormatHidesTrailingDot(env: Env, intPart: string)
    requires '.' !in intPart
    ensures FormatOperand(env, intPart + ".") == env.group(intPart)
    ensures (intPart != "" && intPart != ErrorText)
      ==> FormatOperand(env, intPart + ".") == FormatOperand(env, intPart)
  {
    var s := intPart + ".";
    assert s[|intPart|] == '.';
    assert '.' in s && '.' !in ErrorText;
    SplitJoin([intPart, ""], '.');
    assert Join([intPart, ""], '.') == s;
  }

  /** For an operand with at most one decimal point (every reachable
      operand), the displayed fraction is everything after that point. */
  lemma {:induction false} FormatAtOnlyDot(env: Env, operand: string)
    requires Count(operand, '.') == 1
    ensures '.' in operand
    ensures var k := IndexOf(operand, '.');
            var decPart := operand[k + 1..];
            FormatOperand(env, operand)
              == if decPart == "" then env.group(operand[..k]) else env.group(operand[..k]) + "." + decPart
  {
    CountZero(operand, '.');
    var k := IndexOf(operand, '.');
    var intPart, decPart := operand[..k], operand[k + 1..];
    assert operand == intPart + "." + decPart;
    CountConcat(intPart + ".", decPart, '.');
    CountConcat(intPart, ".", '.');
    CountZero(intPart, '.');
    CountZero(decPart, '.');
    if decPart == "" {
      FormatHidesTrailingDot(env, intPart);
    } else {
      FormatShowsFraction(env, intPart, decPart);
    }
  }

  /** With two or more decimal points, the displayed fraction is the text
      between the first and the second point: the split keeps only the
      first two pieces. Typing cannot produce such an operand
      (`Session.ReachableInv`). */
  lemma FormatDropsAfterSecondDot(env: Env, operand: string)
    requires Count(operand, '.') >= 2
    ensures '.' in operand
    ensures var i := IndexOf(operand, '.');
            var rest := operand[i + 1..];
            && '.' in rest
            && var decPart := rest[..IndexOf(rest, '.')];
               FormatOperand(env, operand)
                 == if decPart == "" then env.group(operand[..i]) else env.group(operand[..i]) + "." + decPart
  {
    DotAfterFirstDot(operand);
    var i := IndexOf(operand, '.');
    var rest := operand[i + 1..];
    var decPart := rest[..IndexOf(rest, '.')];
    assert operand != "" && operand != ErrorText by {
      assert operand[i] == '.' && '.' !in ErrorText;
    }
    SplitFirstTwoPieces(operand, '.');
    var parts := Split(operand, '.');
    assert parts[0] == operand[..i] && parts[1] == decPart;
  }

  /** Text with two or more points has another one after the first. */
  lemma DotAfterFirstDot(s: string)
    requires Count(s, '.') >= 2
    ensures '.' in s && '.' in s[IndexOf(s, '.') + 1..]
  {
    CountZero(s, '.');
    var i := IndexOf(s, '.');
    CountAround(s, i, '.');
    CountZero(s[..i], '.');
    CountZero(s[i + 1..], '.');
  }

  /** The first two pieces of a split on text with two separators. */
  lemma SplitFirstTwoPieces(s: string, sep: char)
    requires sep in s && sep in s[IndexOf(s, sep) + 1..]
    ensures var i := IndexOf(s, sep);
            var rest := s[i + 1..];
            var parts := Split(s, sep);
            |parts| >= 2 && parts[0] == s[..i] && parts[1] == rest[..IndexOf(rest, sep)]
  {
    var i := IndexOf(s, sep);
    var rest := s[i + 1..];
    assert Split(s, sep) == [s[..i]] + Split(rest, sep);
    var j := IndexOf(rest, sep);
    assert Split(rest, sep) == [rest[..j]] + Split(rest[j + 1..], sep);
  }

  /** The symbol shown after the previous operand. */
  function Symbol(o: Op): string
  {
    match o
    case Add => "+"
    case Sub => "-"
    case Mul => "*"
    case Div => "/"
  }

  /** The current-operand line: the formatted operand, or `"0"` when that
      is empty. */
  function CurrentLine(env: Env, s: State): (r: string)
    ensures r != ""
    ensures s.cur == "" ==> r == "0"
    ensures s.cur == ErrorText ==> r == ErrorText
    ensures FormatOperand(env, s.cur) != "" ==> r == FormatOperand(env, s.cur)
  {
    var f := FormatOperand(env, s.cur);
    if f == "" then "0" else f
  }

  /** The previous-operand line: shown only when an operation is pending
      and a previous operand is committed. */
  function PreviousLine(env: Env, s: State): (r: string)
    ensures r != "" <==> s.op.Some? && s.prev != ""
    ensures r != "" ==> r == FormatOperand(env, s.prev) + " " + Symbol(s.op.value)
  {
    if s.op.Some? && s.prev != "" then FormatOperand(env, s.prev) + " " + Symbol(s.op.value)
    else ""
  }

  /** In a reachable state the previous line is shown exactly when a
      previous operand is committed. */
  lemma PreviousLineShownIffCommitted(env: Env, s: State)
    requires Inv(s)
    ensures PreviousLine(env, s) != "" <==> s.prev != ""
  {
  }
}
