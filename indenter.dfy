/** The indenter of formatEmarsys.js (`addIndentation`): a left fold over the tokens
    with the counter `indentLevel`, starting at 0. For each token it trims the text,
    lowers the level on `{% endif` / `{% else` / `{% elseif`, prints two spaces per
    level before the trimmed text, then raises the level on `{% if` / `{% elseif` /
    `{% else`. The printed pieces are joined with newlines. A level that has gone
    negative makes `'  '.repeat` throw a RangeError, which ends the whole call. */
module Indenter {
  import opened Text

  /** The RangeError that `String.prototype.repeat` throws for a negative count. */
  datatype Error = RangeError(count: int)

  datatype Result<T> = Success(value: T) | Failure(error: Error)

  /** The indentation unit, repeated once per level. */
  const Unit: string := "  "

  /** The token lowers the level before it is printed. */
  predicate ClosesBlock(t: string) {
    "{% endif" <= t || "{% else" <= t || "{% elseif" <= t
  }

  /** The token raises the level after it is printed. */
  predicate OpensBlock(t: string) {
    "{% if" <= t || "{% elseif" <= t || "{% else" <= t
  }

  /** `unit.repeat(count)`: `count` copies of `unit`, or a RangeError when `count` is
      negative. */
  function Repeat(unit: string, count: int): (r: Result<string>)
    ensures r.Failure? <==> count < 0
    ensures r.Failure? ==> r.error == RangeError(count)
    decreases if count < 0 then 0 else count
  {
    if count < 0 then Failure(RangeError(count))
    else if count == 0 then Success([])
    else Success(unit + Repeat(unit, count - 1).value)
  }

  /** `count` levels of the unit are `2 * count` spaces. */
  lemma {:induction false} RepeatUnit(count: nat)
    ensures Repeat(Unit, count) == Success(Spaces(2 * count))
  {
    if count > 0 {
      RepeatUnit(count - 1);
      assert Repeat(Unit, count) == Success(Unit + Repeat(Unit, count - 1).value);
      var a, b := Unit + Spaces(2 * (count - 1)), Spaces(2 * count);
      assert |a| == |b|;
      assert forall k :: 0 <= k < |a| ==> a[k] == b[k];
      assert a == b;
    }
  }

  function Spaces(n: nat): (r: string)
  {
    seq(n, _ => ' ')
  }

  /** The fold of `addIndentation`, with the pieces printed so far in `done`. */
  function IndentFold(tokens: seq<string>, level: int, done: seq<string>): (r: Result<seq<string>>)
    decreases |tokens|
  {
    if tokens == [] then Success(done)
    else
      var trimmed := Trim(tokens[0]);
      var before := if ClosesBlock(trimmed) then level - 1 else level;
      match Repeat(Unit, before)
      case Failure(e) => Failure(e)
      case Success(indent) =>
        var after := if OpensBlock(trimmed) then before + 1 else before;
        IndentFold(tokens[1..], after, done + [indent + trimmed])
  }

  /** The pieces `addIndentation` prints, one per token. */
  function IndentedLines(tokens: seq<string>): (r: Result<seq<string>>) {
    IndentFold(tokens, 0, [])
  }

  /** What `addIndentation` returns, or the RangeError it throws. */
  function Indented(tokens: seq<string>): (r: Result<string>) {
    match IndentedLines(tokens)
    case Failure(e) => Failure(e)
    case Success(lines) => Success(Join(lines, "\n"))
  }

  /** `addIndentation`: the `map` over the tokens with `indentLevel` updated in place,
      then the `join`. */
  method AddIndentation(tokens: seq<string>) returns (r: Result<string>)
    ensures r == Indented(tokens)
  {
    var indentLevel := 0;
    var lines: seq<string> := [];
    for i := 0 to |tokens|
      invariant IndentFold(tokens[i..], indentLevel, lines) == IndentedLines(tokens)
    {
      assert tokens[i..][1..] == tokens[i + 1..];
      var trimmedToken := Trim(tokens[i]);
      if ClosesBlock(trimmedToken) {
        indentLevel := indentLevel - 1;
      }
      var indent := Repeat(Unit, indentLevel);
      if indent.Failure? {
        return Failure(indent.error);
      }
      var indentedToken := indent.value + trimmedToken;
      if OpensBlock(trimmedToken) {
        indentLevel := indentLevel + 1;
      }
      lines := lines + [indentedToken];
    }
    assert tokens[|tokens|..] == [];
    r := Success(Join(lines, "\n"));
  }

  // ---------------------------------------------------------------------------
  // The level as a count of open blocks

  /** How many tokens, once trimmed, start with `prefix`. */
  function CountStarting(tokens: seq<string>, prefix: string): (r: nat)
  {
    if tokens == [] then 0
    else (if prefix <= Trim(tokens[0]) then 1 else 0) + CountStarting(tokens[1..], prefix)
  }

  function Ifs(tokens: seq<string>): (r: nat) {
    CountStarting(tokens, "{% if")
  }

  function EndIfs(tokens: seq<string>): (r: nat) {
    CountStarting(tokens, "{% endif")
  }

  /** The level at which token `k` is printed: the `if`s before it, minus the `endif`s
      before it, minus one when it is itself an `endif`, `else` or `elseif`. */
  function LevelAt(tokens: seq<string>, k: nat): (r: int)
    requires k < |tokens|
  {
    Ifs(tokens[..k]) - EndIfs(tokens[..k]) - (if ClosesBlock(Trim(tokens[k])) then 1 else 0)
  }

  /** Every `endif`, `else` and `elseif` has an `if` open before it: more `if`s than
      `endif`s among the tokens before it. */
  predicate Balanced(tokens: seq<string>) {
    forall k :: 0 <= k < |tokens| && ClosesBlock(Trim(tokens[k])) ==> EndIfs(tokens[..k]) < Ifs(tokens[..k])
  }

  /** `Balanced`, for a fold that starts with `level` blocks already open. */
  predicate BalancedFrom(tokens: seq<string>, level: int) {
    forall k :: 0 <= k < |tokens| && ClosesBlock(Trim(tokens[k])) ==> EndIfs(tokens[..k]) < level + Ifs(tokens[..k])
  }

  /** `lines` prints token `k` as `2 * (level + LevelAt(k))` spaces and the trimmed token. */
  predicate PrintedFrom(tokens: seq<string>, level: int, lines: seq<string>) {
    && |lines| == |tokens|
    && forall k :: 0 <= k < |tokens| ==>
         && level + LevelAt(tokens, k) >= 0
         && lines[k] == Spaces(2 * (level + LevelAt(tokens, k))) + Trim(tokens[k])
  }

  /** Over one token the level moves by +1 for `{% if`, -1 for `{% endif`, and not at
      all for `{% else` / `{% elseif`, which lower it and raise it again. */
  lemma LevelStep(token: string)
    ensures var t := Trim(token);
      (if OpensBlock(t) then 1 else 0) - (if ClosesBlock(t) then 1 else 0) == Ifs([token]) - EndIfs([token])
  {
    var t := Trim(token);
    assert [token][0] == token && [token][1..] == [];
    assert CountStarting([token], "{% if") == (if "{% if" <= t then 1 else 0) + CountStarting([], "{% if");
    assert CountStarting([token], "{% endif") == (if "{% endif" <= t then 1 else 0) + CountStarting([], "{% endif");
    if "{% elseif" <= t {
      assert "{% else" <= t by { assert "{% else" == "{% elseif"[..7]; }
    }
    if "{% else" <= t {
      assert t[3] == 'e' && t[4] == 'l';
    }
    if "{% if" <= t {
      assert t[3] == 'i';
    }
    if "{% endif" <= t {
      assert t[3] == 'e' && t[4] == 'n';
    }
  }

  lemma {:induction false} CountAppend(a: seq<string>, b: seq<string>, prefix: string)
    ensures CountStarting(a + b, prefix) == CountStarting(a, prefix) + CountStarting(b, prefix)
  {
    if a != [] {
      assert (a + b)[0] == a[0] && (a + b)[1..] == a[1..] + b;
      CountAppend(a[1..], b, prefix);
    } else {
      assert a + b == b;
    }
  }

  /** The tokens before position `k` are the first token and those before `k - 1` in
      the rest. */
  lemma CountsShift(tokens: seq<string>, k: nat)
    requires 0 < k <= |tokens|
    ensures Ifs(tokens[..k]) == Ifs([tokens[0]]) + Ifs(tokens[1..][..k - 1])
    ensures EndIfs(tokens[..k]) == EndIfs([tokens[0]]) + EndIfs(tokens[1..][..k - 1])
  {
    assert tokens[..k] == [tokens[0]] + tokens[1..][..k - 1];
    CountAppend([tokens[0]], tokens[1..][..k - 1], "{% if");
    CountAppend([tokens[0]], tokens[1..][..k - 1], "{% endif");
  }

  lemma LevelShift(tokens: seq<string>, k: nat)
    requires 0 < k < |tokens|
    ensures tokens[k] == tokens[1..][k - 1]
    ensures LevelAt(tokens, k) == Ifs([tokens[0]]) - EndIfs([tokens[0]]) + LevelAt(tokens[1..], k - 1)
  {
    CountsShift(tokens, k);
  }

  lemma BalancedFromCons(tokens: seq<string>, level: int)
    requires tokens != []
    ensures var t := tokens[0];
      var rest := (ClosesBlock(Trim(t)) ==> 0 < level) && BalancedFrom(tokens[1..], level + Ifs([t]) - EndIfs([t]));
      BalancedFrom(tokens, level) == rest
  {
    var t, rest := tokens[0], tokens[1..];
    var after := level + Ifs([t]) - EndIfs([t]);
    assert tokens[..0] == [];
    forall k | 0 < k < |tokens|
      ensures tokens[k] == rest[k - 1]
      ensures EndIfs(tokens[..k]) < level + Ifs(tokens[..k]) <==> EndIfs(rest[..k - 1]) < after + Ifs(rest[..k - 1])
    {
      CountsShift(tokens, k);
    }
    if BalancedFrom(rest, after) {
      forall k | 0 < k < |tokens| && ClosesBlock(Trim(tokens[k]))
        ensures EndIfs(tokens[..k]) < level + Ifs(tokens[..k])
      {
        assert ClosesBlock(Trim(rest[k - 1]));
      }
    }
    if BalancedFrom(tokens, level) {
      forall k | 0 <= k < |rest| && ClosesBlock(Trim(rest[k]))
        ensures EndIfs(rest[..k]) < after + Ifs(rest[..k])
      {
        assert ClosesBlock(Trim(tokens[k + 1]));
      }
    }
  }

  lemma PrintedFromCons(tokens: seq<string>, level: int, first: string, lines: seq<string>)
    requires tokens != []
    requires var t := Trim(tokens[0]);
      var before := if ClosesBlock(t) then level - 1 else level;
      && before >= 0
      && first == Spaces(2 * before) + t
      && PrintedFrom(tokens[1..], level + Ifs([tokens[0]]) - EndIfs([tokens[0]]), lines)
    ensures PrintedFrom(tokens, level, [first] + lines)
  {
    var all := [first] + lines;
    assert tokens[..0] == [];
    assert LevelAt(tokens, 0) == if ClosesBlock(Trim(tokens[0])) then -1 else 0;
    forall k | 0 <= k < |tokens|
      ensures level + LevelAt(tokens, k) >= 0
      ensures all[k] == Spaces(2 * (level + LevelAt(tokens, k))) + Trim(tokens[k])
    {
      if k > 0 {
        LevelShift(tokens, k);
      }
    }
  }

  /** One step of the fold, when `repeat` does not throw. */
  lemma IndentFoldStep(tokens: seq<string>, level: int, done: seq<string>)
    requires tokens != []
    requires var t := Trim(tokens[0]); (if ClosesBlock(t) then level - 1 else level) >= 0
    ensures level + Ifs([tokens[0]]) - EndIfs([tokens[0]]) >= 0
    ensures var t := Trim(tokens[0]);
      var before := if ClosesBlock(t) then level - 1 else level;
      IndentFold(tokens, level, done)
        == IndentFold(tokens[1..], level + Ifs([tokens[0]]) - EndIfs([tokens[0]]), done + [Spaces(2 * before) + t])
  {
    var t := Trim(tokens[0]);
    RepeatUnit(if ClosesBlock(t) then level - 1 else level);
    LevelStep(tokens[0]);
  }

  /** The fold from `level` (not negative) succeeds exactly when no `endif`, `else` or
      `elseif` meets a level of 0, and fails only with the count -1. */
  lemma {:induction false} IndentFoldOutcome(tokens: seq<string>, level: int, done: seq<string>)
    requires level >= 0
    ensures IndentFold(tokens, level, done).Success? <==> BalancedFrom(tokens, level)
    ensures IndentFold(tokens, level, done).Failure? ==>
              IndentFold(tokens, level, done).error == RangeError(-1)
    decreases |tokens|
  {
    if tokens != [] {
      var t := Trim(tokens[0]);
      var before := if ClosesBlock(t) then level - 1 else level;
      BalancedFromCons(tokens, level);
      if before >= 0 {
        IndentFoldStep(tokens, level, done);
        var after := level + Ifs([tokens[0]]) - EndIfs([tokens[0]]);
        IndentFoldOutcome(tokens[1..], after, done + [Spaces(2 * before) + t]);
      }
    }
  }

  /** When the fold from `level` succeeds, it adds to `done` one line per token,
      token `k` printed at `level + LevelAt(k)`. */
  lemma {:induction false} IndentFoldLines(tokens: seq<string>, level: int, done: seq<string>)
    requires level >= 0 && IndentFold(tokens, level, done).Success?
    ensures var lines := IndentFold(tokens, level, done).value;
      |lines| >= |done| && lines[..|done|] == done && PrintedFrom(tokens, level, lines[|done|..])
    decreases |tokens|
  {
    var lines := IndentFold(tokens, level, done).value;
    if tokens == [] {
      assert lines[|done|..] == [];
    } else {
      var t := Trim(tokens[0]);
      var before := if ClosesBlock(t) then level - 1 else level;
      var first := Spaces(2 * before) + t;
      var done' := done + [first];
      var after := level + Ifs([tokens[0]]) - EndIfs([tokens[0]]);
      assert before >= 0;
      IndentFoldStep(tokens, level, done);
      assert lines == IndentFold(tokens[1..], after, done').value;
      IndentFoldLines(tokens[1..], after, done');
      PrintedFromCons(tokens, level, first, lines[|done'|..]);
      assert lines[|done|..] == [first] + lines[|done'|..];
      assert lines[..|done|] == lines[..|done'|][..|done|];
    }
  }

  /** `addIndentation` throws exactly when the tokens are unbalanced, and then with
      the count -1; otherwise token `k` is printed at level `LevelAt(k)`, which is not
      negative, as `2 * LevelAt(k)` spaces before the trimmed token. */
  lemma IndentedLinesSpec(tokens: seq<string>)
    ensures IndentedLines(tokens).Success? <==> Balanced(tokens)
    ensures IndentedLines(tokens).Failure? ==> IndentedLines(tokens).error == RangeError(-1)
    ensures IndentedLines(tokens).Success? ==> PrintedFrom(tokens, 0, IndentedLines(tokens).value)
    ensures tokens == [] ==> Indented(tokens) == Success("")
  {
    IndentFoldOutcome(tokens, 0, []);
    if IndentFold(tokens, 0, []).Success? {
      IndentFoldLines(tokens, 0, []);
      assert IndentFold(tokens, 0, []).value[0..] == IndentFold(tokens, 0, []).value;
    }
  }

  /** In balanced tokens no prefix has more `endif`s than `if`s: the level never goes
      below zero. */
  lemma BalancedPrefixes(tokens: seq<string>)
    requires Balanced(tokens)
    ensures forall k :: 0 <= k <= |tokens| ==> EndIfs(tokens[..k]) <= Ifs(tokens[..k])
  {
    forall k | 0 <= k <= |tokens|
      ensures EndIfs(tokens[..k]) <= Ifs(tokens[..k])
    {
      BalancedPrefix(tokens, k);
    }
  }

  lemma {:induction false} BalancedPrefix(tokens: seq<string>, k: nat)
    requires Balanced(tokens) && k <= |tokens|
    ensures EndIfs(tokens[..k]) <= Ifs(tokens[..k])
  {
    if k > 0 {
      BalancedPrefix(tokens, k - 1);
      var t := tokens[k - 1];
      assert tokens[..k] == tokens[..k - 1] + [t];
      CountAppend(tokens[..k - 1], [t], "{% if");
      CountAppend(tokens[..k - 1], [t], "{% endif");
      if "{% endif" <= Trim(t) {
        assert ClosesBlock(Trim(t));
      }
    }
  }

  /** The output is the printed pieces, one per token, separated by single newlines:
      when no trimmed token holds a newline, its lines are exactly those pieces. */
  lemma OutputLines(tokens: seq<string>)
    requires Indented(tokens).Success? && tokens != []
    requires forall k :: 0 <= k < |tokens| ==> '\n' !in Trim(tokens[k])
    ensures var lines := Split(Indented(tokens).value, '\n');
      && |lines| == |tokens|
      && forall k :: 0 <= k < |tokens| ==>
           LevelAt(tokens, k) >= 0 && lines[k] == Spaces(2 * LevelAt(tokens, k)) + Trim(tokens[k])
  {
    IndentedLinesSpec(tokens);
    var pieces := IndentedLines(tokens).value;
    forall k | 0 <= k < |pieces|
      ensures '\n' !in pieces[k]
    {
      assert pieces[k] == Spaces(2 * LevelAt(tokens, k)) + Trim(tokens[k]);
    }
    SplitJoin(pieces, '\n');
  }
}
