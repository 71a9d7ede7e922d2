/** The tokenizer of formatEmarsys.js: a global scan with the regular expression
    `/({%.*?%})|(<.*?>)|([^<>{}%]+)/g`, one `exec` per token.

    At a position the three alternatives are tried in order: a lazy control tag
    `{%...%}`, a lazy markup tag `<...>`, a greedy run of characters other than
    `<>{}%`. `.` does not match a line terminator, so neither kind of tag spans a
    line break. `exec` returns the leftmost position at or after `lastIndex` where
    an alternative matches, with the matched text; positions where none does are
    passed over. */
module Tokenizer {
  import opened Text

  /** The five characters a text run cannot contain. */
  predicate IsDelimiter(c: char) {
    c == '<' || c == '>' || c == '{' || c == '}' || c == '%'
  }

  /** No line terminator in `s[lo..hi]`. */
  predicate LineFree(s: string, lo: nat, hi: nat)
    requires hi <= |s|
  {
    forall j :: lo <= j < hi ==> !IsLineTerminator(s[j])
  }

  /** A `%}` starts at `j`. */
  predicate CloseAt(s: string, j: nat) {
    j + 1 < |s| && s[j] == '%' && s[j + 1] == '}'
  }

  /** `s[p..e]` is a control tag `{%x%}` with no line terminator in `x`, closed by the
      first `%}` after its opening `{%`. */
  predicate ControlTagAt(s: string, p: nat, e: nat) {
    && p + 4 <= e <= |s|
    && s[p] == '{' && s[p + 1] == '%' && CloseAt(s, e - 2)
    && LineFree(s, p + 2, e - 2)
    && forall j :: p + 2 <= j < e - 2 ==> !CloseAt(s, j)
  }

  /** `s[p..e]` is a markup tag `<y>` with no line terminator and no `>` in `y`. */
  predicate MarkupTagAt(s: string, p: nat, e: nat) {
    && p + 2 <= e <= |s|
    && s[p] == '<' && s[e - 1] == '>'
    && LineFree(s, p + 1, e - 1)
    && forall j :: p + 1 <= j < e - 1 ==> s[j] != '>'
  }

  /** `s[p..e]` is a non-empty run of characters that are not delimiters. */
  predicate TextRunAt(s: string, p: nat, e: nat) {
    && p < e <= |s|
    && forall j :: p <= j < e ==> !IsDelimiter(s[j])
  }

  /** What the pattern matches at `p`, independently of how it is searched for:
      a minimal control tag, a minimal markup tag, or a maximal text run. */
  predicate TokenAt(s: string, p: nat, e: nat) {
    || ControlTagAt(s, p, e)
    || MarkupTagAt(s, p, e)
    || (TextRunAt(s, p, e) && (e == |s| || IsDelimiter(s[e])))
  }

  /** The shape of one token on its own. The three kinds are told apart by the
      first character (`{`, `<`, or neither), so a token is of exactly one kind. */
  predicate IsToken(t: string) {
    ControlTagAt(t, 0, |t|) || MarkupTagAt(t, 0, |t|) || TextRunAt(t, 0, |t|)
  }

  /** No string has two token shapes: a control tag starts with `{`, a markup tag
      with `<`, and a text run with neither. */
  lemma TokenKindsExclusive(t: string)
    ensures !(ControlTagAt(t, 0, |t|) && MarkupTagAt(t, 0, |t|))
    ensures !(ControlTagAt(t, 0, |t|) && TextRunAt(t, 0, |t|))
    ensures !(MarkupTagAt(t, 0, |t|) && TextRunAt(t, 0, |t|))
  {
  }

  /** The lazy `.*?%}` of a control tag whose body starts at `k`: the end of the
      first `%}` at or after `k`, unless a line terminator comes first. */
  function ControlClose(s: string, k: nat): (r: Option<nat>)
    decreases |s| - k
    ensures r.Some? ==> k + 2 <= r.value <= |s| && CloseAt(s, r.value - 2)
                        && LineFree(s, k, r.value - 2)
                        && forall j :: k <= j < r.value - 2 ==> !CloseAt(s, j)
    ensures r.None? ==> forall j :: k <= j && CloseAt(s, j) ==> !LineFree(s, k, j)
  {
    if k + 1 >= |s| then None
    else if CloseAt(s, k) then Some(k + 2)
    else if IsLineTerminator(s[k]) then None
    else ControlClose(s, k + 1)
  }

  /** The lazy `.*?>` of a markup tag whose body starts at `k`: the end of the first
      `>` at or after `k`, unless a line terminator comes first. */
  function MarkupClose(s: string, k: nat): (r: Option<nat>)
    decreases |s| - k
    ensures r.Some? ==> k + 1 <= r.value <= |s| && s[r.value - 1] == '>'
                        && LineFree(s, k, r.value - 1)
                        && forall j :: k <= j < r.value - 1 ==> s[j] != '>'
    ensures r.None? ==> forall j :: k <= j < |s| && s[j] == '>' ==> !LineFree(s, k, j)
  {
    if k >= |s| then None
    else if s[k] == '>' then Some(k + 1)
    else if IsLineTerminator(s[k]) then None
    else MarkupClose(s, k + 1)
  }

  /** The greedy `[^<>{}%]+` from `k`: the first delimiter at or after `k`, or the end. */
  function RunEnd(s: string, k: nat): (r: nat)
    requires k <= |s|
    decreases |s| - k
    ensures k <= r <= |s| && (r == |s| || IsDelimiter(s[r]))
    ensures forall j :: k <= j < r ==> !IsDelimiter(s[j])
  {
    if k == |s| || IsDelimiter(s[k]) then k else RunEnd(s, k + 1)
  }

  /** The end of the match of the pattern at exactly position `p`, if any: the
      alternatives in the pattern's order. Nothing matches only at a delimiter. */
  function MatchAt(s: string, p: nat): (r: Option<nat>)
    requires p < |s|
    ensures r.Some? ==> p < r.value <= |s| && TokenAt(s, p, r.value)
    ensures r.None? ==> IsDelimiter(s[p]) && forall e :: !TokenAt(s, p, e)
  {
    if s[p] == '{' && p + 1 < |s| && s[p + 1] == '%' then
      ControlClose(s, p + 2)
    else if s[p] == '<' then
      MarkupClose(s, p + 1)
    else if !IsDelimiter(s[p]) then
      Some(RunEnd(s, p))
    else
      None
  }

  /** Only one end fits the pattern at a position: the tags close at their first
      closing delimiter and the run stops at the first delimiter. */
  lemma TokenAtUnique(s: string, p: nat, e1: nat, e2: nat)
    requires TokenAt(s, p, e1) && TokenAt(s, p, e2)
    ensures e1 == e2
  {
  }

  /** The pattern matches at `p` exactly what `TokenAt` describes. */
  lemma MatchAtIff(s: string, p: nat, e: nat)
    requires p < |s|
    ensures MatchAt(s, p) == Some(e) <==> TokenAt(s, p, e)
  {
    var r := MatchAt(s, p);
    if TokenAt(s, p, e) {
      TokenAtUnique(s, p, r.value, e);
    }
  }

  /** The value of `regex.exec`: the matched text and its index. */
  datatype RegexMatch = RegexMatch(index: nat, text: string)

  function End(m: RegexMatch): (r: nat) {
    m.index + |m.text|
  }

  /** `regex.exec(s)` with `lastIndex == from`: the leftmost match at or after `from`. */
  function Exec(s: string, from: nat): (r: Option<RegexMatch>)
    decreases |s| - from
    ensures r.Some? ==> from <= r.value.index < End(r.value) <= |s|
                        && r.value.text == s[r.value.index..End(r.value)]
                        && MatchAt(s, r.value.index) == Some(End(r.value))
                        && forall p :: from <= p < r.value.index ==> MatchAt(s, p).None?
    ensures r.None? ==> forall p :: from <= p < |s| ==> MatchAt(s, p).None?
  {
    if from >= |s| then None
    else match MatchAt(s, from)
      case Some(e) => Some(RegexMatch(from, s[from..e]))
      case None => Exec(s, from + 1)
  }

  /** The matches of the `exec` loop started with `lastIndex == from`. */
  function Matches(s: string, from: nat): (r: seq<RegexMatch>)
    decreases |s| - from
  {
    match Exec(s, from)
    case None => []
    case Some(m) => [m] + Matches(s, End(m))
  }

  function Texts(ms: seq<RegexMatch>): (ts: seq<string>)
    ensures |ts| == |ms| && forall k :: 0 <= k < |ms| ==> ts[k] == ms[k].text
  {
    if ms == [] then [] else [ms[0].text] + Texts(ms[1..])
  }

  /** The tokens `tokenizeContent` returns for `content`. */
  function Tokenize(content: string): (r: seq<string>) {
    Texts(Matches(content, 0))
  }

  /** The tokens run together. This is `Join(ts, "")`, as `ConcatIsJoin` shows; it is
      kept apart because it peels one token at a time, the step the coverage proofs take,
      where `Join` has a separate one-piece case. */
  function Concat(ts: seq<string>): (r: string) {
    if ts == [] then [] else ts[0] + Concat(ts[1..])
  }

  lemma {:induction false} ConcatIsJoin(ts: seq<string>)
    ensures Concat(ts) == Join(ts, "")
  {
    if |ts| > 1 {
      ConcatIsJoin(ts[1..]);
      assert ts[0] + "" + Join(ts[1..], "") == ts[0] + Join(ts[1..], "");
    } else if |ts| == 1 {
      assert ts[1..] == [];
      assert ts[0] + [] == ts[0];
    }
  }

  /** `tokenizeContent`: call `exec` until it finds nothing, pushing each match. */
  method TokenizeContent(content: string) returns (tokens: seq<string>)
    ensures tokens == Tokenize(content)
  {
    tokens := [];
    var lastIndex := 0;
    var match_ := Exec(content, lastIndex);
    while match_.Some?
      invariant match_ == Exec(content, lastIndex)
      invariant tokens + Texts(Matches(content, lastIndex)) == Tokenize(content)
      decreases |content| - lastIndex
    {
      tokens := tokens + [match_.value.text];
      lastIndex := End(match_.value);
      match_ := Exec(content, lastIndex);
    }
  }

  /** `m` is a token of `s` at or after `from`, found at its index. */
  predicate MatchOf(s: string, from: nat, m: RegexMatch) {
    && from <= m.index < End(m) <= |s|
    && m.text == s[m.index..End(m)]
    && TokenAt(s, m.index, End(m))
  }

  lemma MatchOfEarlier(s: string, from: nat, later: nat, m: RegexMatch)
    requires from <= later && MatchOf(s, later, m)
    ensures MatchOf(s, from, m)
  {
  }

  /** Each match is a token of the input, found at its index. */
  lemma {:induction false} MatchesInInput(s: string, from: nat)
    ensures forall k :: 0 <= k < |Matches(s, from)| ==> MatchOf(s, from, Matches(s, from)[k])
    decreases |s| - from
  {
    var r := Exec(s, from);
    if r.Some? {
      var m := r.value;
      MatchesInInput(s, End(m));
      var rest := Matches(s, End(m));
      var ms := [m] + rest;
      assert Matches(s, from) == ms;
      forall k | 0 < k < |ms|
        ensures MatchOf(s, from, ms[k])
      {
        MatchOfEarlier(s, from, End(m), rest[k - 1]);
      }
    }
  }

  /** The matches come in left-to-right order without overlapping. */
  lemma {:induction false} MatchesOrdered(s: string, from: nat)
    ensures forall k :: 0 <= k < |Matches(s, from)| - 1 ==> End(Matches(s, from)[k]) <= Matches(s, from)[k + 1].index
    decreases |s| - from
  {
    var r := Exec(s, from);
    if r.Some? {
      var m := r.value;
      MatchesOrdered(s, End(m));
      var rest := Matches(s, End(m));
      var ms := [m] + rest;
      assert Matches(s, from) == ms;
      forall k | 0 <= k < |ms| - 1
        ensures End(ms[k]) <= ms[k + 1].index
      {
        if k == 0 {
          assert rest[0] == Exec(s, End(m)).value;
        } else {
          assert ms[k] == rest[k - 1] && ms[k + 1] == rest[k];
        }
      }
    }
  }

  /** A token is exactly one of: a `{%x%}` tag, a `<y>` tag (neither with a line
      break inside nor an earlier closing delimiter), or a run free of `<>{}%`. */
  lemma TokenShapes(content: string)
    ensures forall k :: 0 <= k < |Tokenize(content)| ==> IsToken(Tokenize(content)[k])
  {
    var ms := Matches(content, 0);
    MatchesInInput(content, 0);
    forall k | 0 <= k < |ms|
      ensures IsToken(ms[k].text)
    {
      var t, p, e := ms[k].text, ms[k].index, End(ms[k]);
      assert p < e <= |content| && t == content[p..e];
      assert forall j :: 0 <= j < |t| ==> t[j] == content[p + j];
      if ControlTagAt(content, p, e) {
        assert forall j :: 0 <= j < |t| - 1 ==> CloseAt(t, j) == CloseAt(content, p + j);
        assert ControlTagAt(t, 0, |t|);
      } else if MarkupTagAt(content, p, e) {
        assert MarkupTagAt(t, 0, |t|);
      } else {
        assert TextRunAt(t, 0, |t|);
      }
    }
  }

  /** A text-run token is maximal: the input either ends after it or goes on with a
      delimiter. */
  lemma RunsAreMaximal(s: string, from: nat, k: nat)
    requires k < |Matches(s, from)|
    requires TextRunAt(s, Matches(s, from)[k].index, End(Matches(s, from)[k]))
    ensures var e := End(Matches(s, from)[k]); e == |s| || IsDelimiter(s[e])
  {
    MatchesInInput(s, from);
  }

  lemma {:induction false} SkippedAreDelimiters(s: string, from: nat, i: nat)
    requires from <= i <= |s|
    requires forall p :: from <= p < i ==> MatchAt(s, p).None?
    ensures Erases([], s[from..i], IsDelimiter)
  {
    forall j | 0 <= j < i - from
      ensures IsDelimiter(s[from..i][j])
    {
      assert s[from..i][j] == s[from + j] && MatchAt(s, from + j).None?;
    }
    ErasesEverything(s[from..i], IsDelimiter);
  }

  /** One match: delimiters skipped, then the matched text, then the rest. */
  lemma CoverStep(s: string, from: nat, i: nat, e: nat, rest: string)
    requires from <= i <= e <= |s|
    requires forall p :: from <= p < i ==> IsDelimiter(s[p])
    requires Erases(rest, s[e..], IsDelimiter)
    ensures Erases(s[i..e] + rest, s[from..], IsDelimiter)
  {
    DelimitersErased(s, from, i);
    MatchKept(s, i, e, rest);
    ErasesAppend([], s[from..i], s[i..e] + rest, s[i..], IsDelimiter);
    assert s[from..i] + s[i..] == s[from..];
    assert [] + (s[i..e] + rest) == s[i..e] + rest;
  }

  lemma DelimitersErased(s: string, from: nat, i: nat)
    requires from <= i <= |s|
    requires forall p :: from <= p < i ==> IsDelimiter(s[p])
    ensures Erases([], s[from..i], IsDelimiter)
  {
    assert forall j :: 0 <= j < i - from ==> s[from..i][j] == s[from + j];
    ErasesEverything(s[from..i], IsDelimiter);
  }

  lemma MatchKept(s: string, i: nat, e: nat, rest: string)
    requires i <= e <= |s|
    requires Erases(rest, s[e..], IsDelimiter)
    ensures Erases(s[i..e] + rest, s[i..], IsDelimiter)
  {
    ErasesNothing(s[i..e], IsDelimiter);
    ErasesAppend(s[i..e], s[i..e], rest, s[e..], IsDelimiter);
    assert s[i..e] + s[e..] == s[i..];
  }

  /** Concatenated, the tokens are the input with only delimiter characters deleted. */
  lemma {:induction false} MatchesCover(s: string, from: nat)
    requires from <= |s|
    ensures Erases(Concat(Texts(Matches(s, from))), s[from..], IsDelimiter)
    decreases |s| - from
  {
    match Exec(s, from)
    case None =>
      SkippedAreDelimiters(s, from, |s|);
      assert s[from..|s|] == s[from..];
    case Some(m) =>
      var ms := Matches(s, End(m));
      MatchesCover(s, End(m));
      assert ([m] + ms)[1..] == ms;
      assert Concat(Texts(Matches(s, from))) == m.text + Concat(Texts(ms));
      forall p | from <= p < m.index
        ensures IsDelimiter(s[p])
      {
        assert MatchAt(s, p).None?;
      }
      CoverStep(s, from, m.index, End(m), Concat(Texts(ms)));
  }

  /** The tokens, concatenated, are the input less some delimiters: every other
      character of the input is in a token, in input order. */
  lemma TokensCover(content: string)
    ensures Erases(Concat(Tokenize(content)), content, IsDelimiter)
    ensures Kept(Concat(Tokenize(content)), IsDelimiter) == Kept(content, IsDelimiter)
  {
    MatchesCover(content, 0);
    assert content[0..] == content;
    ErasesKept(Concat(Tokenize(content)), content, IsDelimiter);
  }

  /** An input without delimiters is one token, or none when it is empty. */
  lemma PlainText(content: string)
    requires forall k :: 0 <= k < |content| ==> !IsDelimiter(content[k])
    ensures Tokenize(content) == if content == [] then [] else [content]
  {
    if content != [] {
      assert RunEnd(content, 0) == |content|;
      assert content[0..|content|] == content;
      assert Exec(content, 0) == Some(RegexMatch(0, content));
      assert Matches(content, |content|) == [];
      assert Matches(content, 0) == [RegexMatch(0, content)];
    }
  }
}
