/** The blank-line collapse of formatEmarsys.js: `.replace(/\n\s*\n/g, '\n')`. Scanning
    left to right, each place where a newline starts a match is rewritten, up to the end
    of the match, into one newline; the text between matches is copied. Since `\s*` is
    greedy and gives characters back only until the final `\n` matches, a match runs from
    a newline to the LAST newline of the white space that follows it. */
module Collapse {
  import opened Text

  /** The end of the white-space run that starts at `k`. */
  function WhitespaceEnd(s: string, k: nat): (r: nat)
    requires k <= |s|
    ensures k <= r <= |s|
    ensures AllWhitespace(s[k..r])
    ensures r == |s| || !IsWhitespace(s[r])
    decreases |s| - k
  {
    if k < |s| && IsWhitespace(s[k]) then WhitespaceEnd(s, k + 1) else k
  }

  /** The position of the last newline in `s[lo..hi]`, if there is one. */
  function LastNewline(s: string, lo: nat, hi: nat): (r: Option<nat>)
    requires lo <= hi <= |s|
    ensures r.Some? ==> lo <= r.value < hi && s[r.value] == '\n'
    ensures r.Some? ==> forall j :: r.value < j < hi ==> s[j] != '\n'
    ensures r.None? ==> forall j :: lo <= j < hi ==> s[j] != '\n'
    decreases hi
  {
    if hi == lo then None
    else if s[hi - 1] == '\n' then Some(hi - 1)
    else LastNewline(s, lo, hi - 1)
  }

  /** Where the match of `\n\s*\n` that starts at `p` ends, if one starts there. */
  function BlankAt(s: string, p: nat): (r: Option<nat>)
    requires p < |s|
    ensures r.Some? ==> p + 2 <= r.value <= |s|
  {
    if s[p] != '\n' then None
    else
      match LastNewline(s, p + 1, WhitespaceEnd(s, p + 1))
      case None => None
      case Some(q) => Some(q + 1)
  }

  /** `s[p..e]` is a newline, white space, and a newline: one way `\n\s*\n` can match. */
  predicate BlankMatch(s: string, p: nat, e: nat) {
    && p + 2 <= e <= |s|
    && s[p] == '\n' && s[e - 1] == '\n'
    && AllWhitespace(s[p + 1..e - 1])
  }

  /** The engine's match at `p` is the longest of the ways the pattern can match there,
      and there is none exactly when the pattern cannot match at `p` at all. */
  lemma BlankAtSpec(s: string, p: nat)
    requires p < |s|
    ensures BlankAt(s, p).Some? ==> BlankMatch(s, p, BlankAt(s, p).value)
    ensures BlankAt(s, p).Some? ==> forall e: nat :: BlankMatch(s, p, e) ==> e <= BlankAt(s, p).value
    ensures BlankAt(s, p).None? ==> forall e: nat :: !BlankMatch(s, p, e)
  {
    if s[p] == '\n' {
      var w := WhitespaceEnd(s, p + 1);
      forall e: nat | BlankMatch(s, p, e)
        ensures p + 1 <= e - 1 < w
      {
        assert AllWhitespace(s[p + 1..e]) by {
          assert s[p + 1..e] == s[p + 1..e - 1] + [s[e - 1]];
        }
        assert forall k :: p + 1 <= k < e ==> IsWhitespace(s[k]) by {
          assert forall k :: p + 1 <= k < e ==> s[k] == s[p + 1..e][k - (p + 1)];
        }
      }
      var last := LastNewline(s, p + 1, w);
      if last.Some? {
        var q := last.value;
        assert AllWhitespace(s[p + 1..q]) by {
          assert forall k :: p + 1 <= k < q ==> s[k] == s[p + 1..w][k - (p + 1)];
        }
      }
    }
  }

  /** The output of the `replace` from position `p` on. */
  function CollapseFrom(s: string, p: nat): (r: string)
    requires p <= |s|
    decreases |s| - p
  {
    if p == |s| then []
    else
      match BlankAt(s, p)
      case Some(e) => "\n" + CollapseFrom(s, e)
      case None => [s[p]] + CollapseFrom(s, p + 1)
  }

  /** `text.replace(/\n\s*\n/g, '\n')`. */
  function CollapseBlankLines(s: string): (r: string) {
    CollapseFrom(s, 0)
  }

  /** A blank line: two newlines with only white space between them. */
  predicate BlankFree(r: string) {
    forall i, j :: 0 <= i < j < |r| && r[i] == '\n' && r[j] == '\n' ==> !AllWhitespace(r[i + 1..j])
  }

  // ---------------------------------------------------------------------------
  // Only white space is removed

  /** The collapse deletes white-space characters and nothing else: every other
      character stays, in its order. */
  lemma {:induction false} CollapseFromErases(s: string, p: nat)
    requires p <= |s|
    ensures Erases(CollapseFrom(s, p), s[p..], IsWhitespace)
    decreases |s| - p
  {
    if p < |s| {
      match BlankAt(s, p)
      case Some(e) =>
        BlankAtSpec(s, p);
        CollapseFromErases(s, e);
        assert AllWhitespace(s[p + 1..e]) by {
          assert s[p + 1..e] == s[p + 1..e - 1] + [s[e - 1]];
        }
        ErasesEverything(s[p + 1..e], IsWhitespace);
        assert s[p..e][1..] == s[p + 1..e];
        assert Erases("\n", s[p..e], IsWhitespace) by {
          assert "\n"[1..] == [];
        }
        ErasesAppend("\n", s[p..e], CollapseFrom(s, e), s[e..], IsWhitespace);
        assert s[p..e] + s[e..] == s[p..];
      case None =>
        CollapseFromErases(s, p + 1);
        assert s[p..][1..] == s[p + 1..];
    }
  }

  lemma CollapseErases(s: string)
    ensures Erases(CollapseBlankLines(s), s, IsWhitespace)
    ensures Kept(CollapseBlankLines(s), IsWhitespace) == Kept(s, IsWhitespace)
  {
    CollapseFromErases(s, 0);
    assert s[0..] == s;
    ErasesKept(CollapseBlankLines(s), s, IsWhitespace);
  }

  // ---------------------------------------------------------------------------
  // No blank line is left

  /** The white space at the start of `t` holds no newline. */
  predicate Settled(t: string)
    decreases |t|
  {
    t == [] || !IsWhitespace(t[0]) || (t[0] != '\n' && Settled(t[1..]))
  }

  lemma {:induction false} SettledMeans(t: string)
    ensures Settled(t) <==> forall j :: 0 <= j < |t| && t[j] == '\n' ==> !AllWhitespace(t[..j])
  {
    if t != [] {
      forall j | 0 < j <= |t|
        ensures t[..j] == [t[0]] + t[1..][..j - 1]
        ensures AllWhitespace(t[..j]) ==> IsWhitespace(t[0])
      {
        assert t[..j][0] == t[0];
      }
      if IsWhitespace(t[0]) {
        SettledMeans(t[1..]);
        forall j | 0 < j <= |t|
          ensures AllWhitespace(t[..j]) <==> AllWhitespace(t[1..][..j - 1])
        {
          AllWhitespaceCons(t[0], t[1..][..j - 1]);
        }
        assert t[..0] == [];
      }
    }
  }

  lemma AllWhitespaceCons(c: char, t: string)
    ensures AllWhitespace([c] + t) <==> IsWhitespace(c) && AllWhitespace(t)
  {
    assert ([c] + t)[0] == c;
    assert forall k :: 0 <= k < |t| ==> ([c] + t)[k + 1] == t[k];
  }

  /** White space without a newline, up to something that is not white space. */
  lemma {:induction false} SettledRun(s: string, e: nat, w: nat)
    requires e <= w <= |s|
    requires AllWhitespace(s[e..w]) && forall j :: e <= j < w ==> s[j] != '\n'
    requires w == |s| || !IsWhitespace(s[w])
    ensures Settled(s[e..])
    decreases w - e
  {
    if e < w {
      assert s[e] == s[e..w][0];
      assert s[e + 1..w] == s[e..w][1..];
      SettledRun(s, e + 1, w);
      assert s[e..][1..] == s[e + 1..];
    }
  }

  /** After a match, and after a newline that starts none, the input is settled. */
  lemma SettledAfterNewline(s: string, p: nat)
    requires p < |s| && s[p] == '\n'
    ensures BlankAt(s, p).Some? ==> Settled(s[BlankAt(s, p).value..])
    ensures BlankAt(s, p).None? ==> Settled(s[p + 1..])
  {
    var w := WhitespaceEnd(s, p + 1);
    match LastNewline(s, p + 1, w)
    case None =>
      SettledRun(s, p + 1, w);
    case Some(q) =>
      assert s[q + 1..w] == s[p + 1..w][q - p..];
      SettledRun(s, q + 1, w);
  }

  /** The collapse keeps a settled input settled. */
  lemma {:induction false} SettledOut(s: string, p: nat)
    requires p <= |s| && Settled(s[p..])
    ensures Settled(CollapseFrom(s, p))
    decreases |s| - p
  {
    if p < |s| {
      assert s[p] == s[p..][0];
      if IsWhitespace(s[p]) {
        assert s[p..][1..] == s[p + 1..];
        SettledOut(s, p + 1);
      }
    }
  }

  /** Every newline of `r` is followed by settled text. */
  predicate NewlinesSettled(r: string) {
    forall i :: 0 <= i < |r| && r[i] == '\n' ==> Settled(r[i + 1..])
  }

  lemma NewlinesSettledCons(c: char, t: string)
    requires c == '\n' ==> Settled(t)
    requires NewlinesSettled(t)
    ensures NewlinesSettled([c] + t)
  {
    var r := [c] + t;
    forall i | 0 < i < |r|
      ensures r[i] == t[i - 1] && r[i + 1..] == t[i..]
    {
    }
  }

  lemma {:induction false} CollapseFromSettled(s: string, p: nat)
    requires p <= |s|
    ensures NewlinesSettled(CollapseFrom(s, p))
    decreases |s| - p
  {
    if p < |s| {
      match BlankAt(s, p)
      case Some(e) =>
        SettledAfterNewline(s, p);
        SettledOut(s, e);
        CollapseFromSettled(s, e);
        NewlinesSettledCons('\n', CollapseFrom(s, e));
      case None =>
        if s[p] == '\n' {
          SettledAfterNewline(s, p);
          SettledOut(s, p + 1);
        }
        CollapseFromSettled(s, p + 1);
        NewlinesSettledCons(s[p], CollapseFrom(s, p + 1));
    }
  }

  lemma SettledBlankFree(r: string)
    requires NewlinesSettled(r)
    ensures BlankFree(r)
  {
    forall i, j | 0 <= i < j < |r| && r[i] == '\n' && r[j] == '\n'
      ensures !AllWhitespace(r[i + 1..j])
    {
      SettledMeans(r[i + 1..]);
      assert r[i + 1..][j - i - 1] == r[j];
      assert r[i + 1..][..j - i - 1] == r[i + 1..j];
    }
  }

  /** After the collapse no newline is followed by only white space and another
      newline. */
  lemma CollapseBlankFree(s: string)
    ensures BlankFree(CollapseBlankLines(s))
  {
    CollapseFromSettled(s, 0);
    SettledBlankFree(CollapseBlankLines(s));
  }

  // ---------------------------------------------------------------------------
  // Idempotence

  /** Wherever the pattern matches, the text has a blank line. */
  lemma MatchIsBlankLine(r: string, p: nat)
    requires p < |r|
    ensures BlankAt(r, p).Some? ==> !BlankFree(r)
  {
    BlankAtSpec(r, p);
    if BlankAt(r, p).Some? {
      var e := BlankAt(r, p).value;
      assert r[p] == '\n' && r[e - 1] == '\n' && AllWhitespace(r[p + 1..e - 1]);
    }
  }

  lemma {:induction false} BlankFreeUnchangedFrom(r: string, p: nat)
    requires BlankFree(r) && p <= |r|
    ensures CollapseFrom(r, p) == r[p..]
    decreases |r| - p
  {
    if p < |r| {
      MatchIsBlankLine(r, p);
      BlankFreeUnchangedFrom(r, p + 1);
      assert r[p..] == [r[p]] + r[p + 1..];
    }
  }

  /** The collapse leaves a text alone exactly when it has no blank line. */
  lemma CollapseFixedPoints(s: string)
    ensures CollapseBlankLines(s) == s <==> BlankFree(s)
  {
    CollapseBlankFree(s);
    if BlankFree(s) {
      BlankFreeUnchangedFrom(s, 0);
      assert s[0..] == s;
    }
  }

  /** Collapsing twice is collapsing once. */
  lemma CollapseIdempotent(s: string)
    ensures CollapseBlankLines(CollapseBlankLines(s)) == CollapseBlankLines(s)
  {
    CollapseBlankFree(s);
    CollapseFixedPoints(CollapseBlankLines(s));
  }
}
