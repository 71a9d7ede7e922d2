/** Character classes and string helpers of ECMAScript that the re-indenter relies on:
    line terminators (what `.` refuses), white space (what `trim` and `\s` take),
    `trim`, `join`, and the "deletes only some characters" relation used to state
    what the tokenizer and the blank-line collapse may drop. */
module Text {

  datatype Option<T> = None | Some(value: T)

  /** LF, CR, LINE SEPARATOR, PARAGRAPH SEPARATOR: the characters `.` does not match
      in a regular expression without the `s` flag. */
  predicate IsLineTerminator(c: char) {
    c == '\n' || c == '\r' || c == '\U{2028}' || c == '\U{2029}'
  }

  /** ECMAScript WhiteSpace or LineTerminator: what `String.prototype.trim` strips and
      what `\s` matches (TAB, VT, FF, SP, NBSP, ZWNBSP and the Zs space separators). */
  predicate IsWhitespace(c: char) {
    || IsLineTerminator(c)
    || c == '\t' || c == '\U{B}' || c == '\U{C}' || c == ' ' || c == '\U{A0}' || c == '\U{FEFF}'
    || c == '\U{1680}' || ('\U{2000}' <= c <= '\U{200A}')
    || c == '\U{202F}' || c == '\U{205F}' || c == '\U{3000}'
  }

  predicate AllWhitespace(s: string) {
    forall k :: 0 <= k < |s| ==> IsWhitespace(s[k])
  }

  /** `r` is `s` with some characters deleted, each deleted one satisfying `removable`;
      the characters kept stay in their order. */
  predicate Erases(r: string, s: string, removable: char -> bool)
    decreases |s|
  {
    if s == [] then r == []
    else
      || (removable(s[0]) && Erases(r, s[1..], removable))
      || (r != [] && r[0] == s[0] && Erases(r[1..], s[1..], removable))
  }

  lemma {:induction false} ErasesNothing(s: string, removable: char -> bool)
    ensures Erases(s, s, removable)
  {
    if s != [] {
      ErasesNothing(s[1..], removable);
    }
  }

  lemma {:induction false} ErasesEverything(s: string, removable: char -> bool)
    requires forall k :: 0 <= k < |s| ==> removable(s[k])
    ensures Erases([], s, removable)
  {
    if s != [] {
      ErasesEverything(s[1..], removable);
    }
  }

  lemma {:induction false} ErasesAppend(r1: string, s1: string, r2: string, s2: string, removable: char -> bool)
    requires Erases(r1, s1, removable) && Erases(r2, s2, removable)
    ensures Erases(r1 + r2, s1 + s2, removable)
  {
    if s1 == [] {
      assert r1 + r2 == r2 && s1 + s2 == s2;
    } else {
      assert (s1 + s2)[0] == s1[0] && (s1 + s2)[1..] == s1[1..] + s2;
      if removable(s1[0]) && Erases(r1, s1[1..], removable) {
        ErasesAppend(r1, s1[1..], r2, s2, removable);
      } else {
        ErasesAppend(r1[1..], s1[1..], r2, s2, removable);
        assert (r1 + r2)[0] == r1[0] && (r1 + r2)[1..] == r1[1..] + r2;
      }
    }
  }

  /** The characters of `s` that `removable` does not accept, in order. */
  function Kept(s: string, removable: char -> bool): (r: string)
    decreases |s|
  {
    if s == [] then []
    else (if removable(s[0]) then [] else [s[0]]) + Kept(s[1..], removable)
  }

  /** Erasing removable characters keeps every other character, in order. */
  lemma {:induction false} ErasesKept(r: string, s: string, removable: char -> bool)
    requires Erases(r, s, removable)
    ensures Kept(r, removable) == Kept(s, removable)
    decreases |s|
  {
    if s != [] {
      if removable(s[0]) && Erases(r, s[1..], removable) {
        ErasesKept(r, s[1..], removable);
      } else {
        ErasesKept(r[1..], s[1..], removable);
      }
    }
  }

  /** `String.prototype.trimStart`. */
  function TrimStart(s: string): (r: string) {
    if s != [] && IsWhitespace(s[0]) then TrimStart(s[1..]) else s
  }

  /** `String.prototype.trimEnd`. */
  function TrimEnd(s: string): (r: string) {
    if s != [] && IsWhitespace(s[|s| - 1]) then TrimEnd(s[..|s| - 1]) else s
  }

  /** `String.prototype.trim`. */
  function Trim(s: string): (r: string) {
    TrimEnd(TrimStart(s))
  }

  /** `trimStart` drops the leading white space and nothing else. */
  lemma {:induction false} TrimStartSpec(s: string)
    ensures var r := TrimStart(s);
      && |r| <= |s| && r == s[|s| - |r|..]
      && AllWhitespace(s[..|s| - |r|])
      && (r == [] || !IsWhitespace(r[0]))
  {
    if s != [] && IsWhitespace(s[0]) {
      TrimStartSpec(s[1..]);
      var r := TrimStart(s);
      assert s[..|s| - |r|] == [s[0]] + s[1..][..|s| - 1 - |r|];
    }
  }

  /** `trimEnd` drops the trailing white space and nothing else. */
  lemma {:induction false} TrimEndSpec(s: string)
    ensures var r := TrimEnd(s);
      && |r| <= |s| && r == s[..|r|]
      && AllWhitespace(s[|r|..])
      && (r == [] || !IsWhitespace(r[|r| - 1]))
  {
    if s != [] && IsWhitespace(s[|s| - 1]) {
      var t := s[..|s| - 1];
      TrimEndSpec(t);
      var r := TrimEnd(s);
      assert s[|r|..] == t[|r|..] + [s[|s| - 1]];
    }
  }

  /** `trim` keeps a slice of `s` that neither starts nor ends with white space, and
      everything of `s` around that slice is white space. */
  lemma TrimSpec(s: string)
    ensures var r := Trim(s);
      && (r == [] || (!IsWhitespace(r[0]) && !IsWhitespace(r[|r| - 1])))
      && exists i :: 0 <= i <= |s| - |r| && s[i..i + |r|] == r
                     && AllWhitespace(s[..i]) && AllWhitespace(s[i + |r|..])
  {
    var t := TrimStart(s);
    TrimStartSpec(s);
    TrimEndSpec(t);
    var r := TrimEnd(t);
    var i := |s| - |t|;
    assert s[i..i + |r|] == r && s[i + |r|..] == t[|r|..];
  }

  /** `Array.prototype.join(sep)` on strings. */
  function Join(pieces: seq<string>, sep: string): (r: string)
  {
    if |pieces| == 0 then []
    else if |pieces| == 1 then pieces[0]
    else pieces[0] + sep + Join(pieces[1..], sep)
  }

  /** `String.prototype.split(c)` for a one-character separator: the pieces between
      occurrences of `c`; there is always at least one. */
  function Split(s: string, c: char): (r: seq<string>)
    ensures |r| >= 1
    ensures forall k :: 0 <= k < |r| ==> c !in r[k]
  {
    if s == [] then [[]]
    else
      var rest := Split(s[1..], c);
      if s[0] == c then [[]] + rest else [[s[0]] + rest[0]] + rest[1..]
  }

  lemma {:induction false} SplitPrefix(a: string, t: string, c: char)
    requires c !in a
    ensures Split(a + t, c) == [a + Split(t, c)[0]] + Split(t, c)[1..]
  {
    if a != [] {
      assert (a + t)[0] == a[0] && (a + t)[1..] == a[1..] + t;
      SplitPrefix(a[1..], t, c);
      assert [a[0]] + (a[1..] + Split(t, c)[0]) == a + Split(t, c)[0];
    } else {
      var r := Split(t, c);
      assert a + t == t && a + r[0] == r[0];
      assert r == [r[0]] + r[1..];
    }
  }

  /** Splitting a join of separator-free pieces gives back the pieces. */
  lemma {:induction false} SplitJoin(pieces: seq<string>, c: char)
    requires |pieces| >= 1
    requires forall k :: 0 <= k < |pieces| ==> c !in pieces[k]
    ensures Split(Join(pieces, [c]), c) == pieces
  {
    if |pieces| == 1 {
      SplitPrefix(pieces[0], [], c);
      assert pieces[0] + [] == pieces[0];
    } else {
      SplitJoin(pieces[1..], c);
      var tail := Join(pieces[1..], [c]);
      assert pieces[0] + [c] + tail == pieces[0] + ([c] + tail);
      SplitPrefix(pieces[0], [c] + tail, c);
      assert ([c] + tail)[0] == c && ([c] + tail)[1..] == tail;
      assert Split([c] + tail, c) == [[]] + Split(tail, c);
      assert pieces[0] + [] == pieces[0];
      assert pieces == [pieces[0]] + pieces[1..];
    }
  }
}
