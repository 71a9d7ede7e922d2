/** Worked inputs that show how the code differs from a loose reading of it: a markup
    tag closes at its first `>`, and an `endif` with no open `if` throws. */
module Scenarios {
  import opened Text
  import opened Tokenizer
  import opened Indenter
  import opened Formatter

  /** `<p>A</p>` is three tokens, not one element. */
  lemma LazyMarkup()
    ensures Tokenize("<p>A</p>") == ["<p>", "A", "</p>"]
  {
    var s := "<p>A</p>";
    assert s[0] == '<' && s[1] == 'p' && s[2] == '>' && s[3] == 'A';
    assert s[4] == '<' && s[5] == '/' && s[6] == 'p' && s[7] == '>';
    assert MarkupClose(s, 1) == Some(3) by {
      assert MarkupClose(s, 2) == Some(3);
    }
    assert MatchAt(s, 0) == Some(3);
    assert Exec(s, 0) == Some(RegexMatch(0, "<p>")) by {
      assert s[0..3] == "<p>";
    }
    assert RunEnd(s, 3) == 4 by {
      assert RunEnd(s, 4) == 4;
    }
    assert MatchAt(s, 3) == Some(4);
    assert Exec(s, 3) == Some(RegexMatch(3, "A")) by {
      assert s[3..4] == "A";
    }
    assert MarkupClose(s, 5) == Some(8) by {
      assert MarkupClose(s, 7) == Some(8);
      assert MarkupClose(s, 6) == Some(8);
    }
    assert MatchAt(s, 4) == Some(8);
    assert Exec(s, 4) == Some(RegexMatch(4, "</p>")) by {
      assert s[4..8] == "</p>";
    }
    assert Exec(s, 8) == None;
    assert Matches(s, 4) == [RegexMatch(4, "</p>")];
    assert Matches(s, 3) == [RegexMatch(3, "A"), RegexMatch(4, "</p>")];
    assert Matches(s, 0) == [RegexMatch(0, "<p>"), RegexMatch(3, "A"), RegexMatch(4, "</p>")];
  }

  /** A tag broken by a line break loses both its brackets: `<a\nb>` is the single
      text run `a\nb`. */
  lemma BrokenTag()
    ensures Tokenize("<a\nb>") == ["a\nb"]
  {
    var s := "<a\nb>";
    assert |s| == 5 && s[0] == '<' && s[1] == 'a' && s[2] == '\n' && s[3] == 'b' && s[4] == '>';
    assert MarkupClose(s, 1) == None by {
      assert MarkupClose(s, 2) == None;
    }
    assert MatchAt(s, 0) == None;
    assert RunEnd(s, 1) == 4 by {
      assert RunEnd(s, 4) == 4;
      assert RunEnd(s, 3) == 4;
      assert RunEnd(s, 2) == 4;
    }
    assert MatchAt(s, 1) == Some(4);
    assert Exec(s, 0) == Some(RegexMatch(1, "a\nb")) by {
      assert Exec(s, 1) == Some(RegexMatch(1, s[1..4]));
      assert s[1..4] == "a\nb";
    }
    assert MatchAt(s, 4) == None;
    assert Exec(s, 4) == None;
    assert Matches(s, 4) == [];
    assert Matches(s, 0) == [RegexMatch(1, "a\nb")];
  }

  /** The closing `>` of a broken tag is kept when a one-line tag opened on the same
      line ends at it. */
  lemma SharedClosingBracket()
    ensures Tokenize("<a\n\"<\">") == ["a\n\"", "<\">"]
  {
    var s := "<a\n\"<\">";
    assert |s| == 7 && s[0] == '<' && s[1] == 'a' && s[2] == '\n' && s[3] == '"' && s[4] == '<'
      && s[5] == '"' && s[6] == '>';
    assert MarkupClose(s, 1) == None by {
      assert MarkupClose(s, 2) == None;
    }
    assert MatchAt(s, 0) == None;
    assert RunEnd(s, 1) == 4 by {
      assert RunEnd(s, 4) == 4;
      assert RunEnd(s, 3) == 4;
      assert RunEnd(s, 2) == 4;
    }
    assert MatchAt(s, 1) == Some(4);
    assert Exec(s, 0) == Some(RegexMatch(1, "a\n\"")) by {
      assert Exec(s, 1) == Some(RegexMatch(1, s[1..4]));
      assert s[1..4] == "a\n\"";
    }
    assert MarkupClose(s, 5) == Some(7) by {
      assert MarkupClose(s, 6) == Some(7);
    }
    assert MatchAt(s, 4) == Some(7);
    assert Exec(s, 4) == Some(RegexMatch(4, "<\">")) by {
      assert s[4..7] == "<\">";
    }
    assert Exec(s, 7) == None;
    assert Matches(s, 7) == [];
    assert Matches(s, 4) == [RegexMatch(4, "<\">")];
    assert Matches(s, 0) == [RegexMatch(1, "a\n\""), RegexMatch(4, "<\">")];
  }

  /** Inside a broken tag the text is scanned afresh: a complete tag there is still a
      token, and the outer brackets are dropped. */
  lemma TagInsideBrokenTag()
    ensures Tokenize("<\n<b>>") == ["\n", "<b>"]
  {
    var s := "<\n<b>>";
    assert |s| == 6 && s[0] == '<' && s[1] == '\n' && s[2] == '<' && s[3] == 'b' && s[4] == '>' && s[5] == '>';
    assert MarkupClose(s, 1) == None;
    assert MatchAt(s, 0) == None;
    assert RunEnd(s, 1) == 2 by {
      assert RunEnd(s, 2) == 2;
    }
    assert MatchAt(s, 1) == Some(2);
    assert Exec(s, 0) == Some(RegexMatch(1, "\n")) by {
      assert Exec(s, 1) == Some(RegexMatch(1, s[1..2]));
      assert s[1..2] == "\n";
    }
    assert MarkupClose(s, 3) == Some(5) by {
      assert MarkupClose(s, 4) == Some(5);
    }
    assert MatchAt(s, 2) == Some(5);
    assert Exec(s, 2) == Some(RegexMatch(2, "<b>")) by {
      assert s[2..5] == "<b>";
    }
    assert MatchAt(s, 5) == None;
    assert Exec(s, 5) == None;
    assert Matches(s, 5) == [];
    assert Matches(s, 2) == [RegexMatch(2, "<b>")];
    assert Matches(s, 0) == [RegexMatch(1, "\n"), RegexMatch(2, "<b>")];
  }

  /** A lone control tag is a single token. */
  lemma EndifAlone()
    ensures Tokenize("{% endif %}") == ["{% endif %}"]
  {
    var s := "{% endif %}";
    assert |s| == 11 && s[0] == '{' && s[1] == '%' && s[9] == '%' && s[10] == '}';
    assert ControlTagAt(s, 0, 11);
    MatchAtIff(s, 0, 11);
    assert Exec(s, 0) == Some(RegexMatch(0, s)) by {
      assert s[0..11] == s;
    }
    assert Matches(s, 11) == [];
  }

  /** Its level would be -1, so `repeat` throws. */
  lemma EndifIndented()
    ensures Indented(["{% endif %}"]) == Failure(RangeError(-1))
  {
    var s := "{% endif %}";
    assert Trim(s) == s by {
      assert TrimStart(s) == s;
      assert TrimEnd(s) == s;
    }
    assert ClosesBlock(s) by {
      assert "{% endif" <= s;
    }
    assert [s][0] == s;
    assert IndentFold([s], 0, []) == Failure(RangeError(-1));
  }

  /** A stray `endif` makes the whole formatting fail. */
  lemma StrayEndif()
    ensures Format("{% endif %}") == Failure(RangeError(-1))
  {
    EndifAlone();
    EndifIndented();
  }
}
