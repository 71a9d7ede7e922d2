/** The re-indenting part of `formatEmarsys` in formatEmarsys.js: the text Prettier
    printed is tokenized, the tokens are indented by block depth, and blank lines are
    collapsed. Prettier itself is outside the model: its output is the input here. */
module Formatter {
  import opened Text
  import opened Tokenizer
  import opened Indenter
  import opened Collapse

  /** What `formatEmarsys` returns for the text Prettier printed, or the RangeError
      that escapes from `addIndentation`. */
  function Format(formatted: string): (r: Result<string>) {
    match Indented(Tokenize(formatted))
    case Failure(e) => Failure(e)
    case Success(text) => Success(CollapseBlankLines(text))
  }

  /** The last three statements of `formatEmarsys`: tokenize, indent, collapse. */
  method FormatEmarsys(formatted: string) returns (r: Result<string>)
    ensures r == Format(formatted)
  {
    var tokens := TokenizeContent(formatted);
    var indented := AddIndentation(tokens);
    match indented
    case Failure(e) =>
      r := Failure(e);
    case Success(text) =>
      r := Success(CollapseBlankLines(text));
  }

  /** The whole pipeline fails exactly when some `endif`, `else` or `elseif` has no
      open `if`, always with `repeat(-1)`; otherwise its result has no blank line, is
      the indented text with only white space removed, and is left alone by a second
      collapse. */
  lemma FormatSpec(formatted: string)
    ensures Format(formatted).Success? <==> Balanced(Tokenize(formatted))
    ensures Format(formatted).Failure? ==> Format(formatted).error == RangeError(-1)
    ensures Format(formatted).Success? ==>
              && BlankFree(Format(formatted).value)
              && Erases(Format(formatted).value, Indented(Tokenize(formatted)).value, IsWhitespace)
              && CollapseBlankLines(Format(formatted).value) == Format(formatted).value
  {
    var tokens := Tokenize(formatted);
    IndentedLinesSpec(tokens);
    if Indented(tokens).Success? {
      var text := Indented(tokens).value;
      CollapseBlankFree(text);
      CollapseErases(text);
      CollapseIdempotent(text);
    }
  }
}
