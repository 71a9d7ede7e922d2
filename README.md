# Emarsys template re-indenter, modelled in Dafny

`formatEmarsys.js` formats Emarsys Scripting Language templates (`.inc` files).
Prettier's HTML printer runs first. A small re-indenter then works on the text
Prettier printed, in three stages:

1. **Tokenizer** (`tokenizeContent`). It runs `regex.exec` in a loop with the global
   pattern `/({%.*?%})|(<.*?>)|([^<>{}%]+)/g`. Each match is one of three kinds:
   - a control tag `{% … %}`;
   - a markup tag `< … >`;
   - a run of text that contains none of `<>{}%`.
2. **Indenter** (`addIndentation`). It trims every token and keeps a block depth:
   - The depth goes down before printing on `{% endif`, `{% else` and `{% elseif`.
   - Each token is printed after two spaces per level.
   - The depth goes up after printing on `{% if`, `{% elseif` and `{% else`.
   - The printed lines are joined with newlines.
3. **Blank-line collapse**: `.replace(/\n\s*\n/g, '\n')`.

The model has one module per stage, plus a few shared pieces:
- `Text` holds the ECMAScript character classes, `trim`, `join`/`split`, and the relation
  "`r` is `s` with only some removable characters deleted".
- `Tokenizer`:
  - `MatchAt` is what the pattern matches at one position. `TokenAt` describes the same
    thing independently: a minimal tag or a maximal run.
  - `Exec` is the leftmost-match search.
  - The method `TokenizeContent` is the `exec` loop. It is proved to return `Tokenize`.
- `Indenter`:
  - `IndentFold` is the fold with the depth as an accumulator.
  - `'  '.repeat(level)` becomes `Repeat`. It returns `Failure(RangeError(count))` for a
    negative count, as `String.prototype.repeat` does (section 22.1.3 of ECMA-262).
  - The method `AddIndentation` is the loop. It is proved to return `Indented`.
  - The depth is characterised as a count: the `{% if` tokens before a token, minus the
    `{% endif` tokens before it, minus one when the token itself closes a block (`LevelAt`).
- `Collapse`:
  - `BlankAt` is where one match of `\n\s*\n` ends. It is proved to be the longest of the
    possible matches.
  - `CollapseBlankLines` is the left-to-right `replace` over the whole text.
- `Formatter`: the method `FormatEmarsys` composes the three stages as lines 59-61 do.
- `Scenarios`: small worked inputs.

Notes on the code's behaviour:
- A markup tag is lazy. `<p>A</p>` is three tokens (`<p>`, `A`, `</p>`), not one element
  (`Scenarios.LazyMarkup`).
- `.` does not match a line terminator (section 22.2 of ECMA-262). So a tag with a line
  break inside is not a token. The `<` or `{%` that opens it and the `>` or `%}` that
  closes it match nothing, unless one of them also belongs to a complete one-line tag:
  `<a\n"<">` tokenizes as `a\n"` and `<">` (`Scenarios.SharedClosingBracket`).
  The text between them is tokenized like any other text. Its own `<>{}%` characters are dropped, and a complete
  one-line tag inside it is still a tag token. `<a\nb>` tokenizes as the single token
  `a\nb` (`Scenarios.BrokenTag`); `<\n<b>>` tokenizes as `\n` and `<b>`
  (`Scenarios.TagInsideBrokenTag`).
- An `endif`, `else` or `elseif` with no open `if` brings the depth to -1. Then `'  '.repeat(-1)`
  throws a RangeError, and the whole formatting fails. The depth is never silently
  negative (`Indenter.IndentedLinesSpec`, `Scenarios.StrayEndif`).
- The collapse is idempotent. After one pass no blank line is left, and a text without
  blank lines is a fixed point (`Collapse.CollapseIdempotent`, `Collapse.CollapseFixedPoints`).

## Model

| member | source | states |
|---|---|---|
| Text.Trim | formatEmarsys.js:20 | `token.trim()`: strips leading then trailing ECMAScript white space; its meaning is stated by `Text.TrimSpec` |
| Text.Join | formatEmarsys.js:30 | `.join('\n')`: `[]` gives `""`, one piece gives itself, otherwise pieces with the separator between; `Indenter.OutputLines` shows that, when no piece holds a newline, splitting at `\n` recovers the pieces |
| Text.TrimSpec | formatEmarsys.js:20 | `token.trim()` keeps a contiguous slice of the token that neither starts nor ends with white space, and only white space lies around it |
| Tokenizer.TokenKindsExclusive | formatEmarsys.js:7 | no string has two of the three token shapes, so every token is of exactly one kind |
| Tokenizer.ControlClose | formatEmarsys.js:7 | the lazy `.*?%}` ends at the first `%}` after the body starts, provided no line terminator comes before it; with no such `%}` it fails |
| Tokenizer.MarkupClose | formatEmarsys.js:7 | the lazy `.*?>` ends at the first `>`, provided no line terminator comes before it; with no such `>` it fails |
| Tokenizer.RunEnd | formatEmarsys.js:7 | the greedy `[^<>{}%]+` stops exactly at the first delimiter or at the end of the input |
| Tokenizer.MatchAt | formatEmarsys.js:7 | a match at a position is a token shape (`TokenAt`); no match happens only at a delimiter where no token shape starts |
| Tokenizer.TokenAtUnique | formatEmarsys.js:7 | at one position at most one end fits a token shape |
| Tokenizer.MatchAtIff | formatEmarsys.js:7 | the pattern matches `s[p..e]` exactly when `s[p..e]` is a minimal control tag, a minimal markup tag, or a maximal text run |
| Tokenizer.Exec | formatEmarsys.js:9 | `exec` from `lastIndex` returns the leftmost position at or after it where the pattern matches, with the matched text; no position before it matches; it returns nothing only when no position matches |
| Tokenizer.Tokenize | formatEmarsys.js:5-13 | the tokens: the texts of the successive leftmost matches from index 0; stated by `TokenShapes`, `MatchesOrdered`, `TokensCover` and `PlainText`, and returned by `TokenizeContent` |
| Tokenizer.TokenizeContent | formatEmarsys.js:5-13 | the `exec` loop ends and returns exactly the texts of the successive leftmost matches (`Tokenize`) |
| Tokenizer.MatchesInInput | formatEmarsys.js:9-11 | every match is a substring of the input at its reported index, has a token shape, and is non-empty |
| Tokenizer.MatchesOrdered | formatEmarsys.js:9-11 | each match starts at or after the end of the previous one: the matches are in order and do not overlap |
| Tokenizer.TokenShapes | formatEmarsys.js:7 | every token is `{%x%}` or `<y>` with no line terminator and no earlier closing delimiter inside, or a non-empty run free of `<>{}%` |
| Tokenizer.RunsAreMaximal | formatEmarsys.js:7 | after a text-run token the input ends or continues with a delimiter |
| Tokenizer.MatchesCover | formatEmarsys.js:9-11 | the matches from `lastIndex` on, concatenated, are the rest of the input with some delimiters deleted |
| Tokenizer.ConcatIsJoin | formatEmarsys.js:9-11 | running the tokens together is joining them with the empty separator |
| Tokenizer.TokensCover | formatEmarsys.js:5-13 | the tokens, concatenated, are the input with only characters from `<>{}%` deleted, so every other character appears in input order |
| Tokenizer.PlainText | formatEmarsys.js:7-11 | an input with none of `<>{}%` is one token, or no token when it is empty |
| Indenter.Repeat | formatEmarsys.js:24 | `'  '.repeat(n)` throws exactly when `n` is negative, with a RangeError for that `n` |
| Indenter.RepeatUnit | formatEmarsys.js:24 | `'  '.repeat(n)` for `n >= 0` is `2n` spaces |
| Indenter.IndentFold | formatEmarsys.js:19-29 | the `map` callback as a fold with the level as accumulator: trim, lower on a closing tag, `repeat`, raise on an opening tag, stopping at the first RangeError; stated by `IndentFoldOutcome` and `IndentFoldLines` |
| Indenter.Indented | formatEmarsys.js:16-31 | the return value of `addIndentation`: the fold's pieces joined with `\n`, or its RangeError; stated by `IndentedLinesSpec` and `OutputLines`, and returned by `AddIndentation` |
| Indenter.AddIndentation | formatEmarsys.js:16-31 | the `map` with a mutable `indentLevel`, then the `join`, returns the fold `Indented` or the RangeError that escapes from `repeat` |
| Indenter.LevelStep | formatEmarsys.js:21-27 | over one token the level changes by +1 for `{% if`, by -1 for `{% endif`, and by 0 for `{% else` and `{% elseif` |
| Indenter.IndentFoldOutcome | formatEmarsys.js:21-24 | from a level of at least 0, the fold succeeds exactly when no closing token meets a level of 0; when it fails, the error is `RangeError(-1)` |
| Indenter.IndentFoldLines | formatEmarsys.js:18-29 | a successful fold adds one line per token, in order: token `k` is printed as `2 * (level + LevelAt(k))` spaces and then the trimmed token |
| Indenter.IndentedLinesSpec | formatEmarsys.js:16-31 | `addIndentation` throws exactly when the tokens are not `Balanced`, and always with `RangeError(-1)`; otherwise line `k` is `2 * LevelAt(k)` spaces and then the trimmed token, with `LevelAt(k) >= 0`; no tokens give `""` |
| Indenter.BalancedPrefixes | formatEmarsys.js:21-27 | in balanced tokens no prefix has more `{% endif` than `{% if`: the level never goes below 0 |
| Indenter.OutputLines | formatEmarsys.js:18-30 | when no trimmed token holds a newline, splitting the output at `\n` gives exactly one line per token, each at its counted level |
| Collapse.WhitespaceEnd | formatEmarsys.js:61 | `\s*` taken greedily: the end of the white-space run, where the text ends or a non-white-space character follows |
| Collapse.BlankAt | formatEmarsys.js:61 | where the match of `\n\s*\n` starting at a position ends: at the last newline of the white space after a newline; stated by `BlankAtSpec` |
| Collapse.CollapseBlankLines | formatEmarsys.js:61 | the `replace`: each match, left to right and without overlap, becomes one `\n`, other characters are copied; stated by `CollapseErases`, `CollapseBlankFree`, `CollapseFixedPoints` and `CollapseIdempotent` |
| Collapse.BlankAtSpec | formatEmarsys.js:61 | the match at a position is a newline, white space and a newline, and it is the longest such; there is no match exactly when no such span starts there |
| Collapse.CollapseErases | formatEmarsys.js:61 | the collapse deletes only white-space characters, so every other character stays, in its order |
| Collapse.MatchIsBlankLine | formatEmarsys.js:61 | wherever the pattern matches, the text contains a blank line |
| Collapse.CollapseBlankFree | formatEmarsys.js:61 | after the collapse no newline is followed by only white space and another newline |
| Collapse.CollapseFixedPoints | formatEmarsys.js:61 | the collapse leaves a text unchanged exactly when the text has no blank line |
| Collapse.CollapseIdempotent | formatEmarsys.js:61 | collapsing twice gives the same text as collapsing once |
| Formatter.Format | formatEmarsys.js:59-61 | tokenize, indent, then collapse, or the RangeError of the indenter; stated by `FormatSpec` and returned by `FormatEmarsys` |
| Formatter.FormatEmarsys | formatEmarsys.js:59-61 | tokenize, indent and collapse in sequence return `Format` of the text Prettier printed, or the RangeError |
| Formatter.FormatSpec | formatEmarsys.js:59-61 | formatting fails exactly when the tokens are unbalanced, always with `RangeError(-1)`; a result has no blank line, is the indented text with only white space removed, and is unchanged by another collapse |
| Scenarios.LazyMarkup | formatEmarsys.js:7 | `<p>A</p>` tokenizes as `<p>`, `A`, `</p>` |
| Scenarios.BrokenTag | formatEmarsys.js:7 | `<a\nb>` tokenizes as the single token `a\nb`: both brackets of a tag broken by a line break are dropped |
| Scenarios.SharedClosingBracket | formatEmarsys.js:7 | `<a\n"<">` tokenizes as `a\n"` and `<">`: the broken tag's opening `<` is dropped, and its closing `>` ends the one-line tag opened on its last line |
| Scenarios.TagInsideBrokenTag | formatEmarsys.js:7 | `<\n<b>>` tokenizes as `\n` and `<b>`: the broken tag's brackets are dropped, and the complete tag inside it is still a token |
| Scenarios.EndifAlone | formatEmarsys.js:7 | `{% endif %}` on its own is one control-tag token |
| Scenarios.EndifIndented | formatEmarsys.js:21-24 | indenting the single token `{% endif %}` throws `RangeError(-1)` |
| Scenarios.StrayEndif | formatEmarsys.js:59-61 | formatting `{% endif %}` fails with `RangeError(-1)` |

## Left out

- The Prettier call and its options (formatEmarsys.js:37-50). It is an external library.
  The model takes the text Prettier printed as its input.
- The `typeof formatted !== 'string'` guard, the error messages and the `process.exit`
  calls (formatEmarsys.js:47-56, 74-77). They are process control with no computation.
- `formatFile`, reading and writing the file, the success message and the `argv`
  handling (formatEmarsys.js:64-79). These are I/O.
- The exception itself. `repeat`'s RangeError is not caught anywhere and ends the
  script. The model returns it as a `Failure` value.
- String units. JavaScript strings are UTF-16 code units, while the model works on Dafny
  `char`s (Unicode scalar values). A character outside the Basic Multilingual Plane is
  two units in the source and one `char` here. None of the characters the code tests
  for is affected.
- The Unicode tables behind `trim` and `\s`. White space is an explicit list: the
  ECMAScript WhiteSpace and LineTerminator code points, with the space separators
  spelled out. A code point added to the space separators later is not in the list.
- `indentLevel` is a JavaScript number. The model uses an unbounded integer. The level
  never exceeds the number of tokens, far below where doubles lose precision.
- String length limits. `repeat` throws when its result would be longer than the
  engine's maximum string length, and so does the `join` at line 30. Deep nesting makes
  the joined output grow quadratically with the depth, so a large enough input reaches
  that limit. The model's strings are unbounded, so it has no such error.
- The regular-expression engine in general. Only the two fixed patterns are modelled,
  each by its own matcher, whose results are stated and proved.
