# MatrixType parsing contexts in Dafny

MatrixType turns a compact shorthand for expressions and matrices into LaTeX.
Its parser is a set of character-at-a-time parsing contexts (`parsing.js`):
a context receives one character through `accept`, updates its own fields
and answers with what becomes active next. This project models those
contexts and proves what each step does.

- `RootParsingContext` becomes `Parsing.RootContext`. It copies characters
  into its `compiled` text, writes `*` as `\times` and `;` as a LaTeX row
  break (two backslashes and a newline), and opens a matrix on `[`.
- `MatrixParsingContext` becomes `Parsing.MatrixContext`. It has the fields
  `aggregate` (the open cell's raw text), `rows` (rows of trimmed cells),
  `barIndex` (-1 while no bar was declared) and `error`. `,` and `|` close a
  cell, a newline closes a row, and `|` also declares the bar column. The
  row size and bar column checks record an error. On `]` the matrix renders
  a `\left[ \begin{array}{...} ... \end{array} \right]` block and appends it
  to its parent's text through the parent's `callback`.
- The answer of `accept` (`undefined`, a new child, or the parent) becomes
  the datatype `Parsing.Next` (`Stay`, `Pushed(child)`, `Popped(parent)`).
- `String.prototype.trim` and `Array.prototype.join` are modelled in module
  `Text`. The `]` renderer is `MatrixRendering.RenderBlock`. It keeps the
  source's two loops and is proved equal to the closed form
  `MatrixRendering.Block`.

`MatrixContext.Valid()` is the invariant that the constructor establishes and
`Accept` preserves:
- there is always a current row;
- a declared bar column is at least 1;
- every completed row is as long as the first;
- no cell or open cell spans a line, and every cell is trimmed;
- an error is one of the two matrix messages.

Errors are never cleared. As in the source, a recorded error does not stop
later characters from being processed.

Where the system's documented design and `parsing.js` differ, the model
follows `parsing.js`:
- there is no operator context: `*` and `;` are rewritten by the root
  directly and no other operator is recognised;
- inside a matrix, rows end at a newline. A `;` there is ordinary cell text,
  so `[1,2;3,4]` is a single row of three cells;
- no error latch: `accept` never consults `error`;
- the last row is not size-checked when `]` closes the matrix.

## Model

| member | source | states |
|---|---|---|
| `Parsing.RootContext.constructor` | parsing.js:2-5 | a context starts with empty compiled text and no error |
| `Parsing.RootContext.Callback` | parsing.js:7-10 | compiled becomes the mutator applied to the old compiled text; the error is untouched; the context itself is returned |
| `Parsing.RootContext.Accept` | parsing.js:21-31 | `[` returns a fresh matrix whose parent is this root, in its initial valid state, and leaves compiled unchanged; any other character returns Stay and appends `\times` for `*`, `\\`+newline for `;`, the character itself otherwise; the error never changes |
| `Parsing.MatrixContext.constructor` | parsing.js:35-40 | a matrix starts with the given parent, empty aggregate, rows `[[]]`, barIndex -1, no error, and satisfies Valid |
| `Parsing.MatrixContext.Accept` | parsing.js:42-88 | preserves Valid; never clears an error; per character: `]`, newline, `,`, `\|` and every other character change rows, aggregate, barIndex, error, compiled and the parent exactly as the five branches of the source do (each stated in full, including which fields stay unchanged and that only `]` touches the parent or returns it) |
| `Parsing.MatrixContext.Finish` | parsing.js:43-61 | the trimmed aggregate is added to the last row only when non-blank; compiled becomes the rendered block of the new rows; the parent's compiled text is its old text followed by that block (an append); the parent is returned; no row-size check |
| `Parsing.MatrixContext.EndRow` | parsing.js:62-70 | the trimmed aggregate always closes the last row; for a row other than the first whose size then differs from the first row's, the error becomes "Inconsistent row size!" and no row is opened and aggregate is kept; otherwise an empty row is appended and aggregate reset; Valid is preserved |
| `Parsing.MatrixContext.EndCell` | parsing.js:71-73 | the trimmed aggregate is appended to the last row only, aggregate becomes empty, the number of rows, barIndex and error are unchanged |
| `Parsing.MatrixContext.DeclareBar` | parsing.js:77-84 | with index the last row's size: an unset bar becomes index; a set bar stays, and the error becomes "Inconsistent matrix bar index!" exactly when index differs from it |
| `Parsing.PushCellWellFormed` | parsing.js:72 | pushing a cell onto the last row keeps the rows non-empty, every completed row as long as the first, and every entry a cell |
| `Parsing.OpenRowWellFormed` | parsing.js:65-68 | opening a new row after a first row, or after a row as long as the first, keeps the rows well formed |
| `Parsing.TrimmedIsCell` | parsing.js:64 | the trimmed text of a single-line aggregate is a trimmed single-line cell |
| `MatrixRendering.RenderBlock` | parsing.js:47-60 | the two loops of the renderer build exactly the closed-form block: head, column specification, rows joined by `\\`+newline with cells joined by ` & `, tail |
| `MatrixRendering.ColumnSpecStep` | parsing.js:48-53 | each loop iteration adds a `c`, followed by `\|` exactly when the column index is barIndex - 1 |
| `MatrixRendering.ColumnSpecCounts` | parsing.js:48-53 | the column specification has exactly rows[0].length `c` characters and one `\|` exactly when 1 <= barIndex <= rows[0].length (none otherwise) |
| `MatrixRendering.RowTexts` | parsing.js:55-58 | one text per row, in order, each the row's cells joined by ` & ` |
| `MatrixRendering.BodyLines` | parsing.js:56-59 | with no newline in any cell, the joined rows contain exactly one newline per row break (rows - 1) |
| `MatrixRendering.BlockLines` | parsing.js:47-60 | with no newline in any cell (which Valid guarantees), the rendered block has exactly rows + 3 newlines: one line per matrix row plus the environment's frame |
| `Text.LeadingSpaces` | parsing.js:44 | the number of leading whitespace characters: everything before it is whitespace and the character at it is not |
| `Text.TrailingSpacesStart` | parsing.js:44 | where the trailing whitespace begins: everything from it on is whitespace and the character before it is not |
| `Text.Trim` | parsing.js:44 | the result is a trimmed contiguous slice of the input and everything outside it is whitespace |
| `Text.TrimTrimmed` | parsing.js:64 | trimming a trimmed string is the identity, so trimming is idempotent |
| `Text.TrimEmptyIffBlank` | parsing.js:44 | `trim().length > 0` fails exactly when the aggregate is all whitespace (both directions) |
| `Text.TrimKeepsAbsent` | parsing.js:64 | trimming never introduces a character that was not there |
| `Text.Repeat` | parsing.js:49 | n copies of a character: length n, every element that character |
| `Text.JoinSnoc` | parsing.js:57 | joining one more part appends the separator and the part to the old joined text |
| `Text.CountJoin` | parsing.js:59 | occurrences of a character in a joined list are those in the parts plus those in the separator times (parts - 1) |
| `Scenarios.TwoByTwoBlock` | parsing.js:47-60 | rows `[[1,2],[3,4]]` without a bar render with spec `cc` and rows `1 & 2`, `3 & 4` |
| `Scenarios.BarAfterFirstColumn` | parsing.js:48-53 | barIndex 1 over two columns renders the spec `c\|c` |
| `Scenarios.BarOutOfRange` | parsing.js:50 | a barIndex beyond the first row's length draws no bar |

## Left out

- `main.js` (argument handling, file and standard streams, exit codes, the `data`/`end` events) is I/O plumbing and is not modelled.
- The `Parser` driver that `main.js` imports is not defined in `parsing.js`, which exports only `RootParsingContext`. There is therefore no driver loop, line/column tracking, re-feeding of characters or end-of-input finalisation to model.
- JavaScript class inheritance: `compiled` and `error` are declared in both context classes. `callback` is modelled on `RootContext` only. A matrix inherits it, but a matrix never has a child, so nothing ever calls it on a matrix.
- `parent` is typed `RootContext`, because only the root creates matrices.
- The `callback` mutator is a pure `string -> string` function. In the source the closure reads the matrix's `compiled` when it is called. It is called at once, so it reads the value it was given.
- `Parsing.MatrixContext.Accept` requires `Valid()`. Every matrix the source builds satisfies it, since matrices are only created by the constructor and changed by `accept`.
- `String.prototype.trim` uses a fixed whitespace predicate (`Text.IsSpace`): the ECMAScript WhiteSpace and LineTerminator characters. Characters are Dafny `char`s, and the model does not say whether the missing driver feeds UTF-16 code units or code points.
- JavaScript arrays of rows are modelled as `seq<seq<string>>` that are reassigned. No row array is shared, so in-place `push` and reassignment do the same thing.
