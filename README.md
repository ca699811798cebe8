# Word-guessing game in the terminal: a Dafny model

The game in `index.js` works like this. It loads a Ukrainian word list and
lowercases a secret word picked from it. It draws a board of six rows of five
`[ ]` cells. Then it handles one input line at a time:

- it trims and lowercases the line;
- it rejects the line unless it has five characters and is an entry of the
  list;
- otherwise it writes the guess into row `attempt`, one cell per letter:
  green when the letter is in place, yellow when the letter occurs anywhere in
  the secret, plain otherwise;
- it then ends the game on a win, or on a miss in the last row (disclosing the
  secret), or else moves `attempt` to the next row.

This project models that core in five modules:

- `Text` (`text.dfy`): `trim`, a simplified `toLowerCase`, and `split`/`join` on
  one separator character.
- `Library` (`library.dfy`): the word-list pipeline of `loadLibrary`. Each
  downloaded text is split into lines. Each line goes through
  `replace(/\#|\s.+/, '')`. The filter keeps entries of five characters with no
  apostrophe or hyphen. The lists are then flattened and sorted.
- `Feedback` (`feedback.dfy`): the per-letter classification `Correct | Present |
  Absent`, exactly as the code computes it. This is one pass with a membership
  test for `Present`.
- `View` (`view.dfy`): `color` and `renderMainViewState`, over abstract style
  tokens in place of ANSI escape strings.
- `Game` (`game.dfy`): the line handler as a pure function `Step` on a
  `Session` (the counter and the board). It also holds the class `Game`, which
  keeps the source's mutable state: the secret, an array of six row arrays,
  and the counter. `Game.Submit` overwrites the current row in place with a
  loop and is proved to agree with `Step`.

The source stops the process with `process.exit` on a win or a loss. Here
`Submit` returns `Won` or `Lost(secret)` instead, and its precondition forbids
calling it again after that.

Where the code departs from the usual rules of the game, the model follows
the code:

- Feedback is the single-pass membership rule, not a two-pass pool of
  unclaimed letters. So a repeated letter can be marked more often than the
  secret holds it (`Feedback.SinglePassOverCounts`: secret "level", guess
  "ellel" gives three marks for `l`).
- Invalid input is a single `Invalid` status. The code does not distinguish a
  wrong length from an unknown word.
- The word list is not deduplicated: the same word in two downloaded files
  appears twice.
- Guesses are compared with the raw entries, while the secret is lowercased.
  An entry with capitals whose lowercase form is not in the list therefore
  cannot be won (`Game.CapitalisedSecretUnwinnable`).
- The loss test is `attempt == MAX_ATTEMPTS - 1` before the increment. This
  gives the same result as "after six valid guesses".

## Model

| member | source | states |
|---|---|---|
| `Text.Trim` | index.js:102 | the result is the slice of the line between its leading and trailing white space; all that is removed is white space, and the result neither starts nor ends with white space |
| `Text.TrimIdempotent` | index.js:102 | trimming a trimmed line changes nothing |
| `Text.ToLower` | index.js:85 | lowercasing keeps the length and leaves no capital letter |
| `Text.ToLowerIdempotent` | index.js:102 | lowercasing twice is lowercasing once; a string without capitals is unchanged |
| `Text.Split` | index.js:69 | `split('\n')` gives at least one piece and no piece holds a newline; `Text.JoinSplit` and `Text.SplitJoin` state that it cuts the text at every newline and nowhere else |
| `Text.JoinSplit` | index.js:69 | joining the pieces of `split('\n')` with newlines gives back the downloaded text, so no character is lost by the split |
| `Text.SplitJoin` | index.js:69 | splitting newline-joined pieces that hold no newline returns exactly those pieces |
| `Library.StripEntry` | index.js:69 | `replace` never lengthens an entry; `Library.StripEntryCuts` states what it removes, and `Library.StripAnnotated`, `Library.StripBare`, `Library.StripFirstHash` and `Library.StripTrailingSpace` state which block goes for each shape of line |
| `Library.StripEntryCuts` | index.js:69 | `replace` leaves an entry unchanged or removes exactly one contiguous block, which starts with `#` or white space |
| `Library.CutToEnd` | index.js:69 | white space followed by at least one character of the same line is removed together with the rest of that line |
| `Library.StripAnnotated` | index.js:69 | a dictionary line `word<blank>tags` is reduced to the bare word |
| `Library.StripBare` | index.js:69 | a line without `#` or white space is kept whole |
| `Library.StripFirstHash` | index.js:69 | after a bare word, only the first `#` is removed and everything after it, later `#`s included, is kept (`a#b#c` becomes `ab#c`; `#word` becomes `word`) |
| `Library.StripTrailingSpace` | index.js:69 | a four-letter word followed by one blank survives the regular expression and passes the length filter as a five-character entry |
| `Library.Keep` | index.js:69 | the filter of line 69 (five characters, no `'`, no `-`); `Library.Kept` and `Library.KeptMembers` state that the kept entries are exactly the stripped lines that pass it |
| `Library.Kept` | index.js:69 | every entry that survives the filter has five characters and contains no apostrophe and no hyphen |
| `Library.KeptMembers` | index.js:69 | a word survives exactly when some line strips to it and it passes the filter |
| `Library.Flatten` | index.js:71 | a word is in the flattened list exactly when it is in one of the per-file lists |
| `Library.Sort` | index.js:71 | the sorted list is ordered by JavaScript string order and is a permutation of its input |
| `Library.LexLeq` | index.js:71 | the default string comparison of `sort`; `Library.LexTotal`, `Library.LexTransitive`, `Library.LexAntisymmetric` and `Library.LexReflexive` state that it is a total order |
| `Library.LexAntisymmetric` | index.js:71 | two strings each at most the other are equal |
| `Library.LexReflexive` | index.js:71 | every string is at most itself |
| `Library.LexTotal` | index.js:71 | any two strings are comparable under the string order the sort uses |
| `Library.LexTransitive` | index.js:71 | the string order is transitive |
| `Library.SortedPairwise` | index.js:71 | in the sorted list every entry is at most every later entry |
| `Library.LoadLibrary` | index.js:67-71 | the combined library is sorted, every entry passes the filter, and it holds exactly the kept entries of all files, duplicates included |
| `Library.LibraryMembers` | index.js:67-71 | a word is in the library exactly when it passes the filter and some line of some file strips to it |
| `Library.SortUnique` | index.js:71 | any sorted permutation of the input is the sort's result: the order of the library does not depend on the order of the files or of their lines |
| `Library.SortedEqual` | index.js:71 | two sorted lists with the same entries, counted with multiplicity, are equal |
| `Feedback.Classify` | index.js:114-123 | the mark of one guessed letter; `Feedback.Evaluate` states it position by position |
| `Feedback.Evaluate` | index.js:113-123 | position i is `Correct` iff the secret has the guessed letter at i; otherwise `Present` iff the letter occurs anywhere in the secret; `Absent` iff it does not occur at all |
| `Feedback.SecretAllCorrect` | index.js:114-118 | guessing the secret marks every position `Correct` |
| `Feedback.AllCorrectOnlyForSecret` | index.js:113-123 | a guess of the secret's length with every position `Correct` is the secret |
| `Feedback.MarkedIsGuessCount` | index.js:113-123 | the number of non-`Absent` marks for a letter is the number of times the guess holds it if the secret holds it at all, and zero otherwise, however few copies the secret has |
| `Feedback.CorrectBounded` | index.js:114-118 | `Correct` marks for a letter never outnumber its occurrences in the secret |
| `Feedback.SinglePassOverCounts` | index.js:113-123 | secret "level", guess "ellel" gives Present, Present, Present, Correct, Correct: three marks for `l` where the secret holds two |
| `View.Color` | index.js:57 | `color` wraps a text in a style switch and a reset; `View.PlainColor` states that it changes no visible character |
| `View.PlainColor` | index.js:57 | wrapping a text in a colour changes no visible character |
| `View.CellText` | index.js:118-122 | a cell as displayed (a blank cell is the `[ ]` of line 86); `View.CellShows` and `View.CellStyle` state its visible text and its style |
| `View.CellShows` | index.js:118-122 | every cell shows its guessed letter in brackets, or `[ ]` when blank, whatever its mark |
| `View.CellStyle` | index.js:117-123 | a correct cell starts with the green style, a present one with the yellow style, an absent one with no style |
| `View.RowText` | index.js:81 | `row.join('')`; `View.PlainRowText` states its visible text |
| `View.Render` | index.js:80-82 | `renderMainViewState`; `View.RenderCons`, `View.RenderAppend`, `View.PlainRender` and `View.RenderLines` state its text row by row |
| `View.RenderFromAppends` | index.js:80-82 | the `reduce` only appends to its accumulator |
| `View.RenderCons` | index.js:80-82 | the rendered board is the top row's text and a newline followed by the rendering of the remaining rows |
| `View.RenderAppend` | index.js:80-82 | rendering two stacked boards is rendering each and concatenating |
| `View.PlainRowText` | index.js:81 | the visible text of a joined row is the bracketed letters of its cells in order |
| `View.PlainRender` | index.js:80-82 | the visible board is the rows' texts joined by newlines, with a final newline |
| `View.RenderLines` | index.js:80-82 | splitting the visible board at newlines gives one line per row, in order, plus the empty tail |
| `Game.Initial` | index.js:84-86 | the starting session is well formed: its counter is in range and its board has six rows of five cells |
| `Game.InitialView` | index.js:86 | before any guess the board shows six lines `[ ][ ][ ][ ][ ]` |
| `Game.Normalize` | index.js:102 | `trim().toLowerCase()`; `Game.NormalizeIdempotent` states that a normalised answer is its own normal form |
| `Game.NormalizeIdempotent` | index.js:102 | normalising a normalised answer changes nothing: no white space is left at its ends and no capital remains |
| `Text.LowerKeepsSpace` | index.js:102 | lowercasing neither creates nor removes white space |
| `Game.Accepts` | index.js:103 | the validity test of line 103; `Game.StepRejects` and `Game.StepRewritesOneRow` state what the handler does when it fails and when it holds |
| `Game.GuessRow` | index.js:113-124 | the row written for a guess has one cell per guessed letter showing that letter |
| `Game.Step` | index.js:101-142 | handling a line keeps the counter inside the six rows and the board six rows of five cells |
| `Game.StepRejects` | index.js:102-109 | a line whose trimmed, lowercased form is not five characters long or not a library entry changes neither the counter nor any cell and yields `Invalid` |
| `Game.StepRewritesOneRow` | index.js:111-124 | an accepted line overwrites all five cells of row `attempt` with its letters and their marks and leaves every other row unchanged |
| `Game.StepCounter` | index.js:135-141 | the counter grows by exactly one when the status is `Continue`, stays put otherwise, and stays below `MAX_ATTEMPTS` |
| `Game.StepWinsOnSecret` | index.js:129-133 | entering the secret (any case, any surrounding white space) when it is a library entry wins on any row, the last included, with five `Correct` cells |
| `Game.StepLosesOnLastRow` | index.js:135-138 | a valid miss on the last row loses and discloses the secret |
| `Game.Run` | index.js:101-142 | any sequence of lines keeps the session well formed |
| `Game.RecordsPrepend` | index.js:111-141 | one accepted miss followed by recorded guesses is a record of all of them |
| `Game.RunInProgress` | index.js:111-141 | while no line has ended the game, the counter has advanced once per accepted line, the rows from the old counter on hold the accepted guesses in order (none of them the secret), and all other rows are unchanged |
| `Game.RunOfMisses` | index.js:135-141 | valid misses that fill the board end in `Lost(secret)` on the last row; fewer leave the game going with the counter advanced by their number |
| `Game.SixMissesLose` | index.js:135-138 | from a fresh board, six valid guesses that are not the secret lose |
| `Game.CapitalisedSecretUnwinnable` | index.js:103 | a secret lowercased from an entry whose lowercase form is not itself an entry can never be won |
| `Game.TrailingSpaceSecretUnwinnable` | index.js:102 | a secret ending in white space can never be entered, because input is trimmed |
| `Game.Game.constructor` | index.js:84-86 | the secret is the lowercased entry at the chosen index; the board is six fresh, distinct rows of five blanks; the counter is 0 |
| `Game.Game.Submit` | index.js:101-142 | the counter and board after the call, and the status returned, are exactly those of `Step` on the old state; the game is finished exactly after `Won` or `Lost` |

## Left out

- Downloading the word lists, the `library.json` cache and the asynchronous plumbing (index.js:8-15, 59-75) are I/O. The downloaded texts are the parameter `sources` of `Library.LoadLibrary`, and the game takes the library as a parameter.
- `random` (index.js:17-21) uses floating-point randomness. The constructor takes the picked index `k`, with `k < |library|`. An empty library makes the source throw at line 85, which is why that precondition exists.
- `readline`, the `close` handler, `console.log` messages, `rl.prompt` and `process.exit` (index.js:88-99, 126-138) are terminal I/O and process lifecycle. They become the returned `Status`. `Submit` does not produce the re-rendered board of line 126; `View.Render` of the board gives it.
- The ANSI escape table `Log` (index.js:23-55) is presentation. Styles are the abstract tokens `Escape(Green)`, `Escape(Yellow)` and `Reset`.
- `Text.ToLower` lowercases only the Latin and Cyrillic capitals (U+0041-005A, U+0400-042F, U+0490). Every other character is treated as having no lowercase form. Characters whose lowercase form is longer are not modelled.
- Strings are sequences of Unicode scalar values. JavaScript's `length` and default `sort` work on UTF-16 code units. The two agree for text in the Basic Multilingual Plane, which includes the whole Ukrainian alphabet.
- `Library.StripEntry` implements only the one regular expression of line 69, as leftmost-first matching. It is not a general regular-expression engine.
- `Game.Step` and `Game.Game.Submit` take the library as a sequence. `library.includes` is sequence membership.

