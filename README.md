# Word game board and guess rows, modelled in Dafny

A model of the core of a browser word-guessing game. The player has six rows in which to
guess a hidden word, and gets per-letter feedback after each guess.

- `wordblocks.dfy`, module `WordBlocks`, models one guess row (the `WordBlocks` component).
  Class `Row` holds an array of cells and the `busy` flag. Each cell has a letter (`""`
  while empty), an optional status (`Correct`, `Present`, `Absent`, `Idle`) and an
  `animating` flag. The methods `Input`, `Delete`, `Check` and `Reset` are the
  component's handlers. Each is proved against a function on the cell sequence
  (`AfterInput`, `AfterDelete`, `Resolved`) or against a direct description of the new
  state. The row invariant `Row.Valid` says four things:
  - there is at least one cell;
  - filled cells form a prefix of the row;
  - every letter is one upper-case letter;
  - a row that is not busy shows no feedback.
- `app.dfy`, module `App`, models the board controller (the `App` component). Class
  `Board` holds the target word, the six rows, `currentRow`, the outcome
  `gameStatus.won` and the modal flag.
  - Keystrokes reach a row only through the input gate (`disabled || busy`), written
    `Board.AcceptsInput`.
  - `Enter` checks the row and records its outcome, as the row's callbacks do.
  - `ResetGame` is `resetGame`, which is also the whole of "Do it again".
  - `NewWord` is "New Word": `resetGame`, then the fetched word arrives (`SetWord`).

Two behaviours of the source are kept as written:
- The loss test compares `currentRow` with the word's length, not with the number of
  rows. With a five-letter word this is the sixth row. With a shorter word the game is
  lost early. With a longer word it is never lost: `currentRow` moves to 6 and no row is
  enabled.
- `busy` is set by a check and cleared only by a reset. After a win or a loss no row
  takes input until the next reset.

Letter feedback has no duplicate-letter accounting. Every occurrence of a letter the
target contains is `Present` (or `Correct`), as `RepeatedLettersNotRationed` shows.

Behaviours of the code a reader might not expect:
- `resetGame` does not clear `gameStatus.won`.
- The modal has a flag of its own. After a reset the old outcome stays set while the
  modal is hidden.
- The loss test uses the word length as the row index, as described above.
- Delete clears the cell before the first empty one, or the last cell of a full row. On
  rows whose filled cells form a prefix this is "the last filled cell"
  (`DeleteClearsLastFilled`).

## Model

| member | source | states |
|---|---|---|
| `WordBlocks.Upper` | src/WordBlocks.tsx:84 | the stored letter is upper case: a lower-case ASCII letter moves down by 32, an upper-case one stays |
| `WordBlocks.FirstEmpty` | src/WordBlocks.tsx:82 | findIndex of the first empty cell: -1 exactly when no cell is empty, otherwise the lowest index of an empty cell |
| `WordBlocks.AfterInput` | src/WordBlocks.tsx:70-95 | the row is unchanged when no cell is empty or the input is not exactly one ASCII letter; otherwise the lowest-index empty cell, and only it, receives the upper-cased letter |
| `WordBlocks.Row.Input` | src/WordBlocks.tsx:70-95 | the cells become `AfterInput` of the old cells, in place, and the row invariant is kept |
| `WordBlocks.AfterDelete` | src/WordBlocks.tsx:97-111 | a full row loses its last letter; when the first empty index k is positive, cell k-1 is cleared; when the first cell is empty nothing changes |
| `WordBlocks.Row.Delete` | src/WordBlocks.tsx:97-111 | the cells become `AfterDelete` of the old cells, in place, and the row invariant is kept |
| `WordBlocks.DeleteClearsLastFilled` | src/WordBlocks.tsx:100-107 | on a row whose filled cells form a prefix, delete clears exactly the last filled cell, and an all-empty row is left unchanged |
| `WordBlocks.EmptyRowFilledPrefix` | src/WordBlocks.tsx:40-42 | a row of empty cells satisfies the filled-prefix shape |
| `WordBlocks.InputKeepsFilledPrefix` | src/WordBlocks.tsx:80-84 | input preserves the filled-prefix shape |
| `WordBlocks.InputThenDeleteRestores` | src/WordBlocks.tsx:80-110 | on a filled-prefix row with an empty cell, an accepted letter followed by delete restores the row exactly |
| `WordBlocks.DeleteKeepsFilledPrefix` | src/WordBlocks.tsx:97-110 | delete preserves the filled-prefix shape |
| `WordBlocks.EmptyHeadMeansEmptyRow` | src/WordBlocks.tsx:105 | on a filled-prefix row an empty first cell means the whole row is empty, so the "first empty index is 0" case is the all-empty row |
| `WordBlocks.Evaluate` | src/WordBlocks.tsx:136-142 | a cell is Correct iff its letter equals the target letter at its position, Present iff it differs there but the target contains it, Absent iff the target does not contain it; never Idle |
| `WordBlocks.CountCorrectBound` | src/WordBlocks.tsx:120-140 | the number of Correct cells never exceeds the row length |
| `WordBlocks.CountCorrectAll` | src/WordBlocks.tsx:152 | the count of Correct cells equals the row length iff every cell is Correct |
| `WordBlocks.ResolvedRow` | src/WordBlocks.tsx:134-152 | resolving every cell keeps the letters and the filled-prefix shape, and yields a full Correct count iff the guess spells the target |
| `WordBlocks.Row.ResolveCell` | src/WordBlocks.tsx:124-146 | one loop step: cell i gets its status and `animating` is false again; every other cell is unchanged; the step reports whether the cell is Correct |
| `WordBlocks.Decide` | src/WordBlocks.tsx:152-170 | the outcome rule after the pass: Won exactly when every letter was correct; Lost exactly when not all were and the row index equals the word length; Advance otherwise; never NotChecked |
| `WordBlocks.Row.Check` | src/WordBlocks.tsx:113-170 | with an empty cell nothing changes (so `busy` stays false and no status appears). Otherwise `busy` is set, each cell i gets `Evaluate` of its letter at i with `animating` false, and the outcome is `Decide` of the row's Correct count: Won iff the guess spells the word, Lost iff it does not and `currentRow` equals the word length, Advance otherwise |
| `WordBlocks.CheckedRowFeedback` | src/WordBlocks.tsx:122-146 | a full row whose cells have been resolved shows, cell by cell, exactly the statuses its letters earn against the target (`Statuses` of the row's letters) |
| `WordBlocks.CrateAgainstCrane` | src/WordBlocks.tsx:138-142 | a row holding CRATE, resolved against CRANE, shows correct, correct, correct, absent, correct |
| `WordBlocks.RepeatedLettersNotRationed` | src/WordBlocks.tsx:141 | a row holding EERIE, resolved against CRANE, shows all three E's present or correct although CRANE has one E |
| `WordBlocks.Row.constructor` | src/WordBlocks.tsx:38-42 | a new row has exactly word-length cells, all empty, with no status, and is not busy |
| `WordBlocks.Row.Reset` | src/WordBlocks.tsx:57-64 | reset replaces the cells by word-length empty cells and clears `busy` |
| `App.ExactlyOneEnabled` | src/App.tsx:53-60 | for 0 <= currentRow < 6 the only enabled row is row currentRow; otherwise no row is enabled |
| `App.FiveLetterWordLosesOnLastRow` | src/WordBlocks.tsx:161-170 | with a five-letter word a miss loses exactly on the sixth row and advances on every earlier row |
| `App.LongWordNeverLoses` | src/WordBlocks.tsx:161-170 | with a word of six or more letters a miss always advances, and after the sixth row no row is enabled |
| `App.ShortWordLosesEarly` | src/WordBlocks.tsx:161-167 | with a word shorter than five letters a miss on row word-length already loses |
| `App.MountRows` | src/App.tsx:53-69 | mounting creates six distinct fresh rows, each with word-length empty cells |
| `App.Board.constructor` | src/App.tsx:19-24 | the board starts on the loading screen: no word, no rows, row 0, no outcome, modal hidden |
| `App.Board.ResetRows` | src/App.tsx:48-50 | every row is reset; the board's own fields are unchanged |
| `App.Board.ResetGame` | src/App.tsx:45-51 | `currentRow` is 0, the modal is hidden, and every row is empty and not busy; the outcome and the word are unchanged ("Do it again", src/App.tsx:93-95, is exactly this) |
| `App.Board.Mount` | src/App.tsx:103-109 | the first non-empty word mounts six empty rows sized to it |
| `App.Board.SetWord` | src/App.tsx:34 | the new word is stored. An empty word unmounts the rows (only the loading state shows). A first word mounts six empty rows. A later word of the same length keeps the rows as they are. A word of another length gets resized empty rows. The board invariant holds afterwards |
| `App.Board.SetWordAsWritten` | src/App.tsx:34 | as the source runs it: an empty word unmounts the rows and a first word mounts six empty rows sized to it, but mounted rows keep their length and state whatever the new word's, so the board invariant fails when the length changes |
| `App.OtherLengthWordKeepsStaleRows` | src/App.tsx:81-84 | CRANE, then reset, then CAT as written leaves five-cell rows under a three-letter word |
| `App.Board.NewWord` | src/App.tsx:81-84 | "New Word": row 0, modal hidden, outcome unchanged, the new word stored, and every row empty (none while the word is empty) |
| `App.Board.AcceptsInput` | src/WordBlocks.tsx:193 | the input gate (a disabled or busy row ignores keys): a row that takes keystrokes is the rendered row `currentRow`, and it is not busy |
| `App.Board.Type` | src/WordBlocks.tsx:193-210 | a typed value changes only row i, and only when it accepts input (current row, not busy), to `AfterInput` of its cells |
| `App.Board.Backspace` | src/WordBlocks.tsx:193-199 | Backspace changes only row i, and only when it accepts input, to `AfterDelete` of its cells |
| `App.Board.CheckRow` | src/WordBlocks.tsx:200-202 | checking an accepting row keeps the board invariant and gives the row's check results |
| `App.Board.Record` | src/WordBlocks.tsx:152-170 | Won sets won to true and shows the modal. Lost sets won to false and shows the modal. Advance adds exactly 1 to `currentRow`. Nothing else changes |
| `App.Board.Enter` | src/WordBlocks.tsx:113-170 | Enter on a row that does not accept input, or on an accepting row that still has an empty cell, changes nothing and reports NotChecked. On an accepting row it checks the row and records the outcome. After a Won or Lost outcome `currentRow` has not moved and no row accepts input |

## Findings

| source | as written | input that shows it | evidently intended | confidence | as-written member | corrected member |
|---|---|---|---|---|---|---|
| src/App.tsx:81-84 (with src/WordBlocks.tsx:40-42, 57-68) | "New Word" resets each row with the current word's length before the fetched word arrives; row state is sized only at mount and at reset, so the rows keep the old length | a game on CRANE, then "New Word" returning CAT: the rows keep five cells for a three-letter word. The other way round (CAT, then CRANE) the render maps five letters over three-cell rows and reading the key of cell 3 throws (src/WordBlocks.tsx:181-187); the model does not render, and shows this case only as the broken board invariant | rows sized to the new word | medium (only if the word list mixes lengths); not executed | `App.Board.SetWordAsWritten`, `App.OtherLengthWordKeepsStaleRows` | `App.Board.SetWord` (used by `App.Board.NewWord`) |

## Left out

- The word fetch and the random choice of a word (src/App.tsx:28-39) are network I/O and
  randomness. The word is a parameter of `SetWord`/`NewWord`. A failed fetch is a
  `SetWord` that never happens.
- The `setTimeout` pauses inside the check loop (src/WordBlocks.tsx:131, 149) only pace
  the animation. The loop runs as sequential steps, and the intermediate
  `animating = true` state is written but never observed.
- React's scheduling is not modelled. The counter is incremented inside state-updater
  callbacks, and the model assumes each updater runs once, in order, when dispatched.
  Handlers see the current state rather than a stale closure.
- DOM focus handling, refs, `requestAnimationFrame` and the background-colour reset
  (src/WordBlocks.tsx:37, 46-50, 55, 65, 86-89, 104, 107) only affect presentation.
- The `uuidv4` keys (src/WordBlocks.tsx:41, 62) are rendering identity only.
- JSX, CSS classes, the portal modal and its context (src/MenuModal.tsx,
  src/context/ModalContext.tsx, src/main.tsx) are presentation. The modal is the flag
  `showModal`, and the restart buttons are `NewWord` and `ResetGame`.
- The `trim()` and non-empty test in the input's change handler (src/WordBlocks.tsx:208-209)
  are not modelled. `Board.Type` receives the string that the letter-input handler receives.
- Rows of zero cells are not modelled. Rows are mounted only for a non-empty word, so
  `Row` requires at least one cell, and a delete on a zero-length row, which would fail
  in the source, cannot arise.
