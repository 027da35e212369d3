# Kanban board state, modelled in Dafny

This project models the state manager of a single-page kanban board (`src/App.js`).
The board is an ordered list of columns. Each column has a `columnId`, a `name` and an
ordered list of cards `{id, label}`. The seed board has two columns: `column-a`
("Upcoming") takes new cards, and `column-b` ("Finished") allows deletion. Beside the
board the component keeps a drag session (`draggingId`, `draggingLabel`, `mousePos`) and
the text buffer of the add-card input (`newCardLabel`).

Files:

- `strings.dfy` (module `Strings`): JavaScript's `String.prototype.trim`, over the
  WhiteSpace and LineTerminator code points of ECMA-262 (sections 12.2 and 12.3).
- `board.dfy` (module `Board`): the `Card` and `Column` datatypes, the seed board, and the
  pure column updates the handlers pass to `setColumns`. Each is a function over
  `seq<Column>`. The lemmas state what the updates do. `BoardIds` is the multiset of card ids
  across all columns. `WellFormed` is the board invariant: card ids are unique and column
  ids are unique.
- `app.dfy` (module `Component`): class `App`, with one field per `useState` and one method
  per handler. `Valid()` is the drag-session invariant: `draggingId` is absent exactly when
  `draggingLabel` is absent. The board invariant is carried as
  `old(WellFormed(columns)) ==> WellFormed(columns)`. This way the constructor can start
  from any saved board. `Valid()` reads only the two drag fields. The constructor,
  `HandleMouseDown` and `HandleMouseUp` ensure it. Every other handler's `modifies` clause
  leaves both fields unchanged, so those handlers keep it too.
- `multisets.dfy` (module `Multisets`): small multiset facts stated for any element type.

Behaviours of the code worth knowing:

- Adding appends to every column whose id is `column-a`. It clears the buffer even when
  there is no such column, and then the text is lost (`AppendToSourceWithoutSource`).
- Deleting filters out every card with the id, not just one card.
- Entering a column throws when the dragged card is on no column (`src/App.js:93`). This is
  a fatal error. The model requires the card to be on the board.
- Entering a column that does not exist drops the card (`EnterMissingColumnDropsCard`).
  When two cards share an id, both leave their column but only one arrives
  (`DuplicateIdsLoseCard`). So conservation holds only under unique card ids. It also
  needs unique column ids, because the update appends to every column with the target id.
- A saved snapshot that is present is parsed without a fallback. Only an absent or empty
  snapshot falls back to the seed board.

## Model

| member | source | states |
|---|---|---|
| `Strings.TrimStart` | src/App.js:36 | the result is the suffix left after dropping leading whitespace; everything dropped is whitespace and the result does not start with whitespace |
| `Strings.TrimEnd` | src/App.js:36 | the result is the prefix left after dropping trailing whitespace; everything dropped is whitespace and the result does not end with whitespace |
| `Strings.Trim` | src/App.js:36 | `trim()` returns a contiguous slice of the input with only whitespace outside it, and a non-empty result neither starts nor ends with whitespace |
| `Strings.TrimEmptyIffBlank` | src/App.js:36-37 | the trimmed text is empty exactly when the input is all whitespace, so the handler ignores exactly the blank inputs |
| `Strings.TrimIdempotent` | src/App.js:36 | trimming an already trimmed label changes nothing |
| `Board.InitialColumnsWellFormed` | src/App.js:4-21 | the seed board has `column-a` then `column-b`, holds the ids a, b, c and d once each, and satisfies the board invariant |
| `Board.WithoutCard` | src/App.js:60 | the filter never grows the list and keeps no card with the id |
| `Board.WithoutCardMembers` | src/App.js:60 | a card survives the filter exactly when it was in the list and its id differs |
| `Board.WithoutCardAppend` | src/App.js:60 | the filter distributes over concatenation, so the kept cards stay in order |
| `Board.WithoutCardAbsent` | src/App.js:60 | filtering an id that no card has returns the list unchanged |
| `Board.WithoutCardIds` | src/App.js:60 | the filter removes every occurrence of the id and no other id |
| `Board.WithoutUniqueCard` | src/App.js:60 | when the id occurs once, at position k, the filter removes exactly position k and keeps the rest in order |
| `Board.SourceIndex` | src/App.js:90-92 | `find` returns the first column holding a card with the id |
| `Board.FindCard` | src/App.js:95 | `find` returns the first card with the id |
| `Board.AppendToSource` | src/App.js:39-51 | the add update keeps the number, order, names and ids of the columns |
| `Board.AppendToSourceAppends` | src/App.js:39-51 | with one `column-a`, the new card becomes its last card, every other column is unchanged, and the board gains exactly the new id |
| `Board.AppendToSourceWithoutSource` | src/App.js:40-50 | with no `column-a` column the add update changes nothing |
| `Board.AppendToSourceKeepsInvariant` | src/App.js:39-51 | adding a card whose id is not on the board keeps card ids and column ids unique |
| `Board.DeleteCard` | src/App.js:56-64 | delete keeps the column list's shape, leaves every column other than `column-b` unchanged, and leaves no card with the id in `column-b` |
| `Board.DeleteAbsentIsNoop` | src/App.js:56-64 | deleting an id that `column-b` does not hold (for instance a `column-a` card) leaves the board unchanged |
| `Board.DeleteCardRemovesOne` | src/App.js:56-64 | on a well-formed board, deleting a `column-b` card removes exactly that card. The other cards keep their order, other columns are untouched, the board loses exactly that id, and the invariant holds |
| `Board.DeleteCardKeepsInvariant` | src/App.js:56-64 | deleting any id keeps the board invariant |
| `Board.EnterColumn` | src/App.js:89-106 | the move update keeps the number, order, names and ids of the columns |
| `Board.MoveCard` | src/App.js:97-105 | the `prev.map` of the move keeps the number, order, names and ids of the columns |
| `Board.EnterHoldingColumnIsNoop` | src/App.js:89-93 | with unique card ids, entering the column that holds the dragged card returns the board unchanged |
| `Board.EnterColumnMoves` | src/App.js:95-105 | on a well-formed board, moving to another column takes the card out of its column (the rest keep their order) and makes it the last card of the target; every other column is unchanged |
| `Board.EnterColumnConserves` | src/App.js:95-105 | on a well-formed board, a move to an existing column keeps the multiset of card ids and the board invariant |
| `Board.EnterColumnIdempotent` | src/App.js:89-105 | entering the same existing column twice gives the board that entering it once gives |
| `Board.EnterMissingColumnDropsCard` | src/App.js:97-105 | as written, entering a column id that no column has removes the card from the board |
| `Board.DuplicateIdsLoseCard` | src/App.js:99-102 | as written, with two cards sharing an id both leave their column and only the first reaches the target |
| `Board.SeedDragIntoFinished` | src/App.js:86-106 | on the seed board, moving "a" into `column-b` and entering `column-b` again leaves "a" once, as the last card of `column-b` |
| `Component.App.constructor` | src/App.js:24-32 | the state starts with the saved board (or the seed board, which is well formed), no drag, the pointer at (0, 0) and an empty buffer |
| `Component.App.SetNewCardLabel` | src/App.js:149 | typing replaces the buffer and changes nothing else |
| `Component.App.HandleAddCard` | src/App.js:35-53 | blank input leaves columns and buffer unchanged. Otherwise the card with the trimmed text is added by `AppendToSource` and the buffer is cleared. The drag session is untouched and the board invariant is kept |
| `Component.App.HandleDeleteCard` | src/App.js:56-64 | the columns become `DeleteCard` of the old columns; nothing else changes and the board invariant is kept |
| `Component.App.HandleMouseMove` | src/App.js:72-75 | the pointer is updated only while a card is dragged; nothing else changes |
| `Component.App.HandleMouseDown` | src/App.js:78-83 | the dragged id, label and pointer are set together, so the drag invariant holds |
| `Component.App.HandleMouseEnterColumn` | src/App.js:86-107 | without a drag the columns are unchanged. During a drag they become `EnterColumn` of the old columns. A well-formed board stays well formed and keeps its multiset of card ids |
| `Component.App.HandleMouseUp` | src/App.js:110-113 | the drag id and label are both cleared whether or not a move happened; the board is untouched |

## Left out

- Rendering (JSX, CSS classes, the floating copy's pixel offset, `src/App.js:115-171`): presentation only. The input's `onChange` is kept as `SetNewCardLabel`.
- Persistence through `localStorage` and `JSON.parse`/`JSON.stringify` (`src/App.js:24-27`, `67-69`): browser I/O and a foreign library. The constructor takes the already parsed snapshot as an `Option`, so the save/reload round trip is not modelled. A corrupt snapshot would throw and is not modelled either.
- `Component.App.HandleAddCard`: the id made by `Date.now().toString()` is a parameter, and the method requires it not to be on the board. Two cards created in the same clock tick would collide, and the model does not cover that.
- `Component.App.HandleMouseEnterColumn`: requires the dragged card to be on the board, because the source throws otherwise. It also requires the target column to exist. As written a missing target silently drops the card, which `Board.EnterMissingColumnDropsCard` states about the pure update.
- React machinery (`useState` batching, `useCallback` closures, `useEffect` timing) and DOM events (`preventDefault`, reading `clientX`/`clientY`): each handler is one atomic transition, and pointer coordinates are integer parameters.
- JavaScript strings are UTF-16. Here strings are sequences of Unicode scalar values. All characters `trim` removes are single UTF-16 units, so the two views agree on trimming.
