# Order table state engine

A Dafny model of the state held by the order-table widget in `src/App.tsx`.
The widget shows a grid of orders (rows) against processing steps (columns).
Each cell is a boolean. A row can be put in edit mode, and only then do clicks
flip its cells. Rows can be added, and deleted after a confirmation prompt.

The component keeps seven state slots: `columns`, `rows` (each `{id, cells}`),
`orderNames`, the sparse edit map `isEditing`, `showModal`, `rowToDelete` and
the label counter `maxOrderNumber`. Six handlers and the initial generation
update them. Each handler reads the state as last drawn and writes all its
setters together, so each one is modelled as one atomic transition.

Layout:

- `labels.dfy` (module `Labels`): the rendered label `"Заказ " + n`. The decimal
  text of `n` reads back to `n`, so distinct label numbers give distinct labels.
- `table.dfy` (module `Table`): the pure transformations inside the handlers
  (flip a cell, toggle an edit flag, filter rows by id, renumber, drop a label,
  re-key the edit map, recompute the counter). It also holds the lemmas that
  tie them to positions, and `TableInvariant`, the invariant every handler keeps.
- `app.dfy` (module `App`): class `OrderTable`. It has one field per state slot
  and one method per handler. `Valid()` is its object invariant. Small client
  methods replay the worked scenarios.

`orderNames` holds label numbers. Row `i` is shown as `Labels.Label(orderNames[i])`.

Properties proved beyond the handlers' own effects:

- Ids equal positions after every handler. Deleting re-establishes this by renumbering.
- Label numbers stay strictly increasing and never exceed `maxOrderNumber`.
  So a freshly minted label never repeats a label in the table.
- The counter recompute on delete fires only when the labels are exactly
  `1 .. |rows|` and the last row is deleted (`Table.RecomputeOnlyWhenLabelsFull`).
  Hence, although the recomputed value ignores gaps left by earlier deletes, it
  never causes a duplicate label.

## Model

| member | source | states |
|---|---|---|
| `Labels.Label` | src/App.tsx:25 | a label is the fixed prefix "Заказ " followed by the number's text |
| `Labels.Decimal` | src/App.tsx:63 | the number's text is non-empty, all decimal digits, with no leading zero |
| `Labels.DecimalRoundTrip` | src/App.tsx:63 | reading the decimal text of n gives back n |
| `Labels.LabelInjective` | src/App.tsx:63 | two label numbers render to the same label only if they are equal |
| `Table.Flip` | src/App.tsx:72 | the new cells have the same length and differ from the old ones exactly at column c |
| `Table.ToggleRows` | src/App.tsx:68-74 | same length and ids; every row whose id is r gets its cells flipped at column c; rows whose id is not r are unchanged; ids-are-positions and the cell width are kept |
| `Table.ToggleRowsAt` | src/App.tsx:67-76 | when ids are positions, a cell changes if and only if it is cell c of row r |
| `Table.IsEditing` | src/App.tsx:67 | a row without an entry in the edit map is not being edited; otherwise its entry decides |
| `Table.ToggleFlag` | src/App.tsx:116-118 | row r's flag becomes the negation of its old value (absent counts as false); every other key keeps its value; only r may be added |
| `Table.ToggleFlagTwice` | src/App.tsx:116-118 | toggling a row twice restores every row's edit state |
| `Table.FilterOutId` | src/App.tsx:86 | the kept rows are rows of the input and none has id t; every row whose id is not t is kept; the result is shorter when some row has id t |
| `Table.Renumber` | src/App.tsx:86 | the same number of rows, with their cells, each carrying its position as id |
| `Table.FilterOutAbsentId` | src/App.tsx:86 | filtering out an id no row has keeps every row |
| `Table.FilterOutIdAt` | src/App.tsx:86 | when ids run base, base+1, ..., filtering out id t removes exactly position t-base |
| `Table.DeleteRows` | src/App.tsx:86 | for any rows, the result is no longer than the input, its ids are positions, and the cell width is kept |
| `Table.DeleteRowsCorrect` | src/App.tsx:85-86 | deleting row t leaves one row fewer; ids are the new positions; rows before t keep their cells; rows after t move up one with their cells; the cell width is kept |
| `Table.RemoveAt` | src/App.tsx:87 | the label at index t is removed; labels before t stay put; labels after t move down by one |
| `Table.Rekey` | src/App.tsx:100-106 | every entry other than t's lands on its shifted key with its value; every new key comes from an old key |
| `Table.RekeyKeepsLower` | src/App.tsx:100-106 | an entry whose key is below t keeps its key and value |
| `Table.RekeyMovesDown` | src/App.tsx:100-106 | an entry whose key k is above t moves to k-1 with its value |
| `Table.RekeyAtDeleted` | src/App.tsx:100-106 | t is a key afterwards exactly when t+1 was one before, and it carries t+1's value |
| `Table.RekeyKeysFrom` | src/App.tsx:100-106 | a new key below t was an old key; a new key j from t on comes from old key j+1 |
| `Table.RekeyKeepsKeysBelow` | src/App.tsx:100-106 | if every key named an existing row, after deleting an existing row every key still names one |
| `Table.RekeyEditing` | src/App.tsx:100-107 | the accumulator built one key at a time, in any order, equals the re-keyed map |
| `Table.MaxIdOrZero` | src/App.tsx:96 | the result is at least every row id, and is 0 or one of the ids |
| `Table.NextMaxAboveRemaining` | src/App.tsx:94-97 | the counter is kept unless the deleted id was maxOrderNumber-1; then it is at least 1, above every remaining id, and either 1 or one above some remaining id |
| `Table.NextMaxAfterDelete` | src/App.tsx:94-97 | after renumbering, the counter becomes max(new row count, 1) when the deleted id was maxOrderNumber-1, otherwise it is unchanged |
| `Table.RecomputeOnlyWhenLabelsFull` | src/App.tsx:94-97 | if the deleted position is maxOrderNumber-1, it is the last position and the labels are exactly 1, 2, ..., \|labels\| |
| `Table.DeleteKeepsLabelsBounded` | src/App.tsx:87 | removing a label keeps the labels increasing and within the counter as updated by the delete |
| `Table.LabelsDistinct` | src/App.tsx:137 | increasing label numbers render as pairwise distinct labels |
| `Table.AddRowPreservesInvariant` | src/App.tsx:57-65 | appending row {id: \|rows\|, cells} and label maxOrderNumber+1, then advancing the counter, keeps the table invariant |
| `Table.DeletePreservesInvariant` | src/App.tsx:83-97 | the delete's new rows, labels and counter satisfy the table invariant again |
| `App.OrderTable.constructor` | src/App.tsx:11-17 | the slots start empty: no rows, no flags, no modal, no pending delete, counter 1 |
| `App.OrderTable.GenerateTable` | src/App.tsx:20-28 | columns are 1..c; row i is {id: i, cells: cells[i]}; label i is i+1; the counter is the row count, or 1 when there are no rows |
| `App.OrderTable.AddRow` | src/App.tsx:57-65 | appends {id: \|rows\|, cells} and label maxOrderNumber+1, increments the counter, keeps the invariant, and the new label exceeds every earlier one |
| `App.OrderTable.ToggleCellValue` | src/App.tsx:67-76 | a no-op unless row r is in edit mode; otherwise exactly cell c of row r flips; nothing else changes |
| `App.OrderTable.OrderName` | src/App.tsx:137 | row i's first cell is the label prefix followed by digits that read back as the row's label number |
| `App.OrderTable.ToggleEditing` | src/App.tsx:116-118 | row r's edit state is negated; every other row's edit state and every other slot are unchanged |
| `App.OrderTable.ConfirmDeleteRow` | src/App.tsx:78-81 | only the pending target and the modal flag are set |
| `App.OrderTable.CloseModal` | src/App.tsx:111-114 | the pending target is cleared and the modal hidden; nothing else changes, so a second call changes nothing |
| `App.OrderTable.DeleteRow` | src/App.tsx:83-109 | with no pending target nothing changes; otherwise rows, labels, flags and counter become DeleteRows, RemoveAt, Rekey and NextMaxOrderNumber of the old state; the modal closes; the invariant is kept |
| `App.ReachableLabelsDistinct` | src/App.tsx:137 | in any valid table, the labels shown in the first column are pairwise distinct |

## Left out

- Rendering (src/App.tsx:120-190), the stylesheet and the icons: presentation only. `OrderTable.OrderName` gives the text of a row's first cell.
- The timers, the two `Promise`s and the `useEffect`/`useCallback` wiring of generation: `GenerateTable` is one step that takes the column count and the cell values.
- `Math.random()`: the column count, the row count and every cell value are parameters. `GenerateTable` accepts any counts, not only the 2..101 the random draw produces.
- React's setter queue: each handler is one atomic transition over the state it read.
- JavaScript numbers are doubles, and the argument spread in `Math.max(...)` at src/App.tsx:96 has an engine limit on its length. Ids and the counter are unbounded `nat`s here, so neither limit is modelled. Neither can be reached by a table of realistic size.
- JavaScript object keys are strings parsed back with `parseInt`. The edit map is modelled as `map<nat, bool>`, since every key it ever gets is a row id.
- `DeleteRow` requires that a pending target, if any, is a row position (`PendingInRange`). With an out-of-range target the source throws at line 95. The target always comes from a drawn row, and `ConfirmDeleteRow` reports whether it is in range.
- `GenerateTable` does not promise `PendingInRange` or `EditingAligned`. Generation replaces the rows but leaves `rowToDelete` and `isEditing` alone, as the source does.
- `App.OrderTable.DeleteRow` states the new state through functions of the old state. What those functions amount to (positions, order, re-keying, the counter) is proved in the `Table` lemmas listed above rather than repeated in the method's contract.
