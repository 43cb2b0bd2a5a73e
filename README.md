# Pintu sliding-puzzle board, modelled in Dafny

Pintu is a sliding-tile puzzle for the browser. This repository holds four prototypes
of it.

- **src/app/pintu.ts**: the canvas game.
  - A `Pintu` object has a game status and a state: a level, the fixed number and a grid of items.
  - Levels "1", "2" and "3" give 3×3, 4×4 and 5×5 boards.
  - A new board is built in row-major order and then shuffled. `shuffleList` makes five passes of five three-cycles over slots 0..14. `shuffleItems` then gathers the items in that order.
  - A click next to the hole swaps the clicked item into the hole.
  - The win check compares the comma-joined row-major ids with `0,1,…,N-1`.
  - Restart and level change deal a new board.
- **src/app.ts**: the first click prototype. It has a fixed 3×3 board in order, the clamps `fixCol` and `fixRow`, and the same click move rule, with no bounds check.
- **src/core.ts**: the keyboard prototype.
  - It has a 3×3 board in order and a table of key actions in which the first registration of a key wins.
  - A key handler runs the action for the key. The one action it registers, 'd', finds and logs the fixed item.
- **src/pintu.ts**: the rect prototype.
  - It has nine rects in a flat list, shuffled by Fisher–Yates.
  - A `PintuMap` keyed by the JSON text of the key records slot → position and position → slot.
  - The w/a/s/d keys exchange the target slot's rect with a neighbour's.
  - `check` asks whether every rect sits in the slot its label names.

The grid prototypes repeat pieces of the same board code, and module `Board` (board.dfy)
models each piece once:
- src/app.ts has all of `createItems`, `findFixedItemPos`, `swapItem` and the cell-level move rule.
- src/app/pintu.ts has the same `findFixedItemPos`, `swapItem` and move rule. It builds the board inline in `createState`, sized by the level, and has no `createItems`.
- src/core.ts has `createItems` and `findFixedItem`, a scan that returns the fixed item rather than its cell. It has no swap and no move rule.

The modules `AppPintu` (app_pintu.dfy), `App` (app.dfy), `Core` (core.dfy) and `RectPintu`
(rect_pintu.dfy) follow the four source files. Each builds on `Board` for the pieces its file has.

Helper modules:
- `Seqs` (seqs.dfy): ranges, row-major flattening and multiset lemmas.
- `JsText` (js_text.dfy): `Number.prototype.toString` and `Array.prototype.join(',')` on integers, and the fact that their results can be read back.
- `Wrappers` (wrappers.dfy): `Option`.

Grids are `array2<Item>` fields that the methods update in place. `Grid(a)` is the value view
of a grid, as rows. The rect list is an `array<Rect>`, and the map's dictionary is a `map`
field of class `PintuMap`.

Randomness becomes parameters:
- the colours are a `palette`;
- each `sort(() => Math.random() - 0.5)` is an arbitrary ordering of 0..14 (`rounds`);
- each `Math.floor(Math.random() * (i + 1))` of `shuffleArray` is any `picks[i] <= i`.

Every property below holds for every choice.

## Model

| member | source | states |
|---|---|---|
| Board.CreateItems | src/app/pintu.ts:352-366 | builds the n×n board whose cell (i, j) holds item number i·n+j; item 0 is white and fixed, every other item is movable with its palette colour |
| Board.FindFixedItemPos | src/app/pintu.ts:37-48 | returns the first cell in row-major order whose item is fixed, or nothing when no item is fixed (specified by `Board.Hole`) |
| Board.Hole | src/app.ts:56-67 | the found cell holds a fixed item and no earlier cell in row-major order does; nothing is found exactly when no cell is fixed |
| Board.SwapItem | src/app/pintu.ts:59-65 | the two cells trade items, whatever they hold, and no other cell changes |
| Board.SwapCells | src/app.ts:70-76 | on the board value: `from` gets `to`'s item, `to` gets `from`'s item, and every other cell keeps its item |
| Board.TryMove | src/app/pintu.ts:153-164 | a move happens exactly when the click is in the hole's row one column away or in its column one row away; the board is then the hole swapped with the clicked cell, and otherwise it is unchanged (a click on the hole included) |
| Board.SwapCellsMultiset | src/app/pintu.ts:59-65 | a swap neither creates nor loses an item (the multiset of items is kept) |
| Board.SwapCellsTwice | src/app/pintu.ts:59-65 | swapping the same two cells again, in either order, restores the board |
| Board.SwapPreservesValid | src/app/pintu.ts:153-164 | a swap keeps a valid board valid (square, ids 0..N-1 once each, only id 0 fixed) |
| Board.ExactlyOneHole | src/app/pintu.ts:37-48 | a valid board has a fixed cell, the scan finds it, and every fixed cell is that cell |
| Board.MoveRelocatesHole | src/app/pintu.ts:153-164 | after a move the hole is at the clicked cell |
| Board.MoveIsReversible | src/app/pintu.ts:153-164 | after a move, the old hole cell is adjacent to the new hole, and clicking it restores the board exactly |
| Board.SolvedIffHome | src/app/pintu.ts:175-197 | the win condition (row-major ids read 0..N-1) holds if and only if every item i·n+j is at cell (i, j) |
| Board.SolvedGridFacts | src/app/pintu.ts:352-366 | the board built in order is valid and solved; (0, 0) is its only fixed cell and holds the white item 0 |
| Board.OneMoveFromSolved | src/app/pintu.ts:175-197 | swapping the hole of a solved board with any other cell gives a board that is not solved |
| App.FixCol | src/app.ts:79-89 | the result is a column of the board (0..2), and a column already on the board is kept |
| App.FixRow | src/app.ts:91-101 | the result is a row of the board (0..2), and a row already on the board is kept |
| App.FixNearest | src/app.ts:79-101 | the clamped index is no farther from the input than any index on the board |
| App.FixIdempotentMonotone | src/app.ts:79-101 | clamping twice is clamping once, and clamping keeps the order of two indices |
| App.Pintu.constructor | src/app.ts:104-119 | the board is the one built in order (`itemsInited`, src/app.ts:145-147): valid, solved, with the hole at (0, 0) |
| App.Pintu.HandleClick | src/app.ts:155-179 | for an on-board cell: moves exactly when the cell is adjacent to the hole; the new board is the swap, the hole is then at the clicked cell, and the board stays valid |
| AppPintu.Cycles | src/app/pintu.ts:394-399 | the first t three-cycles of a pass, specifying the inner loop; the list keeps its length, and `CyclesMultiset` and `CyclesKeepTail` prove that it is only rearranged within slots 0..14 |
| AppPintu.CyclesMultiset | src/app/pintu.ts:394-399 | the three-cycles of a pass only rearrange the list |
| AppPintu.CyclesKeepTail | src/app/pintu.ts:394-399 | the three-cycles of a pass leave every entry from index 15 on alone |
| AppPintu.Passes | src/app/pintu.ts:389-400 | the first j passes of `shuffleList`, specifying its outer loop; the list keeps its length, and `PassesMultiset` and `PassesKeepTail` prove it is a rearrangement of slots 0..14 |
| AppPintu.ShufflePass | src/app/pintu.ts:389-400 | one pass rotates slot triples `ri[3t], ri[3t+1], ri[3t+2]` of the drawn ordering through `hold`, as specified by `Cycles` |
| AppPintu.ShuffleList | src/app/pintu.ts:383-401 | the list after five passes is `Passes` of the old list |
| AppPintu.Rotate3Cycle | src/app/pintu.ts:394-399 | a three-cycle over distinct slots gives `a` the value of `b`, `b` the value of `c`, `c` the value of `a`, and changes nothing else |
| AppPintu.PassesMultiset | src/app/pintu.ts:383-401 | `shuffleList` only rearranges the list (same multiset) |
| AppPintu.PassesKeepTail | src/app/pintu.ts:389-400 | `shuffleList` never touches an entry from index 15 on |
| AppPintu.ShuffleIsPermutation | src/app/pintu.ts:404-409 | after the shuffle and the filter of `undefined`, the numbers are 0..len-1, each exactly once |
| AppPintu.ShuffledNumbers | src/app/pintu.ts:404-409 | `numbers` has length len, its entries are below len, and it is a permutation of 0..len-1 |
| AppPintu.ShuffleNumbers | src/app/pintu.ts:404-409 | the loop that builds and filters `numbers` yields `ShuffledNumbers` |
| AppPintu.Gather | src/app/pintu.ts:411-429 | the board `shuffleItems` builds from a numbers list, specifying its loops; it is again n×n, and `GatherMultiset` and `GatherSolvedIds` prove it holds the same items, in the listed order |
| AppPintu.GatherItems | src/app/pintu.ts:420-429 | the new board's cell (i, j) is the old board's item at row-major number `numbers[i·n+j]` |
| AppPintu.GatherMultiset | src/app/pintu.ts:411-429 | gathering by a permutation of 0..N-1 neither creates nor loses an item |
| AppPintu.GatherSolvedIds | src/app/pintu.ts:411-429 | gathering the board built in order gives a board whose row-major ids are the numbers list |
| AppPintu.ShuffleItems | src/app/pintu.ts:403-432 | the new board is the old one gathered in the shuffled order |
| AppPintu.ShuffledNumbersKeepTail | src/app/pintu.ts:389-409 | row-major numbers from 15 on keep their own place |
| AppPintu.DealtValid | src/app/pintu.ts:345-380 | a dealt board is valid, and its row-major ids are the shuffled numbers |
| AppPintu.DealtSolvedIff | src/app/pintu.ts:345-380 | a dealt board is already won if and only if the shuffle left 0..N-1 in order |
| AppPintu.DealtKeepsTail | src/app/pintu.ts:345-380 | on boards of more than 15 cells, every cell from row-major number 15 on holds its own item (on level "3" the last two rows are never shuffled) |
| AppPintu.CreateState | src/app/pintu.ts:345-380 | for a level that is an own key of `tableCount`, a fresh dealt board of that level with fixed number 0; for a level that is not an own key, nothing (the destructuring throws) |
| AppPintu.JoinedCheck | src/app/pintu.ts:179-192 | the comma-joined list equals the comma-joined 0..N-1 if and only if the list is 0..N-1 |
| AppPintu.IdList | src/app/pintu.ts:185-190 | the nested loop lists the ids in row-major order |
| AppPintu.Pintu.constructor | src/app/pintu.ts:91-102 | status 'playing' and a valid, freshly dealt board of level "1" |
| AppPintu.Pintu.Check | src/app/pintu.ts:175-197 | the status becomes 'end' exactly when the board is solved, and otherwise stays; the state is unchanged and stays valid |
| AppPintu.Pintu.HandleClick | src/app/pintu.ts:134-173 | after the game ended, or for an off-board cell, nothing changes; otherwise the move rule applies, the board stays valid, and after a move the status becomes 'end' exactly when the new board is solved |
| AppPintu.Pintu.HandleRestart | src/app/pintu.ts:295-302 | status 'playing' and a fresh valid dealt board of the same level |
| AppPintu.Pintu.HandleLevelChange | src/app/pintu.ts:288-293 | an unknown level throws and leaves the state as it was; a known level gets a fresh valid dealt board; the status is untouched either way |
| Core.FixedItemOf | src/core.ts:58-68 | the found item is fixed; nothing is found exactly when no cell is fixed |
| Core.FindFixedItem | src/core.ts:58-68 | the row-major scan returns the item of the first fixed cell (specified by `Core.FixedItemOf`) |
| Core.FixedItemOfNewBoard | src/core.ts:25-47 | on the board built at load time, the item found is the white fixed item 0 |
| Core.Register | src/core.ts:84-88 | the keys become the old keys plus the new one; an existing key keeps its action and a new key gets the given one |
| Core.FirstRegistrationWins | src/core.ts:84-88 | after any run of registrations, each key maps to the action of its earliest registration (or keeps its starting action), and an unregistered key stays absent |
| Core.KeyboardBoard.constructor | src/core.ts:25-97 | the board is built in order and the table holds exactly the 'd' handler |
| Core.KeyboardBoard.RegisterAction | src/core.ts:84-88 | the table becomes `Register` of the old table; the board is untouched |
| Core.KeyboardBoard.HandleKeyDown | src/core.ts:100-106 | an action runs exactly when the key is registered, and it is that key's action; the 'd' handler finds the fixed item of the board |
| JsText.Dec | src/pintu.ts:73 | `no.toString()` on a natural: at least one character, starting with a digit, and two or more exactly from 10 on; `DecDigits` proves that every character is a digit and `DecInjective` that it can be read back |
| JsText.IntStr | src/pintu.ts:37 | the numeral `JSON.stringify` gives an integer: non-empty, starting with '-' exactly for a negative one; `IntStrPlain` proves it has no comma or brace and `IntStrInjective` that it can be read back |
| JsText.IntStrInjective | src/pintu.ts:37 | distinct integers have distinct numerals |
| JsText.Join | src/app/pintu.ts:179-192 | `join(',')` / `toString()` of a list of naturals: empty exactly for the empty list, otherwise starting with the first entry's numeral; `JoinInjective` proves that it can be read back |
| JsText.DecInjective | src/pintu.ts:73 | distinct slot numbers get distinct labels |
| JsText.JoinInjective | src/app/pintu.ts:179-192 | two lists of naturals with the same comma-joined text are the same list |
| RectPintu.PositionText | src/pintu.ts:36-38 | `JSON.stringify` of a position, an object text starting with '{'; `PositionTextInjective` proves that it can be read back |
| RectPintu.PositionTextInjective | src/pintu.ts:36-38 | two positions with the same JSON text are the same position |
| RectPintu.Stringify | src/pintu.ts:36-44 | the JSON text of a payload, never empty; `StringifyInjective` proves that different payloads get different texts |
| RectPintu.StringifyInjective | src/pintu.ts:36-44 | different payloads (numbers or positions) have different JSON texts |
| RectPintu.FindAfterStore | src/pintu.ts:36-44 | after a `set`, `get` with an equal key returns the new value, and with any other key what it returned before |
| RectPintu.PintuMap.constructor | src/pintu.ts:31-34 | the dictionary starts empty |
| RectPintu.PintuMap.Set | src/pintu.ts:36-39 | stores the value under the key's JSON text and changes nothing else |
| RectPintu.PintuMap.Get | src/pintu.ts:41-44 | returns what `Find` gives: the stored value, or `undefined` when there is none |
| RectPintu.FindAfterRecord | src/pintu.ts:79-80 | after the two `set`s for a slot, `get` finds the slot's position and the position's slot, and any other key as before |
| RectPintu.RecordedLookup | src/pintu.ts:66-82 | after recording slots 0..n-1 from an empty map, `get` gives each slot its position and each such position its slot, and nothing for any other key |
| RectPintu.RecordedGrid | src/pintu.ts:63-82 | after `initial`, the map answers every key as the records of the 3×3 grid do |
| RectPintu.PosOfExactly | src/pintu.ts:68-69 | a slot's position `{x: j, y: i}` is the only position with column 0..2 and row ≥ 0 whose slot is that number |
| RectPintu.SwapMultiset | src/pintu.ts:18-20 | the exchange through `temp` only rearranges the list |
| RectPintu.FisherYates | src/pintu.ts:15-22 | the swaps of `shuffleArray` from index i down to 1 with the given picks, specifying its loop; the list keeps its length, and `FisherYatesMultiset` proves it is only rearranged |
| RectPintu.FisherYatesMultiset | src/pintu.ts:15-22 | the shuffle only rearranges the list, whatever the random picks |
| RectPintu.ShuffleArray | src/pintu.ts:15-22 | the in-place loop leaves the list `Shuffled` by the picks |
| RectPintu.InitialLabels | src/pintu.ts:66-77 | the rects pushed carry labels "0".."8" in slot order |
| RectPintu.InitialIsPermutation | src/pintu.ts:63-87 | after `initial`, the labels are "0".."8", each once, in some order |
| RectPintu.EveryInPlace | src/pintu.ts:154-156 | true exactly when every rect from the given slot on carries its slot's label |
| RectPintu.SwapKeepsLabels | src/pintu.ts:141-143 | exchanging two rects keeps every label exactly once |
| RectPintu.SwapBreaksOrder | src/pintu.ts:141-145 | from a list where every rect is in place, moving the target to another slot makes `check` fail |
| RectPintu.Step | src/pintu.ts:122-135 | the position after a key: it differs from the old one exactly for w/a/s/d, and then by one cell along one axis; `StepBack` proves that the opposite key undoes it |
| RectPintu.StepBack | src/pintu.ts:122-135 | the opposite key undoes a step; a key other than w/a/s/d leaves the position unchanged |
| RectPintu.KeyMoveUndo | src/pintu.ts:116-146 | when a key moves the target from slot t to an on-grid slot u, the opposite key at u leads back to t, and exchanging again restores the rects |
| RectPintu.Pintu.constructor | src/pintu.ts:56-61 | target slot 0, no slot picked, the rects are the initial ones shuffled, the labels are each once, and the map holds the grid's records |
| RectPintu.Pintu.Initial | src/pintu.ts:63-87 | the rects become the initial rects shuffled by the picks; the map gets slots 0..8 recorded both ways |
| RectPintu.Pintu.PushAndRecord | src/pintu.ts:66-82 | the nested loop pushes the rects of slots 0..8 in order and records each slot both ways |
| RectPintu.Pintu.RecordSlot | src/pintu.ts:79-80 | the two `set`s for one slot: position to slot, then slot to position |
| RectPintu.Pintu.FindRect | src/pintu.ts:89-106 | `moveIndex` becomes the first slot whose rect the mouse is on, and stays when there is none; nothing else changes |
| RectPintu.Pintu.HandleKeyDown | src/pintu.ts:116-146 | when the stepped position is on the grid, the target's and the new slot's rects are exchanged and the target moves there; otherwise nothing changes; the labels stay once each |
| RectPintu.Pintu.Check | src/pintu.ts:154-156 | true exactly when every rect's label is its slot number |

## Left out

- Drawing, the canvas, images, the number display and the preview are not modelled. This covers `draw*`, `update`, `move`, `recover` and `resetRects`, none of which affects the board logic.
- Mouse and window event wiring is not modelled: the listeners, the pixel-to-cell arithmetic of the clicks, and src/coordinates.ts. The click handlers start from the cell's row and column.
- The hit-test `mouseDownInRect` and the rect pixel size come from files that are not part of this model. `findRect` takes the hit-test as an abstract predicate `hit` on a rect and its grid position.
- Random choices become parameters:
  - `getRandomColor` becomes a palette;
  - the random sort comparator of `shuffleList` becomes an arbitrary ordering of 0..14 per pass;
  - `Math.random` in `shuffleArray` becomes a pick `j <= i` per step.
- `shuffleList` on a 3×3 board reads and writes indices 9..14 past the end of the list, which JavaScript allows. The model pads the list with `None` up to 15 entries, and the filter in `shuffleItems` drops them.
- Boards are square. `tableCount` only yields square sizes, so `ShuffleItems` requires `rowCount == colCount`.
- App.Pintu.HandleClick requires an on-board cell, because src/app.ts has no bounds check and an off-board click there reads outside the grid.
- AppPintu.Pintu.HandleLevelChange does not require the old state to be valid. It promises validity only for the new state. An unknown level is reported as `thrown` instead of a JavaScript `TypeError`.
- The `onMove` callback is not modelled. `HandleClick` returns `moved`, which is when the source calls it.
- Console logging is not modelled. This includes the 'd' handler's output in src/core.ts.
- Core: `registerAction` is not exported (src/core.ts exports only `start`), so the file makes its only registration itself. `Foreign` stands for registrations the file never makes; `RegisterAll` and `FirstRegistrationWins` range over them, and their bodies are not modelled.
- RectPintu.Pintu.HandleKeyDown leaves out the `if (!position) return` branch. Under the class invariant the target slot always has a recorded position, so the branch cannot be taken.
- RectPintu.Pintu.FindRect states that the rects, the map and the target stay as they were, rather than restating the whole class invariant.
- JavaScript numbers are modelled as unbounded integers. Every value here is a small board index.
- App.FixCol, App.FixRow: modelled on integers only. The source takes any JavaScript number, and `fixCol(1.5)` returns 1.5, which is not a board index. Both clamps are dead code in src/app.ts: nothing calls them.
- AppPintu.CreateState, AppPintu.Pintu.HandleLevelChange: a level is looked up among the own keys of `tableCount` only. A name that the object literal inherits, such as "toString" or "__proto__", does not throw in the source. The sizes come out undefined, and an empty board is stored under that level. The model reports such a level as missing (`None`, `thrown`). No caller passes one: the level select offers "0", "1" and "2".
- `PintuMap` is modelled as a map from strings. Prototype keys such as `__proto__` cannot arise: keys are the JSON texts of numbers and positions.
- The loops of `initial` are split into the helper methods `PushAndRecord` and `RecordSlot`. The pushed rects are gathered as a sequence before they are copied into the array.
- The shuffle loops of src/app/pintu.ts are split into `ShufflePass`, `ShuffleNumbers` and `GatherItems`. The row-major id loop of `check` is `IdList`.
- src/app/app.ts, src/app/hepler.ts and src/coordinates.ts are not part of this model. Of src/type.ts, only `Rect` and `Position` are mirrored.
