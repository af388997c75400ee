# Hex-stack board, modelled in Dafny

A model of the board of a hex-stack sorting puzzle. The board has 25 hexagonal
slots in a 5 × 5 grid. Each slot holds a stack of coloured tiles, listed from
bottom to top. Stacks can move between neighbouring slots:

- the player drops stacks from a dock of three waiting stacks;
- a periodic auto-merge sweep moves same-coloured top groups between
  neighbours;
- a stack of seven or more tiles, all of one colour, is merged (cleared).
  Each merge scores 100 points;
- after three merges the game ends and input stays locked.

A second, stand-alone set of rules (can-merge, is-valid-move, top-group) keeps
its own merge threshold of three.

The model has four modules:

- `Stacks` (`stacks.dfy`) holds the shared vocabulary:
  - a tile reduced to its colour;
  - the top of a stack;
  - the reference definition `TopGroup` of the top same-colour group, with its
    characterisation `IsTopGroup`;
  - `Tiles`, the multiset of all tiles on a board.
- `MergeLogic` (`merge_logic.dfy`) holds the stand-alone rules from
  `src/game/mergeLogic.js`.
- `BoardRules` (`board_rules.dfy`) holds the pure rules of the board:
  - the constants;
  - the integer hex adjacency that replaces the distance test, and its
    agreement with the slot layout;
  - the generated stacks;
  - the effect of a move on the slots, with tile conservation;
  - the merge test;
  - a reference definition of what one auto-merge sweep does (`FindPair`,
    `Choose`, `AutoMove`).
- `GameBoard` (`game_board.dfy`) holds the class `Board` from
  `src/game/Board.js`:
  - a `const slots: array<seq<Color>>` and the fields `mergeCount`,
    `inputLocked`, `gameEnded`, `draggableStacks`, `score` and `overlayShown`;
  - methods that update these fields in place, each proved against the pure
    rules;
  - dock stacks as objects of class `DockStack`, so that removing one from
    the waiting list goes by identity, as the game's `indexOf` does.

Deferred callbacks become explicit steps, to be called in this order:

1. `ExecuteMove`.
2. `EvaluateMerges` on the target slot. When the stack merges, it runs
   `ExecuteMerge` itself and keeps the input lock.
3. `CheckAutoMerge`. After a merge the lock is still held, so any move the
   sweep attempts is refused.
4. If the stack merged: `FinishMerge`, which ends the game or releases the
   lock.

`IntervalTick` is the periodic callback. `CreateDraggableStacks` is the
restock callback that follows `PlaceDraggableStack` when it reports `restock`.

Random choices are parameters. `StackDraws` holds the three rolls a generated
stack needs: height, top colour, and one colour per lower tile.

The model keeps these behaviours of the game's code:

- Slot capacity (6) is checked only by `CanDropGroup`, which nothing in the
  game's code calls. Moves, sweeps and placements may build taller stacks.
- The board's merge threshold (7) is above the capacity. `MergeableIff`
  proves that no stack within capacity is mergeable.
- `PlaceDraggableStack` neither checks nor takes the input lock and
  evaluates no merge. It places the stack even after the game has ended,
  and reads `gameEnded` only to decide whether a restock is due
  (src/game/Board.js:306). Only a later sweep reacts to the placed stack.

## Model

| member | source | states |
|---|---|---|
| Stacks.TopGroup | src/game/mergeLogic.js:32-47 | the top group of an empty stack is empty; otherwise it is a non-empty suffix whose tiles all have the top colour, and the tile just below it, if any, has another colour |
| Stacks.TopGroupUnique | src/game/mergeLogic.js:38-44 | the characterisation determines the group: any group meeting it is `TopGroup` |
| Stacks.WalkIsTopGroup | src/game/Board.js:142-148 | the tiles above the index where the downward walk stops meet the characterisation of the top group |
| Stacks.TopGroupAbove | src/game/Board.js:142-148 | when the downward walk stops at index `i`, the tiles above `i` are the top group |
| Stacks.TopGroupIdempotent | src/game/mergeLogic.js:38-44 | taking the top group of a top group changes nothing |
| Stacks.TopGroupWholeIffUniform | src/game/Board.js:331 | a non-empty stack is its own top group iff it is uniform; being uniform in the bottom colour is the same as being uniform in the top colour |
| MergeLogic.CanMerge | src/game/mergeLogic.js:6-11 | a stack shorter than three never merges; a merging stack is non-empty and uniform |
| MergeLogic.CanMergeIffUniform | src/game/mergeLogic.js:7-10 | both directions: merges iff at least three tiles that are pairwise equal in colour, iff at least three tiles forming their own top group |
| MergeLogic.IsValidMove | src/game/mergeLogic.js:14-29 | over capacity it is false whatever the colours; onto an empty target within capacity it is true; it raises exactly when the target is non-empty, within capacity, and the source is empty; otherwise it is true iff the two top colours agree |
| MergeLogic.IsValidMoveEmptyTargetIgnoresSource | src/game/mergeLogic.js:21-23 | onto an empty target within capacity, the verdict is true and does not depend on the source |
| MergeLogic.GetTopGroup | src/game/mergeLogic.js:32-47 | the downward prepend loop yields `TopGroup` of its input |
| BoardRules.SlotInGrid | src/game/Board.js:30-31 | slot ids 0..24 number the cells of the 5 × 5 grid row by row |
| BoardRules.AdjacentCellsMatchDistance | src/game/Board.js:30-36 | for distinct cells, the odd-column hex rule holds iff the squared centre distance is strictly between 0.64 and 1.44 |
| BoardRules.SquaresInBand | src/game/Board.js:373-375 | in terms of the column difference and the doubled row offset, only a vertical or a diagonal step puts the squared distance strictly between 0.64 and 1.44 |
| BoardRules.AdjacentMatchesLayout | src/game/Board.js:373-375 | for distinct slot ids, the integer adjacency holds iff the slot centres are strictly between 0.8 and 1.2 apart |
| BoardRules.AdjacentSymmetric | src/game/Board.js:371 | adjacency is symmetric, and no slot is its own neighbour |
| BoardRules.NeighborsBelow | src/game/Board.js:370-378 | the scan up to `n` yields only adjacent, in-range ids other than the slot, in strictly increasing order |
| BoardRules.NeighborsBelowComplete | src/game/Board.js:370-378 | every adjacent id below `n` is in the scan |
| BoardRules.NeighborsMembers | src/game/Board.js:366-381 | an id is a neighbour iff it is adjacent |
| BoardRules.NeighborsSymmetric | src/game/Board.js:366-381 | neighbourhood is symmetric, and a slot is never its own neighbour |
| BoardRules.GeneratedStack | src/game/Board.js:103-117 | a generated stack has between the minimum and the minimum + 2 tiles; every colour is in {0, 1, 2}; the top two tiles share the drawn top colour; the lower tiles are the lower draws |
| BoardRules.GeneratedTopGroup | src/game/Board.js:113-114 | a generated stack's top group has at least two tiles |
| BoardRules.RemoveTop | src/game/Board.js:179 | cutting `k` tiles leaves the prefix that, followed by the last `k` tiles, is the old stack; cutting more tiles than the stack holds leaves it empty |
| BoardRules.ApplyMove | src/game/Board.js:179-186 | every slot other than the two keeps its stack; the source loses as many top tiles as the group holds; the target gains the group on top, also when the two slots are the same |
| BoardRules.MoveConservesTiles | src/game/Board.js:179-186 | moving a suffix of the source onto another slot keeps the multiset of all tiles |
| BoardRules.MergeableIff | src/game/Board.js:218-222 | a stack merges iff it has at least seven tiles and is its own top group; no stack within capacity merges |
| BoardRules.FirstMatchAt | src/game/Board.js:335-345 | it finds the first neighbour, in list order, with the slot's top colour, and none is found iff no neighbour has it |
| BoardRules.FirstMatchAtFound | src/game/Board.js:345 | a matching neighbour with no match before it is the first match |
| BoardRules.FirstMatchIsFirstNeighbor | src/game/Board.js:335-345 | the first match in the list is the smallest matching adjacent id |
| BoardRules.FindPair | src/game/Board.js:323-363 | any pair found is two distinct, occupied slots with the same top colour, and its slot is not before the start of the scan |
| BoardRules.FindPairIsFirst | src/game/Board.js:323-363 | the pair found is two neighbours; no slot from the start of the scan up to it has a same-topped neighbour, and no smaller neighbour of its slot matches |
| BoardRules.FindPairNoneIff | src/game/Board.js:323-363 | none is found iff no slot from the start of the scan on has a same-topped neighbour |
| BoardRules.FindPairStops | src/game/Board.js:345-360 | the sweep stops at a slot with a match, paired with that match |
| BoardRules.FindPairSkips | src/game/Board.js:325 | the sweep passes over an empty slot or one without a match |
| BoardRules.Choose | src/game/Board.js:346-359 | the move runs between the two slots and carries the source's top group, which has the target's top colour; a uniform slot receives; otherwise a uniform neighbour receives; otherwise the slot's group moves exactly when it is no larger than the neighbour's, so ties move the slot's group |
| BoardRules.ChooseKeepsUniformTarget | src/game/Board.js:346-353 | when either stack is uniform, the receiving stack is uniform and stays uniform after the move |
| BoardRules.AutoMoveSound | src/game/Board.js:320-364 | a sweep moves nothing iff no two adjacent occupied slots share a top colour; any move goes between adjacent slots, carries the source's top group onto a matching colour, and keeps every tile |
| GameBoard.IndexOf | src/game/Board.js:302 | the index of the first occurrence, or -1 exactly when the element is absent |
| GameBoard.RemoveFirst | src/game/Board.js:302-303 | when present, exactly the first occurrence is cut out and the other elements keep their order; when absent, nothing changes |
| GameBoard.SpliceRemovesFirst | src/game/Board.js:302-303 | splicing out the element at the `indexOf` answer, when there is one, is `RemoveFirst` and takes exactly one copy of the element out of the multiset |
| GameBoard.GenerateStack | src/game/Board.js:103-117 | the tile-by-tile loop builds `GeneratedStack` of the draws |
| GameBoard.Board.constructor | src/game/Board.js:10-22 | a new board has its seed slots filled from the seed draws and every other slot empty; counters are zero and flags clear; three fresh dock stacks come from the dock draws |
| GameBoard.Board.SetupInitialState | src/game/Board.js:98-132 | slots 0, 12 and 24 get generated stacks in turn, other slots stay empty, and the dock is stocked |
| GameBoard.Board.CreateDraggableStacks | src/game/Board.js:61-96 | three fresh dock stacks, generated from the draws, are appended after the waiting ones |
| GameBoard.Board.GetSelectableGroup | src/game/Board.js:134-151 | the group is empty for a missing slot; otherwise it is the slot's top group, starting with the top colour when the slot is occupied |
| GameBoard.Board.CanDropGroup | src/game/Board.js:153-169 | false for an empty group, a missing slot, or a drop over capacity; within capacity, true iff the target is empty or its top colour is the group's first colour; an allowed drop never makes a mergeable stack |
| GameBoard.Board.GetNeighbors | src/game/Board.js:366-381 | the scan over all slots yields `Neighbors` of the slot |
| GameBoard.Board.ExecuteMove | src/game/Board.js:171-204 | refused, with nothing changed, while locked; otherwise takes the lock and leaves the slots as `ApplyMove` describes; every tile is kept when the group is the source's top and the slots differ |
| GameBoard.Board.EvaluateMerges | src/game/Board.js:215-229 | merges iff the stack is mergeable, and then the slot is cleared and the count and score go up; otherwise nothing changes except that the lock is released |
| GameBoard.Board.ExecuteMerge | src/game/Board.js:231-248 | empties exactly that slot, destroying exactly its tiles, adds one merge and 100 points |
| GameBoard.Board.FinishMerge | src/game/Board.js:250-256 | at three merges or more the game ends; below that the lock is released; an ended game stays locked with its three merges counted (`Valid`) |
| GameBoard.Board.EndGame | src/game/Board.js:259-263 | the game is ended, input is locked and the overlay is shown |
| GameBoard.Board.PlaceDraggableStack | src/game/Board.js:280-311 | the dock's tiles go in order onto the target and no other slot changes; the dock stack leaves the waiting list once; a restock is due iff the list is empty and the game is still on |
| GameBoard.Board.PushTiles | src/game/Board.js:289-298 | the tiles go, in order, on top of that slot's stack, and no other slot changes |
| GameBoard.Board.CheckAutoMerge | src/game/Board.js:320-364 | nothing changes once the game has ended or when `AutoMove` finds nothing; otherwise exactly the `AutoMove` move is attempted, refused while locked; every tile is kept |
| GameBoard.Board.ScanSlot | src/game/Board.js:324-362 | one pass of the outer loop, reached with nothing found before the slot: either nothing changes and the sweep's search goes on past the slot, or the pass makes exactly the `AutoMove` move, refused while locked; every tile is kept |
| GameBoard.Board.MatchingNeighbor | src/game/Board.js:335-345 | the inner scan returns `FirstMatchAt` of the slot's neighbour list |
| GameBoard.Board.ExecuteChosenMove | src/game/Board.js:345-360 | the one move between the slot and its match runs in the direction `Choose` gives, and every tile is kept |
| GameBoard.Board.IntervalTick | src/game/Board.js:313-318 | while locked nothing changes; otherwise one sweep: either it leaves the board and the lock as they are, or it applies the `AutoMove` move and takes the lock |
| GameBoard.CanDropAgreesWithIsValidMove | src/game/mergeLogic.js:14-29 | for a non-empty source, the board's drop check on its top group agrees with the stand-alone move check at the board's capacity |
| GameBoard.SelectableGroupAgrees | src/game/mergeLogic.js:32-47 | the board's group picker and the stand-alone top-group utility return the same group |
| GameBoard.EndedBoardIsInert | src/game/Board.js:259-263 | on any valid board whose game has ended, a move, a sweep and a tick change nothing, since `Valid` keeps an ended game locked |

## Left out

- Float geometry is replaced by the integer hex rule (`Adjacent`). This covers the slot positions and the `0.8 < d < 1.2` test in `getNeighbors`. `AdjacentMatchesLayout` ties the rule to the positions' squared distances.
- `getSlotAt` (src/game/Board.js:265-278) maps a world position to a slot and is left out. It only ever returns an empty slot (src/game/Board.js:271), so in the game a dock stack always lands on an empty slot; `PlaceDraggableStack` accepts any slot.
- Presentation is out: tile heights and animations, `repositionStack`, meshes, and `HexTile`.
- Tiles are reduced to their colours, so tile object identity on the board is not modelled. Dock stacks keep their identity.
- `setTimeout`/`setInterval` scheduling and delays are out. Each deferred callback is a step method (see above), and the order of those steps is left to the caller.
- `Math.random` draws are parameters (`StackDraws`).
- `isDraggableObject` and `getDraggableStack` walk the rendering object graph and are out.
- `getMergeCount` and `isInputLocked` are the public fields `mergeCount` and `inputLocked`.
- The score widget is the integer field `score`, and the end-of-game overlay is the flag `overlayShown`.
- The bootstrap, input handling, UI layers, renderer setup and build configuration are not part of this model.
- GameBoard.Board.ExecuteMove: out-of-range slot ids are excluded by `requires`, because its only caller, `checkAutoMerge`, passes valid ids. While locked the code returns false before it touches a slot (src/game/Board.js:172); an unlocked call with a bad id would fail after taking the lock (src/game/Board.js:174).
- GameBoard.Board.EvaluateMerges: out-of-range slot ids are excluded by `requires`, for the same reason.
- GameBoard.Board.EvaluateMerges: it also requires the game to be still on. Its one call comes after an accepted move, while that move holds the lock (src/game/Board.js:199), and the game can only end through `FinishMerge` while the lock is held. This is what lets `Valid` promise that an ended game stays locked.
- GameBoard.Board.CheckAutoMerge: the game's `topGroup.length === 0` checks for occupied slots can never be true and are omitted. The body of the outer loop is the method `ScanSlot`, and its inner neighbour scan is split into `MatchingNeighbor` and `ExecuteChosenMove`.
- GameBoard.Board.GetNeighbors: an out-of-range slot id is excluded by `requires`, whereas the game's code throws on one when it reads the slot's position (src/game/Board.js:373). Every caller passes an id in range.
- GameBoard.Board.SetupInitialState: starting the periodic sweep is modelled by calling `IntervalTick`, not as part of setup.
