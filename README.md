# igo.js core, modelled in Dafny

igo.js is the rules engine and record keeper of a Go (Igo) board-game
program. This project models its core in Dafny and proves properties of
the model. The core covers:

- the packed board store;
- the board with its rules: liberties, capture, suicide, ko, pass and prisoners;
- board diffs and undo payloads;
- the history tree of moves with branches, and the game on top of it;
- the SGF (FF[4]) reader and writer;
- the compact base 64 and human-readable encodings of the history tree;
- the base-3 packing of a board.

The model follows the program's own structure, one module per part:

| module (file) | what it models |
|---|---|
| `Array2Bits` (bits.dfy) | the 2-bit-per-intersection `Uint32Array` store; JS shifts and masks written as explicit arithmetic |
| `Stones`, `Geometry` (stones.dfy, geometry.dfy) | colours and `pos = x + y*w` neighbour arithmetic |
| `Rules` (rules.dfy) | pure functions that state the rules: the string and liberty sets, captures, legality and ko |
| `Liberties` (liberties.dfy) | the board invariant that every string on the board has a liberty |
| `Boards` (board.dfy) | the `Board` class: its flood fills, `removeString`, the suicide test that writes and restores a cell, and `putStone`/`pass`, each proved against `Rules` |
| `Diffs`, `Compression` (diff.dfy, compress.dfy) | `BoardDiff`: the sorted change list and its merge, whole-board diff, apply and apply-inverse, and the rectangle compression |
| `Changes` (changes.dfy) | `BoardChanges`, the undo payload of a move |
| `HistoryNodes`, `History` (history_nodes.dfy, history.dfy) | `HistoryNode`, `HistoryTree` and `Game` |
| `SgfParser`, `SgfPoints`, `SgfText`, `SgfRoot`, `SgfExport`, `SgfImport` (sgf_*.dfy) | the SGF parser, point letters and composed points, text escaping, the root properties, the SGF formatter, and `fromSGF` |
| `Base64`, `BitIo` (base64.dfy, bit_io.dfy) | `btoaSafe`/`atobSafe`, and the LSB-first `BitWriter`/`BitReader` |
| `TreeTokens`, `TreeWalk`, `TreeString`, `TreeBase64`, `TreeHuman`, `TreeRead`, `TreeReplay`, `TreeDecode` (tree_*.dfy) | `HistoryTreeString`: the walk of the tree, both tree formatters, and both decoders |
| `BoardStringizer` (stringizer.dfy) | `to20Per32bits`/`from20Per32bits` and the ".xo" text |
| `Strings` (strings.dfy) | strings of one colour and their liberties, defined by chain paths on a plain view of the board |
| `Wrappers`, `Seqs` (wrappers.dfy, seqs.dfy) | `Result`/`Option` and sequence helpers |

A few modelling choices apply throughout:

- **History nodes.** The history is an arena `seq<Node>` addressed by
  index. Index 0 is the root, and -1 stands for JavaScript's `null` in
  `prev` and `lastVisited`.
- **Readers.** Each reader (the SGF parser, both tree decoders) is a
  cursor class. Its methods are proved equal to a recursive
  specification function on the text not yet read.
- **Writers.** Each tree formatter is fed the list of calls that
  `HistoryTreeString.toString` makes (`TreeWalk.TreeCalls`,
  `TreeWalk.LineCalls`). It is proved to write text that the matching
  reader reads back as the tokens of those calls.
- **Errors.** Thrown errors and `null` results become a `Result` with an
  error code.
- **Integers.** Integers are unbounded. JavaScript's 32-bit shifts and
  masks are written out (`Low`, `Shr`, `Shl`) where the program relies on
  them.

## Model

| member | source | states |
|---|---|---|
| Array2Bits.Get | igo.js:52-55 | the state read for a cell is one of the four two-bit values |
| Array2Bits.GetPut | igo.js:52-63 | after `set`, `get` of that cell gives `state & 3` and every other cell reads as before |
| Array2Bits.PutGetIsIdentity | igo.js:52-63 | writing back the state a cell already holds leaves every word unchanged |
| Array2Bits.HoldsPut | igo.js:56-63 | a store that describes a board keeps describing it, with one cell replaced, after `set` |
| Array2Bits.WordCountCovers | igo.js:46-47 | `ceil(2·w·h / 32)` words hold two bits for every intersection |
| Array2Bits.Create | igo.js:45-48 | a fresh zero-filled store of `ceil(2n/32)` words, every cell EMPTY |
| Array2Bits.Clone | igo.js:48-50 | a fresh copy with the same words |
| Array2Bits.Set | igo.js:56-63 | the words after the call are `Put` of the words before: only that cell changes |
| Base64.SextetOf | igo.js:1665-1667 | a character decodes to a six-bit group only if it is the alphabet's character for that group |
| Base64.SextetRoundTrip | igo.js:1662-1667 | every six-bit group decodes back from its character |
| Base64.Btoa | igo.js:1662-1664 | `btoa` writes four characters for every started group of three bytes |
| Base64.TailRoundTrip | igo.js:1662-1667 | a padded last group of one or two bytes decodes back to those bytes |
| Base64.QuadRoundTrip | igo.js:1662-1667 | a full group of three bytes decodes back ahead of whatever follows |
| Base64.AtobBtoa | igo.js:1662-1667 | `atob(btoa(b)) == b` for every byte string |
| Base64.BtoaAlphabet | igo.js:1662-1664 | `btoa` writes only alphabet characters and `=` |
| Base64.MapChars | igo.js:1662-1667 | the character substitution keeps the length and maps every character on its own |
| Base64.BtoaSafeIsUrlSafe | igo.js:1662-1664 | the URL-safe text holds no `+`, `/` or `=` |
| Base64.AtobSafeBtoaSafe | igo.js:1662-1667 | `atobSafe(btoaSafe(b)) == b` |
| BitIo.BitWriter.constructor | igo.js:1669-1672 | a new writer holds no bits |
| BitIo.BitWriter.Put8 | igo.js:1681-1692 | appends exactly the low `bitWidth` bits of the value, low bit first |
| BitIo.BitWriter.Put | igo.js:1673-1680 | appends the low `bitWidth` bits of the value (taken modulo 2^32 by `>>>=`), eight at a time |
| BitIo.BitWriter.Flush | igo.js:1693-1702 | returns `ceil(bits/8)` characters whose bits are everything written, padded with zero bits, and empties the writer |
| BitIo.BitReader.constructor | igo.js:1706-1712 | reading starts at bit `8·strIndex` of the string |
| BitIo.BitReader.Get8 | igo.js:1728-1738 | returns the value of the next `bitWidth` bits and advances by that many |
| BitIo.BitReader.Get | igo.js:1713-1727 | returns the value of the next `bitWidth` bits (at most 31), least significant first, and advances by that many |
| BitIo.ReadWhatWasWritten | igo.js:1669-1740 | bits read from a flushed string at the place they were written give back the written value's low bits |
| BitIo.WriteThenRead | igo.js:1669-1740 | reading a sequence of writes back in the same widths gives every value back, modulo its width |
| BitIo.WrittenPrefix | igo.js:1673-1702 | the bits of the first `k` writes are a prefix of the bits of all writes |
| Stones.GetOppositeColor | igo.js:20-21 | BLACK and WHITE swap, any other value comes back unchanged |
| Stones.OppositeIsInvolution | igo.js:20-21 | taking the opposite colour twice gives the colour back |
| Stones.GetColorIndex | igo.js:22-23 | BLACK is 0, WHITE is 1, everything else -1 |
| Geometry.NeighboursOnBoard | igo.js:124-146 | `leftOf`, `rightOf`, `above`, `below` give NPOS or the on-board point one step away in that direction |
| Geometry.AdjacentSymmetric | igo.js:132-139 | if `q` is one of `p`'s four neighbours, `p` is one of `q`'s |
| Geometry.RowOnBoard | igo.js:124-129 | `toX` and `toY` of an on-board position lie inside the board |
| Rules.KoPositionMeaning | igo.js:417-452 | the new ko point is NPOS unless exactly one stone was taken and exactly one neighbour of the new stone is EMPTY or its own colour; then it is that neighbour |
| Rules.PrisonersAdded | igo.js:159-170 | only the entry of a real colour changes, by the amount added |
| Rules.Pass | igo.js:178-189 | a pass keeps the stones and prisoners, clears the ko point and hands the turn to the other side |
| Rules.PlaceFromParts | igo.js:190-216 | a legal move's board: the stone placed, the captured strings emptied, prisoners added, new ko point, turn swapped |
| Rules.CapturedPrefixIsCapturedSet | igo.js:197-201 | the four captures in the order left, above, right, below take exactly the captured set |
| Rules.CapturesAnyCases | igo.js:263-267 | a placed stone captures something exactly when one of its four neighbours is a capturable string |
| Rules.StringIsClosed | igo.js:325-352 | a string holds stones of one colour and holds every same-coloured neighbour of its stones |
| Rules.ClearKeepsString | igo.js:384-402 | removing a closed group of stones leaves every other string, and its liberty, unchanged |
| Rules.CaptureStep | igo.js:363-380 | a capture after earlier captures takes the same string it would have taken before them |
| Rules.EmptyNeighbourNotSuicide | igo.js:242-248 | a point with an EMPTY neighbour is never suicide |
| Rules.CapturedStonesAreOpponents | igo.js:363-380 | a move only captures stones of the other side |
| Liberties.LegalMoveKeepsLiberties | igo.js:190-216 | after a legal move every stone on the board is in a string with a liberty, if that held before |
| Liberties.PlayKeepsLiberties | igo.js:178-216 | `putStone` and `pass` keep the invariant that every string has a liberty |
| Liberties.PlacedStoneLive | igo.js:230-232 | the stone of a legal move has a liberty once its captures are off the board |
| Liberties.EmptyBoardLive | igo.js:71-78 | a new, empty board satisfies the invariant |
| Boards.Board.constructor | igo.js:71-78 | an empty w×h board, no prisoners, no ko point, BLACK to move |
| Boards.Board.Clone | igo.js:82-84 | a fresh board with its own store and the same state |
| Boards.Board.GetIntersectionCount | igo.js:88-89 | the count is `w·h` |
| Boards.Board.GetAt | igo.js:90-91 | returns the state of the cell at `pos` |
| Boards.Board.SetAt | igo.js:92-95 | changes that cell only; prisoners, ko point and turn stay |
| Boards.Board.RemoveStone | igo.js:98-99 | empties that cell only |
| Boards.Board.SetTurn | igo.js:151-152 | sets the turn, nothing else |
| Boards.Board.RotateTurn | igo.js:153-154 | sets the turn to the opposite colour, nothing else |
| Boards.Board.AddPrisoners | igo.js:159-164 | adds to the count of a real colour; any other colour changes nothing |
| Boards.Board.RemovePrisoners | igo.js:165-170 | subtracts from the count of a real colour; any other colour changes nothing |
| Boards.Board.GetPrisoners | igo.js:171-174 | the count of a real colour, otherwise 0 |
| Boards.Board.SetKoPos | igo.js:407-409 | sets the ko point, nothing else |
| Boards.Board.FindLibertyRecursive | igo.js:325-352 | true only if the string reaches an EMPTY point; false only after marking every point it could reach without success |
| Boards.Board.FindLiberty | igo.js:314-324 | true exactly when the string through `pos` has a liberty; false for NPOS, true for an EMPTY point |
| Boards.Board.IsStringSurrounded | igo.js:286-288 | true exactly when the string has no liberty |
| Boards.Board.IsStringSurroundedAndDiffColor | igo.js:295-307 | true exactly when `pos` holds a stone of the other colour whose string has no liberty |
| Boards.Board.RemoveString | igo.js:384-402 | takes off exactly the string through `pos` in `color`, counting and listing its stones |
| Boards.Board.RemoveStringIfSurrounded | igo.js:363-380 | takes off the string when it is the other colour and has no liberty, and otherwise changes nothing |
| Boards.Board.IsMoveSuicide | igo.js:239-276 | true exactly when the stone would have no liberty and capture nothing; the board is left as it was |
| Boards.Board.IsMoveLegal | igo.js:217-238 | true exactly when the colour is real, the point on the board, on turn, EMPTY, not suicide and not the ko point; the board is left as it was |
| Boards.Board.GetNewKoPosition | igo.js:417-452 | returns the ko point the ko rule defines for this placement |
| Boards.Board.PutStone | igo.js:190-216 | succeeds exactly when the move is legal; the new state is the legal move's effect, or the old state; the removed list is the captured set, without repeats |
| Boards.Board.PlaceAndCapture | igo.js:194-201 | the stone stands and exactly the captured strings are gone |
| Boards.Board.Pass | igo.js:178-189 | clears the ko point and swaps the turn, returning the old ko point and turn for the history |
| Changes.CreateUndoMove | igo.js:690-700 | the undo of a placement empties `pos`, gives the captured stones back to the other colour, restores the ko point and turn and takes the prisoners back |
| Changes.KoAndTurnUndo | igo.js:1117-1128 | the undo of a pass or an illegal placement restores only the ko point and the turn |
| Changes.BoardChanges.ApplyTo | igo.js:719-754 | the board after the call is the old board with the listed points set, the ko point, turn and prisoner corrections applied |
| Changes.SetListAt | igo.js:719-734 | every listed on-board point ends up in the colour, every other point keeps its state |
| Changes.SetIntersections | igo.js:720-734 | sets the listed points only (a single number or an array; off-board entries ignored) |
| Changes.SetListed | igo.js:726-728 | one entry of the list: an on-board point takes the colour, the board then holding the list up to that entry set |
| Changes.AddPrisonerDelta | igo.js:741-750 | a negative delta removes prisoners, any other adds them; only the prisoner table changes |
| Changes.EmptyChangesNothing | igo.js:710-718 | an undo payload with nothing in it changes nothing |
| Changes.UndoPlacementRestores | igo.js:690-754 | applying the undo payload of a legal placement to the board after it gives back the board before it |
| Changes.UndoPassRestores | igo.js:178-189 | applying the undo payload of a pass gives back the board before the pass |
| Diffs.BoardDiff.constructor | igo.js:463-467 | a difference holding the given turn change and change list |
| Diffs.BoardDiff.AddIntersectionChange | igo.js:468-484 | the change list afterwards stands for the old list with this change recorded: a new point is inserted in position order, a known point gets the new state, and a change back to the point's first state is dropped |
| Diffs.AddedChangeTracksBoard | igo.js:468-484 | recording every setAt through `addIntersectionChange` keeps the list describing the board: applying it to the first board gives the current one |
| Diffs.BoardDiff.SetTurnChange | igo.js:485-490 | a turn change is recorded exactly when the turn differs; applying it gives the new turn |
| Diffs.DiffTurn | igo.js:496-498 | no change when the turns agree; otherwise a change from the old turn that leads to the new one |
| Diffs.DiffIntersections | igo.js:499-515 | a list sorted by position of exactly the points where the new board differs from the old one (outside the old board counts as EMPTY); applying it to the old board gives the new one |
| Diffs.DiffRow | igo.js:502-513 | the scan of one row extends the differences of the rows above by that row's differences |
| Diffs.DiffPoint | igo.js:503-508 | one point's comparison keeps the change list sorted and standing for the differences of every point before it, counting EMPTY off the old board |
| Diffs.DiffIsExact | igo.js:499-515 | the whole-board difference takes the old board to the new one, records the old states, and has no change that leaves a point as it was |
| Diffs.Diff | igo.js:491-495 | the difference holds the turn change and the point differences between the two boards |
| Diffs.Merge | igo.js:516-522 | a null side returns the other; otherwise the merged turn change and the merged point changes |
| Diffs.MergeTurnComposes | igo.js:523-527 | applying the merged turn change is applying the first and then the second |
| Diffs.MergeIntersections | igo.js:528-567 | the two-pointer merge is sorted and stands for the merged map: changes at one point are joined, and dropped when the second undoes the first |
| Diffs.MergeTail | igo.js:556-561 | once one list is used up, the rest of the other is copied in order and the merge still stands for the merged map |
| Diffs.MergeComposes | igo.js:528-567 | applying a merged difference is applying the first and then the second |
| Diffs.BoardDiff.ApplyTo | igo.js:568-601 | the board gets every new state and the new turn; the stored old states and old turn are corrected to what the board held |
| Diffs.ApplyTurn | igo.js:577-586 | sets the turn the change leads to and corrects the change's old turn to the board's |
| Diffs.ApplyIntersections | igo.js:587-601 | sets every new state, in order, and corrects each old state to what the board held |
| Diffs.BoardDiff.ApplyInverseTo | igo.js:602-622 | puts back every old state and the old turn |
| Diffs.ApplyThenInverse | igo.js:568-622 | applying a difference that starts from the board and then its inverse gives the board back |
| Diffs.ApplyRoundTrip | igo.js:568-622 | after `applyTo` corrected the old states, `applyInverseTo` restores the board `applyTo` started from |
| Diffs.InsertKeepsSorted | igo.js:472-476 | inserting at the first position not below the new one keeps the list sorted and adds the point to its map |
| Diffs.DeleteKeepsSorted | igo.js:477-479 | removing an entry keeps the list sorted and drops the point from its map |
| Diffs.UpdateKeepsSorted | igo.js:480-482 | replacing an entry at the same point keeps the list sorted and updates its map |
| Compression.JoinRows | igo.js:632-646 | every rectangle is one row; each lies on the board and is changed to its state, and the scratch array points every changed point, and only those, at a rectangle holding it |
| Compression.JoinColumns | igo.js:648-667 | letting rectangles reach down over runs of the same state and columns keeps them sound and the scratch array assigned |
| Compression.JoinRow | igo.js:649-666 | one row of the downward merge keeps the same facts |
| Compression.JoinAt | igo.js:650-665 | one turn of the column loop, including the extra `++x` after a merge, moves strictly right |
| Compression.PointRun | igo.js:660-663 | the points of the row under the merged rectangle now point at it |
| Compression.Unique | igo.js:668-676 | every output rectangle is pointed at, and every pointed-at rectangle is in the output |
| Compression.CompressIntersections | igo.js:628-678 | the rectangles cover exactly the changed points, each with the state it changes to |
| Compression.CompressedIntersectionChanges | igo.js:624-627 | a difference's own changes, compressed, as above |
| Compression.PaintMatchesChanges | igo.js:628-678 | painting the rectangles in order gives, at every point, the state the change list sets there, or no change |
| HistoryNodes.Node.DeleteNext | igo.js:881-892 | the child leaves the list, the others keep their order; a redo target that was this child moves to the first remaining child, or to none |
| HistoryNodes.Node.ChangeNextOrder | igo.js:893-900 | the child moves `delta` places, clamped to the list, and the other children keep their order |
| HistoryNodes.MoveEntry | igo.js:893-900 | the moved entry lands at its new place, the rest keep their order, and the list is a permutation of the old one |
| HistoryNodes.Node.AddProperty | igo.js:1032-1035 | the table (created if missing) holds the new value and flag under `id`, every other entry stays, nothing else in the node changes |
| HistoryNodes.Node.RemoveProperty | igo.js:1048-1052 | `id` leaves the table, every other entry stays; a node without a table is unchanged |
| HistoryNodes.Node.AcquireProperty | igo.js:1053-1061 | an own property is returned as it is; a missing one is added with the default value, not inherited |
| HistoryNodes.GetProperty | igo.js:1036-1047 | a value is found exactly when `hasProperty` holds |
| HistoryNodes.AddedPropertyFound | igo.js:1032-1047 | a property just added is found with that value, with or without inheritance |
| HistoryNodes.RemovedPropertyGone | igo.js:1036-1052 | after removal the node no longer has the property, even with inheritance |
| HistoryNodes.OwnTableHidesParent | igo.js:1036-1041 | a node's own table, even without `id`, stops the inherited lookup |
| HistoryNodes.IndexOf | igo.js:881-900 | the first index of the child, or -1 exactly when it is absent |
| HistoryNodes.FindNextByPos | igo.js:880 | the first child recording `pos`, or -1 exactly when no child records it |
| HistoryNodes.FindsTheChild | igo.js:1129-1148 | a move or resignation child is the one `findNextByPos` finds for its position |
| HistoryNodes.GetRoot | igo.js:829-832 | the walk up the parents ends at the root |
| HistoryNodes.GetPreviousMove | igo.js:833-839 | the nearest move above the node, skipping setup and resignation nodes |
| HistoryNodes.IsSecondConsecutivePass | igo.js:819-827 | true exactly when the node is a pass and the previous move is a pass |
| HistoryNodes.GetMoveNumber | igo.js:843-851 | the number of moves on the line from the root to the node |
| HistoryNodes.GetDepth | igo.js:852-858 | the number of parent links to the root |
| HistoryNodes.GetPathFromRoot | igo.js:859-868 | the child indices from the root down to the node (at forks only, with `forkOnly`); as many as the depth without it |
| HistoryNodes.PathRoundTrip | igo.js:983-993 | following the full path from the root leads back to the node |
| HistoryNodes.FindByPath | igo.js:983-993 | follows the child indices from the node (passing single-child nodes with `forkOnly`); -1 when an index is out of range |
| HistoryNodes.FindByPathConcat | igo.js:983-993 | following two paths one after the other is following their concatenation |
| HistoryNodes.GetNthPrev | igo.js:869-879 | the node `n` steps up, or -1 past the root unless clamped to it |
| HistoryNodes.GetNthNext | igo.js:901-908 | the node `n` steps down the first children, or -1 past a leaf unless clamped to it |
| HistoryNodes.GetNth | igo.js:909-915 | forward for a non-negative count, back otherwise |
| HistoryNodes.NthNextThenPrev | igo.js:869-908 | `n` steps forward and then `n` steps back return to the start |
| HistoryNodes.ClampedNthLands | igo.js:869-915 | clamped stepping always lands on a node, `k` levels up or at the root |
| HistoryNodes.IsDescendantOf | igo.js:924-934 | true exactly when the other node is this node or one of its ancestors |
| HistoryNodes.IsAncestorOf | igo.js:935-940 | true exactly when this node is the other node or one of its ancestors |
| HistoryNodes.FindNextFork | igo.js:941-948 | the first node with two or more children down the first children, or -1 |
| HistoryNodes.FindFirstForkOrLast | igo.js:949-955 | down the first children to the first node without exactly one child |
| HistoryNodes.NextForkIsFirstFork | igo.js:941-955 | the next fork is the first fork-or-leaf when that node is a fork, and none otherwise |
| HistoryNodes.FindBreadthFirst | igo.js:968-982 | level by level, each level in order, the first node recording `pos`, or -1 |
| HistoryNodes.ScanLevel | igo.js:971-980 | the first node of the level recording `pos`; otherwise the next level is the children of this one, in order |
| HistoryNodes.BreadthFirstFound | igo.js:968-982 | a found node records `pos` and lies at the shallowest level that has such a node |
| HistoryNodes.NotFoundAnywhere | igo.js:968-982 | when the search finds nothing, no node under the start records `pos` |
| HistoryNodes.FindByQuery | igo.js:994-1031 | the queries are applied in turn; the result fails exactly when a two-letter query names no point of the board |
| HistoryNodes.ApplyQuery | igo.js:999-1029 | one query: a move count steps forward or back, a two-letter point finds the node breadth-first, anything else moves to the next fork's child |
| HistoryNodes.QueryStep | igo.js:999-1029 | a step fails exactly on a bad point query; a found point query lands below on a node recording that point |
| HistoryNodes.QueryFromAttached | igo.js:994-1031 | a query from a node in the tree lands on a node in the tree |
| History.AddedNodeLinked | igo.js:1153-1162 | a new last child of the current node keeps the tree linked, becomes the redo target, and adds one to the move count for a placement or pass |
| History.PushedLinked | igo.js:1129-1152 | every push keeps the tree linked and leaves the line above the old current node as it was; a setup push adds nothing to the move count |
| History.PushReuses | igo.js:1136-1145 | pushing a move that a child already records goes to that child and adds no node |
| History.PushTwiceSameNode | igo.js:1129-1148 | pushing the same move twice from the same node lands on the same node, with no new node the second time |
| History.PushRedoTarget | igo.js:1136-1224 | re-pushing the redo target's move lands on it and changes only its undo payload |
| History.PassAfterPass | igo.js:819-827 | a pass is a second consecutive pass exactly when the last move above it is a pass |
| History.DeleteNextLinked | igo.js:881-892 | deleting a branch keeps the tree linked and takes exactly that child out |
| History.ChangeNextOrderLinked | igo.js:893-900 | reordering the branches keeps the tree linked and keeps the same children |
| History.SetupRoundTrip | igo.js:568-622 | applying a setup and then taking back the corrected setup gives the board back |
| History.RedoThenUndoRestores | igo.js:1163-1237 | redoing a node and then undoing it gives back the board before the redo |
| History.RecordedPayloadUndoes | igo.js:1198-1224 | a replayed legal placement records a payload that takes the board back |
| History.NearestWithPos | igo.js:1102-1116 | the nearest node at or above the given one recording `pos`, or -1; every other such node lies above it |
| History.SetupStepCorrects | igo.js:1224-1227 | the setup part of a redo applies the node's setup and corrects its value so that taking it back restores the board it was applied to; every other setup keeps its value |
| History.RedoStepBoard | igo.js:1196-1227 | the board one redo step leaves is the move replayed and then the node's setup applied (`RedoneBoard`) |
| History.RedoStepSameTree | igo.js:1191-1237 | trees that differ only in redo targets and undo payloads redo every node alike |
| History.FollowsDown | igo.js:1191-1195 | a walk along redo targets goes strictly down the tree |
| History.RedoPath | igo.js:1271-1276 | the walk along redo targets that `redoAll` takes: empty exactly when there is no redo target, and ending at the node without one |
| History.Line | igo.js:1238-1257 | the nodes from below a node down to its descendant, in order, ending at the descendant |
| History.LineFirst | igo.js:1247-1250 | the line down to a descendant starts with the child of the node that the descendant lies below |
| History.PointRedoTarget | igo.js:1247-1250 | pointing a parent's redo target at its attached child keeps the tree linked and makes the walk from the parent the line down to the target; the redo targets changed so far are those on that line |
| History.RedoOnPathStep | igo.js:1250-1256 | one redo along a walk keeps the outcome of redoing the rest of the walk, and the redone node's payload takes back the board it was replayed on |
| History.HistoryTree.Settle | igo.js:1224-1236 | the board, finished flag, winner and setup values become the setup step and then the game step of a redo (`SetupStep`, `Finished`) |
| History.HistoryTree.RedoOnPath | igo.js:1250-1256 | one redo on a walk: it fails, changing nothing, exactly at the walk's end; otherwise it moves to the walk's next node, changes no redo target and keeps the outcome of redoing the rest of the walk |
| History.PutStoneRecorded | igo.js:190-216 | `putStone` with a history: the board's result as without one; a legal move pushes a node whose payload takes the board back, an illegal one leaves the history alone |
| History.PassRecorded | igo.js:178-189 | `pass` with a history: pushes a pass whose payload restores the ko point and the turn |
| History.HistoryTree.constructor | igo.js:1082-1085 | a tree holding only the root, which is current, at move 0 |
| History.HistoryTree.PushNewNode | igo.js:1153-1162 | adds a last child to the current node, makes it current and the redo target; the move number counts the moves to it |
| History.HistoryTree.PushMoveOrResign | igo.js:1129-1149 | a child recording the same move is reused (payload replaced), otherwise a new child; the move number grows by one for a placement or pass |
| History.HistoryTree.PushPass | igo.js:1117-1119 | pushes a pass whose payload restores ko point and turn; one more move |
| History.HistoryTree.PushResign | igo.js:1120-1122 | pushes a resignation that keeps the ko point and has no payload; the move number stays |
| History.HistoryTree.PushPlace | igo.js:1123-1125 | pushes a placement whose payload is the placement's undo |
| History.HistoryTree.PushPlaceIllegal | igo.js:1126-1128 | pushes a placement that clears the ko point, with a payload restoring ko point and turn |
| History.HistoryTree.PushSetupNode | igo.js:1150-1152 | always adds a new setup child, however many setup siblings exist; the move number stays |
| History.HistoryTree.Undo | igo.js:1163-1190 | false at the root, changing nothing; otherwise moves to the parent, and the board, finished flag and winner become `UndoneFrom` of the old ones: the node's setup taken back, its payload applied, and a resignation or second pass left un-finishes the game |
| History.HistoryTree.Redo | igo.js:1191-1237 | false without a redo target, changing nothing; otherwise moves to it, replaces only its undo payload (which takes the old board back for a move), and the board, finished flag, winner and setup values become `RedoStep` of the old ones: the move replayed (an illegal placement only clears ko and passes the turn), the setup applied and corrected, a resignation or second pass finishing the game |
| History.HistoryTree.ReplayPlace | igo.js:1198-1215 | a placement is replayed when legal, otherwise recorded as one that only clears the ko point and passes the turn; either way its new payload takes the board back |
| History.HistoryTree.TakeBack | igo.js:1177-1184 | the board after a node's setup is taken back and its undo payload applied |
| History.HistoryTree.ReplayMove | igo.js:1196-1222 | moves to the redo target and replays its move; only a move's payload is replaced, and it takes the board back |
| History.HistoryTree.ReplayPass | igo.js:1216-1218 | a pass is replayed and its new payload takes the board back |
| History.HistoryTree.Resetup | igo.js:1224-1227 | the board and the setup values become `SetupStep` of the old ones: the node's setup applied, and its value corrected to the board it was applied to |
| History.HistoryTree.AddPropertyToRootNode | igo.js:1032-1036 | only the root's property table changes, and it holds that property |
| History.HistoryTree.Finish | igo.js:1230-1236 | a resignation finishes the game won by the other side; a second consecutive pass finishes it as a draw; otherwise the flags stay (`Finished`) |
| History.HistoryTree.Unfinish | igo.js:1170-1189 | leaving a resignation or a second consecutive pass un-finishes the game |
| History.HistoryTree.GetMoveNumberAt | igo.js:1102-1116 | the move number of the nearest node recording `pos`, or -1 |
| History.HistoryTree.RedoTo | igo.js:1238-1257 | succeeds exactly when the target is the current node or below it; then arrives there, and the board, finished flag, winner and setup values are those of redoing node by node down the line to it (`RedoneAs` over `Line`), each new move payload taking back the board it was replayed on; otherwise nothing changes |
| History.HistoryTree.RedoAlong | igo.js:1250-1256 | redoing step by step keeps the tree's shape, arrives at the target, and ends in the game and setup values of redoing along the walk node by node (`RedoneAs`) |
| History.HistoryTree.PointRedoTargets | igo.js:1247-1250 | the walk along redo targets from the current node is the line down to the target; no other redo target, no payload and no setup changes |
| History.HistoryTree.UndoTo | igo.js:1263-1267 | arrives at the ancestor, or at the root when it is not above the current node; the board, finished flag and winner are those of undoing node by node along the way (`UndoneTo`) |
| History.HistoryTree.BackToMove | igo.js:1258-1262 | arrives at the nearest node at or above recording `pos`, or at the root; the board, finished flag and winner are those of undoing node by node up to it (`UndoneTo`) |
| History.HistoryTree.UndoAll | igo.js:1268-1270 | arrives at the root, at move 0, with the board, finished flag and winner of undoing every node on the way up |
| History.HistoryTree.RedoAll | igo.js:1271-1276 | arrives at the end of the redo targets, with the board, finished flag, winner and setup values of redoing node by node along them (`RedoneAs` over `RedoPath`) |
| History.HistoryTree.SetCommentToCurrentNode | igo.js:1092-1094 | only the current node's comment changes |
| History.HistoryTree.SetPropertyToCurrentNode | igo.js:1095-1099 | only the current node's property table changes, gaining that property |
| History.HistoryTree.AcquireSetup | igo.js:1076-1078 | returns the current node's setup unchanged, or a fresh empty one which it attaches |
| History.HistoryTree.DeleteBranch | igo.js:1277-1279 | the current node loses exactly that child |
| History.HistoryTree.ChangeBranchOrder | igo.js:1280-1283 | the current node's children are reordered, the same children |
| History.Game.constructor | igo.js:1294-1303 | an empty board, BLACK to move, a history holding only the root, not finished |
| History.Game.SetFinished | igo.js:1306-1309 | finished, with that winner |
| History.Game.CancelFinish | igo.js:1310-1315 | not finished, no winner |
| History.Game.Pass | igo.js:1319-1327 | nothing happens once finished; otherwise the board passes, a pass is pushed, and a second consecutive pass finishes the game as a draw |
| History.Game.PutStone | igo.js:1328-1335 | true exactly when the game is not finished and the move is legal for the side to move; then the board is the move's effect and a node with an undo payload is pushed |
| History.Game.Resign | igo.js:1336-1341 | nothing happens once finished; otherwise the other side wins and a resignation is pushed |
| History.Game.SetTurnForced | igo.js:1345-1351 | sets the turn only for BLACK or WHITE, and says whether it did |
| History.Game.SetIntersectionStateForced | igo.js:1352-1357 | writes the state when the position is on the board; always true |
| History.Game.Undo | igo.js:1363 | as the history's undo: the parent becomes current, the board, finished flag and winner are `UndoneFrom` of the old ones, and at the root nothing changes |
| History.Game.Redo | igo.js:1364 | as the history's redo: false and nothing changed without a redo target; otherwise only the target's payload changes, and the game and setup values are `RedoStep` of the old ones |
| History.Game.RedoTo | igo.js:1365 | as the history's redoTo: the game and setup values of redoing down the line to the target, or nothing changed |
| History.Game.RedoByQuery | igo.js:1366-1370 | a query naming no point of the board fails with the error `findByQuery` throws, changing nothing; otherwise true exactly when the node found is at or below the current one, and then the game is that of redoing down the line to it |
| History.Game.UndoAll | igo.js:1371 | arrives at the root, with the board, finished flag and winner of undoing every node on the way up |
| History.Game.RedoAll | igo.js:1372 | arrives at the end of the redo targets, with the game and setup values of redoing along them |
| History.Game.BackToMove | igo.js:1373 | arrives at the nearest node recording `pos`, or the root, with the game of undoing node by node up to it |
| History.Game.SetCommentToCurrentNode | igo.js:1375 | only the current node's comment changes |
| SgfParser.SkipWhiteDropsWhite | igo.js:1414-1415 | skipping whitespace drops exactly a prefix of spaces, tabs and line breaks, and leaves no whitespace in front |
| SgfParser.UpperPrefix | igo.js:1423-1470 | the longest prefix of upper-case letters, and the text after it, which does not start with one |
| SgfParser.Parser.constructor | igo.js:1406-1409 | a cursor at the start of the text |
| SgfParser.Parser.SkipWS | igo.js:1415 | the cursor moves past the whitespace in front |
| SgfParser.Parser.Match | igo.js:1416-1422 | succeeds and consumes the character exactly when it follows the whitespace, as the reading function says |
| SgfParser.Parser.GetUpper | igo.js:1423-1429 | reads the upper-case prefix and nothing more |
| SgfParser.Parser.ParsePropValue | igo.js:1485-1516 | reads a bracketed value as the reading function does (escapes kept, escaped line breaks normalised), or fails on a value that is never closed |
| SgfParser.Parser.ParsePropertyOpt | igo.js:1468-1484 | reads an identifier and one or more values, or nothing when no upper-case letter follows |
| SgfParser.Parser.ParseNode | igo.js:1459-1467 | reads ";" and the properties up to the first non-property |
| SgfParser.Parser.ParseSequence | igo.js:1452-1458 | reads nodes while the next character is ";" |
| SgfParser.Parser.ParseGameTreeList | igo.js:1438-1444 | reads game trees while the next character is "(" |
| SgfParser.Parser.ParseGameTree | igo.js:1445-1451 | reads "(", a sequence, the subtrees and ")" |
| SgfParser.Parser.ParseCollection | igo.js:1431-1437 | reads the game trees and fails when there are none |
| SgfParser.ParseSGF | igo.js:1406-1517 | the game trees of the text exactly as the reading functions say |
| SgfParser.ValueTailRoundTrip | igo.js:1485-1516 | a raw value followed by "]" reads back as itself, leaving what follows |
| SgfParser.UnclosedValueRefused | igo.js:1492-1494 | a value whose closing bracket never comes is an error |
| SgfParser.ValuesRoundTrip | igo.js:1476-1482 | printed values read back, leaving what follows |
| SgfParser.PropertyRoundTrip | igo.js:1468-1484 | a printed property reads back as itself |
| SgfParser.PropsRoundTrip | igo.js:1459-1467 | printed properties read back as themselves |
| SgfParser.NodeRoundTrip | igo.js:1459-1467 | a printed node reads back as itself |
| SgfParser.NodesRoundTrip | igo.js:1452-1458 | printed nodes read back as themselves |
| SgfParser.TreeRoundTrip | igo.js:1445-1451 | a printed game tree reads back as itself |
| SgfParser.TreesRoundTrip | igo.js:1438-1444 | printed game trees read back as themselves |
| SgfParser.CollectionRoundTrip | igo.js:1406-1517 | reading a printed, non-empty list of well-formed game trees gives that list back |
| SgfParser.NoTreeRefused | igo.js:1431-1436 | a text with no "(" after its leading whitespace is refused |
| SgfPoints.FromLetter | igo.js:1562-1575 | a coordinate exactly for a-z (0-25) and A-Z (26-51) |
| SgfPoints.ToSGFPointLetter | igo.js:1596-1603 | a letter exactly for 0-51, and it is a point letter |
| SgfPoints.LetterRoundTrip | igo.js:1566-1603 | every coordinate 0-51 reads back from its letter |
| SgfPoints.CoordinateRoundTrip | igo.js:1566-1603 | every point letter reads back from its coordinate |
| SgfPoints.ToSGFPointXY | igo.js:1604-1606 | two letters exactly when both coordinates are 0-51 |
| SgfPoints.ParseSGFPointXY | igo.js:1562-1585 | succeeds exactly for a two-letter value on the board, giving the letters' coordinates |
| SgfPoints.PointRoundTrip | igo.js:1562-1606 | every on-board point reads back from its two letters |
| SgfPoints.ParseSGFPoint | igo.js:1562-1565 | the position of the point the value names, failing as the coordinate reader does |
| SgfPoints.ParseSGFMove | igo.js:1555-1560 | "" is a pass, "tt" is a pass only on 19x19, anything else is a point |
| SgfPoints.TtIsPassOnlyOn19 | igo.js:1555-1560 | "tt" is a pass on 19x19, the point (19, 19) on larger boards, and an error on other boards |
| SgfPoints.MoveRoundTrip | igo.js:1555-1606 | a written on-board move reads back as its position |
| SgfPoints.UnescapedColonsAreColons | igo.js:1518-1536 | the split points found are colons with no backslash before them, in increasing order |
| SgfPoints.SplitSGFCompose | igo.js:1518-1536 | splits at the one unescaped colon, fails on a second one, and the two parts joined by ":" are the input |
| SgfPoints.RectPointsCover | igo.js:1545-1551 | every point of the rectangle is listed |
| SgfPoints.RectPointsInside | igo.js:1545-1551 | every point listed lies in the rectangle |
| SgfPoints.RectPointsLength | igo.js:1545-1551 | the rectangle lists width times height points, none when it is empty |
| SgfPoints.ParseSGFComposedPoint | igo.js:1537-1554 | one point, or the rectangle expanded row by row, and parse errors passed on |
| SgfPoints.ListRect | igo.js:1545-1551 | the loops list the rectangle's points row by row |
| SgfPoints.AppendRow | igo.js:1547-1549 | the inner loop appends one row |
| SgfText.BlankedEscaped | igo.js:1615-1620 | blanking tabs commutes with escaping, so the writer's two steps may be taken in either order |
| SgfText.BlankedHasNoBlank | igo.js:1615-1620 | a written text has no tab, and a written simple text no line break either |
| SgfText.EscapedIsRaw | igo.js:1615-1617 | an escaped text is a value the SGF reader keeps as it is |
| SgfText.WrittenIsRaw | igo.js:1615-1620 | every written text and simple text is such a value |
| SgfText.UnescapeEscaped | igo.js:1586-1617 | reading escapes in one scan undoes escaping |
| SgfText.DropEscapesEscaped | igo.js:1586-1617 | the reader's escape step undoes escaping |
| SgfText.NoSoftBreaks | igo.js:1586-1587 | an escaped text without line breaks has no soft line break to drop |
| SgfText.SimpleTextRoundTrip | igo.js:1589-1620 | a written simple text reads back as the original with blanks turned into spaces |
| SgfText.TextRoundTripFixed | igo.js:1586-1617 | a written text read by the one-scan reader gives the original with tabs turned into spaces |
| SgfText.BackslashBeforeBreakLost | igo.js:1586-1617 | a backslash before a line break is written as "\\\\" and a line break; the program's reader gives back one backslash and no line break, the one-scan reader gives back the original |
| SgfRoot.DigitRun | igo.js:2441 | the digits at the front of the text, at most its length |
| SgfRoot.ParseIntNatText | igo.js:2440-2446 | a written board size reads back as the number |
| SgfRoot.ParseIntSkipsAndStops | igo.js:2441 | leading spaces are skipped and reading stops at the first non-digit |
| SgfRoot.ParseIntHexAndSign | igo.js:2441 | "0x" reads as hexadecimal and a sign is taken |
| SgfRoot.ParseIntNaN | igo.js:2441-2443 | a text without digits is no number, which the size check refuses |
| SgfRoot.ComposeParts | igo.js:2440 | a size value has one or two parts |
| SgfRoot.SizeNumbers | igo.js:2440-2446 | every part reads as a number from 1 to 52, or the size is refused |
| SgfRoot.RootScan | igo.js:2431-2449 | scanning the root's properties keeps a size whose numbers are 1 to 52 |
| SgfRoot.BoardSizeOf | igo.js:2429-2453 | the width and height a root names, 19 by default, the height defaulting to the width |
| SgfRoot.NoSizeMeans19 | igo.js:2430-2449 | a root without GM or SZ keeps the default size |
| SgfRoot.SizeOutOfRange | igo.js:2442-2444 | a size of 53 or 0 is refused |
| SgfRoot.SizeTooManyPartsAndNotGo | igo.js:2434-2446 | a root that is not GM[1], or a size with three parts, is refused |
| SgfRoot.ExportedRootReadsBack | igo.js:2429-2453 | the root written for a board reads back as that board's size |
| SgfRoot.ReadBoardSize | igo.js:2429-2453 | the root's loop proved against the size it names |
| SgfExport.PointLetterAgrees | igo.js:1596-1603 | the export's letters are the SGF point letters |
| SgfExport.NatText | igo.js:2034 | the decimal text of a number, reading back as that number |
| SgfExport.SgfFormatter.constructor | igo.js:1989-1993 | an empty text |
| SgfExport.SgfFormatter.ToString | igo.js:1995-1997 | the text written so far |
| SgfExport.SgfFormatter.BeginTree | igo.js:1999-2001 | appends "(" |
| SgfExport.SgfFormatter.EndTree | igo.js:2002-2004 | appends ")" |
| SgfExport.SgfFormatter.BeginBranch | igo.js:2006-2011 | appends "(" except before a resignation without children |
| SgfExport.SgfFormatter.EndBranch | igo.js:2012-2017 | appends ")" except after a resignation without children |
| SgfExport.SgfFormatter.PutPass | igo.js:2022-2024 | appends a node with an empty move of the side to move |
| SgfExport.SgfFormatter.PutPlace | igo.js:2025-2027 | appends a node with the move's point |
| SgfExport.SgfFormatter.PutGameInfo | igo.js:2037-2047 | appends the root's game information in the table's order, text for GC, simple text for the rest |
| SgfExport.SgfFormatter.PutSetupNode | igo.js:2028-2050 | appends ";" and, at the root, GM[1], SZ and the game information |
| SgfExport.SgfFormatter.PutRect | igo.js:2055-2058 | appends one AB/AW/AE property: a point, or two corners joined by ":" |
| SgfExport.SgfFormatter.PutSetupProperty | igo.js:2051-2065 | appends the compressed intersections, then PL when the setup's turn differs from the side to move |
| SgfExport.SgfFormatter.PutComment | igo.js:2082-2084 | appends a C property holding the written text |
| SgfExport.SgfFormatter.PutCalls | igo.js:2112-2153 | appends the text of each call of the walk, in order |
| SgfExport.ExportParses | igo.js:1988-2085 | the text written for the whole tree is the printed form of a well-formed game tree, so the SGF reader reads it back |
| SgfExport.ToSGF | igo.js:2197-2199 | the text of the whole tree, or of the line to the current node; fails with the out-of-range error exactly when a move or setup point with a column or row past 51 would be written; the whole tree's text reads back as the game tree of the history |
| SgfExport.LineToSGF | igo.js:2113-2128 | the text of the line from the root to the current node, or the out-of-range error exactly when a point written has no SGF letter |
| SgfExport.NodesToSGF | igo.js:2130-2153 | the text of the whole tree, or the out-of-range error exactly when a point written has no SGF letter |
| Compression.DescribesLettered | igo.js:1596-1603 | the compressed rectangles of a change list have lettered corners exactly when every changed point has letters, so compression neither adds nor hides an out-of-range point |
| SgfImport.UndoTimes | igo.js:2609-2611 | `n` undos: the current node goes `n` steps up, stopping at the root |
| SgfImport.InfoRoundTrip | igo.js:2591-2593 | game information written and read back is the original with blanks turned into spaces |
| SgfImport.TurnForMove | igo.js:2483-2490 | a move by the side not to move fails after the first move; otherwise the turn is set and the change recorded in the current node's setup |
| SgfImport.PlayAt | igo.js:2491-2499 | a pass is passed; a point must be a legal move and is played, else the import fails; when a node is pushed it records that point |
| SgfImport.PlayMove | igo.js:2471-2500 | a B or W property: fails exactly for a player change after the first move, an unreadable move, or an illegal one; otherwise the board is the move's effect and a pushed node records the move's point |
| SgfImport.PrepareSetup | igo.js:2510-2518 | a new setup node unless the current node is one, and its setup, new and empty when it had none; either way the current node is a setup node |
| SgfImport.ReadValuesPoints | igo.js:2521-2522 | the points of every value, or an error at the first value that is no point or rectangle |
| SgfImport.SetupPoints | igo.js:2519-2531 | the listed on-board points are painted with the state and recorded in the setup; off-board points are skipped |
| SgfImport.StaysRefused | igo.js:2521-2522 | once a value is refused the whole list is |
| SgfImport.SetupPlayer | igo.js:2533-2542 | PL sets the side to move and records the change; a value other than B or W is an error |
| SgfImport.CheckPoints | igo.js:2553-2584 | markup and VW values pass exactly when each non-empty one lists points |
| SgfImport.CheckLabels | igo.js:2567-2577 | LB values pass exactly when each is a point, a colon and text |
| SgfImport.MoveProperty | igo.js:2471-2480 | a second move in a node and a move after setup are refused |
| SgfImport.OpenSetup | igo.js:2510-2518 | the first setup property of a node opens the setup the rest add to |
| SgfImport.SetupProperty | igo.js:2503-2543 | a setup property after a move is refused; otherwise it is applied to the open setup |
| SgfImport.CommentProperty | igo.js:2545-2547 | only the current node's comment changes, to the read text |
| SgfImport.InfoProperty | igo.js:2586-2596 | the value is added to the root's properties |
| SgfImport.OtherProperty | igo.js:2544-2597 | comments and game information stored, markup checked, anything else ignored |
| SgfImport.CheckMarkup | igo.js:2549-2584 | LB succeeds exactly when every value is a point and a text; MA, CR, SQ, TR and VW succeed exactly when there is a value and every non-empty one is a point or a point rectangle |
| SgfImport.ProcessProperty | igo.js:2466-2599 | one property dispatched on its identifier |
| SgfImport.IdleStays | igo.js:2461-2600 | a node with neither move nor setup does not move the current node |
| SgfImport.ProcessNode | igo.js:2461-2600 | a node's properties in order; on success it neither moves twice nor mixes a move with setup, the current node goes down exactly when the node moved or opened a setup node, and the new current node records the node's move point, or is a setup node when it has no move |
| SgfImport.NodeStep | igo.js:2461-2600 | one node; the line of current nodes grows by one link exactly when it moved down |
| SgfImport.ProcessSequence | igo.js:2461-2600 | the current nodes visited form a line with one link per node that pushed, fewer than the nodes when one is idle |
| SgfImport.LineUndoneMore | igo.js:2609-2611 | undoing more times than a line has links goes above its first node |
| SgfImport.UndoneAbove | igo.js:2609-2611 | at least one undo from a node other than the root leads above it |
| SgfImport.ProcessTreeAsWritten | igo.js:2460-2612 | one undo per node: a branch with an idle node ends above the node it started from |
| SgfImport.ProcessTree | igo.js:2460-2612 | one undo per node that pushed: the current node ends where the tree started |
| SgfImport.FromSGF | igo.js:2424-2458 | an unreadable collection, an empty first tree, a bad root and a node that moves twice or mixes move and setup are refused; a game read has the root's size and is at the root |
| BoardStringizer.Pow3Add | igo.js:1746-1753 | powers of three multiply: the weight of a digit in a group is the product of the weights before it |
| BoardStringizer.Pow3Bound | igo.js:1746 | 3^20 fits in 32 bits, so twenty intersections pack into one 32-bit word |
| BoardStringizer.LittleEndianRoundTrip | igo.js:1754-1771 | the four bytes written low byte first add back up to the word |
| BoardStringizer.DigitsOfHorner | igo.js:1751-1775 | the base-3 digits of a word built by `dw = dw * 3 + state` from the last intersection down are the intersections, then EMPTY |
| BoardStringizer.GroupRoundTrip | igo.js:1749-1775 | one group of up to twenty intersections, written as four bytes, decodes to those intersections padded with EMPTY |
| BoardStringizer.UnpackPack | igo.js:1745-1777 | decoding the packed bytes gives the intersections back, then EMPTY up to a multiple of twenty |
| BoardStringizer.GroupWord | igo.js:1750-1753 | the inner loop computes the base-3 number whose digits, least significant first, are the group's intersections |
| BoardStringizer.To20Per32Bits | igo.js:1745-1761 | the text is the URL-safe base 64 of four little-endian bytes per twenty intersections |
| BoardStringizer.AppendDigits | igo.js:1772-1775 | twenty base-3 digits of the word are appended, least significant first |
| BoardStringizer.From20Per32Bits | igo.js:1762-1777 | the intersections are twenty digits per four bytes of the decoded text (missing bytes read as zero), or the base 64 decoder's error |
| BoardStringizer.PackedRoundTrip | igo.js:1745-1777 | `from20Per32bits(to20Per32bits(board))` gives the board's intersections, then EMPTY up to a multiple of twenty |
| BoardStringizer.StateOfMark | igo.js:1788-1797 | every character reads as a state; "x" is BLACK, "o" WHITE, anything else EMPTY |
| BoardStringizer.MarkRoundTrip | igo.js:1779-1797 | the mark written for a state reads back as that state |
| BoardStringizer.ToHumanReadable | igo.js:1779-1787 | one character of ".xo" per intersection, in position order |
| BoardStringizer.FromHumanReadable | igo.js:1788-1797 | one state per character of the text, read by its mark |
| BoardStringizer.HumanReadableRoundTrip | igo.js:1779-1797 | reading the human-readable text of a board gives its intersections back |
| BoardStringizer.MarksRoundTrip | igo.js:1779-1797 | reading text and writing it again gives it back exactly when every character is one of ".xo" |
| TreeTokens.CeilLog2 | igo.js:1837 | the least width `r` with `n <= 2^r` |
| TreeTokens.BitWidthFits | igo.js:1821-1837 | every position and every command value (size + 0..3) fits the token width, the width is at least 3, and no smaller width would hold them all |
| TreeTokens.ClassifiedKeepsAll | igo.js:1870-1882 | sorting the compressed changes by state into points and rectangles loses none and counts none twice |
| TreeTokens.GroupForValid | igo.js:1876-1892 | rectangles on the board sort into groups of on-board positions |
| TreeTokens.GroupForLettered | igo.js:1596-1603 | rectangles with lettered corners sort into groups whose points and corners all have letters |
| TreeTokens.Classify | igo.js:1870-1882 | the classification loop builds, for EMPTY, BLACK and WHITE, the single points and the proper rectangles of that state, in order |
| TreeTokens.TurnOf | igo.js:1899-1906 | a setup token carries a turn exactly when the setup changes the turn to a colour other than the walk's, and then carries the new colour |
| TreeWalk.PutNode | igo.js:2156-2188 | a node writes one call that is a move exactly when the node is a placement or a pass, then only non-move calls (setup, comment), opening no branch |
| TreeWalk.VisitNested | igo.js:2130-2152 | the walk closes every branch it opens (for nodes with siblings) and never closes one it did not open |
| TreeWalk.TreeCallsClosed | igo.js:2109-2154 | a whole-tree record ends with the end of the tree, and everything before it leaves the branch depth at zero |
| TreeWalk.LineTo | igo.js:2120-2124 | the line runs from the root to the node, each node the child of the one before it |
| TreeWalk.CollectLine | igo.js:2120-2124 | following `prev` from the current node and reversing gives that line |
| TreeWalk.LineToMoves | igo.js:2120-2128 | the number of moves on the line to a node is the move number at that node |
| TreeWalk.LineCallsMoves | igo.js:2113-2128 | the record of the line to a node holds as many move calls as the node's move number |
| TreeWalk.LineCallsShape | igo.js:2113-2153 | the record of the line to the current node opens no branch, holds one move per move of the line and ends with the end of the tree |
| TreeString.RecordCallsFit | igo.js:2109-2154 | on a game whose moves and setups fit its board, every call of a record fits the board and the record is closed |
| TreeString.RecordCallsOf | igo.js:2109-2154 | the calls fed to the formatter are those of the line to the current node with `toCurrentNode`, of the whole tree otherwise |
| TreeString.ToBase64 | igo.js:2191-2193 | the text is base 64 of a bit stream that the reader reads back as exactly the tokens of the record's calls |
| TreeString.CallsToBase64 | igo.js:2088-2193 | feeding a closed record to a fresh base 64 formatter gives a text that reads back as the record's tokens |
| TreeString.ReadsBack | igo.js:2202-2256 | a closed token list, written and padded with zero bits, is read back as that list |
| TreeString.ToHumanReadable | igo.js:2194-2196 | fails with the out-of-range error exactly when a move or setup point with a column or row past 51 would be written; otherwise the text is one that the human-readable reader reads back as exactly the tokens of the record's calls |
| TreeString.CallsToHumanReadable | igo.js:2088-2196 | feeding a closed record to a fresh human-readable formatter fails exactly when a point written has no SGF letter, and otherwise gives a text that reads back as the record's tokens |
| TreeBase64.Take | igo.js:1712-1738 | a read of `w` bits succeeds exactly when `w` bits are left, and gives their value and the bits after them |
| TreeBase64.PointsRoundTrip | igo.js:2272-2282 | positions written then the end marker `size` are read back as those positions |
| TreeBase64.RectsRoundTrip | igo.js:2284-2302 | corner pairs written then the end marker are read back as those pairs |
| TreeBase64.RectsRoundTripStep | igo.js:2284-2302 | reading back one more corner pair in front of pairs that read back gives all of them |
| TreeBase64.GroupRoundTrip | igo.js:2269-2302 | a group's points and rectangles are read back from its bits, whatever follows |
| TreeBase64.GroupsRoundTrip | igo.js:2268-2303 | the groups of EMPTY, BLACK and WHITE are read back in order |
| TreeBase64.IntersectionsRoundTrip | igo.js:2267-2304 | the intersections flag and, when set, the three groups are read back |
| TreeBase64.SetupTurnRoundTrip | igo.js:2306-2311 | the turn flag and the colour bit are read back as that colour, or as no turn |
| TreeBase64.SetupRoundTrip | igo.js:2259-2312 | a setup token is read back from its intersections and turn bits |
| TreeBase64.TokenRoundTrip | igo.js:2215-2256 | every token the format can carry is read back from its bits, whatever follows |
| TreeBase64.TokensRoundTrip | igo.js:2215-2256 | a closed token list is read back, up to the end of the tree, from its bits whatever follows |
| TreeBase64.TurnColor | igo.js:2307 | the colour bit stands for BLACK exactly when it is 0; anything else reads back as WHITE |
| TreeBase64.EncodedClosed | igo.js:2230-2234 | the tokens written for a closed record end with the end-of-branch that closes depth 0, and no earlier token closes it |
| TreeBase64.SetupGroups | igo.js:1870-1882 | the groups of a setup token are the compressed change list sorted by state into on-board points and rectangles |
| TreeBase64.PutBits | igo.js:1673-1680 | `put` appends the low `width` bits of the value, low bit first |
| TreeBase64.WithinTokenLimit | igo.js:1837 | on a board whose positions and commands stay below 2^31, a token is at most 31 bits wide |
| TreeBase64.Base64Formatter.constructor | igo.js:1831-1838 | a new formatter has written nothing and knows the board size and token width |
| TreeBase64.Base64Formatter.PutPos | igo.js:1840-1842 | appends the position in the token width |
| TreeBase64.Base64Formatter.PutCmd | igo.js:1843-1845 | appends `boardSize + cmd` in the token width |
| TreeBase64.Base64Formatter.PutSubCmd | igo.js:1846-1849 | appends the special command, then the sub-command in 6 bits |
| TreeBase64.Base64Formatter.PutToken | igo.js:1857-1863 | appends one non-setup token to the record |
| TreeBase64.Base64Formatter.PutPlace | igo.js:1859 | appends a placement token |
| TreeBase64.Base64Formatter.PutPass | igo.js:1860 | appends a pass token |
| TreeBase64.Base64Formatter.PutResign | igo.js:1861 | appends a resign token |
| TreeBase64.Base64Formatter.BeginBranch | igo.js:1862 | appends a begin-branch token |
| TreeBase64.Base64Formatter.EndBranch | igo.js:1858-1863 | appends an end-branch token; the end of the tree is written the same way |
| TreeBase64.Base64Formatter.PutGroup | igo.js:1885-1893 | appends a group's points, the end marker, its corner pairs, the end marker |
| TreeBase64.Base64Formatter.PutPoints | igo.js:1885-1887 | appends each point in the token width |
| TreeBase64.Base64Formatter.PutRects | igo.js:1889-1892 | appends each rectangle's two corners in the token width |
| TreeBase64.Base64Formatter.PutRect | igo.js:1890-1891 | appends the top-left then the bottom-right corner |
| TreeBase64.Base64Formatter.PutSetupProperty | igo.js:1865-1907 | appends exactly one setup token, whose groups describe the node's change list and whose turn is the new turn when it differs from the walk's |
| TreeBase64.Base64Formatter.PutIntersections | igo.js:1867-1898 | writes the flag and the three groups exactly when the change list is non-empty; the groups describe the change list |
| TreeBase64.Base64Formatter.PutGroups | igo.js:1884-1894 | appends the groups of EMPTY, BLACK and WHITE in order |
| TreeBase64.Base64Formatter.PutSetupTurn | igo.js:1899-1906 | appends the turn flag and, when a turn is carried, 0 for BLACK and 1 for WHITE |
| TreeBase64.Base64Formatter.PutCall | igo.js:1857-1907 | writes exactly the tokens the call stands for: none for the start of the tree, a setup node head or a comment, one otherwise |
| TreeBase64.Base64Formatter.PutCalls | igo.js:2112-2153 | writes the tokens of the calls in order |
| TreeBase64.Base64Formatter.ToString | igo.js:1853-1855 | the text decodes to bytes holding the tokens' bits followed by zero bits only, and the writer starts over empty |
| TreeHuman.ColumnRow | igo.js:1918-1920 | the column and row found by taking off whole rows are the board's `toX` and `toY` |
| TreeHuman.PosOf | igo.js:2319-2323 | two characters are read as a position exactly when they form an SGF point of the board, which then lies on it |
| TreeHuman.PosTextParses | igo.js:1918-1920 | the two letters written for an on-board position are SGF point letters that parse back as that position |
| TreeHuman.PosRoundTrip | igo.js:2319-2323 | a position's text is read back as that position, whatever follows |
| TreeHuman.PointsTextRoundTrip | igo.js:2375-2386 | points followed by "." are read back as those points |
| TreeHuman.RectsTextRoundTrip | igo.js:2388-2407 | corner pairs followed by "." are read back as those pairs |
| TreeHuman.GroupTextRoundTrip | igo.js:2372-2408 | a group's text is read back as the group |
| TreeHuman.GroupsTextRoundTrip | igo.js:2371-2408 | the groups of EMPTY, BLACK and WHITE are read back in order |
| TreeHuman.IntersectionsTextRoundTrip | igo.js:2369-2409 | "I" and the groups, or nothing before a character other than "I", are read back |
| TreeHuman.TurnTextRoundTrip | igo.js:2411-2417 | "T" and the colour, or nothing before a character other than "T", are read back |
| TreeHuman.SetupTextRoundTrip | igo.js:2361-2421 | the intersections, the turn and "--" of a setup are read back as the setup token |
| TreeHuman.PlaceTextRoundTrip | igo.js:2330-2336 | "_" and a position are read back as that placement |
| TreeHuman.SetupTokenTextRoundTrip | igo.js:2361-2421 | a setup token's text is read back as that token |
| TreeHuman.TokenTextRoundTrip | igo.js:2329-2358 | every token the format can carry is read back from its text, whatever follows |
| TreeHuman.TokensTextRoundTrip | igo.js:2329-2358 | a closed token list is read back, up to the end of the tree, whatever follows |
| TreeHuman.NoCommandHangs | igo.js:2329-2358 | on a text in which no token starts (the empty text among them), the program's loop never finds a token and never stops |
| TreeHuman.NoCommandRefused | igo.js:2329-2358 | the model's reader refuses such a text as ending before a token |
| TreeHuman.NextCommandAgrees | igo.js:2329-2358 | where the program's scan does find a token, the model's reader reads the same token |
| TreeHuman.HumanFormatter.constructor | igo.js:1911-1916 | a new formatter has written nothing |
| TreeHuman.HumanFormatter.PutPos | igo.js:1918-1920 | appends the two SGF letters of the position |
| TreeHuman.HumanFormatter.PutToken | igo.js:1921-1947 | appends one non-setup token ("_" and a position, "-P", "-B", "-R" or ".") |
| TreeHuman.HumanFormatter.PutPoints | igo.js:1969-1971 | appends each point's letters |
| TreeHuman.HumanFormatter.PutRects | igo.js:1973-1976 | appends each rectangle's two corners' letters |
| TreeHuman.HumanFormatter.PutGroup | igo.js:1969-1977 | appends a group's points, ".", its corner pairs, "." |
| TreeHuman.HumanFormatter.PutGroups | igo.js:1968-1978 | appends the groups of EMPTY, BLACK and WHITE in order |
| TreeHuman.HumanFormatter.PutIntersections | igo.js:1951-1979 | appends "I" and the groups exactly when the change list is non-empty; the groups describe the change list |
| TreeHuman.HumanFormatter.PutTurn | igo.js:1980-1983 | appends "T" and "B" or "W", or nothing |
| TreeHuman.HumanFormatter.PutSetupText | igo.js:1949-1985 | appends "-S", the intersections, the turn and "--" |
| TreeHuman.HumanFormatter.PutSetupProperty | igo.js:1949-1985 | appends exactly one setup token, whose groups describe the change list and whose turn is the new turn when it differs from the walk's |
| TreeHuman.HumanFormatter.PutCall | igo.js:1941-1985 | writes exactly the tokens the call stands for |
| TreeHuman.HumanFormatter.PutCalls | igo.js:2112-2153 | writes the tokens of the calls in order |
| TreeHuman.HumanFormatter.ToString | igo.js:1937-1939 | the text is the text of the tokens written |
| TreeHuman.TextReader.constructor | igo.js:2316 | reading starts at the first character |
| TreeHuman.TextReader.Scan | igo.js:2317 | the next character, or none at the end, without consuming it |
| TreeHuman.TextReader.Get | igo.js:2318 | the next character, or none at the end, consuming it |
| TreeHuman.ReadPos | igo.js:2319-2323 | reads what the point reader reads: two characters as an on-board SGF point, or an error |
| TreeHuman.ReadTextPoints | igo.js:2375-2386 | reads the points up to ".", as the specification reader does |
| TreeHuman.ReadTextRects | igo.js:2388-2407 | reads the corner pairs up to ".", as the specification reader does |
| TreeHuman.ReadTextGroup | igo.js:2372-2408 | reads one group as the specification reader does |
| TreeHuman.ReadTextGroups | igo.js:2371-2408 | reads the three groups as the specification reader does |
| TreeHuman.ReadTextIntersections | igo.js:2369-2409 | reads "I" and the groups when the next character is "I", or nothing |
| TreeHuman.ReadTextTurn | igo.js:2411-2417 | reads "T" and the colour when the next character is "T"; "B" is BLACK, anything else WHITE |
| TreeHuman.ReadTextSetup | igo.js:2361-2421 | reads the setup's intersections, turn and the closing "--", refusing a setup not terminated |
| TreeHuman.ReadTextToken | igo.js:2330-2347 | reads one token as the specification reader does, refusing an unknown command |
| TreeRead.ReadBits | igo.js:1712-1738 | reads the next `width` bits, low bit first, leaving the rest, or fails when fewer are left |
| TreeRead.ReadPoints | igo.js:2272-2282 | reads positions until one of `size` or more, as the specification reader does |
| TreeRead.ReadRects | igo.js:2284-2302 | reads corner pairs until a top-left corner of `size` or more, as the specification reader does |
| TreeRead.ReadGroup | igo.js:2269-2302 | reads one group as the specification reader does |
| TreeRead.ReadGroups | igo.js:2268-2303 | reads the groups of EMPTY, BLACK and WHITE |
| TreeRead.ReadIntersections | igo.js:2267-2304 | reads the flag and, when set, the three groups |
| TreeRead.ReadSetupTurn | igo.js:2306-2311 | reads the turn flag and, when set, the colour bit |
| TreeRead.ReadSetup | igo.js:2259-2312 | reads the intersections and the turn of a setup token |
| TreeRead.ReadToken | igo.js:2216-2254 | reads one token as the specification reader does, refusing unknown commands and sub-commands |
| TreeRead.ZeroPastEnd | igo.js:1728-1737 | past the end of the string the program's reader delivers zero bits |
| TreeRead.PointsLoopHangsPastEnd | igo.js:2272-2282 | once the program's points loop reads past the end it never meets its end marker on a board of at least one point |
| TreeRead.ShortSetupHangs | igo.js:2216-2282 | on the two bytes [20, 2] and a 1×1 board, the program reads a setup command with the intersections flag set and its points loop never stops |
| TreeRead.ShortSetupRefused | igo.js:2216-2282 | the model's token reader refuses the same bytes as truncated |
| TreeReplay.PaintStep | igo.js:2277-2299 | setting one more point changes that cell (on the board) and nothing else |
| TreeReplay.PaintPaint | igo.js:2272-2302 | setting points in two runs is setting them in one |
| TreeReplay.RectCellsAreTheBox | igo.js:2290-2301 | the cells a rectangle sets are exactly the positions whose column and row lie between its corners |
| TreeReplay.TracksStart | igo.js:2265 | an empty change list records the board as it is |
| TreeReplay.TracksUndo | igo.js:2278-2298 | undoing the recorded changes gives back the board before the setup |
| TreeReplay.FitsAsMap | igo.js:2279-2298 | a change list fits the board exactly when its map form does |
| TreeReplay.AddedChangeFits | igo.js:2279-2298 | adding a change of an on-board position keeps the change list on the board |
| TreeReplay.PaintPoint | igo.js:2277-2281 | sets one intersection, keeping the recorded changes in step with the board |
| TreeReplay.PaintPoints | igo.js:2272-2282 | sets each point in turn, keeping the recorded changes in step |
| TreeReplay.PaintRow | igo.js:2295-2300 | sets the points of one row from left to right |
| TreeReplay.PaintRect | igo.js:2290-2301 | sets every point of the rectangle, row by row |
| TreeReplay.PaintRows | igo.js:2294-2301 | sets the rows from top to bottom |
| TreeReplay.PaintRects | igo.js:2284-2302 | sets each rectangle in turn |
| TreeReplay.PaintGroup | igo.js:2270-2302 | sets a group's points then its rectangles to the group's state |
| TreeReplay.PaintGroups | igo.js:2268-2303 | sets the EMPTY, BLACK and WHITE groups in order |
| TreeReplay.SetupTurn | igo.js:2306-2311 | sets the turn and records the change of turn from the old one |
| TreeReplay.ProcSetup | igo.js:2259-2312 | a setup token adds a setup node (or takes over the root when no branch is open) whose change list undoes to the board before it |
| TreeReplay.MergeSetup | igo.js:2261-2265 | at the root outside any branch the setup is recorded on the root node itself |
| TreeReplay.NewSetup | igo.js:2261-2265 | elsewhere a new setup node is pushed and the setup recorded on it |
| TreeReplay.ApplySetup | igo.js:2267-2311 | the board becomes the setup's board and the recorded changes undo it |
| TreeReplay.PlaceToken | igo.js:2217-2222 | a placement is refused exactly when the game is finished or the move is illegal, changing nothing; otherwise the state goes to the next one by `Link`: the stone is played by the rules and pushed with a payload that takes the board back |
| TreeReplay.PassToken | igo.js:2226 | the state goes on by `Link`: nothing once finished, else the board passes, a pass is pushed and a second consecutive pass finishes the game as a draw |
| TreeReplay.ResignToken | igo.js:2243 | the state goes on by `Link`: nothing once finished, else the board stays, the other side wins and a resignation is pushed |
| TreeReplay.EndToken | igo.js:2230-2238 | the state goes on by `Link`: at depth 0 it undoes node by node to the root and ends the tree; otherwise it undoes back to the node the branch began at and pops it |
| TreeReplay.SetupToken | igo.js:2259-2312 | the state goes on by `Link`: the board becomes the setup's board, recorded on the root or on a new setup node, every other node keeping its setup |
| TreeReplay.ApplyToken | igo.js:2215-2256 | a token is refused exactly when it is a placement the game refuses, and then nothing changes; otherwise the state before and after are joined by `Link`, the relation giving each token's effect on the board, the history and the branch stack |
| TreeDecode.StreamReadsAsTokens | igo.js:2215-2256 | the tokens read one at a time are the front of what the whole token reader reads |
| TreeDecode.StreamStops | igo.js:2215-2256 | the whole reader fails where a token fails, and stops at the end-of-branch at depth 0 |
| TreeDecode.TextStops | igo.js:2329-2358 | the same for the human-readable text |
| TreeDecode.TextReadsAsTokens | igo.js:2329-2358 | the text tokens read one at a time are the front of what the whole reader reads |
| TreeDecode.TokenOfValid | igo.js:2216-2254 | a token read from a stream is one the format can carry on the board |
| TreeDecode.ReadValidToken | igo.js:2216-2254 | reads a token as the specification reader does, and the token fits the board |
| TreeDecode.FromBase64 | igo.js:2202-2257 | a text that is not base 64 is refused; a returned game is a new game of the given size, back at its root, reached from a new game (`Start`) by a `Link` for each token the reader reads up to the end of the tree; when those tokens read but the game is refused, the last token is a placement refused as illegal |
| TreeDecode.FromBytes | igo.js:2203-2257 | the same, on the bytes the base 64 text decodes to |
| TreeDecode.Replay | igo.js:2215-2256 | on success the game goes from its state before to its state after by a chain of `Link`s, one per token the specification reader reads, ending at the root; on an illegal move the chain covers the tokens before it and the game's state refuses the last one |
| TreeDecode.DecodeToken | igo.js:2216-2255 | one turn of the loop reads one token, or fails where the reader fails; an accepted token extends the chain by one `Link` to the game's new state, a refused one leaves the state as it was |
| TreeDecode.ReplayToken | igo.js:2217-2250 | replaying one token on the game: the end of the tree only with an empty branch stack, back at the root; a refused placement leaves the game's state as it was and refuses the token; anything else extends the chain by one `Link` and keeps the branch stack on the tree |
| TreeDecode.FromHumanReadable | igo.js:2315-2359 | a returned game is a new game of the given size, back at its root, reached from a new game by a `Link` for each token the text reader reads up to the end of the tree; when those tokens read but the game is refused, the last token is a placement refused as illegal |
| TreeDecode.HumanReplay | igo.js:2329-2358 | on success the game goes from its state before to its state after by a chain of `Link`s, one per token the specification reader reads, ending at the root; on an illegal move the chain covers the tokens before it and the game's state refuses the last one |
| TreeDecode.DecodeHumanToken | igo.js:2330-2357 | one turn of the loop reads one text token, or fails where the reader fails; an accepted token extends the chain by one `Link` to the game's new state, a refused one leaves the state as it was |

## Left out

- User interface: igo_view.js (DOM, SVG, mouse handlers, dialogs) is not part of this model.
- `hookSetAt`/`unhookSetAt` (igo.js:110-120) are left out. They patch `setAt` at run time for a view observer, so the model's `setAt` is a plain write.
- `setAll` (igo.js:101-108) is left out. It copies a whole array onto the board and nothing in the core calls it.
- `findDepthFirst` (igo.js:956-967) is left out. It calls `next.find`, which no node defines, so it cannot run.
- `console.log` messages and the Japanese descriptions in `SGF_GAME_INFO_PROPERTIES` (igo.js:1625-1654) are left out. Only the property ids and their text types are kept.
- Thrown `Error` objects and `null` results are modelled as `Failure` results carrying an error code. The message text is left out.
- Base64.Atob: the browser's `atob` is replaced by a strict decoder per section 4 of RFC 4648. Padding is accepted only at the end and whitespace is not skipped. `atob` also accepts unpadded input and input with whitespace. Round trips of text written by `btoaSafe` are unaffected.
- TreeTokens.CeilLog2: `Math.ceil(Math.log2(n))` (igo.js:1837, 2205) is modelled as the integer ceiling of log2. This assumes `Math.log2` is exact at powers of two.
- TreeBase64.Base64Formatter.PutIntersections: the program tells a missing change list (`null`) from an empty one (`[]`); the model, like `Diffs.BoardDiff`, has only a sequence. `addIntersectionChange` can empty a list (igo.js:468-484), for example a setup that empties a black point and then sets it back to black. For such a list the program writes the intersections flag 1 and six end markers (igo.js:1867). The model writes the flag 0.
- TreeHuman.HumanFormatter.PutIntersections: the same merge of `null` and `[]`. For an emptied list the program writes "I" and six "." (igo.js:1951); the model writes nothing.
- TreeRead.ReadBits: at the end of the string the program's `BitReader` delivers zero bits (igo.js:1728-1737). The model's decoder refuses the record as truncated instead. `BitIo.BitReader` and `TreeRead.ZeroPastEnd` keep the zero bits, and the Findings show where they make the decoder hang.
- TreeRead.ReadRects: a bottom-right corner of `boardSize` or more is refused (BAD_CORNER). The program never checks that corner (igo.js:2289-2301): it loops past the last row and records changes of positions off the board.
- TreeHuman.ReadPos: with one character left the program builds `c1 + c2` from "a" and `undefined`, giving "aundefined" (igo.js:2319-2323). `parseSGFPoint` reads that as column 0, row 20, which is a point on a board of more than 20 rows. The model refuses it as truncated. With no character left, `undefined + undefined` is NaN, and `parseSGFPointXY` (igo.js:1578) fails calling `charCodeAt` on it, so the program fails there as the model does.
- History.HistoryTree.RedoTo, History.Game.RedoTo: require that a target below the current node is still attached: each node from it up to the root is listed among its parent's children. A node cut off by `deleteBranch` keeps its `prev`. The program's `redoTo` would point `lastVisited` at it and then redo by `pos` (igo.js:1247-1255); the model leaves that case out.
- HistoryNodes.Linked: two children of one node share a `pos` only when it is NPOS. The push-reuse rule (igo.js:1129-1149) keeps this for every tree the program builds. The invariant is what lets redo find `lastVisited` again by `pos`.
- TreeWalk.TreeCalls: the `fromCurrentNode` option of `toString` (igo.js:2095-2105, 2114-2117) is left out. It shallow-clones the current node into a new root holding a whole-board setup. Only `toCurrentNode` and the whole tree are modelled.
- TreeWalk.PutNode: the `putMarks` call (igo.js:2179-2184) is left out, because the model's nodes carry no "marks" property. The base 64 and human-readable formatters ignore it, and the SGF formatter's `putMarks` (igo.js:2066-2084) is therefore not modelled.
- SgfImport.OtherProperty: MA, CR, SQ, TR, LB and VW values are checked as the program parses them (igo.js:2549-2584) but not stored. The nodes carry no marks or view property.
- SgfImport.CheckMarkup: for MA, CR, SQ, TR and VW with no values, the program's `reduce` without a start value throws a `TypeError` (igo.js:2556, 2581). The model returns the missing-value failure instead. The parser never builds a property with no values, so the two agree on every input that reaches them.
- SgfExport.ExportParses: proved for histories whose resignations carry no setup and no comment. The formatter writes no node for a resignation (igo.js:2019-2021), so such properties would join the node before it.
- SgfExport.ToSGF: the export-then-import round trip is proved as far as the parsed SGF game tree: the text reads back as the tree of the history. That importing this tree rebuilds an equal history is not proved.
- SgfImport.ProcessTree: `processTree` is always called with `startIndex` 0 (igo.js:2457, 2605), so the parameter is dropped.
- SgfImport.ProcessTree: the history built is stated node by node, not as a whole. Each SGF node that moves the current node down pushes a child of the node it started from; a move node records its point; a node without a move opens a setup node; the undos after a branch return to where it began. The board is stated only by the members for one property (`SgfImport.PlayMove`, `SgfImport.PlayAt`, `SgfImport.SetupPoints`, `SgfImport.SetupPlayer`), not by those for a whole node or sequence. No function maps a whole game tree to the arena it builds, so which children, comments and properties end up where is not stated for the tree as a whole. Such a function would have to replay the whole engine: whether a node is pushed or an existing child reused, and whether the import goes on at all, depend on the legality of each move on the board built so far.
- SgfImport.ProcessNode: the board after the node is not stated, and neither is the converse that a node whose properties all read and whose move is legal succeeds. `MoveProperty` and `SetupProperty` carry only the node's place in the history (which node is current, whether it moved, which setup is open). The board effect of each property is stated on the member for that property: `PlayMove` and `PlayAt` give `Rules.PutStone` or `Rules.Pass`, and `SetupPoints` and `SetupPlayer` give the painted points and the turn. The same holds for `SgfImport.ProcessSequence`, `SgfImport.ProcessTree` and `SgfImport.FromSGF`, which are built on it.
- SgfImport.FromSGF: the same node-by-node account, from the root that `SZ` sizes; the game returned is at its root. The export-then-import round trip stops at the parsed game tree, as under SgfExport.ToSGF.
- TreeDecode.FromBase64: the decode of an encoded tree is tied to the tree at the token level. The written text reads back as the record's tokens, and the returned game is reached from a new game by one `Link` per token. That replaying a tree's own tokens rebuilds a history equal to the tree is not proved.
- TreeDecode.FromHumanReadable: the same as TreeDecode.FromBase64, for the human-readable text.
- `isEmpty`/`removeThisNodeOnly` (igo.js:786-810) are left out, because nothing in the program calls `removeThisNodeOnly`.
- Texts are Dafny strings, that is sequences of Unicode scalar values; the program's strings are sequences of UTF-16 code units. The two differ only for characters above U+FFFF, which JavaScript stores as two code units. There, `BoardStringizer.FromHumanReadable` gives one EMPTY cell per character where the program's `length`/`charAt` loop (igo.js:1788-1797) gives two. The SGF parser, the comment reader and the human-readable tree reader compare characters only against ASCII delimiters, so each such character passes through them with the same outcome. `Base64.Atob` refuses it, as `atob` does.
- SgfParser: when the input ends right after a backslash inside a value, the program appends `null` to the value and then fails on the missing "]" (igo.js:1493-1498). The model fails at once, with the same outcome.
- The corrected halves of the Findings are the ones the rest of the model uses. The SGF import reads text values in one scan and undoes once per pushed node. The tree decoders refuse the records on which the program hangs.

## Findings

| source | as written | input that shows it | evidently intended | confidence | as-written member | corrected member |
|---|---|---|---|---|---|---|
| igo.js:2608-2611 | `processTree` calls `game.undo()` once per node of a sequence, whether or not the node moved the current node down | `(;B[aa](;W[bb];C[x])(;W[cc]))`: the comment node pushes nothing, so the first branch's two undos climb past B[aa] to the root, and W[cc] becomes a child of the root instead of B[aa] | one undo per node that pushed a history node, so that each branch starts where its parent sequence ended | not executed | SgfImport.ProcessTreeAsWritten | SgfImport.ProcessTree |
| igo.js:2272-2282 | `BitReader` delivers zero bits past the end of the string (igo.js:1728-1737), because `charCodeAt` gives NaN, and a setup's points loop stops only at a position of `boardSize` or more | the bytes [20, 2] (base 64 "FAI.") on a 1×1 board: a special command, the setup sub-command, the intersections flag 1, then only zero bits, so position 0 is read forever and `fromBase64` never returns | a record that ends early is refused | not executed | TreeRead.ShortSetupHangs | TreeRead.ShortSetupRefused |
| igo.js:1586-1587 | `toSGFText` (igo.js:1615-1617) escapes a backslash as `\\`. `parseSGFText` first drops every backslash followed by a line break, and undoes escapes only afterwards. An escaped backslash before a line break is therefore taken for a soft line break. | the text "\" followed by a line break: it is written as `\\` and a line break, and read back as one backslash with the line break lost | escapes and soft line breaks read in one left-to-right scan, so that the text reads back as written | not executed | SgfText.BackslashBeforeBreakLost | SgfText.TextRoundTripFixed |
| igo.js:2329-2358 | the token loop of `fromHumanReadable` skips every character that starts no token. At the end of the text `get()` yields `undefined`, which starts none either. | the empty text, or "_aa" (a record without its closing "."): after the last token nothing is left, and the loop never returns | a text that ends before the end of the tree is refused | not executed | TreeHuman.NoCommandHangs | TreeHuman.NoCommandRefused |
