# A verified model of the puzzle solver

The puzzle is a board of 10 x 5 cells plus up to ten pieces. Each piece has one
or more flat shapes; a shape may be rotated and shifted, but not flipped. A
*challenge* is a board on which some pieces are already drawn. A *solution*
places every remaining piece so that the pieces do not overlap and the board is
exactly covered. The repository has two solvers that count solutions:

- **by piece**: the pieces are tried from the most constrained one down. Two
  prunings apply: a window on the size of the next variant, and a test that the
  remaining pieces can still reach every cell.
- **by position**: the lowest empty cell is filled next, by every variant of
  every unused piece whose lowest cell is that one. Which pieces are used is
  recorded in spare high bits of the occupied word.

## How the model is built

**Bit boards.** A Java `long` becomes `Word = set<Bit>` with `Bit = 0..63`.

- `&` is `*`, `|` is `+`, `^` is `Xor` and `~` is `Complement`.
- `<< k` is `ShiftLeft`; bits shifted to 64 or beyond are dropped.
- `>>>` is `ShiftRightUnsigned` and `>>` is `ShiftRightSigned`.
- `Long.bitCount` is the cardinality.
- `numberOfTrailingZeros` and `numberOfLeadingZeros` are the search functions `TrailingZeros` and `LeadingZeros` (module `Bits`).

The boards are never used with arithmetic, so this encoding is exact. Cell
(x, y) is bit `11 * y + x`: each row keeps one margin bit, so a shift off the
right edge lands outside the board (module `BitBoard`).

**Pieces and challenges.**
- A piece is a datatype: its character, its variants, its first-bit table and
  its minimum and maximum size.
- Its well-formedness predicate states what the Java constructors establish.
- Methods that throw `IllegalArgumentException` return a `Result` whose error
  names the exception's cause (module `Wrappers`).
- `Challenges` models the pattern scan over the `pieceBoards` array, the
  backward removal of used pieces and the shape check.

**The reference count.**
- A *choice* gives each piece a variant index, or `NONE` while it is unplaced.
- `Tilings.TilingsOf(vss, occ)` is the set of complete choices whose variants
  are pairwise disjoint, miss `occ` and cover the rest of the board.
- `Tilings.Count` computes its cardinality last piece first.

**The two solvers.** Both are classes with counter fields.
- `ByPiece.SolverByPiece` has `solutions`, `tries` and a printed `output`
  sequence.
- `ByPosition.SolverByPosition` has `solutions`.
- Their recursive task methods are proved against the functions
  `ByPiece.Explore`/`Branch`/`Search` and `ByPosition.Explore`/`Try`/`Place`.
- Those functions are proved to count the tilings: `ByPiece.SearchCounts` and
  `PositionCounts.SolveCounts`.
- From both, `PositionCounts.SolversAgree` shows that the two solvers report the
  same number of solutions.

**Pruning.** `Pruning.PrunedKeepsNeeded` shows that `pruned` keeps every
variant that a tiling of the empty board uses. Hence pruning every piece, as
`PieceFactory.getPiecesPruned` does, keeps the number of tilings
(`Pruning.PruneAllTilings`). Both solvers, run on the pruned pieces, count the
tilings by the pieces as built (`Pruning.PrunedSearchCounts`,
`Pruning.PrunedPositionCounts`).

## Model

| member | source | states |
|---|---|---|
| Bits.TrailingZeros | src/main/java/puzzle/solver/SolverByPosition.java:112 | `numberOfTrailingZeros`. The result is 64 exactly for the empty word. Otherwise it is the lowest set bit. |
| Bits.LeadingZeros | src/main/java/puzzle/solver/BitBoard.java:117 | `numberOfLeadingZeros`. The result is 64 exactly for the empty word. Otherwise 63 minus it is the highest set bit. |
| Bits.Xor | src/main/java/puzzle/solver/SolverByPiece.java:183 | A bit is in `a ^ b` iff it is in exactly one of them. |
| Bits.ShiftLeft | src/main/java/puzzle/solver/BitBoard.java:73 | Bit i is set in `w << k` iff i >= k and bit i - k is set in w. Bits shifted past 63 are lost. |
| Bits.ShiftRightUnsigned | src/main/java/puzzle/solver/BitBoard.java:114 | Bit i is set in `w >>> k` iff bit i + k (below 64) is set in w. |
| BitBoard.IndexInjective | src/main/java/puzzle/solver/BitBoard.java:71-74 | Two on-board coordinates give the same bit iff they are equal. |
| BitBoard.IndexOrder | src/main/java/puzzle/solver/BitBoard.java:71-74 | The bit order is row-major reading order. |
| BitBoard.InitMasks | src/main/java/puzzle/solver/BitBoard.java:43-62 | The static initializer's loops compute FIRST_ROW, LAST_ROW, LAST_COLUMN and FULL_BOARD. |
| BitBoard.FullBoardSize | src/main/java/puzzle/solver/BitBoard.java:41-62 | FULL_BOARD has 50 cells, and its highest bit is 53. |
| BitBoard.FullBoardLeadingZeros | src/main/java/puzzle/solver/BitBoard.java:41-62 | `numberOfLeadingZeros(FULL_BOARD) == 10`, so 10 bits are spare. |
| BitBoard.GetBit | src/main/java/puzzle/solver/BitBoard.java:71-74 | `getBit` succeeds iff the coordinate is in range. Otherwise it raises the out-of-range error for that coordinate. |
| BitBoard.GetBitCell | src/main/java/puzzle/solver/BitBoard.java:71-74 | `getBit(x, y)` is one valid bit, holding exactly the cell (x, y). |
| BitBoard.IsSet | src/main/java/puzzle/solver/BitBoard.java:84-87 | `isSet` fails exactly for an out-of-range coordinate. Otherwise it reports membership of the cell's bit. |
| BitBoard.IsSetGetBit | src/main/java/puzzle/solver/BitBoard.java:84-87 | `isSet(getBit(x, y), x', y')` is true iff (x', y') == (x, y), and fails off the board. |
| BitBoard.ValidIsSubset | src/main/java/puzzle/solver/BitBoard.java:96-98 | `valid(b)` iff b lies within FULL_BOARD. |
| BitBoard.SingleBitValid | src/main/java/puzzle/solver/BitBoard.java:96-98 | A single bit is valid iff it is some cell's bit. The margin bits and bits 54 to 63 are invalid. |
| BitBoard.XSize | src/main/java/puzzle/solver/BitBoard.java:110-118 | The row-folding loop returns XExtent(b). |
| BitBoard.XExtent | src/main/java/puzzle/solver/BitBoard.java:100-118 | Every cell of b lies in a column below the result. The result is the highest used column plus one. |
| BitBoard.YSize | src/main/java/puzzle/solver/BitBoard.java:120-132 | The result is zero iff the board is empty. Every cell lies in a row below it. For a valid board it is the bottommost used row plus one. |
| BitBoard.ExtentsOfGetBit | src/main/java/puzzle/solver/BitBoard.java:110-132 | `xSize` and `ySize` are 0 for the empty board, and x + 1 and y + 1 for `getBit(x, y)`. |
| BitBoard.RotateRight | src/main/java/puzzle/solver/BitBoard.java:143-155 | The nested loops return the function Rotation(b). This includes the error `getBit` raises for a shape too wide to turn. |
| BitBoard.Rotation | src/main/java/puzzle/solver/BitBoard.java:143-155 | Rotation succeeds iff the shape is at most 5 columns wide. The result is then valid and fits a further turn. |
| BitBoard.RotationError | src/main/java/puzzle/solver/BitBoard.java:147-150 | For a shape too wide to turn, the error names the first out-of-range target cell in scan order. |
| BitBoard.RotatedCell | src/main/java/puzzle/solver/BitBoard.java:147-151 | Cell (x, y) of the rotation is set iff cell (y, ySize - 1 - x) of the source is. |
| BitBoard.RotatedTopLeft | src/main/java/puzzle/solver/BitBoard.java:134-142 | A top-left-justified shape rotates to a top-left-justified shape. Width and height are swapped. |
| BitBoard.FourQuarterTurns | src/test/java/puzzle/solver/BitBoardTest.java:130-139 | Four quarter turns of a turnable shape return the shape itself. |
| BitBoard.GenerateRotationsSteps | src/main/java/puzzle/solver/BitBoard.java:166-168 | There are exactly four rotations, element 0 is b, and element i + 1 is the rotation of element i. |
| BitBoard.GenerateRotationsResult | src/main/java/puzzle/solver/BitBoard.java:166-168 | The stream succeeds iff the shape is at most 5 columns wide. Otherwise it raises rotateRight's error. |
| BitBoard.RotationsCycle | src/main/java/puzzle/solver/BitBoard.java:157-168 | Every rotation can be turned again, and turning the last one gives back b. |
| BitBoard.XShiftValid | src/main/java/puzzle/solver/BitBoard.java:177-179 | `b << 1` is valid iff b does not touch the last column. |
| BitBoard.XShiftCell | src/main/java/puzzle/solver/BitBoard.java:177-179 | Cell (x, y) of `xShift(b)` is set iff cell (x - 1, y) of b is. |
| BitBoard.XShiftGetBit | src/main/java/puzzle/solver/BitBoard.java:177-179 | Shifting a single cell moves it one column right. From the last column the result is invalid. |
| BitBoard.YShiftValid | src/main/java/puzzle/solver/BitBoard.java:201-208 | `yShift(b)` is valid iff b does not touch the last row. The invalid bit is set when it does. |
| BitBoard.YShiftCell | src/main/java/puzzle/solver/BitBoard.java:201-208 | Cell (x, y) of `yShift(b)` is set iff cell (x, y - 1) of b is. |
| BitBoard.YShiftGetBit | src/main/java/puzzle/solver/BitBoard.java:201-208 | Shifting a single cell moves it one row down. From the last row the result is invalid. |
| BitBoard.XShifts | src/main/java/puzzle/solver/BitBoard.java:190-192 | The stream is non-empty iff b is valid. It starts at b, each element is the shift of the previous one, and all are valid and non-empty. The next shift is invalid. |
| BitBoard.XShiftsCount | src/main/java/puzzle/solver/BitBoard.java:190-192 | There are 10 - xSize(b) + 1 shifts, and the last one touches the right edge. |
| BitBoard.XShiftsCell | src/main/java/puzzle/solver/BitBoard.java:190-192 | Shift k holds cell (x, y) iff b holds (x - k, y). |
| BitBoard.YShifts | src/main/java/puzzle/solver/BitBoard.java:219-221 | The same stream properties as for XShifts, for `yShift`. |
| BitBoard.YShiftsCount | src/main/java/puzzle/solver/BitBoard.java:219-221 | There are 5 - ySize(b) + 1 shifts, and the last one touches the bottom edge. |
| BitBoard.YShiftsCell | src/main/java/puzzle/solver/BitBoard.java:219-221 | Shift k holds cell (x, y) iff b holds (x, y - k). |
| Pieces.FirstNonWhitespace | src/main/java/puzzle/solver/Piece.java:37 | `stripLeading().charAt(0)`: the first non-whitespace character. It fails iff there is none. |
| Pieces.JoinSplitLines | src/main/java/puzzle/solver/Piece.java:192 | Splitting on '\n' and joining again gives back the text. |
| Pieces.SplitJoinLines | src/main/java/puzzle/solver/Piece.java:192 | Joining lines without '\n' and splitting again gives back the lines. |
| Pieces.SplitIsLines | src/main/java/puzzle/solver/Piece.java:192 | Java's `split` is the line split with trailing empty lines dropped. |
| Pieces.Parse | src/main/java/puzzle/solver/Piece.java:190-201 | The scan loops return ShapeBoard(form). |
| Pieces.ShapeBoard | src/main/java/puzzle/solver/Piece.java:190-201 | The result holds cell (x, y) iff row y has a non-space character at column x. It fails iff some mark is off the board, with the first such mark's error. |
| Pieces.ShapeVariants | src/main/java/puzzle/solver/Piece.java:38-43 | A shape's variants exist iff it can be rotated. Otherwise they carry rotateRight's error. All variants are valid and non-empty. |
| Pieces.ShapesVariantsOk | src/main/java/puzzle/solver/Piece.java:36-44 | Expansion of all shapes succeeds iff every shape parses and is narrow enough to rotate. |
| Pieces.NewPiece | src/main/java/puzzle/solver/Piece.java:36-55 | The constructor succeeds iff the first shape has a character and all shapes fit. The piece is then well formed, its character is the first shape's, and its variants are the expansion in shape, rotation, y-shift, x-shift order. |
| Pieces.MinSize | src/main/java/puzzle/solver/Piece.java:50-53 | The statistics' minimum: a lower bound attained by some variant. It is `Integer.MAX_VALUE` for no variants. |
| Pieces.MaxSize | src/main/java/puzzle/solver/Piece.java:50-54 | The statistics' maximum: an upper bound attained by some variant. It is `Integer.MIN_VALUE` for no variants. |
| Pieces.SizeBounds | src/main/java/puzzle/solver/Piece.java:116-127 | Every variant's size lies in [minSize, maxSize], and both bounds are attained. |
| Pieces.CreateTableByFirstBit | src/main/java/puzzle/solver/Piece.java:203-213 | The loop builds the 65-entry table of the function TableByFirstBit. |
| Pieces.TablePartition | src/main/java/puzzle/solver/Piece.java:203-213 | The 65 entries together hold exactly as many variants as the piece has. |
| Pieces.FirstBitEntry | src/main/java/puzzle/solver/Piece.java:203-213 | Entry `bit` is the order-preserving subsequence of the variants whose lowest bit is `bit`, with their multiplicities. |
| Pieces.VariantCount | src/main/java/puzzle/solver/Piece.java:72-74 | The variant count equals the total size of the first-bit table. |
| Pieces.Variant | src/main/java/puzzle/solver/Piece.java:83-85 | Every variant is a valid, non-empty board. |
| Pieces.VariantCountByFirstBit | src/main/java/puzzle/solver/Piece.java:94-96 | The count is at most the variant count. It is zero iff no variant has that lowest bit. |
| Pieces.EmptyWordEntry | src/main/java/puzzle/solver/Piece.java:203-205 | Entry 64 of the first-bit table, for the empty word, holds no variant. |
| Pieces.VariantByFirstBit | src/main/java/puzzle/solver/Piece.java:107-109 | Each entry is a variant of the piece with that lowest bit. |
| Pieces.FittingBits | src/main/java/puzzle/solver/Piece.java:178-182 | The accumulated bits are exactly the cells of variants disjoint from bb. |
| Pieces.CanFillAround | src/main/java/puzzle/solver/Piece.java:171-188 | The loop with its after-each-piece exit returns CanFill(bb, pieces). |
| Pieces.CanFillAtEnd | src/main/java/puzzle/solver/Piece.java:171-188 | For a non-empty list, the early test after each piece gives the same answer as one test after all pieces. |
| Pieces.CanFillSound | src/main/java/puzzle/solver/Piece.java:160-170 | When the test fails, a free cell exists that no variant disjoint from bb covers. |
| Pieces.ReachGrows | src/main/java/puzzle/solver/Piece.java:175-182 | The accumulator only grows, and stays on the board. |
| Pieces.Others | src/main/java/puzzle/solver/Piece.java:151-153 | The list without this piece: it holds every other piece of the list and not this one. |
| Pieces.Pruned | src/main/java/puzzle/solver/Piece.java:150-158 | The pruned piece keeps its character and is well formed. |
| Pieces.PrunedVariants | src/main/java/puzzle/solver/Piece.java:150-158 | The pruned variants are the order-preserving subsequence passing canFillAround with the other pieces. |
| Pruning.PrunedKeepsNeeded | src/main/java/puzzle/solver/Piece.java:137-158 | Pruning never removes a variant needed for some solution. For two or more distinct pieces, the variant any tiling of the empty board gives a piece stays in that piece's pruned variants. |
| Pruning.NeededFills | src/main/java/puzzle/solver/Piece.java:150-156 | The other pieces of such a tiling pass canFillAround around the variant it gives the piece. |
| Pruning.SurvivorKept | src/main/java/puzzle/solver/Piece.java:154-156 | A variant that passes canFillAround against the other pieces is kept. |
| Pruning.PrunedAlone | src/main/java/puzzle/solver/Piece.java:150-158 | A piece pruned against a list holding only itself keeps no variant, because canFillAround with no pieces is false. |
| Pruning.PruneAll | src/main/java/puzzle/solver/PieceFactory.java:18-24 | `getPiecesPruned`: the same characters in the same order, and well-formed pieces stay well formed. |
| Pruning.PruneAllDistinct | src/main/java/puzzle/solver/PieceFactory.java:18-24 | Pruned pieces repeat no variant when the originals do not. |
| Pruning.PruneAllTilings | src/main/java/puzzle/solver/PieceFactory.java:13-24 | For two or more distinct pieces without repeated variants, pruning every piece keeps the number of tilings of the empty board. |
| Pruning.PrunedSearchCounts | src/main/java/puzzle/solver/MainCountSolutions.java:18-30 | The piece solver's count for the pruned pieces on the empty board is the number of tilings by the unpruned pieces. |
| Pruning.PrunedPositionCounts | src/main/java/puzzle/solver/MainCountSolutions.java:18-30 | The position solver's count for the pruned pieces is the number of tilings by the unpruned pieces. |
| Challenges.IndexOfCharacterFinds | src/main/java/puzzle/solver/Challenge.java:91-98 | It finds the first piece with the character, or fails with that character's error iff none has it. |
| Challenges.FindPieceIndexByCharacter | src/main/java/puzzle/solver/Challenge.java:91-98 | The loop returns IndexOfCharacter. |
| Challenges.ScanRow | src/main/java/puzzle/solver/Challenge.java:57-64 | One row of the scan ORs each mark's bit into `occupied` and into the board of its piece, or stops at the first bad mark. |
| Challenges.ScanPattern | src/main/java/puzzle/solver/Challenge.java:50-65 | The scan returns the occupied cells and the per-piece boards of the marks, or the first bad mark's error. |
| Challenges.StrokesBelowFacts | src/main/java/puzzle/solver/Challenge.java:56-65 | The marks are read iff each is on the board and names a piece. Otherwise the error is that of the first bad mark in reading order. |
| Challenges.RemoveUsed | src/main/java/puzzle/solver/Challenge.java:67-86 | The backward loop removes used pieces, returning Available(pieces, boards). |
| Challenges.NewChallenge | src/main/java/puzzle/solver/Challenge.java:26-30 | The constructor returns ChallengeOf(pieces, pattern). |
| Challenges.ChallengeOfErrors | src/main/java/puzzle/solver/Challenge.java:50-98 | A challenge is built iff every mark is good and every used piece is drawn as one of its variants. Otherwise the error is the first bad mark, or the highest misdrawn piece. |
| Challenges.ChallengeOfResult | src/main/java/puzzle/solver/Challenge.java:37-48 | The occupied board holds exactly the marked cells. Each used piece is drawn as one of its variants. The available pieces are the unused ones in their original order. |
| Challenges.UsedByCharacter | src/main/java/puzzle/solver/Challenge.java:91-96 | With distinct characters, a piece is used iff its character is marked in the pattern. |
| Tilings.CompletionsMember | src/main/java/puzzle/solver/SolverByPiece.java:92-96 | A completion of a partial choice extends it and tiles the board around occ. |
| Tilings.LastPieceTiles | src/main/java/puzzle/solver/SolverByPiece.java:119-131 | A choice tiles iff the last piece's variant misses occ and the other pieces tile around it. |
| Tilings.TilingSize | src/main/java/puzzle/solver/SolverByPiece.java:110 | In a tiling, the occupied size plus the chosen sizes is the board size. |
| Tilings.CountTilings | src/main/java/puzzle/solver/SolverByPiece.java:92-96 | The reference Count equals the number of tilings. |
| Tilings.ApplySwapsTilings | src/main/java/puzzle/solver/SolverByPiece.java:47 | Reordering the pieces by swaps keeps the number of tilings. |
| ByPiece.SortSorts | src/main/java/puzzle/solver/SolverByPiece.java:47 | The sort gives non-increasing variant counts, and a permutation of the pieces. |
| ByPiece.SortSwaps | src/main/java/puzzle/solver/SolverByPiece.java:47 | The sort is a sequence of adjacent swaps. |
| ByPiece.SortedTilings | src/main/java/puzzle/solver/SolverByPiece.java:40-51 | Sorting the pieces does not change the number of tilings. |
| ByPiece.WindowExact | src/main/java/puzzle/solver/SolverByPiece.java:108-115 | For realistic sizes the 32-bit loop computes free - sum of max sizes and free - sum of min sizes. |
| ByPiece.Wrap32 | src/main/java/puzzle/solver/SolverByPiece.java:109-115 | 32-bit `int` wrap-around. The result stays in range and leaves in-range values unchanged. |
| ByPiece.WindowSound | src/main/java/puzzle/solver/SolverByPiece.java:124-127 | A variant in a tiling of the remaining pieces always passes the size window. |
| ByPiece.CanFillNeeded | src/main/java/puzzle/solver/SolverByPiece.java:128-131 | A board that the remaining pieces tile always passes `canFillAround`. |
| ByPiece.LeafTilings | src/main/java/puzzle/solver/SolverByPiece.java:178-195 | With distinct variants, the last piece completes the board once iff `occ ^ FULL_BOARD` is one of its variants, and not at all otherwise. |
| ByPiece.FirstIndexFinds | src/main/java/puzzle/solver/SolverByPiece.java:185-191 | The scan finds the holes iff they are in the list. |
| ByPiece.LeafCounts | src/main/java/puzzle/solver/SolverByPiece.java:179-186 | Counting among the first-bit variants and printing among all variants both count the reference Count of the last piece around o, so they agree. |
| ByPiece.BranchLast | src/main/java/puzzle/solver/SolverByPiece.java:153-166 | At piece 1, every variant is one try. A fitting variant hands `occ` or `bb` to the last piece. |
| ByPiece.BranchPruned | src/main/java/puzzle/solver/SolverByPiece.java:119-141 | At levels >= 2, a child task exists only for a variant that fits, passes the size window and passes canFillAround. The child has `occ` or `bb` and piece index k - 1. |
| ByPiece.SearchCounts | src/main/java/puzzle/solver/SolverByPiece.java:54-63 | For two or more pieces with distinct variants, the solution count is the number of tilings of the board around the initial cells. |
| ByPiece.SearchConsistent | src/main/java/puzzle/solver/SolverByPiece.java:178-219 | Each solution costs at least one try. Printing prints a line per solution, and counting prints nothing. |
| ByPiece.SearchSound | src/main/java/puzzle/solver/SolverByPiece.java:203-243 | Every printed board is the text of a tiling, one per solution. |
| ByPiece.RenderCells | src/main/java/puzzle/solver/SolverByPiece.java:231-269 | The text shows each piece's character on its cells. Initially occupied cells stay blank, and newlines end the rows. |
| ByPiece.PrintClean | src/main/java/puzzle/solver/SolverByPiece.java:254-269 | Drawing disjoint pieces reports no overlap. |
| ByPiece.SolverByPiece.constructor | src/main/java/puzzle/solver/SolverByPiece.java:40-51 | The pieces are the sorted list, flags as given, counters zero. |
| ByPiece.SolverByPiece.Solve | src/main/java/puzzle/solver/SolverByPiece.java:54-64 | Resets both counters, then adds exactly Search's outcome to them and to the output. |
| ByPiece.SolverByPiece.Compute | src/main/java/puzzle/solver/SolverByPiece.java:92-169 | The task adds Explore's outcome for piece k over all its variants. |
| ByPiece.SolverByPiece.ComputePruned | src/main/java/puzzle/solver/SolverByPiece.java:101-145 | The pruned levels add Explore's outcome. |
| ByPiece.SolverByPiece.ComputeLast | src/main/java/puzzle/solver/SolverByPiece.java:147-167 | The second-to-last level adds Explore's outcome. |
| ByPiece.SolverByPiece.SizeWindow | src/main/java/puzzle/solver/SolverByPiece.java:108-115 | The loop returns Window. |
| ByPiece.SolverByPiece.TryVariant | src/main/java/puzzle/solver/SolverByPiece.java:120-141 | Adds one try, plus the child's outcome exactly when the variant is admitted. |
| ByPiece.SolverByPiece.TryCovered | src/main/java/puzzle/solver/SolverByPiece.java:130-140 | Recurses exactly when canFillAround of the remaining pieces holds. |
| ByPiece.SolverByPiece.TryLastVariant | src/main/java/puzzle/solver/SolverByPiece.java:154-165 | Adds Branch's outcome for the variant. |
| ByPiece.SolverByPiece.SolveLastCount | src/main/java/puzzle/solver/SolverByPiece.java:178-195 | Adds LastCount: one solution and j + 1 tries at match j, else the entry's length in tries. |
| ByPiece.SolverByPiece.SolveLastPrint | src/main/java/puzzle/solver/SolverByPiece.java:203-219 | Adds LastPrint, and prints the solution on a match. |
| ByPiece.SolverByPiece.PrintSolution | src/main/java/puzzle/solver/SolverByPiece.java:231-243 | Appends PrintLines: the overlap reports, then the board text. |
| ByPiece.SolverByPiece.DrawPiece | src/main/java/puzzle/solver/SolverByPiece.java:254-269 | The buffer becomes Draw(old, variant, character), and the overlaps of already drawn cells are reported. |
| ByPosition.PieceMasks | src/main/java/puzzle/solver/SolverByPosition.java:57-61 | One mask per first-bit variant of the piece. |
| ByPosition.MaskTable | src/main/java/puzzle/solver/SolverByPosition.java:51 | The table has 64 positions. |
| ByPosition.LastUsed | src/main/java/puzzle/solver/SolverByPosition.java:52-71 | `maxPos` is the highest position with a mask, and every higher position is empty. It is 0 when none has a mask. |
| ByPosition.FirstEmpty | src/main/java/puzzle/solver/SolverByPosition.java:112 | The first empty position is 64 iff the occupied word is exactly FULL_BOARD. |
| ByPosition.SetupTagged | src/main/java/puzzle/solver/SolverByPosition.java:51-65 | For at most 10 pieces, every mask has a bit off the board. |
| ByPosition.MaskOwner | src/main/java/puzzle/solver/SolverByPosition.java:55-60 | Every mask of the first m pieces carries the tag bit 63 - p of some piece p < m. |
| ByPosition.SolverByPosition.constructor | src/main/java/puzzle/solver/SolverByPosition.java:37-75 | Given at most `numberOfLeadingZeros(FULL_BOARD)` pieces, the fields are the mask table, maxPos and solvedMask of Setup. |
| ByPosition.SolverByPosition.Create | src/main/java/puzzle/solver/SolverByPosition.java:45-47 | Construction fails iff there are more than 10 pieces, with the too-many-pieces error. |
| ByPosition.SolverByPosition.Solve | src/main/java/puzzle/solver/SolverByPosition.java:78-87 | Resets the count, then counts Explore from the empty board at level n - 1. |
| ByPosition.SolverByPosition.Compute | src/main/java/puzzle/solver/SolverByPosition.java:107-154 | The task adds Explore over all masks at the first empty cell. |
| ByPosition.SolverByPosition.TryMask | src/main/java/puzzle/solver/SolverByPosition.java:121-150 | One mask adds Try: nothing if `mask & occupied` is non-zero, else Place of `occupied` or `mask`. |
| ByPosition.SolverByPosition.SolveLast | src/main/java/puzzle/solver/SolverByPosition.java:163-180 | Adds Last: one solution iff some mask at the first empty cell equals `occupied ^ solvedMask`. |
| ByPosition.SolverByPosition.CanFillAround | src/main/java/puzzle/solver/SolverByPosition.java:190-207 | The loop returns FillsAround. |
| ByPosition.SolverByPosition.MasksAt | src/main/java/puzzle/solver/SolverByPosition.java:53-65 | The loop over the pieces builds MasksUpTo for the position. |
| ByPosition.SolverByPosition.AddPieceMasks | src/main/java/puzzle/solver/SolverByPosition.java:56-61 | Appends the piece's masks at the position. |
| PositionCounts.TableMember | src/main/java/puzzle/solver/SolverByPosition.java:51-65 | A mask is listed at pos iff it is a variant of some piece p whose lowest bit is pos, with tag bit 63 - p. |
| PositionCounts.MasksUpToMember | src/main/java/puzzle/solver/SolverByPosition.java:53-62 | A mask is among the first m pieces' masks iff its owner is below m. |
| PositionCounts.TableNoDup | src/main/java/puzzle/solver/SolverByPosition.java:51-65 | With distinct variants, no mask is listed twice at a position. |
| PositionCounts.MaskOnBoard | src/main/java/puzzle/solver/SolverByPosition.java:51-69 | Only positions of board cells (at most 53) have masks. |
| PositionCounts.AllPiecesTags | src/main/java/puzzle/solver/SolverByPosition.java:73 | `(1L << 63) >> (n - 1)` is exactly the top n bits. |
| PositionCounts.MaskSolved | src/main/java/puzzle/solver/SolverByPosition.java:72-74 | Every mask lies within solvedMask. |
| PositionCounts.Fits | src/main/java/puzzle/solver/SolverByPosition.java:121-136 | `mask & occupied == 0` iff the mask's piece is unused and its shape misses the placed cells. |
| PositionCounts.ChildState | src/main/java/puzzle/solver/SolverByPosition.java:124-142 | The child state is `occupied` or `mask`. It places the mask's piece, and one fewer piece is unplaced. |
| PositionCounts.FirstFree | src/main/java/puzzle/solver/SolverByPosition.java:112 | Unless the board is full, the first empty position is the lowest uncovered board cell. |
| PositionCounts.CompletionMask | src/main/java/puzzle/solver/SolverByPosition.java:112-133 | Every placement covers the first empty cell, which no other piece of a completion covers. |
| PositionCounts.UnplacedMask | src/main/java/puzzle/solver/SolverByPosition.java:118-142 | Every completion places each unplaced piece by some listed mask that fits now, at a position in [firstEmpty, maxPos]. |
| PositionCounts.SplitAll | src/main/java/puzzle/solver/SolverByPosition.java:133-151 | The completions are exactly the union over the masks at the first empty cell of the child's completions. |
| PositionCounts.PartsDisjoint | src/main/java/puzzle/solver/SolverByPosition.java:133-151 | Different masks lead to disjoint sets of completions. |
| PositionCounts.LastTarget | src/main/java/puzzle/solver/SolverByPosition.java:167-168 | With one piece left, `occupied ^ solvedMask` is the holes plus that piece's tag bit. |
| PositionCounts.LastMask | src/main/java/puzzle/solver/SolverByPosition.java:171-177 | The target is listed at the first empty cell iff the holes are a variant of the last piece. |
| PositionCounts.LastCounts | src/main/java/puzzle/solver/SolverByPosition.java:163-180 | The last level counts exactly the completions of the state: one or none. |
| PositionCounts.AccumulatedSolved | src/main/java/puzzle/solver/SolverByPosition.java:194-205 | If a completion exists, the accumulation over [firstEmpty, maxPos] reaches solvedMask. |
| PositionCounts.PruneSound | src/main/java/puzzle/solver/SolverByPosition.java:190-207 | `canFillAround` holds in every state that has a completion, so pruning loses no solution. |
| PositionCounts.ExploreCounts | src/main/java/puzzle/solver/SolverByPosition.java:107-154 | A task counts the sum of the completion counts of its masks' children. |
| PositionCounts.PlaceCounts | src/main/java/puzzle/solver/SolverByPosition.java:114-153 | Each placed state counts exactly its completions. |
| PositionCounts.SolveCounts | src/main/java/puzzle/solver/SolverByPosition.java:78-87 | For 2 to 10 pieces with distinct variants, the count is the number of tilings of the empty board. |
| PositionCounts.SolversAgree | src/main/java/puzzle/solver/MainCountSolutions.java:19-25 | For the same pieces and the empty board, both solvers count the same number of solutions. |

## Left out

- Fork/join parallelism is modelled as sequential recursion. This covers `RecursiveAction`, `fork`/`join` and the queue-length test. The fork-or-inline choice does not change what is counted.
- `LongAdder` counters are modelled as natural-number fields, which cannot overflow.
- Timing is left out: clocks, `printStats` and its throughput arithmetic, and the hard-coded tries constant of the position solver. These are diagnostics only.
- Printing is left out as I/O. `System.out` output of the by-piece solver is an `output` sequence of lines. `BitBoard.toString`, `BitBoard.dump` and `Piece.dump`, which only print, are not modelled.
- The chain of parent task references is left out. Its chosen variants are carried as a sequence parameter.
- The by-position solver keeps no tries counter; it is commented out in the code.
- `PieceFactory.getPieces`, the `Solver` interface and the entry points `MainCountSolutions`/`MainSolveChallenge` are left out. They are a literal shape table, an interface without logic, and wiring. `getPiecesPruned` is `Pruning.PruneAll`.
- Streams are modelled as finite sequences. The only stream that can be infinite is the shift stream of a blank shape (see Pieces.NewPiece below).
- Pieces.NewPiece, BitBoard.XShifts and BitBoard.YShifts: require shapes with at least one cell.
  - A blank shape parses to 0. `valid(0)` holds and `yShift(0)` is 0, so the `generateYShifts` stream never ends.
  - The Java constructor then never returns. The model leaves that input out instead of modelling the hang.
- Pieces.NewPiece: also requires at least one shape. With none, Java's `shapes[0]` throws `ArrayIndexOutOfBoundsException`.
- Pieces.FirstNonWhitespace: Java's `char` is a UTF-16 code unit, while Dafny's `char` is a Unicode scalar value. The two agree on characters outside the surrogate range, which covers every shape character in the code.
- Pieces.FirstNonWhitespace: for a first shape with no non-whitespace character, Java's `charAt(0)` throws `StringIndexOutOfBoundsException`. The model returns the error `NoShapeCharacter` for it.
- Pieces.Others: Java drops the pieces identical to this one. `Predicate.isEqual` falls back to object identity, since `Piece` does not override `equals`.
  - The model compares values. For two separate but equal piece objects, the model drops both, while Java keeps the other one.
  - The factory's pieces have ten different characters, so there the two readings agree.
  - For this reason, Pruning.PrunedKeepsNeeded, Pruning.PruneAllTilings, Pruning.PrunedSearchCounts and Pruning.PrunedPositionCounts require distinct pieces.
- Pruning.PrunedKeepsNeeded: needs at least two pieces. With one piece, `canFillAround` gets an empty list and answers false, so pruning removes every variant (Pruning.PrunedAlone).
- Pruning.PrunedKeepsNeeded: is stated for tilings of the empty board, the board `pruned` tests against. The challenge version (a solution together with the pieces drawn in the pattern) is not stated as a lemma.
- ByPiece.SearchCounts: needs at least two pieces.
  - With a single piece, the root task starts at piece index 0 and takes the second-to-last branch with that same piece.
  - Java's `assert` that rules this out is disabled by default.
- n == 1 is also outside the counting theorems of the position solver.
- ByPiece.SearchCounts and PositionCounts.SolveCounts: stated for pieces whose variant lists have no duplicates.
  - With a duplicated variant, the last-level searches still count a matching cell set at most once.
  - The equality with the number of tilings then fails.
- ByPiece.SolverByPiece.Solve: only the exact equality with the search function is proved for the tries counter. The source promises nothing about tries beyond that.
- PositionCounts.PruneSound: states only that pruning loses no solution. The test is not monotone in the occupied word, and none is claimed.
- ByPosition.SolverByPosition.constructor: takes well-formed pieces, as the `Piece` constructors build them.
- The 65th table entry (index 64, for the empty word) is kept, and it is always empty (Pieces.EmptyWordEntry). The last-piece search reads it when the board is already full before the last piece: `toCover` is 0 and its trailing-zero count is 64.
- A printed solution is not always a fully filled grid: in the code, cells occupied at the start stay blank. The model follows the code (ByPiece.RenderCells).
