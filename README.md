# go4 in Dafny

A model of go4, a Connect 4 solver for a 7-wide, 6-high board. The model covers:

- **Bitboard algebra.** A position is two 64-bit boards: `mask` (every stone) and `currentPosition` (the stones of the player to move). Each column takes 7 bits, one of them a sentinel above the column. On top of that sit dropping a stone, the cells where a stone can go, the four-in-a-row test, the cells that would complete a line, the moves that do not lose at once, the table key of a position folded with its mirror image, the text rendering and the bit count.
- **Transposition table.** Two arrays of 32-bit tags and 8-bit values, with a range check on the key.
- **Negamax scaffolding.** Window clamping, insertion-sort move ordering by score, and the child loop that stores an upper bound in the table.
- **solve.** It narrows the score interval with null-window searches.
- **play.** It replays a move string from the empty board and rejects the first move that is out of range, goes into a full column or would end the game.

Modules, in dependency order:

- `Bits`: bit counts of 64-bit words and popcount.
- `Bitboard`: board constants, masks, alignment, computeWinningPosition, Position and Play.
- `Threats`: winning moves, NonLosingMoves and Score.
- `Keys`: Key and the mirror fold.
- `Table`: the transposition table as a class over two arrays, specified by the functions `Insert` and `Lookup` on its contents.
- `Search`: negamax, move ordering and solve.
- `Text`: String.
- `Driver`: play.

Go's `uint64` values are `bv64`. The table's `uint32` and `uint8` are integer newtypes, and Go's wrap-arounds are written out where they matter:

- `uint(moves[i] - '1')`: the byte subtraction wraps modulo 256, and the result is a 64-bit `uint`. Move bytes are `bv8` and columns `bv64`.
- `uint8(alpha - MIN_SCORE + 1)` wraps modulo 256.
- `uint64(len) * 0x100000000` wraps modulo 2^64.
- Go's truncating `/` on negative `int`s is written as `GoDiv`.

A position is `Valid` when:

- every column is a contiguous stack from the bottom;
- the mover's stones are among the stones;
- the stones lie on the board;
- the move counter equals the number of stones.

## Model

| member | source | states |
|---|---|---|
| Bits.Popcount | go4.go:243-249 | The loop that clears the lowest set bit until the word is zero returns the number of set bits of its argument. |
| Bits.ClearLowest | go4.go:245-246 | `m & (m - 1)` on a nonzero word has exactly one set bit fewer than `m`. |
| Bits.SingleBit | go4.go:195 | A word has at least two set bits if and only if it is nonzero and `m & (m - 1)` is nonzero. It has exactly one if and only if it is nonzero and `m & (m - 1)` is zero. |
| Bits.CountAtMost64 | go4.go:239-241 | No 64-bit word has more than 64 set bits. |
| Bitboard.BoardMasks | go4.go:16-18 | BOTTOM_MASK and BOARD_MASK have the documented values. BOARD_MASK is the union of the seven column masks and has 42 cells. |
| Bitboard.ColumnMasks | go4.go:22-32 | For each column: topMaskCol is its top cell and bottomMaskCol its bottom cell. columnMask lies on the board, holds all six cells of the column, and is disjoint from every other column's mask. |
| Bitboard.AlignmentExamples | go4.go:34-60 | alignment accepts a vertical, a horizontal and both diagonal lines of four. It rejects three in a column and an L of four stones. |
| Bitboard.ComputeWinningPosition | go4.go:123-152 | When the mask lies on the board, every cell of the result is on the board and empty. |
| Bitboard.WinningPosition | go4.go:154-156 | When the stones lie on the board, every cell of WinningPosition, computeWinningPosition on the mover's stones, is on the board and empty. |
| Bitboard.OpponentWinningPosition | go4.go:158-160 | When the stones lie on the board, every cell of OpponentWinningPosition, computeWinningPosition on the opponent's stones, is on the board and empty. |
| Bitboard.WinningExamples | go4.go:123-152 | Three stacked stones are completed only by the cell above them. Three stones in a row are completed only by the cell on either end. |
| Bitboard.MoveCountBound | go4.go:178-180 | A valid position has made at most 42 moves. |
| Bitboard.PlayEffects | go4.go:116-121 | Play on a non-full column of a valid position drops a stone into that column's lowest empty cell and changes no other column. The opponent becomes the player to move. The mover owns their old stones plus the new one. The move counter goes up by one. |
| Bitboard.PlayValid | go4.go:116-121 | Play on a non-full column keeps a position valid. |
| Bitboard.CanPlayIff | go4.go:174-176 | In a valid position, CanPlay holds if and only if the column has an empty cell. |
| Bitboard.PossibleLowest | go4.go:162-164 | In a valid position, the cell Possible gives for a playable column is that column's lowest empty cell. |
| Bitboard.PossibleFull | go4.go:162-164 | In a valid position, Possible has no cell in a full column. |
| Bitboard.PossibleOnBoard | go4.go:162-164 | Every cell of Possible lies on the board. |
| Threats.CanWinNextIff | go4.go:166-172 | CanWinNext holds if and only if IsWinningMove holds for one of the seven columns. |
| Threats.WinningMoveCanPlay | go4.go:170-176 | In a valid position, a winning move is into a column that is not full. |
| Threats.WinningMoveCell | go4.go:170-172 | In a valid position, a playable column is a winning move if and only if its lowest empty cell lies in WinningPosition. |
| Threats.NonLosingPossible | go4.go:190-204 | Every non-losing move is a possible move. |
| Threats.NonLosingTwoForced | go4.go:193-197 | With two or more cells where the opponent would win next, there is no non-losing move. |
| Threats.NonLosingOneForced | go4.go:193-200 | With exactly one such cell, the non-losing moves are at most that cell. |
| Threats.NonLosingNoForced | go4.go:193-203 | With no such cell, every possible cell that is not directly below an opponent's winning cell is a non-losing move. |
| Threats.NonLosingNotBelow | go4.go:202-203 | No non-losing move is directly below a cell where the opponent would win. |
| Threats.OpponentWinsBound | go4.go:239-241 | The opponent's winning cells number at most 64, and at most 42 when the stones lie on the board. |
| Threats.Score | go4.go:239-241 | Score is the number of the opponent's winning cells. It lies in [0, 64], and in [0, 42] when the stones lie on the board. |
| Keys.Mirror | go4.go:208 | The mirrored code fits in 49 bits. |
| Keys.Key | go4.go:206-214 | The key is the position code or the code of its mirror image, whichever is smaller as an unsigned number. |
| Keys.MirrorInvolution | go4.go:208 | Mirroring twice gives back every code that fits in 49 bits. |
| Keys.SmallerSymmetric | go4.go:209-213 | The smaller of two codes does not depend on their order. |
| Keys.KeyMirrorCode | go4.go:206-214 | A valid position and any position whose code is the mirror of its code have the same key. |
| Keys.DecodeKeyCode | go4.go:106-108 | The code `currentPosition + mask` of a valid position loses nothing: decoding it column by column gives back both boards. A column of h stones has code (the mover's stones in it) + 2^h - 1, a value in [2^h - 1, 2^(h+1) - 2], and the decoder takes the largest 2^h - 1 not above it as the column's stack. |
| Keys.KeyCodeInjective | go4.go:106-108 | `currentPosition + mask` is a non-ambiguous representation: two valid positions with the same code are the same position. |
| Keys.MirrorColumns | go4.go:208 | The mirror of a word puts its column group 6 - c at group c, for each of the seven columns. |
| Keys.MirrorCount | go4.go:208 | Mirroring a code that fits in 49 bits keeps its number of set bits. |
| Keys.MirrorValid | go4.go:62-108 | The left-right mirror image of a valid position is valid. |
| Keys.KeyCodeMirror | go4.go:207-208 | The code of the mirror image of a valid position is the mirror of its code. |
| Keys.MirrorPositionTwice | go4.go:208 | Mirroring a valid position twice gives it back. |
| Keys.KeyMirror | go4.go:206-214 | A valid position and its left-right mirror image are both valid and have the same key, so Key folds them onto one table entry. |
| Keys.KeyBound | go4.go:206-214 | The key of a valid position fits in 49 bits. |
| Table.Limit | go4.go:272 | The bound of the range check wraps into [0, 2^64). A table with no slots has bound 0. |
| Table.Slot | go4.go:276 | The slot of a key that passes the range check is a valid index. |
| Table.TranspositionTable.constructor | go4.go:293-298 | A new table has `size` slots, with every tag and every value zero. |
| Table.TranspositionTable.Put | go4.go:271-280 | The new contents and the error are those of `Insert` on the old contents. The arrays stay the same length. |
| Table.TranspositionTable.Get | go4.go:282-291 | The value and the error are those of `Lookup` on the contents. |
| Table.PutGet | go4.go:271-291 | A key in range is accepted by Put, and Get then reads back the value just put, without error. |
| Table.OutOfRange | go4.go:272-274 | A key out of range makes Put fail and leave the table unchanged. Get fails on it with value 0. |
| Table.RangeNoWrap | go4.go:272 | While `len * 2^32` does not wrap, a key passes the range check if and only if it is below `len * 2^32`. |
| Table.RangeWrapsToZero | go4.go:272 | A table whose length is a multiple of 2^32, zero included, rejects every key, because the bound wraps to 0. |
| Table.PutOneSlot | go4.go:275-279 | Put writes only the key's slot: the lengths and every other slot's tag and value are unchanged. |
| Table.PutOtherSlot | go4.go:275-291 | After Put, a lookup of a key in another slot gives what it gave before. |
| Table.TagsDiffer | go4.go:261-263 | With an odd number of slots, two different keys in range that share a slot have different 32-bit tags. |
| Table.PutOtherKey | go4.go:261-263 | With an odd number of slots, after Put a different key in range that shares the slot reads 0 without error. It never reads the other key's value. |
| Table.EmptyLookup | go4.go:293-298 | A new table reads 0, without error, under every key in range. |
| Search.GoDiv | go4.go:303 | Go's `/` on `int` truncates toward zero: the remainder `a - q * b` has the sign of the dividend and a magnitude below `b`. |
| Search.HalfBetween | go4.go:376-379 | Halving with Go's `/` moves a number toward zero and never past it. |
| Search.Clamp | go4.go:310-327 | When the window stays open, the new alpha is the larger of alpha and the lower bound, and the new beta the smaller of beta and the upper bound. For a non-empty input window, it stays open if and only if those two clamped values still form a non-empty window. It is cut at the lower bound only when raising alpha reached beta. It is cut at the upper bound only when lowering beta met the raised alpha. |
| Search.EncodeDecode | go4.go:319-320 | Every score in [MIN_SCORE, MIN_SCORE + 254] is stored as a nonzero table value that decodes back to the same score. |
| Search.EncodeWraps | go4.go:310-361 | The stored value wraps for the two lowest bounds: after one move the lower bound is stored as 0, the value for no entry. On the empty board it is stored as 255, which decodes to 236. |
| Search.InsertMove | go4.go:335-339 | The inner loop shifts the entries with a lower score one place right and puts the move in the gap. The first `count + 1` entries become the ordered insertion of the move into the first `count`. Entries past them are unchanged. |
| Search.InsertDescSorted | go4.go:335-339 | Inserting into a list sorted by non-increasing score keeps it sorted. |
| Search.InsertDescPerm | go4.go:335-339 | Insertion adds exactly the new entry to the multiset of entries. |
| Search.OrderSorted | go4.go:329-342 | The ordered list is sorted by non-increasing score. |
| Search.OrderPerm | go4.go:329-342 | The ordered list is a permutation of the entries inserted. |
| Search.OrderBy | go4.go:329-342 | The loop over COLUMN_ORDER fills a fresh array of WIDTH entries. At most seven entries are used, and they are the ordered list of the chosen children. |
| Search.OrderedChildren | go4.go:329-342 | The children of a position, ordered by Score, are sorted and are a permutation of the children. There are at most seven, and each has made exactly one move more than the parent. |
| Search.ChildrenValid | go4.go:331-334 | Every child played from a valid position on a possible move is valid. |
| Search.OrderedChildrenValid | go4.go:329-342 | Every ordered child of a valid position's non-losing moves is valid. |
| Search.OrderMoves | go4.go:329-342 | The array built for negamax holds the ordered children of the position's moves, and each has one move more than the parent. |
| Search.Negamax | go4.go:300-363 | With no non-losing move, the score is the loss score and one state is counted. After 40 moves it is a draw, 0. When raising alpha to the lower bound empties the window, the score is that bound. The table stays well formed and at least one state is counted. |
| Search.Explore | go4.go:344-362 | The child loop counts at least one state and keeps the table well formed. It returns a score no lower than the smaller of alpha and beta. |
| Search.Median | go4.go:375-380 | The null-window point always lies in [min, max), so each round of solve narrows the interval and the loop terminates. |
| Search.Solve | go4.go:365-390 | An immediate win scores `(43 - moves) / 2` with one state. The narrowing loop terminates and keeps the table well formed. |
| Text.ToString | go4.go:216-234 | String produces the board text `Board(p)`. |
| Text.LineText | go4.go:219-230 | The inner loop produces the seven cells of a row, left to right. |
| Text.BoardAt | go4.go:216-234 | The board text has 48 characters: six lines, top row first, each of seven cells and a newline. Column x of row `row` is at offset `8 * (5 - row) + x`, and shows the character of that cell: 'x' for a stone of the player to move, 'o' for an opponent's stone, '.' when empty. |
| Driver.ColumnOf | go4.go:395-396 | The column `uint(moves[i] - '1')` of a move byte is below 256. It is below WIDTH if and only if the byte is a digit '1'..'7', and then it equals the byte minus '1'. |
| Driver.Move | go4.go:396-398 | One move is rejected as out of range if and only if its column is 7 or more. The other two rejections are stated by MoveFull and MoveWins. |
| Driver.MoveFullCanPlay | go4.go:399-401 | An in-range move is rejected for a full column if and only if CanPlay fails. |
| Driver.MoveFull | go4.go:399-401 | In a valid position, an in-range move is rejected for a full column if and only if that column has no empty cell. |
| Driver.MoveWinsTest | go4.go:402-404 | A playable move is rejected as ending the game if and only if IsWinningMove holds. |
| Driver.MoveWins | go4.go:402-404 | In a valid position, a move into a column with an empty cell is rejected as ending the game if and only if that cell is one of WinningPosition's cells. |
| Driver.StopAt | go4.go:394-406 | A replay that stops at move j replays the moves before j, and stops for the verdict on move j in the position they reach. |
| Driver.StopReason | go4.go:396-404 | For a valid position, the reason a move is refused is exactly its board condition: out of range when it names no column, full when the column has no empty cell, and game-ending when the column's lowest empty cell lies in WinningPosition. |
| Driver.ReplayStop | go4.go:393-407 | A rejected replay names move j of the string. The moves before j replay to a valid position with j moves, and the error states the reason for move j in that position exactly, each reason in both directions. |
| Driver.Parse | go4.go:393-407 | The replay loop returns exactly the functional replay `Replay(moves)`: the position reached, or the first rejected move with its reason. |
| Driver.ReplayFromEmpty | go4.go:393-407 | A replay that passes ends in a valid position whose move counter is the length of the string. |
| Driver.ReplayBytes | go4.go:394-405 | A replay passes only if every byte is a digit '1'..'7'. A rejected replay names a byte of the string, and every byte before it is a digit. The move is out of range if and only if that byte is not a digit. |
| Driver.PlayMoves | go4.go:392-416 | play solves the position exactly when the replay passes, and otherwise reports the replay's error. A replayed position that can win next scores `(43 - moves) / 2` with one state. |

## Left out

- main, reading lines from standard input, and benchmark.py: these are I/O and a driver, with no logic of the solver.
- The error messages of play and the solve result it prints, together with their timing: play returns an `Outcome` or a `Report` instead. The clock is not modelled.
- PositionList's Len, Swap and Less: nothing in the solver calls them (it sorts by its own insertion loop).
- Search.Negamax: the contract does not state that the score is the game-theoretic value of the position, only the base cases, the cut-off and the table invariant.
- Search.Explore: the contract bounds the score from below only. It does not relate the score to the children's values.
- Search.Solve: the contract states the immediate-win case and termination, not that the result is the exact score of the position.
- Driver.PlayMoves: the score is stated only for a position that can win next, for the same reason as Search.Solve.
- Search.Negamax: requires at most 42 moves, where Go has no precondition. Beyond 42, Go's `uint` subtraction in the bounds would wrap, and no caller reaches such a position.
- Bitboard.ComputeWinningPosition: the contract states that the result lies on the board and in the empty cells. That the result is exactly the set of completing cells of alignment is shown on concrete boards only (WinningExamples, AlignmentExamples), not for all positions. The same holds for its two wrappers, Bitboard.WinningPosition and Bitboard.OpponentWinningPosition, and so for every contract stated in terms of them (Threats.WinningMoveCell, Driver.MoveWins, Driver.StopReason, Driver.ReplayStop).
- Keys.KeyBound: the key of a valid position is shown to fit in 49 bits. That it therefore passes the table's range check for 16777259 slots is not connected, because that needs a `bv64`-to-integer bound.
- The move ordering scores each child by the bit count of its opponent's winning cells, computed by the function that Threats.Score is proved to equal, rather than by calling the Score method.
- Go's `uint` move counter is a mathematical natural number.
- Bitboard.AlignmentExamples: go4.go never calls `alignment` (go4.go:34 is its only occurrence), so the model checks it only on concrete boards and proves nothing about it for all boards.
- `moves` in play is a sequence of bytes, as Go indexes the string.
