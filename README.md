# LLKCheater core in Dafny

LLKCheater is a helper for the "连连看" (Lianliankan) tile-matching game. It captures the
game window and reads the 9 × 16 grid of tiles from the picture. Each tile becomes an
integer fingerprint made from 64 dark/light samples. The helper then finds two equal
tiles that the game would let the player join, along a path with at most two turns.

This project models the `Game` class of `llk_cheater.py`, and the byte-to-pixel decode
of `Window.get_screenshot`. It proves properties of that model.

- `Pixels` (`pixels.dfy`) covers the capture's byte buffer and the integer luminance.
  - The signed BGRA bytes become a raster of RGBA pixels (`DecodeBitmap`).
  - `Gray` is the luminance, `(38 r + 75 g + 15 b) >> 7`.
- `Layout` (`layout.dfy`) holds the fixed geometry.
  - The grid origin is pixel (141, 64) and a cell is 50 × 40 pixels.
  - `CellPoint` gives a cell's top-left pixel.
  - `InitIdPoints` builds the 64 sampled offsets inside a cell.
- `Ranges` (`ranges.dfy`) holds the half-open range intersection the path solver uses.
- `Fingerprint` (`fingerprint.dfy`) gives the fingerprint of a cell as a function, `CellIdOf`.
  - Four inner corners must be light and three outer corners dark; otherwise the fingerprint is 0.
  - Then the 64 samples are packed into an integer, most significant bit first.
  - All-light and all-dark patterns give 0.
  - When a sample falls outside the raster, the source's list indexing raises. Here that is `None`.
- `Canon` (`canon.dfy`) specifies, as pure functions, what `refresh` does to the fingerprints it read.
  - A fingerprint read an odd number of times, or more than four times, is cleared.
  - The others are renumbered 1, 2, … in row-major order of first appearance.
- `Llk` (`game.dfy`) is the `Game` class.
  - It keeps a padded `H × W = 11 × 18` board (an `array2`), the type count and the sampled offsets.
  - `Refresh` reads a raster into the board: a first pass reads and counts, a second renumbers in place.
  - `MoveableVH` finds the empty runs through a cell.
  - `Path` is the two-turn path solver.
  - `Hint` is the hint search.
  - Some imperative methods are proved equal to a specification function: the bitmap decoding
    (pixel by pixel), `InitIdPoints` (`IdPoints`), `CheckCorners` (`ScanCorners`),
    `SampleIdPoints` (`Pack`, `CountDark`), `CellId` (`CellIdOf`), `ScanRows`, `ScanCols`,
    `RowTurn`, `ColTurn`, `Turns`, `Path` (`FindPath`), `CardPositions` (`Group`), and `Refresh`
    with its passes (`Canonical` of the padded read).
  - The others are characterised by predicates. `MoveableVH` satisfies `IsReach`, and
    `ReachUnique` shows that `IsReach` has the single solution `ReachOf`. `FirstPair` and `Hint`
    are pinned down by `NoPairBefore`, `NoPair`, `IsMove`, `FirstOf` and `NoMove`.
  - The solver, the canonical board and the search are then characterised by lemmas about the
    specification functions.

## Model

| member | source | states |
|---|---|---|
| Pixels.DecodeBitmap | llk_cheater.py:43-54 | `None` exactly when the buffer is not width·height·4 bytes long (the source's assert). Otherwise: `height` rows of `width` pixels. Pixel (r, c) is the BGRA quadruple at byte 4(r·width + c), each byte mapped from [-128, 127] to [0, 255], with blue and red swapped. Every component lies in [0, 255]. |
| Pixels.BgraRoundTrip | llk_cheater.py:52-53 | The byte-to-component mapping loses nothing: re-encoding the decoded pixel gives back the same four signed bytes |
| Pixels.Gray | llk_cheater.py:90-94 | The luminance of a pixel with components in [0, 255] lies in [0, 255] |
| Pixels.GrayOfNeutral | llk_cheater.py:90-94 | The weights add up to 128, so a grey pixel (r = g = b = v) has luminance v |
| Layout.CellPoint | llk_cheater.py:145-147 | The top-left pixel of cell (x, y) is aligned to the grid, and the cell index is recovered from it by division |
| Layout.CellBoxesDisjoint | llk_cheater.py:145-147 | The pixel boxes of two cells never overlap: a pixel in a cell's box belongs to that cell alone, at one offset only |
| Layout.InitIdPoints | llk_cheater.py:96-103 | Builds the 64 sampled offsets. Offset k is row 11 + 4(k / 8), column 6 + 4(k mod 8); the result equals `IdPoints()`. |
| Layout.IdPointsInCell | llk_cheater.py:96-103 | The 64 offsets lie inside a 50 × 40 cell and are pairwise distinct |
| Ranges.Intersection | llk_cheater.py:105-111 | As a set of integers, the result holds exactly the integers both ranges hold. A non-empty result is [max of starts, min of ends). Two disjoint non-empty ranges give the source's [-1, -1]. |
| Ranges.IntersectionCommutes | llk_cheater.py:105-111 | The intersection does not depend on the argument order |
| Fingerprint.ScanCorners | llk_cheater.py:159-162 | With all corners readable, a corner loop answers whether some corner has the rejected darkness. `None` only when a corner cannot be read; `Some(false)` means every corner passed. |
| Fingerprint.CornerRejection | llk_cheater.py:158-162 | With the seven corners readable, a dark inner corner or a light outer corner makes the fingerprint 0 |
| Fingerprint.NonzeroFingerprintCorners | llk_cheater.py:158-168 | A nonzero fingerprint comes from a cell whose samples were all readable, whose inner corners are light and whose outer corners are dark |
| Fingerprint.MixedPatternIsPacked | llk_cheater.py:158-168 | Conversely, a cell whose samples are readable, whose inner corners are light, whose outer corners are dark and whose 64 samples are neither all light nor all dark gets its packed pattern, which is not 0 |
| Fingerprint.UniformPatternIsZero | llk_cheater.py:158-168 | A cell whose corners pass but whose readable samples are all light or all dark gets fingerprint 0 |
| Fingerprint.NonzeroFingerprintBits | llk_cheater.py:163-168 | A nonzero fingerprint h of n = 64 samples satisfies 0 < h < 2^n. Bit n - 1 - k of h is set exactly when sample k is dark. Between 1 and n - 1 bits are set. |
| Fingerprint.PackBit | llk_cheater.py:163-166 | Packing most significant bit first puts sample k at bit n - 1 - k |
| Fingerprint.PackInjective | llk_cheater.py:163-166 | Different sample patterns of the same length pack to different integers |
| Fingerprint.FingerprintsEqualIffPatternsEqual | llk_cheater.py:149-168 | Two nonzero fingerprints, from any cells of any rasters, are equal exactly when their dark/light sample patterns are equal |
| Fingerprint.CoveringRasterReadsEveryCell | llk_cheater.py:149-168 | A rectangular raster covering the whole grid never makes a sample read fail |
| Canon.Order | llk_cheater.py:184-196 | The surviving fingerprints without repetition: a fingerprint is listed exactly when it occurs and its count is even and at most 4. That the listing follows first appearance is proved separately (`Canon.RankOfFirstOccurrence`, `Canon.CanonicalFirstAppearance`). |
| Canon.CanonId | llk_cheater.py:189-196 | A fingerprint's id is nonzero exactly when the fingerprint survives, and never exceeds the type count |
| Canon.Canonical | llk_cheater.py:184-197 | The renumbered board has one id per cell read; each cell's id is non-zero exactly when its fingerprint survives and lies in 0 … type count (`Canon.CanonicalCell`) |
| Canon.CanonicalCell | llk_cheater.py:186-197 | A cell's id is non-zero exactly when its fingerprint survives, and never exceeds the type count |
| Canon.CanonicalSameId | llk_cheater.py:186-196 | Two surviving cells get the same id exactly when they hold the same fingerprint |
| Canon.CanonicalDense | llk_cheater.py:192-197 | Every id 1 … type count is used by some cell |
| Canon.CanonicalFirstAppearance | llk_cheater.py:192-196 | Ids follow first appearance: every cell read before a fingerprint's first occurrence has a smaller id |
| Canon.CanonicalGroupSize | llk_cheater.py:181-191 | An id in use occurs exactly as often as its fingerprint was read, which is 2 or 4 times |
| Llk.SharedSymmetric | llk_cheater.py:133-142 | The rows (columns) both runs cover do not depend on which tile is first |
| Llk.SeenStep | llk_cheater.py:186-196 | One step of the source's renumbering, in each of its four branches, gives the cell its canonical id and keeps `vis` and `vis_cnt` in step with the first-appearance order |
| Llk.RenumberCell | llk_cheater.py:188-196 | Writes the canonical id at (i, j) and changes no other cell. `vis` and `vis_cnt` then describe the cells up to (i, j). |
| Llk.RenumberRow | llk_cheater.py:186-196 | After a row, every cell up to the end of it holds its canonical id and the others still hold their fingerprints |
| Llk.Game.constructor | llk_cheater.py:113-116 | Fills the sampled offsets and starts from an empty, valid board with no tile types |
| Llk.Game.Top | llk_cheater.py:121-122 | The first row of the empty run above a cell: every cell between is empty, and the run ends at a tile or at the board's edge |
| Llk.Game.Bottom | llk_cheater.py:121-123 | The last row of the empty run below a cell, bounded by a tile or the board's edge |
| Llk.Game.Left | llk_cheater.py:124-125 | The first column of the empty run left of a cell, bounded by a tile or the board's edge |
| Llk.Game.Right | llk_cheater.py:124-126 | The last column of the empty run right of a cell, bounded by a tile or the board's edge |
| Llk.Game.ReachOf | llk_cheater.py:119-127 | The four half-open runs through a cell are maximal: inside the board, empty apart from the cell itself, and bounded by tiles or edges |
| Llk.Game.ReachUnique | llk_cheater.py:119-127 | The maximal runs through a cell are determined by the board |
| Llk.Game.MoveableVH | llk_cheater.py:119-127 | The four walks return the maximal empty runs through the cell, as half-open ranges |
| Llk.Game.FirstClearRow | llk_cheater.py:135-138 | The first row of the range whose stretch between the two columns is clear. No earlier row of the range is clear. |
| Llk.Game.FirstClearCol | llk_cheater.py:139-142 | The first column of the range whose stretch between the two rows is clear. No earlier column is clear. |
| Llk.Game.ScanRows | llk_cheater.py:135-138 | The nested row/column loop with `break`/`else` finds exactly that first clear row |
| Llk.Game.ScanCols | llk_cheater.py:139-142 | The nested column/row loop finds exactly the first clear column |
| Llk.Game.RowTurn | llk_cheater.py:133-138 | Intersects the vertical runs and returns the four-point path turning at the first clear shared row, or `None` |
| Llk.Game.ColTurn | llk_cheater.py:133-142 | Intersects the horizontal runs and returns the path turning at the first clear shared column, or `None` |
| Llk.Game.Turns | llk_cheater.py:135-143 | The row turn is tried first; only when it fails, the column turn |
| Llk.Game.FindPath | llk_cheater.py:129-143 | Neighbours always get the direct step `[a, b]`, without the board being consulted. For any other pair, a path found has 4 points and runs from `a` to `b`. Its soundness and symmetry are `Llk.Game.PathSound` and `Llk.Game.PathSymmetric` |
| Llk.Game.Path | llk_cheater.py:129-143 | The solver returns exactly `FindPath`: the direct step for neighbours, else the row turn, else the column turn, else `None` |
| Llk.Game.PathSound | llk_cheater.py:129-143 | Every path the solver reports starts at one tile and ends at the other, stays on the board, has at most two turns, and crosses only empty cells |
| Llk.Game.PathSymmetric | llk_cheater.py:129-143 | From b to a the solver finds a path exactly when it finds one from a to b, and that path is the reverse |
| Llk.Game.CheckCorners | llk_cheater.py:158-162 | The corner loop answers exactly as `ScanCorners` specifies |
| Llk.Game.SampleIdPoints | llk_cheater.py:163-166 | The sample loop reads every offset, or reports that one is outside the raster. The hash it builds is the packed pattern; the count is the number of dark samples. |
| Fingerprint.CellIdOf | llk_cheater.py:149-168 | A fingerprint that is read is a number from 0 up to, but not including, 2 to the power of the number of sample points. The bits of a non-zero one are given by `Fingerprint.NonzeroFingerprintBits` |
| Llk.Game.CellId | llk_cheater.py:149-168 | The imperative fingerprint equals `CellIdOf`, including the `None` for a failed read |
| Llk.Game.ReadCell | llk_cheater.py:178-180 | Stores the cell's fingerprint at its padded position and leaves the rest of the board as it was |
| Llk.Game.ReadStep | llk_cheater.py:178-181 | Reads one cell and counts its fingerprint in `dic` |
| Llk.Game.ReadRow | llk_cheater.py:175-182 | Reads the left border, the 16 cells of a grid row and the right border, and counts each fingerprint read. Fails only when some cell of the row reads as `None`, and then the raster is not one the whole board can be read from. |
| Llk.Game.ReadCells | llk_cheater.py:173-183 | Succeeds exactly when every cell can be read. The padded board then holds the fingerprints (0 on the border), and `dic` holds how often each nonzero fingerprint was read. |
| Llk.Game.Renumber | llk_cheater.py:184-197 | The board, changed in place, becomes the canonical board. `len(vis)` is the number of surviving fingerprints. |
| Llk.Game.CanonicalValid | llk_cheater.py:184-198 | The canonical board of a padded read is valid: empty border, every cell 0 or an id within 1 … type count, and every such id present |
| Llk.CoveringRasterIsOk | llk_cheater.py:170-182 | A raster at least as large as the grid can be read in full (`RasterOk`), so `Refresh` from it succeeds |
| Llk.Game.Refresh | llk_cheater.py:170-198 | Succeeds exactly when every sample the reads touch lies inside the raster (`RasterOk`); a raster covering the whole grid always succeeds (`Llk.CoveringRasterIsOk`, from `Fingerprint.CoveringRasterReadsEveryCell`). Then the board is the canonical form of the fingerprints read, and the type count is the number of surviving fingerprints. On failure the game object is unchanged, so a valid game stays valid. |
| Llk.Game.Cells | llk_cheater.py:203-207 | The cells holding an id, among those before a position, all hold it and lie before that position |
| Llk.Game.CellsOrdered | llk_cheater.py:203-207 | Those cells are listed in row-major order, and every cell before the position that holds the id is listed |
| Llk.Game.CardPositions | llk_cheater.py:202-208 | The groups are keyed by exactly the ids 1 … type count, so the source's assert holds. Each group lists, in row-major order, the cells holding its id, and is not empty. |
| Llk.Game.FirstPair | llk_cheater.py:212-218 | Tries pairs (i, j), i < j, with i then j ascending. Returns the first pair the solver can join, with its path; no earlier pair can be joined. `None` means no pair of the group can. |
| Llk.Game.Hint | llk_cheater.py:200-219 | Returns a move between two equal tiles along the solver's path. Its group is the first in the shuffled order with a joinable pair, and it is the first joinable pair of that group. `None` exactly when no two equal tiles can be joined. |
| Llk.Game.FoundIsMove | llk_cheater.py:211-218 | The pair the search stops at is a move, found in the promised order |
| Llk.Game.NoMoveOfGroups | llk_cheater.py:209-219 | When no group of the permutation has a joinable pair, no two equal tiles on the board can be joined |
| Llk.Game.NoPairInGroup | llk_cheater.py:211-219 | Two cells of a group without joinable pairs cannot be joined |

## Left out

- Window handling, the screenshot calls, mouse and keyboard input, `print`, the bitmap file and the main loop are I/O and are not modelled.
- `refresh` takes the raster as a parameter instead of taking a fresh screenshot itself.
- `DecodeBitmap` takes the bytes and the window size as parameters.
- `random.shuffle` is not modelled. `Hint` takes the resulting order of the groups as a permutation `perm` of 0 … type count - 1; position k holds the group of id `perm[k] + 1`.
- Before shuffling, `card_pos.values()` is in dictionary insertion order. That is the row-major order of first appearance, which after `refresh` is ascending id (`Canon.CanonicalFirstAppearance`). The model lists the groups by ascending id.
- `Llk.Game.Hint`: the source prints the path (`self.print(hint=path)`) or "Hint not found."; the model returns the move or `None` instead.
- `Llk.Game.Hint`: the search evaluates `FindPath`, which `Llk.Game.Path` is proved to compute, rather than calling the `Path` method. The answers are the same.
- `Llk.Game.PathSound`: only soundness of the solver is proved. The model does not claim that every pair joinable with at most two turns is found. The row and column scans start at the lower of the two columns (rows), which is one of the tiles when the turn row is a tile's own row.
- `Llk.Game.constructor`: the source's constructor calls `refresh` and `print`. The model's constructor only sets up the sampled offsets and an empty board; `Refresh` is a separate call.
- `Llk.Game.CellId`: the sampled offsets are passed in (a static method) rather than read from the object; callers pass the object's `idPoints`, which `Valid` ties to `IdPoints()`.
- A sample read outside the raster raises `IndexError` in the source. The model returns `None` (`CellIdOf`, `CellId`) or `ok == false` (`Refresh`, with the board left as it was).
- Python lists of lists become a fixed `array2` board. `dic` and `vis` become maps. `dic[h] & 1` is written `dic[h] % 2`, which agrees for the non-negative counts.
- `Llk.Game.Renumber`: the source skips every cell whose fingerprint is 0 with `continue`: the border, corner-rejected cells, and cells sampled all light or all dark. It writes 0 over a cell whose fingerprint was dropped by its count. The model does both in the same way.
