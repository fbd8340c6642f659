# ASCII art and tic-tac-toe, modelled in Dafny

This project models two programs from a Java course repository.

**The ASCII-art renderer (`ex3/`).** A `SubImgCharMatcher` holds a charset.
It groups the characters by glyph brightness, which is the fraction of lit
cells in a 16 x 16 glyph. It answers a brightness query with the character
whose stretched brightness is nearest, where stretching maps the range of
bucket brightnesses linearly onto [0, 1].

The rendering pipeline runs as follows:
- `Utils` pads an image to power-of-two sides, centred on white.
- It cuts the padded image into square sub-images.
- It averages each sub-image's luminance.
- `AsciiArtAlgorithm` turns each sub-image into the matching character.

The interactive `Shell` parses these commands:
- `add`, `remove`: edit the charset
- `res up`, `res down`: change the resolution, within bounds
- `image`: load an image
- `output`: choose the output
- `asciiArt`: render

`AsciiOutputFactory` maps an output name to an output kind.

**The tic-tac-toe engine (`ex1/`).**
- A `Board` is an n x n array of marks.
- A `Game` has two players move in turn. After each move it scans every row, column and diagonal with a running streak counter, until one mark has a winning streak or the board is full.
- `GeniusPlayer` and `CleverPlayer` are the computer players.
- A `Tournament` alternates seats between rounds and tallies wins and ties.
- `PlayerFactory` and `RendererFactory` map names to kinds, ignoring case.

Modules, one per source component:
- `Basics`: option type; least and greatest elements of finite sets.
- `JavaText`: UTF-16 code-unit strings and `toLowerCase`.
- `Raster`: the immutable `Image` value.
- `ImageUtils`: padding, tiling and brightness.
- `CharMatching`: the brightness matcher, as a class whose fields the methods update, plus the pure functions that specify it.
- `AsciiOutputs`: the output factory.
- `ShellExceptions`: the exceptions as an `Outcome` datatype.
- `AsciiArt`: the algorithm, filling a two-dimensional array.
- `AsciiShell`: the shell. It has a `Shell` class whose command methods are proved to follow a pure `Apply` on a `Settings` value.
- `Boards`, `Streaks`, `Lines`, `Players`, `Games`, `Tournaments`, `PlayerFactory`, `RendererFactory`: the ex1 engine.

The key proofs are these:
- The game's scans find a win exactly when some line holds `winStreak` consecutive marks.
- A game's result is a real winner or a full board.
- A tournament's counters add up to the rounds played.
- The matcher always answers a member of its charset.
- A rendered character grid is the matched character of each sub-image.

## Model

| member | source | states |
|---|---|---|
| `JavaText.LowerCode` | ex1/PlayerFactory.java:31 | upper-case ASCII letters map to their lower-case letter (code + 32); every other code unit is unchanged |
| `JavaText.ToLower` | ex1/RendererFactory.java:28 | lowercasing keeps the length and lowers each code unit in place |
| `JavaText.ToLowerIsLower` | ex1/RendererFactory.java:28 | the lowered string has no upper-case letter; a string without one is its own lowercase; lowering is idempotent |
| `JavaText.ToLowerIgnoresCase` | ex1/PlayerFactory.java:31 | two strings lower to the same string exactly when they are equal ignoring case |
| `Raster.Image.GetPixel` | ex3/image/Image.java:84-86 | the pixel at row x, column y of a valid image is a valid colour, and on a well-formed image x < height and y < width |
| `ImageUtils.NextPowerOfTwoBounds` | ex3/image/Utils.java:47-53 | the next power of two is at least n and at least 1; it is 1 exactly when n <= 1; otherwise it is even and its half is below n |
| `ImageUtils.NextPowerOfTwoLeast` | ex3/image/Utils.java:47-53 | no power of two that is at least n is smaller than it |
| `ImageUtils.PowerOfTwoIsFixed` | ex3/image/Utils.java:47-53 | a power of two is its own next power of two |
| `ImageUtils.FindSqrt` | ex3/image/Utils.java:47-53 | the doubling loop returns the smallest power of two that is at least size, and 1 for size <= 1 |
| `ImageUtils.PaddedShape` | ex3/image/Utils.java:19-37 | the padded image is well formed; each side is the next power of two of the original side; valid colours stay valid |
| `ImageUtils.PaddedBorderIsWhite` | ex3/image/Utils.java:112-120 | a padded pixel whose row or column lies outside the window starting at half of each gap is white |
| `ImageUtils.PaddedInteriorIsOriginal` | ex3/image/Utils.java:121-123 | inside the window a padded pixel is the original pixel shifted back by half of each gap (integer division) |
| `ImageUtils.PaddingPowerOfTwoIsIdentity` | ex3/image/Utils.java:19-37 | padding an image whose sides are powers of two reproduces it pixel for pixel |
| `ImageUtils.WrapImage` | ex3/image/Utils.java:19-37 | the nested loops build exactly the padded image |
| `ImageUtils.TileSideFacts` | ex3/image/Utils.java:64-65 | for 1 <= resolution <= height, the side height / resolution is at least 1 and the tiles fit in both directions |
| `ImageUtils.TilesShape` | ex3/image/Utils.java:63-76 | the grid has `resolution` rows of width / side sub-images each |
| `ImageUtils.TilesGeometry` | ex3/image/Utils.java:68-74 | sub-image (t, i) is side x side, and its pixel (j, k) is source pixel (j + t * side, k + i * side) |
| `ImageUtils.TilesValid` | ex3/image/Utils.java:63-76 | the sub-images of a valid image are valid |
| `ImageUtils.CopyTile` | ex3/image/Utils.java:68-74 | the two inner loops copy exactly sub-image (t, i) |
| `ImageUtils.SplitToSubImages` | ex3/image/Utils.java:63-78 | the four nested loops build exactly the tile grid |
| `ImageUtils.CalculateBrightness` | ex3/image/Utils.java:88-97 | the accumulator loop returns the mean luminance divided by 255 |
| `ImageUtils.GrayRange` | ex3/image/Utils.java:133-137 | the luminance of a valid colour lies in [0, 255] |
| `ImageUtils.BrightnessRange` | ex3/image/Utils.java:88-97 | the brightness of a valid non-empty image lies in [0, 1] |
| `ImageUtils.BrightnessOfWhiteImage` | ex3/image/Utils.java:88-97 | an all-white image has brightness 1 |
| `ImageUtils.BrightnessOfBlackImage` | ex3/image/Utils.java:88-97 | an all-black image has brightness 0 |
| `CharMatching.CellsOnBound` | ex3/image_char_matching/SubImgCharMatcher.java:154-167 | a glyph of rows of a given width has at most rows * width lit cells |
| `CharMatching.Luma` | ex3/image_char_matching/SubImgCharMatcher.java:154-167 | a glyph's brightness lies in [0, 1] |
| `CharMatching.BucketsShape` | ex3/image_char_matching/SubImgCharMatcher.java:78-127 | every held character sits in the bucket of its own brightness; no bucket is empty; a bucket holds only held characters of its brightness |
| `CharMatching.BucketsAdd` | ex3/image_char_matching/SubImgCharMatcher.java:85-96 | adding c to the bucket of its brightness gives the buckets of the charset with c |
| `CharMatching.BucketsRemove` | ex3/image_char_matching/SubImgCharMatcher.java:113-126 | taking a held c out of its bucket, and dropping the bucket if it empties, gives the buckets of the charset without c |
| `CharMatching.AddRemoveRoundTrip` | ex3/image_char_matching/SubImgCharMatcher.java:78-127 | adding an absent character and then removing it restores the bucket map |
| `CharMatching.AddPresentIsNoOp` | ex3/image_char_matching/SubImgCharMatcher.java:85-96 | adding a held character leaves the bucket map unchanged |
| `CharMatching.NormKeyOrder` | ex3/image_char_matching/SubImgCharMatcher.java:52-54 | with lo < hi, (k - lo) / (hi - lo) preserves and reflects order and equality; it maps [lo, hi] into [0, 1], lo to 0 and hi to 1; it is undone by the inverse map |
| `CharMatching.NormKeyInverse` | ex3/image_char_matching/SubImgCharMatcher.java:52-54 | within [lo, hi] the inverse map undoes stretching |
| `CharMatching.StretchFacts` | ex3/image_char_matching/SubImgCharMatcher.java:44-57 | every bucket appears in the stretched map under its stretched brightness, with its smallest character; every stretched key comes from a bucket and lies in [0, 1]; 0 is a key, and 1 is too once there are two buckets |
| `CharMatching.ClosestKey` | ex3/image_char_matching/SubImgCharMatcher.java:59-67 | the chosen key is a key of the stretched map |
| `CharMatching.ClosestKeyIsNearest` | ex3/image_char_matching/SubImgCharMatcher.java:59-67 | no key is nearer to the query than the chosen one; an equally near key is not below it (ties go to the floor) |
| `CharMatching.ClosestKeyMonotonic` | ex3/image_char_matching/SubImgCharMatcher.java:59-67 | a larger query never picks a smaller key |
| `CharMatching.MatchIsNearestBucket` | ex3/image_char_matching/SubImgCharMatcher.java:42-68 | the answer is the smallest character of the bucket whose stretched brightness is nearest to the query, the lower bucket on a tie |
| `CharMatching.MatchInCharset` | ex3/image_char_matching/SubImgCharMatcher.java:42-68 | for a non-empty charset the answer is a member of the charset, and its brightness is that of the bucket it was taken from |
| `CharMatching.MatchMonotonic` | ex3/image_char_matching/SubImgCharMatcher.java:42-68 | a brighter query never yields a dimmer character |
| `CharMatching.MatchAsWrittenAgrees` | ex3/image_char_matching/SubImgCharMatcher.java:42-68 | with two or more brightnesses and a query in [0, 1], the lookup as written (floorEntry, ceilingEntry) answers what the nearest-bucket match answers |
| `CharMatching.SingleCharacterLookupFails` | ex3/image_char_matching/SubImgCharMatcher.java:52-67 | with a one-character charset the lookup as written fails for every query, while the corrected match answers that character |
| `CharMatching.Ascending` | ex3/image_char_matching/SubImgCharMatcher.java:136-144 | the ascending listing has one entry per character |
| `CharMatching.AscendingMembers` | ex3/image_char_matching/SubImgCharMatcher.java:136-144 | the listing holds exactly the characters of the charset |
| `CharMatching.AscendingSorted` | ex3/image_char_matching/SubImgCharMatcher.java:136-144 | the listing is strictly ascending, so no character repeats |
| `CharMatching.SpacedLayout` | ex3/image_char_matching/SubImgCharMatcher.java:136-144 | position 2i of the text holds character i and position 2i + 1 a space |
| `CharMatching.StretchBuckets` | ex3/image_char_matching/SubImgCharMatcher.java:44-57 | the rebuild loop, visiting buckets in ascending brightness, produces exactly the stretched map |
| `CharMatching.SubImgCharMatcher.constructor` | ex3/image_char_matching/SubImgCharMatcher.java:25-33 | the print set is the characters of the array; the buckets group them by brightness; the stretched map starts empty and out of date |
| `CharMatching.SubImgCharMatcher.GetBrightnessByChar` | ex3/image_char_matching/SubImgCharMatcher.java:154-167 | the cell-counting loops return the lit fraction of the character's glyph |
| `CharMatching.SubImgCharMatcher.AddChar` | ex3/image_char_matching/SubImgCharMatcher.java:78-97 | c joins the print set and the bucket of its brightness; the stretched map is marked out of date; the invariant is kept |
| `CharMatching.SubImgCharMatcher.RemoveChar` | ex3/image_char_matching/SubImgCharMatcher.java:106-127 | an absent c changes nothing, not even the flag; a held c leaves the print set and its bucket, and the bucket goes when it empties; the stretched map is marked out of date |
| `CharMatching.SubImgCharMatcher.GetCharByImageBrightness` | ex3/image_char_matching/SubImgCharMatcher.java:42-68 | for a query in [0, 1] (where the source's floor and ceiling lookups succeed): rebuilds the stretched map when it is out of date; answers the nearest-bucket match, a member of the charset; keeps the invariant |
| `CharMatching.SubImgCharMatcher.ToString` | ex3/image_char_matching/SubImgCharMatcher.java:136-144 | the text lists the charset in ascending order, each character followed by a space; it is empty exactly when the charset is |
| `AsciiOutputs.Build` | ex3/ascii_art/AsciiOutputFactory.java:26-40 | "console" gives the console output; "html" gives the HTML output on out.html in Courier New; any other name fails with the incorrect-format message |
| `AsciiOutputs.BuildIsCaseSensitive` | ex3/ascii_art/AsciiOutputFactory.java:28-36 | "HTML" and "Console" are refused, and the two names build different outputs |
| `AsciiArt.SubImages` | ex3/ascii_art/AsciiArtAlgorithm.java:42-43 | the sub-image grid of the padded image has `resolution` rows, a side of at least one pixel, and non-empty well-formed sub-images, valid when the image is |
| `AsciiArt.ArtCell` | ex3/ascii_art/AsciiArtAlgorithm.java:44-49 | the character grid has `resolution` rows, each as long as its row of sub-images, and cell (i, j) is the match of sub-image (i, j)'s brightness |
| `AsciiArt.ArtInCharset` | ex3/ascii_art/AsciiArtAlgorithm.java:48 | every character of the grid belongs to the charset |
| `AsciiArt.FillCell` | ex3/ascii_art/AsciiArtAlgorithm.java:47-48 | for a valid non-empty sub-image, whose brightness lies in [0, 1], cell (i, j) receives the match of that brightness, and no other cell changes |
| `AsciiArt.FillRow` | ex3/ascii_art/AsciiArtAlgorithm.java:46-49 | row i receives the matches of its sub-images in order, and the other rows do not change |
| `AsciiArt.FillGrid` | ex3/ascii_art/AsciiArtAlgorithm.java:45-50 | every cell receives the match of its sub-image |
| `AsciiArt.ArtDepicted` | ex3/ascii_art/AsciiArtAlgorithm.java:44-51 | an array filled cell by cell from the sub-images holds the character grid |
| `AsciiArt.AsciiArtAlgorithm.constructor` | ex3/ascii_art/AsciiArtAlgorithm.java:28-32 | the image, resolution and matcher are stored as given |
| `AsciiArt.AsciiArtAlgorithm.Run` | ex3/ascii_art/AsciiArtAlgorithm.java:41-52 | the new array holds the character grid of the padded, tiled image under the matcher's buckets; the matcher keeps its invariant |
| `AsciiShell.Words` | ex3/ascii_art/Shell.java:92-116 | a command is spelled by one or two words |
| `AsciiShell.Parse` | ex3/ascii_art/Shell.java:92-116 | a parsed command is spelled by the first words of the line |
| `AsciiShell.ParseWords` | ex3/ascii_art/Shell.java:92-116 | parsing the words of a command gives back the command |
| `AsciiShell.ParseFailures` | ex3/ascii_art/Shell.java:92-116 | a line with no words (only spaces), or a command that needs an argument and lacks one, reads past the end; an unknown first word, the empty word of an empty line included, is an incorrect command |
| `AsciiShell.RangeSet` | ex3/ascii_art/Shell.java:232-241 | holds exactly the codes from lo to hi inclusive |
| `AsciiShell.CharRange` | ex3/ascii_art/Shell.java:193-219 | "all", "space", a single character and "x-y" name a range with its ends in order; nothing else names a range |
| `AsciiShell.RangeEitherOrder` | ex3/ascii_art/Shell.java:204-212 | "x-y" and "y-x" name the same range, every code between the smaller and the larger end |
| `AsciiShell.NamedSizes` | ex3/ascii_art/Shell.java:194-202 | a one-character argument names that character alone; "all" names 95 characters |
| `AsciiShell.RangeSetSize` | ex3/ascii_art/Shell.java:232-241 | the range lo..hi has hi - lo + 1 codes |
| `AsciiShell.Edited` | ex3/ascii_art/Shell.java:232-241 | adding keeps the charset and includes the named codes, and nothing else; removing keeps only charset codes and excludes the named ones |
| `AsciiShell.ResolutionInBoundsMeans` | ex3/ascii_art/Shell.java:174-183 | the bounds check, taken in exact reals, is in integers: 1 <= newRes <= width and newRes * height >= width |
| `AsciiShell.ResolutionStep` | ex3/ascii_art/Shell.java:153-165 | "up" doubles, "down" halves rounding down, and the result must pass the bounds check on a loaded image; anything else is an incorrect format |
| `AsciiShell.UpThenDown` | ex3/ascii_art/Shell.java:153-165 | from a resolution within bounds, an accepted "up" followed by "down" comes back |
| `AsciiShell.DownThenUp` | ex3/ascii_art/Shell.java:153-165 | from a resolution within bounds, an accepted "down" followed by "up" comes back exactly when the resolution was even |
| `AsciiShell.WidthIsInBounds` | ex3/ascii_art/Shell.java:174-183 | the image width is always an accepted resolution |
| `AsciiShell.AcceptedResolutionCrashes` | ex3/ascii_art/Shell.java:174-183 | for a 64 x 2 image the check accepts 64, yet the sub-image side is 0 |
| `AsciiShell.FittingResolutionRenders` | ex3/ascii_art/Shell.java:124-132 | a resolution that also fits the padded height renders a grid of that many rows whose characters all come from the charset |
| `AsciiShell.Apply` | ex3/ascii_art/Shell.java:92-116 | a successful command keeps the settings valid |
| `AsciiShell.AddThenRemove` | ex3/ascii_art/Shell.java:193-241 | removing what was added leaves the charset without the named codes; adding what was removed leaves it with them |
| `AsciiShell.RenderOutcome` | ex3/ascii_art/Shell.java:124-132 | with the corrected one-brightness lookup (see Left out): a render succeeds exactly when the charset is non-empty, an image is loaded and the resolution fits the padded height; it then changes no setting |
| `AsciiShell.UnreportedFailures` | ex3/ascii_art/Shell.java:92-116 | with the corrected one-brightness lookup (see Left out): a division by zero comes only from rendering above the padded height; a missing image only from res or render before a load; every other failure is reported and changes nothing |
| `AsciiShell.AddRemoveChars` | ex3/ascii_art/Shell.java:232-241 | the loop adds (or removes) every code from start to end |
| `AsciiShell.Shell.constructor` | ex3/ascii_art/Shell.java:43-51 | the charset is '0'..'9', the resolution 128, the output the console; the image is the loaded one, if any |
| `AsciiShell.Shell.ResCommand` | ex3/ascii_art/Shell.java:153-165 | follows `Apply` for a res command: the new resolution on success; on failure the exception, with the resolution unchanged |
| `AsciiShell.Shell.CheckResolutionBounds` | ex3/ascii_art/Shell.java:174-183 | succeeds exactly when an image is loaded and the resolution is within bounds; otherwise fails with the out-of-bounds message, or with a missing image |
| `AsciiShell.Shell.OutputCommand` | ex3/ascii_art/Shell.java:141-143 | follows `Apply` for an output command |
| `AsciiShell.Shell.ImageCommand` | ex3/ascii_art/Shell.java:104-106 | follows `Apply` for an image command: the new image, or the old one kept when the file cannot be read |
| `AsciiShell.Shell.AddRemoveCommand` | ex3/ascii_art/Shell.java:193-219 | follows `Apply` for add and remove |
| `AsciiShell.Shell.RunAlgorithm` | ex3/ascii_art/Shell.java:124-132 | follows `Apply` for a render: an empty charset is refused; a successful render returns a new array that holds the character grid |
| `AsciiShell.Shell.ChooseCommand` | ex3/ascii_art/Shell.java:92-116 | a line that does not parse fails and changes nothing; otherwise the parsed command follows `Apply` |
| `AsciiShell.DefaultCharsAreDigits` | ex3/ascii_art/Shell.java:29 | the default charset is the codes '0' to '9' |
| `Boards.Empty` | ex1/Board.java:89-95 | the blank board is n x n |
| `Boards.Place` | ex1/Board.java:57-68 | placing a mark keeps the board's shape |
| `Boards.EmptyBlanks` | ex1/Game.java:37 | a blank n x n board has n * n blank cells |
| `Boards.PlaceBlanks` | ex1/Game.java:94 | a mark on a blank cell removes exactly one blank |
| `Boards.BlankExists` | ex1/CleverPlayer.java:44-53 | a positive blank count means some cell is blank |
| `Boards.NoBlankCells` | ex1/Game.java:252 | a board without blank cells has a blank count of zero |
| `Boards.Board.Default` | ex1/Board.java:23-27 | a 4 x 4 board, all blank |
| `Boards.Board.constructor` | ex1/Board.java:34-38 | a size x size board, all blank |
| `Boards.Board.InitializeBoard` | ex1/Board.java:89-95 | every cell becomes blank |
| `Boards.Board.GetMark` | ex1/Board.java:78-83 | the stored mark on the board and blank off it |
| `Boards.Board.PutMark` | ex1/Board.java:57-68 | returns true exactly when the cell is on the board and blank; then only that cell changes, otherwise nothing |
| `Boards.PlaceKeepsMarks` | ex1/Board.java:60-62 | placing on a blank cell never overwrites a non-blank cell |
| `Streaks.Trailing` | ex1/Game.java:231-240 | the counter after n cells is at most n |
| `Streaks.TrailingRun` | ex1/Game.java:231-240 | the counter equals the run of the mark that ends the prefix: those cells hold the mark and the cell before them does not |
| `Streaks.ReachedIffRun` | ex1/Game.java:231-240 | within a prefix the counter hits exactly k when the prefix holds k consecutive cells of the mark |
| `Streaks.FiresIffRun` | ex1/Game.java:231-240 | walking a whole line fires exactly when the line holds k consecutive cells of the mark |
| `Streaks.CountCell` | ex1/Game.java:231-240 | counting one more cell moves the scan state to the next prefix |
| `Lines.RowMarks` | ex1/Game.java:150-161 | definition: row r read left to right |
| `Lines.ColMarks` | ex1/Game.java:150-161 | definition: column c read top to bottom |
| `Lines.AntiMarks` | ex1/Game.java:170-190 | definition: the cells from (r0, c0) down and to the left, up to the board's edge |
| `Lines.DiagMarks` | ex1/Game.java:199-219 | definition: the cells from (r0, c0) down and to the right, up to the board's edge |
| `Lines.StraightMarks` | ex1/Game.java:150-161 | a row or a column has n cells |
| `Lines.RowsWin` | ex1/Game.java:150-161 | the row scan fires exactly when some row holds a streak |
| `Lines.ColumnsWin` | ex1/Game.java:150-161 | the column scan fires exactly when some column holds a streak |
| `Lines.AntiDiagonalsWin` | ex1/Game.java:170-190 | the left-diagonal scan fires exactly when some down-left diagonal holds a streak |
| `Lines.DiagonalsWin` | ex1/Game.java:199-219 | the right-diagonal scan fires exactly when some down-right diagonal holds a streak |
| `Lines.EmptyHasNoWinner` | ex1/Game.java:51-60 | a blank board has no streak of either mark |
| `Lines.OtherMarkGivesNoWin` | ex1/Game.java:90-110 | one player's move gives the other player no new streak |
| `Lines.ScansFindWins` | ex1/Game.java:133-140 | the four scans together fire exactly when the mark has a winning streak |
| `Players.RowFirstBlank` | ex1/GeniusPlayer.java:39-52 | the leftmost blank cell of a row, or none when the row is full |
| `Players.FirstBlankFrom` | ex1/GeniusPlayer.java:39-52 | the first blank cell in row-major order, or none when there is none |
| `Players.FirstBlankIs` | ex1/GeniusPlayer.java:39-52 | a blank cell with no blank cell before it in row-major order is the first blank cell |
| `Players.FirstBlankExists` | ex1/GeniusPlayer.java:39-52 | there is a first blank cell exactly when the blank count is positive |
| `Players.MarkFirstBlank` | ex1/CleverPlayer.java:83-96 | marks the first blank cell and returns it; on a full board nothing changes |
| `Players.GeniusTarget` | ex1/GeniusPlayer.java:63-71 | the genius player's target is a blank cell, and there is one exactly when the board has a blank cell |
| `Players.GeniusPlayer.constructor` | ex1/GeniusPlayer.java:11-13 | no current mark; last cell (0, 0) |
| `Players.GeniusPlayer.PlayTurn` | ex1/GeniusPlayer.java:24-30 | records the mark; marks the target cell (first blank on a new run, else below the last mark if free, else first blank) and records it |
| `Players.GeniusPlayer.MarkEmptyCell` | ex1/GeniusPlayer.java:39-52 | marks the first blank cell and records its position |
| `Players.GeniusPlayer.NextMark` | ex1/GeniusPlayer.java:63-71 | marks the cell below the last mark when it is on the board and blank, else the first blank cell |
| `Players.GeniusPlayer.CheckNewRun` | ex1/GeniusPlayer.java:80-86 | a new run exactly when the mark differs from the current one; records the mark |
| `Players.CleverPlayer.constructor` | ex1/CleverPlayer.java:13-16 | no current mark; last cell (0, 0) |
| `Players.CleverPlayer.PlayTurn` | ex1/CleverPlayer.java:26-32 | records the mark; a new run marks the first blank cell; a continued run marks the cell to the right when free and otherwise some blank cell |
| `Players.CleverPlayer.MarkRandomEmptyCell` | ex1/CleverPlayer.java:42-54 | some blank cell receives the mark and is recorded |
| `Players.CleverPlayer.NextMark` | ex1/CleverPlayer.java:66-73 | marks the cell to the right of the last mark when it is free; otherwise some blank cell |
| `Players.CleverPlayer.MarkEmptyCell` | ex1/CleverPlayer.java:83-96 | marks the first blank cell and records its position |
| `Players.CleverPlayer.CheckNewRun` | ex1/CleverPlayer.java:105-111 | a new run exactly when the mark differs from the current one; records the mark |
| `Players.PlayTurn` | ex1/Player.java:12 | on a board with a blank cell, either player turns exactly one blank cell into its mark and changes nothing else |
| `Games.CheckStreakValidity` | ex1/Game.java:120-125 | the streak is kept when 2 <= streak <= size, and replaced by the size when it is below 2 or above the size, whatever the size |
| `Games.Game.Default` | ex1/Game.java:30-39 | a blank 4 x 4 board played to a streak of 3, with 16 blank cells and no winner |
| `Games.Game.constructor` | ex1/Game.java:51-60 | a blank size x size board, the checked streak, size * size blank cells and no winner |
| `Games.Game.CheckStreakLength` | ex1/Game.java:231-240 | a cell of the mark extends the counter, any other resets it; the game is won when the counter then equals the streak |
| `Games.Game.CheckStraightLine` | ex1/Game.java:150-161 | walking one row or column sets the winner flag exactly when that line fires |
| `Games.Game.CheckStraightStreak` | ex1/Game.java:150-161 | scanning all rows (or all columns) sets the flag exactly when one of them fires |
| `Games.Game.CheckLeftDiagonalLine` | ex1/Game.java:178-188 | walking one down-left diagonal sets the flag exactly when it fires |
| `Games.Game.CheckLeftDiagonalStreak` | ex1/Game.java:170-190 | scanning every down-left diagonal sets the flag exactly when one fires |
| `Games.Game.CheckRightDiagonalLine` | ex1/Game.java:207-217 | walking one down-right diagonal sets the flag exactly when it fires |
| `Games.Game.CheckRightDiagonalStreak` | ex1/Game.java:199-219 | scanning every down-right diagonal sets the flag exactly when one fires |
| `Games.Game.CheckAllLinesStreak` | ex1/Game.java:133-140 | afterwards the game is won exactly when it was before or the mark has a winning streak |
| `Games.Game.EndGameCheck` | ex1/Game.java:249-256 | a verdict exactly when the game is won or no move is left; a win names the mover and beats a draw; a full board without a win is the blank mark (a draw) |
| `Games.Game.Run` | ex1/Game.java:90-110 | the result is a mark exactly when the game is won, that mark has a streak and the other has none; a draw leaves a full board |
| `Games.Game.Turn` | ex1/Game.java:91-99 | one move: the count of moves left drops by one and stays equal to the blank count; the flag says whether the mover has a streak; the opponent still has none |
| `Tournaments.CreditCounts` | ex1/Tournament.java:71-89 | one result adds one to the total: a blank result to the ties; player 1's mark to player 1's wins; the other mark to player 2's wins |
| `Tournaments.TallyTotal` | ex1/Tournament.java:49-59 | the counters of a sequence of results add up to its length, and none is negative |
| `Tournaments.TallySnoc` | ex1/Tournament.java:49-59 | the tally of one more result credits it with the seat parity of its round |
| `Tournaments.SameMarkTwiceIsEven` | ex1/Tournament.java:75-88 | the same winning mark in two rounds with swapped seats gives each player one win |
| `Tournaments.Tournament.constructor` | ex1/Tournament.java:31-36 | the counters start at zero |
| `Tournaments.Tournament.GameWinCheck` | ex1/Tournament.java:71-89 | the counters are credited with the result under the parity |
| `Tournaments.Tournament.PlayRound` | ex1/Tournament.java:50-58 | even rounds seat player 1 as X and odd rounds player 2; the game is decided; its result is credited |
| `Tournaments.Tournament.PlayTournament` | ex1/Tournament.java:47-61 | plays max(rounds, 0) games, each seated by parity and decided, and the counters grow by the tally of the results |
| `Tournaments.TournamentTotal` | ex1/Tournament.java:49-59 | the counters grow by the number of rounds, and from zero they equal the tally |
| `PlayerFactory.KindName` | ex1/PlayerFactory.java:9-12 | each kind's name is in lower case |
| `PlayerFactory.BuildPlayer` | ex1/PlayerFactory.java:30-49 | a result's name is the lowered input; no result exactly when the lowered input names no kind |
| `PlayerFactory.BuildPlayerByName` | ex1/PlayerFactory.java:30-49 | the factory builds a kind exactly when the input equals its name ignoring case |
| `PlayerFactory.BuildPlayerIgnoresCase` | ex1/PlayerFactory.java:31 | inputs equal ignoring case build the same kind |
| `RendererFactory.BuildRenderer` | ex1/RendererFactory.java:26-37 | "none" in any case gives the void renderer; "console" in any case gives a console renderer of the given size; anything else gives none |
| `RendererFactory.BuildRendererIgnoresCase` | ex1/RendererFactory.java:28 | inputs equal ignoring case build the same renderer |

## Left out

- `ex2/` (the brick-breaker game) is not part of this model. It is built on a game engine whose physics, collisions and rendering are outside the program.
- Loading an image from a file and `Image.saveImage` are left out because they are file I/O. A loader is a parameter `load: JString -> Option<Image>`, where `None` stands for the `IOException`.
- The `Shell.run` read-eval loop, `KeyboardInput`, console printing and `main` are left out because they are console I/O. `Shell.ChooseCommand` takes the words of one line. The `exit` and `chars` lines are handled by the loop and are left out with it; `ToString` models what `chars` prints.
- The character renderer that draws glyphs (`CharConverter`) is not part of this model. Glyphs are a parameter `glyph: Code -> Glyph`, a 16 x 16 grid of lit cells.
- The output classes (console and HTML) are not part of this model. An output is the tag of the class the factory builds, with its arguments, and rendering hands the grid to that tag.
- Brightness and luminance are computed over exact reals. IEEE double rounding is not modelled, and neither is the NaN of a zero-by-zero division; that case is an explicit failure in `CharMatching.MatchAsWritten`.
- `AsciiShell.ResolutionInBounds` compares the resolution with width / height as an exact real. The source divides as a 32-bit float, whose rounding can change the outcome only when the width exceeds 2^24, whatever the height. For example, a width of 2^25 + 1 rounds to 2^25, so with a height of 2^17 the source accepts 256 where the model refuses it.
- Java's 32-bit `int` overflow is not modelled. Examples are the doubling in `findSqrt` and `res up`, and `size * size`. Sizes and resolutions are unbounded integers.
- Image getters `getWidth` and `getHeight`, and `Board.getSize` and `Game.getWinStreak` and `getBoardSize`, are not separate members. They are the datatype fields and constant fields `width`, `height`, `size` and `winStreak`, which never change.
- `CharMatching.SubImgCharMatcher.GetCharByImageBrightness`: for a charset whose characters all share one brightness it answers the smallest of them, where the source divides zero by zero and then fails on a null entry (see Findings). It also requires a non-empty charset; the source fails on `firstKey` there, and the shell never calls it on an empty charset. It requires the query to lie in [0, 1]: outside it the source's floor or ceiling lookup is null and throws NullPointerException. The algorithm only asks for brightnesses of valid sub-images, which lie in [0, 1].
- `AsciiShell.Apply`, `AsciiShell.RenderOutcome`, `AsciiShell.UnreportedFailures`, `AsciiShell.Shell.RunAlgorithm` and `AsciiArt.AsciiArtAlgorithm.Run` use the corrected lookup. So for a charset whose characters all share one brightness (for example `remove all` then `add a`), a render answers a grid of that charset's smallest character. The source's `asciiArt` throws a NullPointerException there, and the shell's loop does not catch it (see Findings). The model therefore does not list this crash among the render's failures.
- `AsciiArt.AsciiArtAlgorithm.Run` requires `1 <= resolution <=` the padded height, because the source divides by a zero sub-image side otherwise. The shell's render reports that case as a `DivisionByZero` outcome (see Findings).
- `HumanPlayer` (console input) and `WhateverPlayer` (a random retry loop) are left out. The factory still names their kinds.
- `CleverPlayer.markRandomEmptyCell` draws random cells until one is blank. It is modelled as a choice of any blank cell, so it requires a blank cell, which is what the source's loop needs to end.
- `Players.CleverPlayer.PlayTurn` requires a blank cell when a run continues, for the same reason. `Players.PlayTurn` requires one because a game only moves while a cell is blank.
- Rendering the board (`Renderer`, `VoidRenderer`, the console renderer) is left out because it is output only. Games and tournaments do not carry a renderer, and `RendererFactory` returns the kind of renderer.
- `Tournament.printTournamentResult` and `Tournament.main` are left out because they print and parse command-line arguments. A missing player or renderer from the factories is not modelled in the tournament.
- `Games.Game.Run`, `Tournaments.Tournament.PlayRound` and `Tournaments.Tournament.PlayTournament` require a board size of at least 1. On a 0 x 0 board the source plays no regular game: a clever or whatever player calls `Random.nextInt(0)`, which throws IllegalArgumentException; a human player is asked for a cell forever; two genius players mark nothing and decrement the 32-bit `blankCells` until it wraps back to 0 after 2^32 moves, when the game returns a draw.
- `Boards.Board.constructor` requires a non-negative size, because Java refuses a negative array size.
- `JavaText.LowerCode` lowers only the ASCII letters A to Z. Java's `toLowerCase` also lowers other scripts and depends on the default locale. For the factory names, which are lower-case ASCII, the outcomes differ only under a locale that lowers `I` to a dotless i and a dotted capital I to `i`, which affects `genius`. Other non-ASCII letters, the Kelvin sign among them, change no outcome: no factory name matches them in either lowering.
- The brightness map is keyed by the real brightness count / 256, not by the double. Distinct counts give distinct keys in both.

## Findings

| source | as written | input that shows it | evidently intended | confidence | as-written member | corrected member |
|---|---|---|---|---|---|---|
| ex3/image_char_matching/SubImgCharMatcher.java:52-67 | The stretch divides by the spread of bucket brightnesses. With a single brightness that is 0 / 0, so the bucket is stored under NaN. `floorEntry` then finds no entry, and reading its key throws a `NullPointerException`. | `remove all`, then `add a`, then `asciiArt` on any image: every query fails | a one-brightness charset answers its smallest character | not executed | `CharMatching.SingleCharacterLookupFails` | `CharMatching.MatchInCharset` |
| ex3/ascii_art/Shell.java:174-183 | The bounds check caps the resolution by the image width, not by the padded height that the split divides. | a 64 x 2 image, then `res down` from 128, which gives 64 and is accepted, then `asciiArt`: the sub-image side is 2 / 64 = 0, and the split divides the width by it | the resolution is capped by the padded height as well | not executed | `AsciiShell.AcceptedResolutionCrashes` | `AsciiShell.FittingResolutionRenders` |
