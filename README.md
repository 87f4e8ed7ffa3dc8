# bevy-terminal-renderer, modelled in Dafny

`bevy-terminal-renderer` draws a Bevy game in a text terminal through
pancurses. Games attach single-glyph sprites (`TermChar`) and strings
(`TermText` with a `TermTextAlign`) to entities with a world transform, may
add one `TermCamera`, read normalised key and mouse events (`TermInput`) and
queue a `TermCommand::Exit` to shut down.

This project models the renderer's core and proves properties of it:

- **Frame buffer** (`Terminal.TermBuffer`, src/term.rs). A class whose
  `buffer` field is a sequence of rows of cells `(glyph, depth)`. `Write`
  keeps a contribution only when it is strictly deeper than the cell.
- **Per-tick systems of the current renderer**, run in schedule order by
  `Plugin.Tick`:
  - `Terminal.TermEvents` reads at most one key; a resize reallocates the
    buffer;
  - `Render.Render` projects every sprite and text through the camera offset
    and writes them;
  - `Terminal.TermDraw` flushes every cell row by row and clears it;
  - `Terminal.TermCommands` honours the first queued command, after the draw.
- **Key mapping** (`Terminal.MapEvent`). Curses key codes become `TermInput`
  events. src/lib.rs:366-461 holds the same mapping, so the older renderer
  reuses it.
- **The older single-system renderer** (`Legacy`, src/lib.rs). Each tick it
  composes a fresh column-major buffer with a `>=` depth test and flushes it
  column by column. It has an optional wide mode that doubles sprite x
  coordinates and reserves an extra column.

Each flush and each driver call is an `Effect` in a returned trace. The trace
records `Put(row, col, glyph)` for each `mvaddstr`, and one entry each for
`resize_term`, `erase`, `curs_set(1)`, `endwin` and `AppExit`. The driver's
answers are parameters:
- the key `getch` returns;
- the mouse position `getmouse` returns;
- the window's width and height, that is its number of columns and lines.

Each collection of write calls is a sequence of `WriteOp`s:
- `Render.RenderWrites` for the current renderer;
- `Legacy.LegacyWrites` for the older one.

Their effect on a grid is `Render.Apply` or `Legacy.ApplyLegacy`. The methods
that loop over the entities prove that they leave exactly that grid behind.
Lemmas then say what every cell ends up holding:
- for the current renderer, the first of the deepest contributions
  (`Cells.Layer`);
- for the older one, the last of the deepest (`Cells.LayerOrEqual`).

Behaviour of the code that is easy to misread:

- The current buffer's `write` replaces a cell only on a strictly greater
  depth (src/term.rs:32), so ties keep the earlier glyph. The `>=` test with
  last-writer-wins on ties exists only in the older renderer
  (src/lib.rs:303, src/lib.rs:344).
- The camera offset uses Rust's truncating signed division
  (src/render.rs:52-53), not floor. A camera at x = 13 on 10 columns shifts
  by -1, where floor division gives -2 (`Render.ExampleOffsetTruncates`).
- With no camera, or with several, the offset is (0, 0)
  (src/render.rs:46-47). A sprite at world (0, 0) lands on cell (5, 2) of a
  10 by 5 buffer only with exactly one camera, for example at the origin
  (`Render.ExampleSpriteAtOrigin`); with no camera it lands on (0, 0)
  (`Render.NoSingleCameraNoOffset`).
- Wide mode, and its two-column margin, exist only in the older renderer
  (src/lib.rs:286-288, src/lib.rs:361-364). Even there the narrow mode
  reserves one column, and texts are never doubled. The current frame
  buffer's size is the window's full width and height
  (src/term.rs:78, src/term.rs:104-105).
- The older renderer has no `minz` gate. Its fresh cells sit at depth `minz`,
  so a contribution exactly at `minz` is drawn. The current renderer draws
  only contributions strictly above `minz` (`Legacy.EqualDepthDrawnOnlyByLegacy`).

## Model

| member | source | states |
|---|---|---|
| Cells.Deeper | src/term.rs:31-35 | the cell after a write is the contribution exactly when it is strictly deeper, and otherwise the old cell; its depth is at least both depths |
| Cells.DeeperOrEqual | src/lib.rs:301-306 | the cell after a legacy write is the contribution exactly when it is at least as deep as the cell, and otherwise the old cell |
| Cells.LayerKeepsFirstDeepest | src/term.rs:31-35 | after any sequence of writes to one cell, its depth is the maximum depth; the cell is unchanged if nothing was deeper, and otherwise holds the first contribution that reached the maximum |
| Cells.LayerOrEqualKeepsLastDeepest | src/lib.rs:301-306 | after any sequence of legacy writes to one cell, it holds the last contribution that reached the maximum depth, or is unchanged if all were shallower |
| Cells.StrictOrderIrrelevantForDistinctDepths | src/term.rs:31-35 | two writes of different depths to a cell commute |
| Cells.TieBreaksDiffer | src/term.rs:32-33 | on equal depths the current write keeps the earlier glyph while the legacy test keeps the later one |
| Grid.Filled | src/term.rs:21 | `vec![vec![fill; m]; n]` has n lines of m cells, each equal to fill |
| Grid.FilledUnique | src/term.rs:119 | a grid of the right shape whose every cell is the fill value is the filled grid (used to prove the draw leaves the buffer empty) |
| Grid.Sweep | src/term.rs:111-121 | a flush consists of draw calls only |
| Grid.SweepLength | src/term.rs:111-121 | a flush of an n by m grid makes exactly n * m draw calls |
| Grid.SweepSound | src/term.rs:111-121 | every draw call of a flush is for a cell of the grid, with that cell's glyph |
| Grid.SweepCovers | src/term.rs:111-121 | every cell of the grid is drawn, with its glyph |
| Grid.SweepOrdered | src/lib.rs:353-358 | the draw calls of a flush strictly increase in (outer, inner) index order, so no cell is drawn twice |
| Terminal.Blank | src/term.rs:9 | an empty frame of the given size holds the clear cell (space at `f32::MIN`) everywhere |
| Terminal.WriteCell | src/term.rs:31-35 | one write changes only the addressed cell, which becomes the contribution iff it is strictly deeper |
| Terminal.TermBuffer.constructor | src/term.rs:19-25 | a new buffer has the given columns and rows, reports them as its size, and is empty |
| Terminal.TermBuffer.Size | src/term.rs:27-29 | the reported size is the buffer's actual shape: as many rows as the second component, each as long as the first |
| Terminal.TermBuffer.Write | src/term.rs:31-35 | writing replaces the addressed cell only on a strictly greater depth and changes nothing else |
| Terminal.TermEvents | src/term.rs:82-107 | a resize key sends nothing, emits resize and erase, and replaces the buffer with an empty one of the new size; any other key is mapped and sent and leaves the buffer alone |
| Terminal.TermDraw | src/term.rs:109-122 | the draw calls are exactly the row-major flush of the buffer as it was, and the buffer ends empty with the same size |
| Terminal.TermCommands | src/term.rs:124-134 | with no command queued nothing happens; with one, the cursor is restored before the terminal is torn down, and the application is asked to exit exactly once, last, after the teardown, with no draw call |
| Terminal.MapEvent | src/term.rs:136-180 | every character key produces an event, a `Character` event never carries space, newline, tab or escape, a mouse key produces an event iff the mouse query succeeded, unknown keys produce none |
| Terminal.NamedCharsMapToNamedKeys | src/term.rs:139-142 | space, newline, tab and escape become SpaceBar, Enter, Tab and Escape |
| Terminal.MapEventOnto | src/term.rs:136-172 | every event the mapping can produce is produced by its key |
| Terminal.MapEventInjective | src/term.rs:136-172 | a produced non-mouse event determines the key that produced it |
| Render.CameraOffset | src/render.rs:46-57 | with no camera or several the offset is (0, 0); with exactly one, each component is half the camera-relative size rounded toward zero (twice the offset differs from it by less than 2, on the side of zero) |
| Render.Project | src/render.rs:61-66 | the screen cell determines the world cell: x is shifted by the offset, y is flipped and shifted |
| Render.TruncDiv | src/render.rs:52-53 | the quotient rounds toward zero: the remainder has the dividend's sign and is smaller than the divisor |
| Render.AsUsize | src/render.rs:103 | a non-negative value is unchanged and a negative one wraps around by 2^64 |
| Render.NoSingleCameraNoOffset | src/render.rs:46-66 | with no camera or several, a sprite at world cell (x, y) is drawn at column x of row -y, whatever the buffer's size |
| Render.ExampleSpriteAtOrigin | src/render.rs:46-79 | one camera at the origin of a 10 by 5 buffer shifts by (5, 2), so a sprite at the origin is written at cell (5, 2) |
| Render.ExampleOffsetTruncates | src/render.rs:52 | a camera at x = 13 on 10 columns shifts by -1, where floor division would give -2 |
| Render.CameraStepHalved | src/render.rs:49-52 | unless the camera sits on the buffer's last column (c - camera x == 1), moving it two cells right moves every sprite one column left |
| Render.CameraStepAtEdge | src/render.rs:49-52 | with the camera one column left of the buffer's width, moving it two cells right leaves the offset at 0, since both halves truncate to zero |
| Render.Utf8Width | src/render.rs:84 | a character takes 1 to 4 bytes, 1 exactly when it is ASCII |
| Render.Utf8Len | src/render.rs:84 | a text's byte length is between its character count and four times it, equal exactly for ASCII text |
| Render.AlignedStart | src/render.rs:92-96 | left-aligned text starts at the anchor, right-aligned text ends its byte length at the anchor, centred text starts half its byte length (rounded down) left of it |
| Render.SpriteWrites | src/render.rs:60-79 | a sprite causes one write, at its projected cell and depth, exactly when that cell is on screen and its depth exceeds `minz` |
| Render.CharWrite | src/render.rs:111-117 | one character is written exactly when its cell is on screen and the depth exceeds `minz` |
| Render.CharWrites | src/render.rs:111-117 | a placed text causes no more writes than it has characters, all on screen and above `minz` |
| Render.CharWritesColumnsIncrease | src/render.rs:111-117 | the columns of a placed text's writes strictly increase, so no column is written twice |
| Render.CharWritesShape | src/render.rs:111-117 | every write of a placed text is on its row at its depth, at the column of the character it writes |
| Render.CharWritesPlace | src/render.rs:111-117 | character i is written at column x + i iff that cell is on screen and the depth clears `minz` |
| Render.TextWrites | src/render.rs:82-118 | every write of a text is on screen and above `minz` |
| Render.TextWritesCases | src/render.rs:98-110 | a text above the screen, with a negative aligned start, or starting right of the screen or below it causes no write; otherwise its characters are placed from the start at the floored depth |
| Render.RenderWrites | src/render.rs:33-121 | every write of a render pass is inside the buffer, so the write's index bounds always hold, and above `minz` |
| Render.ApplyCell | src/render.rs:76-78 | each cell after a batch of writes is its old content layered with the contributions aimed at it, in write order |
| Render.RenderCell | src/render.rs:33-121 | after a render pass a cell no write aims at keeps its content; any other cell holds the layered result of its contributions |
| Render.Render | src/render.rs:33-121 | the buffer's shape is unchanged and its content is the old content with all of the pass's writes applied in order |
| Render.WriteSprites | src/render.rs:59-79 | the sprite loop applies exactly the sprite pass's writes |
| Render.WriteSprite | src/render.rs:60-79 | one pass of the sprite loop applies exactly that sprite's writes |
| Render.WriteTexts | src/render.rs:81-118 | the text loop applies exactly the text pass's writes |
| Render.WriteText | src/render.rs:82-118 | one text's alignment, culling and character loop apply exactly that text's writes |
| Render.WriteChars | src/render.rs:111-117 | the character loop applies exactly the placed text's writes |
| Render.WriteChar | src/render.rs:112-116 | one pass of the character loop applies exactly that character's write, if any |
| Render.ExampleCentredText | src/render.rs:92-96 | centred "Hi" anchored at column 5 writes 'H' at 4 and 'i' at 5, at the floored depth |
| Render.ExampleByteLengthAlignment | src/render.rs:84-96 | right-aligned "a→" anchored at column 8 is placed from column 4, since alignment counts bytes |
| Render.ExampleNegativeStartDropped | src/render.rs:98-109 | a text whose start is left of the screen is dropped whole, even where a character would land on screen |
| Plugin.Tick | src/term.rs:56-63 | one tick: the buffer's size follows a resize, the event sent is the mapped key, the trace is the resize calls, then the flush of the rendered frame, then the command calls; no draw follows the teardown, exit is requested iff a command is queued, and the buffer ends empty |
| Plugin.TeardownLast | src/term.rs:62 | in a tick's trace no draw call follows the terminal's teardown, and exit is requested iff a command is queued |
| Plugin.FrameIsFresh | src/term.rs:109-122 | a tick's frame has one draw call per cell, and with nothing to draw it is blank |
| Plugin.DefaultGateHidesOnlyEmptyDepth | src/plugin.rs:9-12 | with the default gate `f32::MIN` every sprite above that depth is written exactly when its cell is on screen, and then replaces an empty cell |
| Plugin.ExampleResizeFlush | src/term.rs:99-106 | after a resize to 78 by 24 the flush makes 1872 draw calls |
| Legacy.GetWindowSize | src/lib.rs:361-364 | the reported size is the window's height and its width less one column, or less two in wide mode |
| Legacy.WideLosesOneColumn | src/lib.rs:361-364 | wide mode reports one column fewer than narrow mode and the same height |
| Legacy.Widen | src/lib.rs:286-288 | wide mode doubles a sprite's x coordinate and keeps the rest |
| Legacy.LegacySpriteWrites | src/lib.rs:281-307 | a sprite causes one write at its widened projected cell exactly when that cell is on screen, whatever its depth |
| Legacy.LegacyTextWrites | src/lib.rs:310-349 | every write of a text is on screen, at the text's floored depth |
| Legacy.LegacyWrites | src/lib.rs:266-349 | every write of one composition is inside the grid |
| Legacy.WideDoublesSprites | src/lib.rs:281-307 | the wide sprite pass is the narrow pass over sprites with doubled x |
| Legacy.PlotCell | src/lib.rs:302-305 | one legacy write changes only the addressed cell, which becomes the contribution iff it is at least as deep |
| Legacy.ApplyLegacyCell | src/lib.rs:301-306 | each cell after a batch of legacy writes is its old content layered, keeping the last of equals, with its contributions |
| Legacy.FrameCell | src/lib.rs:264-349 | a cell of the composed frame holds the last of the deepest contributions at least as deep as `minz`, or stays a blank at `minz` |
| Legacy.Plot | src/lib.rs:302-305 | the in-place test leaves exactly the single-cell legacy write |
| Legacy.ComposeSprites | src/lib.rs:280-307 | the sprite loop applies exactly the sprite pass's writes |
| Legacy.ComposeSprite | src/lib.rs:281-307 | one pass of the sprite loop applies exactly that sprite's legacy write, if any |
| Legacy.ComposeTexts | src/lib.rs:309-349 | the text loop applies exactly the text pass's writes |
| Legacy.ComposeText | src/lib.rs:310-349 | one pass of the text loop applies exactly that text's legacy writes |
| Legacy.ComposeChars | src/lib.rs:339-348 | the character loop applies exactly the placed text's writes |
| Legacy.ComposeChar | src/lib.rs:340-347 | one pass of the character loop applies exactly that character's legacy write, if any |
| Legacy.LegacyFrame | src/lib.rs:262-349 | the composed frame is a grid of `c` columns of `r` cells |
| Legacy.Compose | src/lib.rs:261-349 | the composed buffer is the fresh grid of blanks at `minz` with every write applied in order |
| Legacy.Flush | src/lib.rs:351-358 | the draw calls are exactly the column-major flush of the composed grid |
| Legacy.Term.constructor | src/lib.rs:181-200 | the terminal records its wide flag, `minz` and the size of the initial window |
| Legacy.Term.HandleTerminal | src/lib.rs:203-359 | a queued exit restores the terminal and ends the tick without reading a key, updating the size or drawing; otherwise the key is mapped or resizes, the size is recomputed, and the trace is the resize calls then the column-major flush of the composed frame |
| Legacy.EqualDepthDrawnOnlyByLegacy | src/lib.rs:301-306 | a sprite exactly at `minz` is gated out by the current renderer but drawn over a fresh legacy cell |
| Legacy.ExampleWideSprite | src/lib.rs:281-306 | in wide mode a sprite at (1, 0) seen by one camera at the origin of a 10 by 5 grid lands in column 7, row 2 |

## Left out

- Curses I/O is not called. The model returns it as a trace of `Effect`s, and takes the driver's answers as parameters: the key read, the mouse query, the window's width and height.
- Startup configuration of the terminal is not modelled: `nl`, `noecho`, `curs_set(0)`, non-blocking input, keypad and the mouse mask. The only startup state kept is the initial buffer or size.
- The `warn!` logging of unknown keys and of failed mouse queries is not modelled.
- Bevy's ECS is not modelled: queries, resources, system scheduling and event buffering. Queries are sequences in iteration order, and the schedule is the fixed call order in `Plugin.Tick`.
- Floating point: world positions arrive as whole cells, already floored (the camera's already rounded), and depths are exact reals. NaN, infinities, f32 rounding and saturating float-to-int casts are not modelled. The text depth's `floor` is modelled.
- Signed overflow is not modelled: `isize` and `i32` arithmetic on positions and offsets, wide-mode doubling, and `text_len as isize`. Only the wrap-around of `as usize` on a negative text start is modelled, because it decides culling.
- Render.TextWritesCases: stated only for buffers no wider than `isize::MAX` columns, because it needs the aligned start to be a valid `isize`.
- Terminal.TermBuffer.constructor: takes non-negative dimensions; a negative `i32` size wraps in `as usize` and fails the allocation, which is not modelled.
- Legacy.Term.HandleTerminal: requires a non-negative size on the drawing path, because a negative `i32` size wraps in `as usize` and fails the buffer allocation.
- `TermBuffer::prune` is not modelled because its body is empty in the source.
- Glyph width on screen is not modelled: emoji, double-width characters and how the terminal renders each `mvaddstr`. A draw call records its glyph only.
- The unsafe `Send`/`Sync` implementations and any concurrency are not modelled; systems run one at a time.
- The bundle defaults and the plugin `build` wiring are not modelled beyond the system order and the default `minz` of `f32::MIN`. The example games are not modelled either.
