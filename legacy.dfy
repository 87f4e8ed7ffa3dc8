/**
  The older single-system renderer: one system per tick honours a command,
  reads a key, recomputes the terminal size (leaving one column free, two in
  wide mode), composes a fresh column-major buffer whose empty cells sit at
  depth `minz`, and draws it column by column. Compared with the current
  renderer it has no depth gate (a fresh cell is only overwritten by a
  contribution at least as deep as `minz`), keeps the LAST of equally deep
  contributions, and in wide mode doubles every sprite's x coordinate.
 */
module Legacy {
  import opened Prelude
  import opened Cells
  import opened Grid
  import opened Terminal
  import opened Render

  /**
    The size reported for a window `maxX` columns wide and `maxY` lines high:
    one column (two in wide mode) is left unused, and the height is the
    window's.
   */
  function GetWindowSize(maxX: int, maxY: int, wide: bool): (size: (int, int))
    ensures size.1 == maxY
    ensures size.0 < maxX
    ensures size.0 == maxX - (if wide then 2 else 1)
  {
    var sub := if wide then 2 else 1;
    (maxX - sub, maxY)
  }

  /** Wide mode gives up exactly one more column than narrow mode and nothing else. */
  lemma WideLosesOneColumn(maxX: int, maxY: int)
    ensures GetWindowSize(maxX, maxY, true).0 + 1 == GetWindowSize(maxX, maxY, false).0
    ensures GetWindowSize(maxX, maxY, true).1 == GetWindowSize(maxX, maxY, false).1
  {
  }

  /** A sprite as the older compositor places it: in wide mode its x coordinate is doubled first. */
  function Widen(s: Sprite, wide: bool): (s': Sprite)
    ensures s'.y == s.y && s'.z == s.z && s'.glyph == s.glyph
    ensures s'.x == (if wide then 2 * s.x else s.x)
  {
    if wide then s.(x := 2 * s.x) else s
  }

  /**
    The write a sprite causes in the older compositor: one write at its
    (widened) projected cell exactly when that cell is on screen, whatever
    its depth; it is the current sprite write with a gate below the sprite's
    own depth.
   */
  function LegacySpriteWrites(s: Sprite, offset: (int, int), wide: bool, c: nat, r: nat): (ws: seq<WriteOp>)
    ensures |ws| <= 1 && InBounds(ws, c, r)
    ensures var p := Project(Widen(s, wide).x, s.y, offset);
            (ws != [] <==> 0 <= p.0 < c && 0 <= p.1 < r) &&
            (ws != [] ==> ws[0] == WriteOp(p.0, p.1, s.glyph, s.z))
  {
    SpriteWrites(Widen(s, wide), offset, c, r, s.z - 1.0)
  }

  /**
    The writes a text causes in the older compositor: the same culling and
    placement as the current render pass, without the depth gate and without
    any doubling in wide mode.
   */
  function LegacyTextWrites(t: Text, offset: (int, int), c: nat, r: nat): (ws: seq<WriteOp>)
    ensures InBounds(ws, c, r)
    ensures forall w :: w in ws ==> w.z == t.z.Floor as real
  {
    var ws := TextWrites(t, offset, c, r, t.z.Floor as real - 1.0);
    assert forall w :: w in ws ==> w.z == t.z.Floor as real by {
      var p := Project(t.x, t.y, offset);
      var x := AlignedStart(p.0, Utf8Len(t.content), t.align);
      if x + Utf8Len(t.content) >= 0 && p.1 >= 0 && AsUsize(x) <= c && p.1 <= r {
        assert ws == CharWrites(t.content, AsUsize(x), p.1, t.z.Floor as real, c, r, t.z.Floor as real - 1.0);
        CharWritesShape(t.content, AsUsize(x), p.1, t.z.Floor as real, c, r, t.z.Floor as real - 1.0);
      }
    }
    ws
  }

  /** The writes of the sprite loop, sprite by sprite. */
  function LegacySpriteLayer(sprites: seq<Sprite>, offset: (int, int), wide: bool, c: nat, r: nat): (ws: seq<WriteOp>)
    ensures InBounds(ws, c, r)
  {
    if sprites == [] then []
    else
      LegacySpriteLayer(sprites[..|sprites| - 1], offset, wide, c, r) +
      LegacySpriteWrites(sprites[|sprites| - 1], offset, wide, c, r)
  }

  /** The writes of the text loop, text by text. */
  function LegacyTextLayer(texts: seq<Text>, offset: (int, int), c: nat, r: nat): (ws: seq<WriteOp>)
    ensures InBounds(ws, c, r)
  {
    if texts == [] then []
    else LegacyTextLayer(texts[..|texts| - 1], offset, c, r) + LegacyTextWrites(texts[|texts| - 1], offset, c, r)
  }

  /** Every write of one composition on a `c` by `r` grid: all sprites, then all texts. */
  function LegacyWrites(cameras: seq<Camera>, sprites: seq<Sprite>, texts: seq<Text>, wide: bool, c: nat, r: nat)
    : (ws: seq<WriteOp>)
    ensures InBounds(ws, c, r)
  {
    var offset := CameraOffset(cameras, c, r);
    LegacySpriteLayer(sprites, offset, wide, c, r) + LegacyTextLayer(texts, offset, c, r)
  }

  /** The sprites with every x coordinate doubled, as wide mode places them. */
  function WidenAll(sprites: seq<Sprite>): (ws: seq<Sprite>)
    ensures |ws| == |sprites|
    ensures forall i :: 0 <= i < |sprites| ==> ws[i] == Widen(sprites[i], true)
  {
    seq(|sprites|, i requires 0 <= i < |sprites| => Widen(sprites[i], true))
  }

  /** Wide mode is narrow mode applied to sprites at doubled x coordinates. */
  lemma {:induction false} WideDoublesSprites(sprites: seq<Sprite>, offset: (int, int), c: nat, r: nat)
    ensures LegacySpriteLayer(sprites, offset, true, c, r) == LegacySpriteLayer(WidenAll(sprites), offset, false, c, r)
  {
    if sprites != [] {
      var n := |sprites| - 1;
      WideDoublesSprites(sprites[..n], offset, c, r);
      assert WidenAll(sprites)[..n] == WidenAll(sprites[..n]);
    }
  }

  /**
    The cell grid after writing contribution `w` at column `col`, row `row`
    of a column-major grid: that cell passes the depth test that keeps the
    later of equals, every other cell and the shape are unchanged.
   */
  function PlotCell(g: seq<seq<Cell>>, col: nat, row: nat, w: Cell): (g': seq<seq<Cell>>)
    requires col < |g| && row < |g[col]|
    ensures |g'| == |g| && forall i :: 0 <= i < |g| ==> |g'[i]| == |g[i]|
    ensures g'[col][row] == (if w.depth >= g[col][row].depth then w else g[col][row])
    ensures forall i, j :: 0 <= i < |g| && 0 <= j < |g[i]| && (i != col || j != row) ==> g'[i][j] == g[i][j]
  {
    g[col := g[col][row := DeeperOrEqual(g[col][row], w)]]
  }

  /** The column-major grid after the writes `ws`, in order; its shape does not change. */
  function ApplyLegacy(g: seq<seq<Cell>>, c: nat, r: nat, ws: seq<WriteOp>): (g': seq<seq<Cell>>)
    requires IsGrid(g, c, r) && InBounds(ws, c, r)
    ensures IsGrid(g', c, r)
  {
    if ws == [] then g
    else
      var w := ws[|ws| - 1];
      assert w in ws;
      PlotCell(ApplyLegacy(g, c, r, ws[..|ws| - 1]), w.col, w.row, Cell(w.glyph, w.z))
  }

  /** Applying two batches one after the other is applying their concatenation. */
  lemma {:induction false} ApplyLegacyAppend(g: seq<seq<Cell>>, c: nat, r: nat, a: seq<WriteOp>, b: seq<WriteOp>)
    requires IsGrid(g, c, r) && InBounds(a + b, c, r)
    ensures ApplyLegacy(g, c, r, a + b) == ApplyLegacy(ApplyLegacy(g, c, r, a), c, r, b)
  {
    if b != [] {
      var n := |b| - 1;
      assert (a + b)[..|a + b| - 1] == a + b[..n];
      ApplyLegacyAppend(g, c, r, a, b[..n]);
    } else {
      assert a + b == a;
    }
  }

  /** Applying one write is one in-place depth test. */
  lemma ApplyLegacyOne(g: seq<seq<Cell>>, c: nat, r: nat, w: WriteOp)
    requires IsGrid(g, c, r) && w.col < c && w.row < r
    ensures ApplyLegacy(g, c, r, [w]) == PlotCell(g, w.col, w.row, Cell(w.glyph, w.z))
  {
    assert [w][..0] == [];
  }

  /** Each cell after a batch of writes is its old content layered, keeping the last of equals, with the contributions aimed at it. */
  lemma {:induction false} ApplyLegacyCell(g: seq<seq<Cell>>, c: nat, r: nat, ws: seq<WriteOp>, col: nat, row: nat)
    requires IsGrid(g, c, r) && InBounds(ws, c, r) && col < c && row < r
    ensures ApplyLegacy(g, c, r, ws)[col][row] == LayerOrEqual(g[col][row], Hits(ws, col, row))
  {
    if ws != [] {
      var n := |ws| - 1;
      var w := ws[n];
      var hs := Hits(ws[..n], col, row);
      ApplyLegacyCell(g, c, r, ws[..n], col, row);
      if w.col == col && w.row == row {
        assert (hs + [Cell(w.glyph, w.z)])[..|hs|] == hs;
      } else {
        assert hs + [] == hs;
      }
    }
  }

  /** The composed frame: a fresh `c` by `r` column-major grid of blanks at depth `minz`, with every write applied. */
  function LegacyFrame(c: nat, r: nat, minz: real, wide: bool, cameras: seq<Camera>, sprites: seq<Sprite>,
                       texts: seq<Text>): (g: seq<seq<Cell>>)
    ensures IsGrid(g, c, r)
  {
    ApplyLegacy(Filled(c, r, Cell(' ', minz)), c, r, LegacyWrites(cameras, sprites, texts, wide, c, r))
  }

  /**
    A cell of the composed frame holds the last of the deepest contributions
    aimed at it when one is at least as deep as `minz`, and stays a blank at
    depth `minz` when every contribution is shallower.
   */
  lemma FrameCell(c: nat, r: nat, minz: real, wide: bool, cameras: seq<Camera>, sprites: seq<Sprite>, texts: seq<Text>,
                  col: nat, row: nat)
    requires col < c && row < r
    ensures var hs := Hits(LegacyWrites(cameras, sprites, texts, wide, c, r), col, row);
            var cell := LegacyFrame(c, r, minz, wide, cameras, sprites, texts)[col][row];
            (cell == LayerOrEqual(Cell(' ', minz), hs)) &&
            ((forall k :: 0 <= k < |hs| ==> hs[k].depth < minz) ==> cell == Cell(' ', minz)) &&
            ((exists k :: 0 <= k < |hs| && hs[k].depth >= minz) ==>
               exists k :: 0 <= k < |hs| && cell == hs[k] && hs[k].depth >= minz &&
                           forall j :: k < j < |hs| ==> hs[j].depth < hs[k].depth)
  {
    var ws := LegacyWrites(cameras, sprites, texts, wide, c, r);
    ApplyLegacyCell(Filled(c, r, Cell(' ', minz)), c, r, ws, col, row);
    LayerOrEqualKeepsLastDeepest(Cell(' ', minz), Hits(ws, col, row));
  }

  /** The in-place depth test of the older compositor: glyph `v` at depth `z` replaces the cell when at least as deep. */
  method Plot(g: seq<seq<Cell>>, col: nat, row: nat, v: char, z: real) returns (g': seq<seq<Cell>>)
    requires col < |g| && row < |g[col]|
    ensures g' == PlotCell(g, col, row, Cell(v, z))
  {
    g' := g;
    if z >= g[col][row].depth {
      g' := g[col := g[col][row := Cell(v, z)]];
    } else {
      assert g[col][row := g[col][row]] == g[col];
      assert g[col := g[col]] == g;
    }
  }

  /** One more sprite of the sprite loop applies that sprite's write to the grid so far. */
  lemma LegacySpriteStep(g: seq<seq<Cell>>, c: nat, r: nat, sprites: seq<Sprite>, i: nat, offset: (int, int), wide: bool)
    requires IsGrid(g, c, r) && i < |sprites|
    ensures ApplyLegacy(g, c, r, LegacySpriteLayer(sprites[..i + 1], offset, wide, c, r))
         == ApplyLegacy(ApplyLegacy(g, c, r, LegacySpriteLayer(sprites[..i], offset, wide, c, r)), c, r,
                        LegacySpriteWrites(sprites[i], offset, wide, c, r))
  {
    assert sprites[..i + 1][..i] == sprites[..i];
    ApplyLegacyAppend(g, c, r, LegacySpriteLayer(sprites[..i], offset, wide, c, r),
                      LegacySpriteWrites(sprites[i], offset, wide, c, r));
  }

  /** One more text of the text loop applies that text's writes to the grid so far. */
  lemma LegacyTextStep(g: seq<seq<Cell>>, c: nat, r: nat, texts: seq<Text>, t: nat, offset: (int, int))
    requires IsGrid(g, c, r) && t < |texts|
    ensures ApplyLegacy(g, c, r, LegacyTextLayer(texts[..t + 1], offset, c, r))
         == ApplyLegacy(ApplyLegacy(g, c, r, LegacyTextLayer(texts[..t], offset, c, r)), c, r,
                        LegacyTextWrites(texts[t], offset, c, r))
  {
    assert texts[..t + 1][..t] == texts[..t];
    ApplyLegacyAppend(g, c, r, LegacyTextLayer(texts[..t], offset, c, r), LegacyTextWrites(texts[t], offset, c, r));
  }

  /** One more character of a placed text applies that character's write to the grid so far. */
  lemma LegacyCharStep(g: seq<seq<Cell>>, c: nat, r: nat, s: string, k: nat, x: nat, y: nat, z: real)
    requires IsGrid(g, c, r) && k < |s|
    ensures ApplyLegacy(g, c, r, CharWrites(s[..k + 1], x, y, z, c, r, z - 1.0))
         == ApplyLegacy(ApplyLegacy(g, c, r, CharWrites(s[..k], x, y, z, c, r, z - 1.0)), c, r,
                        CharWrite(s[k], x + k, y, z, c, r, z - 1.0))
  {
    CharWritesSnoc(s, k, x, y, z, c, r, z - 1.0);
    ApplyLegacyAppend(g, c, r, CharWrites(s[..k], x, y, z, c, r, z - 1.0), CharWrite(s[k], x + k, y, z, c, r, z - 1.0));
  }

  /** The sprite loop of the older compositor, testing and updating the buffer in place. */
  method ComposeSprites(g: seq<seq<Cell>>, c: nat, r: nat, offset: (int, int), wide: bool, sprites: seq<Sprite>)
    returns (buffer: seq<seq<Cell>>)
    requires IsGrid(g, c, r)
    ensures buffer == ApplyLegacy(g, c, r, LegacySpriteLayer(sprites, offset, wide, c, r))
  {
    buffer := g;
    var i := 0;
    while i < |sprites|
      invariant 0 <= i <= |sprites|
      invariant buffer == ApplyLegacy(g, c, r, LegacySpriteLayer(sprites[..i], offset, wide, c, r))
    {
      LegacySpriteStep(g, c, r, sprites, i, offset, wide);
      buffer := ComposeSprite(buffer, c, r, offset, wide, sprites[i]);
      i := i + 1;
    }
    assert sprites[..|sprites|] == sprites;
  }

  /** One sprite of the sprite loop: widened, projected, culled, then compared with its cell. */
  method ComposeSprite(g: seq<seq<Cell>>, c: nat, r: nat, offset: (int, int), wide: bool, s: Sprite)
    returns (buffer: seq<seq<Cell>>)
    requires IsGrid(g, c, r)
    ensures buffer == ApplyLegacy(g, c, r, LegacySpriteWrites(s, offset, wide, c, r))
  {
    buffer := g;
    var x := s.x;
    if wide {
      x := x * 2;
    }
    x := x + offset.0;
    var y := -s.y + offset.1;
    if x >= 0 && y >= 0 && x < c && y < r {
      ApplyLegacyOne(g, c, r, WriteOp(x, y, s.glyph, s.z));
      buffer := Plot(g, x, y, s.glyph, s.z);
    }
  }

  /** The text loop of the older compositor. */
  method ComposeTexts(g: seq<seq<Cell>>, c: nat, r: nat, offset: (int, int), texts: seq<Text>)
    returns (buffer: seq<seq<Cell>>)
    requires IsGrid(g, c, r)
    ensures buffer == ApplyLegacy(g, c, r, LegacyTextLayer(texts, offset, c, r))
  {
    buffer := g;
    var t := 0;
    while t < |texts|
      invariant 0 <= t <= |texts|
      invariant buffer == ApplyLegacy(g, c, r, LegacyTextLayer(texts[..t], offset, c, r))
    {
      LegacyTextStep(g, c, r, texts, t, offset);
      buffer := ComposeText(buffer, c, r, offset, texts[t]);
      t := t + 1;
    }
    assert texts[..|texts|] == texts;
  }

  /** One text of the text loop: aligned, culled, then placed character by character. */
  method ComposeText(g: seq<seq<Cell>>, c: nat, r: nat, offset: (int, int), text: Text)
    returns (buffer: seq<seq<Cell>>)
    requires IsGrid(g, c, r)
    ensures buffer == ApplyLegacy(g, c, r, LegacyTextWrites(text, offset, c, r))
  {
    ghost var now := LegacyTextWrites(text, offset, c, r);
    assert now == TextWrites(text, offset, c, r, text.z.Floor as real - 1.0);
    buffer := g;
    var len := Utf8Len(text.content);
    var x := text.x + offset.0;
    var y := -text.y + offset.1;
    var z := text.z.Floor as real;
    x := AlignedStart(x, len, text.align);

    if x + len >= 0 && y >= 0 {
      var ux := AsUsize(x);
      if ux <= c && y <= r {
        assert now == CharWrites(text.content, ux, y, z, c, r, z - 1.0);
        buffer := ComposeChars(buffer, c, r, text.content, ux, y, z);
      } else {
        assert now == [];
      }
    } else {
      assert now == [];
    }
  }

  /** The character loop for one text: character `k` is compared with the cell at column `x + k` when that cell is on screen. */
  method ComposeChars(g: seq<seq<Cell>>, c: nat, r: nat, s: string, x: nat, y: nat, z: real)
    returns (buffer: seq<seq<Cell>>)
    requires IsGrid(g, c, r)
    ensures buffer == ApplyLegacy(g, c, r, CharWrites(s, x, y, z, c, r, z - 1.0))
  {
    buffer := g;
    var k := 0;
    while k < |s|
      invariant 0 <= k <= |s|
      invariant buffer == ApplyLegacy(g, c, r, CharWrites(s[..k], x, y, z, c, r, z - 1.0))
    {
      LegacyCharStep(g, c, r, s, k, x, y, z);
      buffer := ComposeChar(buffer, c, r, s[k], x + k, y, z);
      k := k + 1;
    }
    assert s[..|s|] == s;
  }

  /** One character of the character loop: compared with its cell when that cell is on screen. */
  method ComposeChar(g: seq<seq<Cell>>, c: nat, r: nat, ch: char, col: nat, row: nat, z: real)
    returns (buffer: seq<seq<Cell>>)
    requires IsGrid(g, c, r)
    ensures buffer == ApplyLegacy(g, c, r, CharWrite(ch, col, row, z, c, r, z - 1.0))
  {
    buffer := g;
    if col < c && row < r {
      ApplyLegacyOne(g, c, r, WriteOp(col, row, ch, z));
      buffer := Plot(g, col, row, ch, z);
    }
  }

  /**
    Composes one frame: a fresh grid of `c` columns of `r` blanks at depth
    `minz`, then every sprite and every text character that lands on screen,
    each kept when at least as deep as what the cell holds.
   */
  method Compose(c: nat, r: nat, minz: real, wide: bool, cameras: seq<Camera>, sprites: seq<Sprite>, texts: seq<Text>)
    returns (buffer: seq<seq<Cell>>)
    ensures buffer == LegacyFrame(c, r, minz, wide, cameras, sprites, texts)
  {
    var empty := Filled(c, r, Cell(' ', minz));
    var offset := CameraOffset(cameras, c, r);
    var afterSprites := ComposeSprites(empty, c, r, offset, wide, sprites);
    buffer := ComposeTexts(afterSprites, c, r, offset, texts);
    ApplyLegacyAppend(empty, c, r, LegacySpriteLayer(sprites, offset, wide, c, r), LegacyTextLayer(texts, offset, c, r));
  }

  /** Draws the composed grid column by column, each column top to bottom. */
  method Flush(buffer: seq<seq<Cell>>, c: nat, r: nat) returns (calls: seq<Effect>)
    requires IsGrid(buffer, c, r)
    ensures calls == Sweep(buffer, true)
  {
    calls := [];
    for x := 0 to c
      invariant calls == Sweep(buffer[..x], true)
    {
      for y := 0 to r
        invariant calls == Sweep(buffer[..x], true) + Line(x, buffer[x][..y], true)
      {
        LineSnoc(x, buffer[x][..y], buffer[x][y], true);
        assert buffer[x][..y + 1] == buffer[x][..y] + [buffer[x][y]];
        calls := calls + [Put(y, x, buffer[x][y].glyph)];
      }
      assert buffer[x][..r] == buffer[x];
      SweepSnoc(buffer[..x], buffer[x], true);
      assert buffer[..x] + [buffer[x]] == buffer[..x + 1];
    }
    assert buffer[..c] == buffer;
  }

  /** The terminal entity of the older renderer, with its size component. */
  class Term {
    const wide: bool
    const minz: real
    var size: (int, int)

    /** Sets up the terminal and records the size of the initial window. */
    constructor (maxX: int, maxY: int, wide: bool, minz: real)
      ensures this.wide == wide && this.minz == minz
      ensures size == GetWindowSize(maxX, maxY, wide)
    {
      this.wide := wide;
      this.minz := minz;
      size := GetWindowSize(maxX, maxY, wide);
    }

    /**
      The whole per-tick system. A queued `Exit` restores the terminal and
      ends the tick at once: no key is read, the size is not updated and
      nothing is drawn. Otherwise the key read this tick is handled (a
      resize re-reads the geometry and erases the screen), the size is
      recomputed from the window's width `maxX` and height `maxY`, and
      a freshly composed frame is drawn column by column. A negative size
      would make the buffer allocation fail, hence the precondition on the
      drawing path.
     */
    method HandleTerminal(commands: seq<TermCommand>, key: Option<RawInput>, mouse: Option<MouseEvent>,
                          maxX: int, maxY: int, cameras: seq<Camera>, sprites: seq<Sprite>, texts: seq<Text>)
      returns (sent: Option<TermInput>, calls: seq<Effect>)
      requires |commands| == 0 ==> GetWindowSize(maxX, maxY, wide).0 >= 0 && maxY >= 0
      modifies this`size
      ensures |commands| > 0 ==> sent == None && calls == [ShowCursor, EndWin, AppExit] && size == old(size)
      ensures |commands| == 0 ==>
                size == GetWindowSize(maxX, maxY, wide) &&
                sent == (if key.Some? && key.value != KeyResize then MapEvent(key.value, mouse) else None) &&
                calls == (if key == Some(KeyResize) then [ResizeTerm, Erase] else []) +
                         Sweep(LegacyFrame(size.0, size.1, minz, wide, cameras, sprites, texts), true)
    {
      sent := None;
      if |commands| > 0 {
        match commands[0]
        case Exit =>
          calls := [ShowCursor, EndWin, AppExit];
          return;
      }

      var resize := false;
      if key.Some? {
        match key.value {
          case KeyResize => resize := true;
          case _ => sent := MapEvent(key.value, mouse);
        }
      }
      calls := [];
      if resize {
        calls := [ResizeTerm, Erase];
      }

      size := GetWindowSize(maxX, maxY, wide);
      var c: nat, r: nat := size.0, size.1;
      var buffer := Compose(c, r, minz, wide, cameras, sprites, texts);
      var drawn := Flush(buffer, c, r);
      calls := calls + drawn;
    }
  }

  /**
    The two renderers disagree on a contribution exactly at `minz`: the
    current one gates it out, the older one draws it over the fresh cell.
   */
  lemma EqualDepthDrawnOnlyByLegacy(s: Sprite, offset: (int, int), c: nat, r: nat)
    requires var p := Project(s.x, s.y, offset); 0 <= p.0 < c && 0 <= p.1 < r
    ensures SpriteWrites(s, offset, c, r, s.z) == []
    ensures LegacySpriteWrites(s, offset, false, c, r) != []
    ensures var w := LegacySpriteWrites(s, offset, false, c, r)[0];
            ApplyLegacy(Filled(c, r, Cell(' ', s.z)), c, r, [w])[w.col][w.row] == Cell(s.glyph, s.z)
  {
  }

  /**
    In wide mode a sprite at (1, 0) seen by one camera at the origin of a
    10 by 5 grid lands in column 7 (its doubled x plus half the width), row 2.
   */
  lemma ExampleWideSprite(minz: real)
    requires minz <= 0.0
    ensures LegacyFrame(10, 5, minz, true, [Camera(0, 0)], [Sprite(1, 0, 0.0, '@')], [])[7][2] == Cell('@', 0.0)
  {
    var ws := LegacyWrites([Camera(0, 0)], [Sprite(1, 0, 0.0, '@')], [], true, 10, 5);
    assert CameraOffset([Camera(0, 0)], 10, 5) == (5, 2);
    assert [Sprite(1, 0, 0.0, '@')][..0] == [];
    assert ws == [WriteOp(7, 2, '@', 0.0)];
    ApplyLegacyOne(Filled(10, 5, Cell(' ', minz)), 10, 5, WriteOp(7, 2, '@', 0.0));
  }
}
