/**
  The compositor: projects sprites and texts onto the frame buffer through the
  camera offset and writes them with the buffer's depth test.

  World coordinates arrive already floored to whole cells (the camera's
  rounded); depths are reals. `RenderWrites` is the sequence of `write` calls
  a render pass issues, in order; `Apply` is their effect on the buffer.
 */
module Render {
  import opened Prelude
  import opened Cells
  import opened Grid
  import opened Terminal

  /** The camera's world position, rounded to whole cells. */
  datatype Camera = Camera(x: int, y: int)

  /** A single-glyph sprite: floored world x and y, and its depth. */
  datatype Sprite = Sprite(x: int, y: int, z: real, glyph: char)

  /** A text: floored world x and y of its anchor, its depth, its characters and alignment. */
  datatype Text = Text(x: int, y: int, z: real, content: string, align: TermTextAlign)

  /** One call of the buffer's write: column, row, glyph and depth. */
  datatype WriteOp = WriteOp(col: nat, row: nat, glyph: char, z: real)

  /** 2^64: a negative `isize` cast to `usize` wraps around by this much. */
  const USIZE_MODULUS: int := 0x1_0000_0000_0000_0000

  /** The least and greatest `isize` values. */
  const ISIZE_MIN: int := -0x8000_0000_0000_0000
  const ISIZE_MAX: int := 0x7fff_ffff_ffff_ffff

  /** Integer division rounding toward zero, as Rust's `/` on signed integers. */
  function TruncDiv(n: int, d: int): (q: int)
    requires d > 0
    ensures n >= 0 ==> 0 <= n - d * q < d
    ensures n < 0 ==> -d < n - d * q <= 0
  {
    if n >= 0 then n / d else -((-n) / d)
  }

  /** `x as usize` for an `isize` value: negative values wrap around. */
  function AsUsize(x: int): (u: nat)
    ensures 0 <= x < USIZE_MODULUS ==> u == x
    ensures -USIZE_MODULUS <= x < 0 ==> u == x + USIZE_MODULUS
  {
    x % USIZE_MODULUS
  }

  /**
    The screen translation: half of the camera-relative size, computed only
    when there is exactly one camera; otherwise no shift at all.
   */
  function CameraOffset(cameras: seq<Camera>, c: nat, r: nat): (offset: (int, int))
    ensures |cameras| != 1 ==> offset == (0, 0)
    ensures |cameras| == 1 ==>
              var dx, dy := c - cameras[0].x, cameras[0].y + r;
              (dx >= 0 ==> 0 <= dx - 2 * offset.0 < 2) && (dx < 0 ==> -2 < dx - 2 * offset.0 <= 0) &&
              (dy >= 0 ==> 0 <= dy - 2 * offset.1 < 2) && (dy < 0 ==> -2 < dy - 2 * offset.1 <= 0)
  {
    if |cameras| != 1 then (0, 0)
    else (TruncDiv(-cameras[0].x + c, 2), TruncDiv(cameras[0].y + r, 2))
  }

  /** World cell to screen cell: x shifted by the offset, y flipped and shifted. */
  function Project(x: int, y: int, offset: (int, int)): (p: (int, int))
    ensures p.0 - offset.0 == x && offset.1 - p.1 == y
  {
    (x + offset.0, -y + offset.1)
  }

  /** The number of bytes `ch` takes in UTF-8. */
  function Utf8Width(ch: char): (n: nat)
    ensures 1 <= n <= 4
    ensures n == 1 <==> ch as int < 0x80
  {
    if ch as int < 0x80 then 1
    else if ch as int < 0x800 then 2
    else if ch as int < 0x1_0000 then 3
    else 4
  }

  /** The byte length of `s` in UTF-8 (`String::len`), which is what alignment uses. */
  function Utf8Len(s: string): (n: nat)
    ensures |s| <= n <= 4 * |s|
    ensures n == |s| <==> forall i :: 0 <= i < |s| ==> s[i] as int < 0x80
  {
    if s == [] then 0 else Utf8Len(s[..|s| - 1]) + Utf8Width(s[|s| - 1])
  }

  /**
    The column where a text of `len` bytes starts when anchored at `x`: at
    the anchor, half its length to the left, or its whole length to the left.
   */
  function AlignedStart(x: int, len: nat, align: TermTextAlign): (start: int)
    ensures align == LEFT ==> start == x
    ensures align == CENTER ==> start <= x && 2 * (x - start) <= len < 2 * (x - start) + 2
    ensures align == RIGHT ==> start + len == x
  {
    match align
    case LEFT => x
    case CENTER => x - TruncDiv(len, 2)
    case RIGHT => x - len
  }

  /** Every write lands inside a `c` by `r` grid. */
  predicate InBounds(ws: seq<WriteOp>, c: nat, r: nat)
  {
    forall w :: w in ws ==> w.col < c && w.row < r
  }

  /** All writes fit a `c` by `r` buffer and clear the `minz` gate. */
  predicate Fits(ws: seq<WriteOp>, c: nat, r: nat, minz: real)
  {
    InBounds(ws, c, r) && forall w :: w in ws ==> w.z > minz
  }

  /**
    The write a sprite causes: one write at its projected cell, at its own
    depth, exactly when that cell is on screen and the depth clears `minz`.
   */
  function SpriteWrites(s: Sprite, offset: (int, int), c: nat, r: nat, minz: real): (ws: seq<WriteOp>)
    ensures |ws| <= 1 && Fits(ws, c, r, minz)
    ensures var p := Project(s.x, s.y, offset);
            (ws != [] <==> 0 <= p.0 < c && 0 <= p.1 < r && s.z > minz) &&
            (ws != [] ==> ws[0] == WriteOp(p.0, p.1, s.glyph, s.z))
  {
    var x := s.x + offset.0;
    var y := -s.y + offset.1;
    if x < 0 || y < 0 then []
    else if x < c && y < r && s.z > minz then [WriteOp(x, y, s.glyph, s.z)]
    else []
  }

  /** The write for one character placed at (`col`, `row`): present only when on screen and `z` clears `minz`. */
  function CharWrite(ch: char, col: nat, row: nat, z: real, c: nat, r: nat, minz: real): (ws: seq<WriteOp>)
    ensures Fits(ws, c, r, minz)
    ensures ws != [] <==> col < c && row < r && z > minz
    ensures ws != [] ==> ws == [WriteOp(col, row, ch, z)]
  {
    if col < c && row < r && z > minz then [WriteOp(col, row, ch, z)] else []
  }

  /**
    The writes for the characters of `s` placed from column `x` on row `y`:
    character `i` goes to column `x + i`, in order, and only when it is on
    screen and `z` clears `minz`.
   */
  function CharWrites(s: string, x: nat, y: nat, z: real, c: nat, r: nat, minz: real): (ws: seq<WriteOp>)
    ensures |ws| <= |s| && Fits(ws, c, r, minz)
  {
    if s == [] then []
    else
      var i := |s| - 1;
      CharWrites(s[..i], x, y, z, c, r, minz) + CharWrite(s[i], x + i, y, z, c, r, minz)
  }

  /** Every write of a placed text is on row `y` at depth `z`, at the column of the character it writes. */
  lemma {:induction false} CharWritesShape(s: string, x: nat, y: nat, z: real, c: nat, r: nat, minz: real)
    ensures forall w :: w in CharWrites(s, x, y, z, c, r, minz) ==>
              w.row == y && w.z == z && x <= w.col < x + |s| && w.glyph == s[w.col - x]
  {
    if s != [] {
      var n := |s| - 1;
      CharWritesShape(s[..n], x, y, z, c, r, minz);
      forall w | w in CharWrites(s, x, y, z, c, r, minz)
        ensures w.row == y && w.z == z && x <= w.col < x + |s| && w.glyph == s[w.col - x]
      {
        if w in CharWrites(s[..n], x, y, z, c, r, minz) {
          assert s[..n][w.col - x] == s[w.col - x];
        }
      }
    }
  }

  /** The columns of the writes `ws` strictly increase, so no column is written twice. */
  predicate ColumnsIncrease(ws: seq<WriteOp>)
  {
    forall i, j :: 0 <= i < j < |ws| ==> ws[i].col < ws[j].col
  }

  /** A placed text writes each column at most once, from left to right. */
  lemma {:induction false} CharWritesColumnsIncrease(s: string, x: nat, y: nat, z: real, c: nat, r: nat, minz: real)
    ensures ColumnsIncrease(CharWrites(s, x, y, z, c, r, minz))
  {
    if s != [] {
      var n := |s| - 1;
      CharWritesColumnsIncrease(s[..n], x, y, z, c, r, minz);
      CharWritesShape(s[..n], x, y, z, c, r, minz);
      var a, b := CharWrites(s[..n], x, y, z, c, r, minz), CharWrite(s[n], x + n, y, z, c, r, minz);
      var ws := a + b;
      forall i, j | 0 <= i < j < |ws| ensures ws[i].col < ws[j].col {
        if j < |a| {
          assert ws[i] == a[i] && ws[j] == a[j];
        } else {
          assert ws[i] == a[i] && a[i] in a;
          assert ws[j] == b[0] == WriteOp(x + n, y, s[n], z);
        }
      }
    }
  }

  /** Character `i` of a placed text is written exactly when its column and row are on screen and `z` clears `minz`. */
  lemma {:induction false} CharWritesPlace(s: string, x: nat, y: nat, z: real, c: nat, r: nat, minz: real, i: nat)
    requires i < |s|
    ensures WriteOp(x + i, y, s[i], z) in CharWrites(s, x, y, z, c, r, minz) <==> x + i < c && y < r && z > minz
  {
    var n := |s| - 1;
    if i < n {
      CharWritesPlace(s[..n], x, y, z, c, r, minz, i);
      assert s[..n][i] == s[i];
    }
  }

  /** The writes a text causes: its characters from the aligned start, unless the text is culled. */
  function TextWrites(t: Text, offset: (int, int), c: nat, r: nat, minz: real): (ws: seq<WriteOp>)
    ensures Fits(ws, c, r, minz)
  {
    var len := Utf8Len(t.content);
    var p := Project(t.x, t.y, offset);
    var x := AlignedStart(p.0, len, t.align);
    var y := p.1;
    var z := t.z.Floor as real;
    if x + len < 0 || y < 0 then []
    else
      var ux := AsUsize(x);
      if ux > c || y > r then [] else CharWrites(t.content, ux, y, z, c, r, minz)
  }

  /**
    How a text is culled. Above the screen it is dropped; with a negative
    aligned start it is dropped WHOLE, even when some of its characters would
    land on screen, because the start column wraps to a huge unsigned value;
    otherwise its characters are placed from the start column at the floored
    depth.
   */
  lemma TextWritesCases(t: Text, offset: (int, int), c: nat, r: nat, minz: real)
    requires c <= ISIZE_MAX
    ensures var p := Project(t.x, t.y, offset);
            var start := AlignedStart(p.0, Utf8Len(t.content), t.align);
            var ws := TextWrites(t, offset, c, r, minz);
            (p.1 < 0 ==> ws == []) &&
            (ISIZE_MIN <= start < 0 ==> ws == []) &&
            (c < start <= ISIZE_MAX || p.1 > r ==> ws == []) &&
            (0 <= start <= c && 0 <= p.1 <= r ==> ws == CharWrites(t.content, start, p.1, t.z.Floor as real, c, r, minz))
  {
  }

  /** The writes of the sprite pass, sprite by sprite. */
  function SpriteLayer(sprites: seq<Sprite>, offset: (int, int), c: nat, r: nat, minz: real): (ws: seq<WriteOp>)
    ensures Fits(ws, c, r, minz)
  {
    if sprites == [] then []
    else SpriteLayer(sprites[..|sprites| - 1], offset, c, r, minz) + SpriteWrites(sprites[|sprites| - 1], offset, c, r, minz)
  }

  /** The writes of the text pass, text by text. */
  function TextLayer(texts: seq<Text>, offset: (int, int), c: nat, r: nat, minz: real): (ws: seq<WriteOp>)
    ensures Fits(ws, c, r, minz)
  {
    if texts == [] then []
    else TextLayer(texts[..|texts| - 1], offset, c, r, minz) + TextWrites(texts[|texts| - 1], offset, c, r, minz)
  }

  /**
    Every write call of a render pass on a `c` by `r` buffer: all sprites,
    then all texts. Each one is inside the buffer, so the write's bounds
    precondition always holds, and each clears the `minz` gate.
   */
  function RenderWrites(cameras: seq<Camera>, sprites: seq<Sprite>, texts: seq<Text>, c: nat, r: nat, minz: real)
    : (ws: seq<WriteOp>)
    ensures Fits(ws, c, r, minz)
  {
    var offset := CameraOffset(cameras, c, r);
    SpriteLayer(sprites, offset, c, r, minz) + TextLayer(texts, offset, c, r, minz)
  }

  /** The frame after the writes `ws`, in order; its shape does not change. */
  function Apply(g: seq<seq<Cell>>, c: nat, r: nat, ws: seq<WriteOp>): (g': seq<seq<Cell>>)
    requires IsFrame(g, c, r)
    requires forall w :: w in ws ==> w.col < c && w.row < r
    ensures IsFrame(g', c, r)
  {
    if ws == [] then g
    else
      var w := ws[|ws| - 1];
      assert w in ws;
      WriteCell(Apply(g, c, r, ws[..|ws| - 1]), w.col, w.row, Cell(w.glyph, w.z))
  }

  /** Applying two batches of writes one after the other is applying their concatenation. */
  lemma {:induction false} ApplyAppend(g: seq<seq<Cell>>, c: nat, r: nat, a: seq<WriteOp>, b: seq<WriteOp>)
    requires IsFrame(g, c, r)
    requires forall w :: w in a + b ==> w.col < c && w.row < r
    ensures Apply(g, c, r, a + b) == Apply(Apply(g, c, r, a), c, r, b)
  {
    if b != [] {
      var n := |b| - 1;
      assert (a + b)[..|a + b| - 1] == a + b[..n];
      ApplyAppend(g, c, r, a, b[..n]);
    } else {
      assert a + b == a;
    }
  }

  /** Applying one write is the buffer's single-cell write. */
  lemma ApplyOne(g: seq<seq<Cell>>, c: nat, r: nat, w: WriteOp)
    requires IsFrame(g, c, r) && w.col < c && w.row < r
    ensures Apply(g, c, r, [w]) == WriteCell(g, w.col, w.row, Cell(w.glyph, w.z))
  {
    assert [w][..0] == [];
  }

  /** Placing one more character appends at most its own write. */
  lemma CharWritesSnoc(s: string, k: nat, x: nat, y: nat, z: real, c: nat, r: nat, minz: real)
    requires k < |s|
    ensures CharWrites(s[..k + 1], x, y, z, c, r, minz)
         == CharWrites(s[..k], x, y, z, c, r, minz) + CharWrite(s[k], x + k, y, z, c, r, minz)
  {
    assert s[..k + 1][..k] == s[..k];
  }

  /** The contributions, in order, that the writes `ws` make to cell (`col`, `row`). */
  function Hits(ws: seq<WriteOp>, col: nat, row: nat): (hs: seq<Cell>)
    ensures |hs| <= |ws|
  {
    if ws == [] then []
    else
      var w := ws[|ws| - 1];
      Hits(ws[..|ws| - 1], col, row) + (if w.col == col && w.row == row then [Cell(w.glyph, w.z)] else [])
  }

  /**
    Each cell of the frame after a batch of writes is its old content layered
    with the contributions aimed at it, in write order: the deepest wins, the
    earliest among equals, and a cell no write aims at keeps its content.
   */
  lemma {:induction false} ApplyCell(g: seq<seq<Cell>>, c: nat, r: nat, ws: seq<WriteOp>, col: nat, row: nat)
    requires IsFrame(g, c, r)
    requires forall w :: w in ws ==> w.col < c && w.row < r
    requires col < c && row < r
    ensures Apply(g, c, r, ws)[row][col] == Layer(g[row][col], Hits(ws, col, row))
  {
    if ws != [] {
      var n := |ws| - 1;
      var w := ws[n];
      var hs := Hits(ws[..n], col, row);
      ApplyCell(g, c, r, ws[..n], col, row);
      if w.col == col && w.row == row {
        assert (hs + [Cell(w.glyph, w.z)])[..|hs|] == hs;
      } else {
        assert hs + [] == hs;
      }
    }
  }

  /** No write of `ws` aims at (`col`, `row`) exactly when the cell receives no contribution. */
  lemma {:induction false} HitsEmpty(ws: seq<WriteOp>, col: nat, row: nat)
    ensures Hits(ws, col, row) == [] <==> forall w :: w in ws ==> w.col != col || w.row != row
  {
    if ws != [] {
      var n := |ws| - 1;
      HitsEmpty(ws[..n], col, row);
      assert forall w :: w in ws ==> w in ws[..n] || w == ws[n];
    }
  }

  /**
    After a render pass a cell no write aims at keeps its content, and any
    other cell holds the deepest contribution aimed at it (the earliest one
    among equally deep ones) when that is deeper than what it held.
   */
  lemma RenderCell(g: seq<seq<Cell>>, c: nat, r: nat, cameras: seq<Camera>, sprites: seq<Sprite>, texts: seq<Text>,
                   minz: real, col: nat, row: nat)
    requires IsFrame(g, c, r) && col < c && row < r
    ensures var ws := RenderWrites(cameras, sprites, texts, c, r, minz);
            var after := Apply(g, c, r, ws)[row][col];
            (after == Layer(g[row][col], Hits(ws, col, row))) &&
            ((forall w :: w in ws ==> w.col != col || w.row != row) ==> after == g[row][col])
  {
    var ws := RenderWrites(cameras, sprites, texts, c, r, minz);
    ApplyCell(g, c, r, ws, col, row);
    HitsEmpty(ws, col, row);
  }

  /**
    The render system: computes the camera offset, then writes every sprite
    and every text character that passes culling and the `minz` gate. The
    buffer's shape never changes and its content becomes the old content
    with all of these writes applied in order.
   */
  method Render(buf: TermBuffer, minz: real, cameras: seq<Camera>, sprites: seq<Sprite>, texts: seq<Text>)
    requires buf.Valid()
    modifies buf`buffer
    ensures buf.Valid()
    ensures buf.buffer == Apply(old(buf.buffer), buf.c, buf.r, RenderWrites(cameras, sprites, texts, buf.c, buf.r, minz))
  {
    var size := buf.Size();
    var offset := CameraOffset(cameras, size.0, size.1);
    ghost var g0 := buf.buffer;
    ghost var sw := SpriteLayer(sprites, offset, buf.c, buf.r, minz);
    ghost var tw := TextLayer(texts, offset, buf.c, buf.r, minz);
    WriteSprites(buf, offset, minz, sprites);
    ghost var g1 := buf.buffer;
    WriteTexts(buf, offset, minz, texts);
    ApplyAppend(g0, buf.c, buf.r, sw, tw);
  }

  /** One more sprite of the sprite pass applies that sprite's writes to the buffer so far. */
  lemma SpriteStep(g: seq<seq<Cell>>, c: nat, r: nat, sprites: seq<Sprite>, i: nat, offset: (int, int), minz: real)
    requires IsFrame(g, c, r) && i < |sprites|
    ensures Apply(g, c, r, SpriteLayer(sprites[..i + 1], offset, c, r, minz))
         == Apply(Apply(g, c, r, SpriteLayer(sprites[..i], offset, c, r, minz)), c, r,
                  SpriteWrites(sprites[i], offset, c, r, minz))
  {
    assert sprites[..i + 1][..i] == sprites[..i];
    ApplyAppend(g, c, r, SpriteLayer(sprites[..i], offset, c, r, minz), SpriteWrites(sprites[i], offset, c, r, minz));
  }

  /** One more text of the text pass applies that text's writes to the buffer so far. */
  lemma TextStep(g: seq<seq<Cell>>, c: nat, r: nat, texts: seq<Text>, t: nat, offset: (int, int), minz: real)
    requires IsFrame(g, c, r) && t < |texts|
    ensures Apply(g, c, r, TextLayer(texts[..t + 1], offset, c, r, minz))
         == Apply(Apply(g, c, r, TextLayer(texts[..t], offset, c, r, minz)), c, r,
                  TextWrites(texts[t], offset, c, r, minz))
  {
    assert texts[..t + 1][..t] == texts[..t];
    ApplyAppend(g, c, r, TextLayer(texts[..t], offset, c, r, minz), TextWrites(texts[t], offset, c, r, minz));
  }

  /** One more character of a placed text applies that character's write to the buffer so far. */
  lemma CharStep(g: seq<seq<Cell>>, c: nat, r: nat, s: string, k: nat, x: nat, y: nat, z: real, minz: real)
    requires IsFrame(g, c, r) && k < |s|
    ensures Apply(g, c, r, CharWrites(s[..k + 1], x, y, z, c, r, minz))
         == Apply(Apply(g, c, r, CharWrites(s[..k], x, y, z, c, r, minz)), c, r, CharWrite(s[k], x + k, y, z, c, r, minz))
  {
    CharWritesSnoc(s, k, x, y, z, c, r, minz);
    ApplyAppend(g, c, r, CharWrites(s[..k], x, y, z, c, r, minz), CharWrite(s[k], x + k, y, z, c, r, minz));
  }

  /** The sprite loop of the render system: the buffer receives the sprite pass's writes in order. */
  method WriteSprites(buf: TermBuffer, offset: (int, int), minz: real, sprites: seq<Sprite>)
    requires buf.Valid()
    modifies buf`buffer
    ensures buf.Valid()
    ensures buf.buffer == Apply(old(buf.buffer), buf.c, buf.r, SpriteLayer(sprites, offset, buf.c, buf.r, minz))
  {
    var c, r := buf.c, buf.r;
    ghost var g0 := buf.buffer;
    var i := 0;
    while i < |sprites|
      invariant 0 <= i <= |sprites|
      invariant buf.Valid() && buf.c == c && buf.r == r
      invariant buf.buffer == Apply(g0, c, r, SpriteLayer(sprites[..i], offset, c, r, minz))
    {
      SpriteStep(g0, c, r, sprites, i, offset, minz);
      WriteSprite(buf, offset, minz, sprites[i]);
      i := i + 1;
    }
    assert sprites[..|sprites|] == sprites;
  }

  /** One sprite of the sprite loop: projected, culled, gated, then written. */
  method WriteSprite(buf: TermBuffer, offset: (int, int), minz: real, s: Sprite)
    requires buf.Valid()
    modifies buf`buffer
    ensures buf.Valid()
    ensures buf.buffer == Apply(old(buf.buffer), buf.c, buf.r, SpriteWrites(s, offset, buf.c, buf.r, minz))
  {
    var x := s.x + offset.0;
    var y := -s.y + offset.1;
    if x >= 0 && y >= 0 {
      if x < buf.c && y < buf.r && s.z > minz {
        ApplyOne(buf.buffer, buf.c, buf.r, WriteOp(x, y, s.glyph, s.z));
        buf.Write(x, y, s.glyph, s.z);
      }
    }
  }

  /** The text loop of the render system: the buffer receives the text pass's writes in order. */
  method WriteTexts(buf: TermBuffer, offset: (int, int), minz: real, texts: seq<Text>)
    requires buf.Valid()
    modifies buf`buffer
    ensures buf.Valid()
    ensures buf.buffer == Apply(old(buf.buffer), buf.c, buf.r, TextLayer(texts, offset, buf.c, buf.r, minz))
  {
    var c, r := buf.c, buf.r;
    ghost var g0 := buf.buffer;
    var t := 0;
    while t < |texts|
      invariant 0 <= t <= |texts|
      invariant buf.Valid() && buf.c == c && buf.r == r
      invariant buf.buffer == Apply(g0, c, r, TextLayer(texts[..t], offset, c, r, minz))
    {
      TextStep(g0, c, r, texts, t, offset, minz);
      WriteText(buf, offset, minz, texts[t]);
      t := t + 1;
    }
    assert texts[..|texts|] == texts;
  }

  /** One text of the text loop: aligned, culled, then written character by character. */
  method WriteText(buf: TermBuffer, offset: (int, int), minz: real, text: Text)
    requires buf.Valid()
    modifies buf`buffer
    ensures buf.Valid()
    ensures buf.buffer == Apply(old(buf.buffer), buf.c, buf.r, TextWrites(text, offset, buf.c, buf.r, minz))
  {
    ghost var now := TextWrites(text, offset, buf.c, buf.r, minz);
    var len := Utf8Len(text.content);
    var x := text.x + offset.0;
    var y := -text.y + offset.1;
    var z := text.z.Floor as real;
    x := AlignedStart(x, len, text.align);

    if x + len >= 0 && y >= 0 {
      var ux := AsUsize(x);
      if ux <= buf.c && y <= buf.r {
        assert now == CharWrites(text.content, ux, y, z, buf.c, buf.r, minz);
        WriteChars(buf, text.content, ux, y, z, minz);
      } else {
        assert now == [];
      }
    } else {
      assert now == [];
    }
  }

  /** The character loop for one text: character `k` is written at column `x + k` when it passes culling and the gate. */
  method WriteChars(buf: TermBuffer, s: string, x: nat, y: nat, z: real, minz: real)
    requires buf.Valid()
    modifies buf`buffer
    ensures buf.Valid()
    ensures buf.buffer == Apply(old(buf.buffer), buf.c, buf.r, CharWrites(s, x, y, z, buf.c, buf.r, minz))
  {
    var c, r := buf.c, buf.r;
    ghost var g0 := buf.buffer;
    var k := 0;
    while k < |s|
      invariant 0 <= k <= |s|
      invariant buf.buffer == Apply(g0, c, r, CharWrites(s[..k], x, y, z, c, r, minz))
    {
      CharStep(g0, c, r, s, k, x, y, z, minz);
      WriteChar(buf, s[k], x + k, y, z, minz);
      k := k + 1;
    }
    assert s[..|s|] == s;
  }

  /** One character of the character loop: written when its cell is on screen and `z` clears the gate. */
  method WriteChar(buf: TermBuffer, ch: char, col: nat, row: nat, z: real, minz: real)
    requires buf.Valid()
    modifies buf`buffer
    ensures buf.Valid()
    ensures buf.buffer == Apply(old(buf.buffer), buf.c, buf.r, CharWrite(ch, col, row, z, buf.c, buf.r, minz))
  {
    if col < buf.c && row < buf.r && z > minz {
      ApplyOne(buf.buffer, buf.c, buf.r, WriteOp(col, row, ch, z));
      buf.Write(col, row, ch, z);
    }
  }

  /**
    With no camera, or more than one, nothing is shifted: a sprite at world
    cell (x, y) is drawn at column x of row -y, whatever the buffer's size.
   */
  lemma NoSingleCameraNoOffset(cameras: seq<Camera>, c: nat, r: nat, x: int, y: int)
    requires |cameras| != 1
    ensures Project(x, y, CameraOffset(cameras, c, r)) == (x, -y)
  {
  }

  /** A buffer of 10 by 5 with one camera at the origin: a sprite at the origin lands on cell (5, 2). */
  lemma ExampleSpriteAtOrigin()
    ensures CameraOffset([Camera(0, 0)], 10, 5) == (5, 2)
    ensures SpriteWrites(Sprite(0, 0, 0.0, '@'), (5, 2), 10, 5, F32_MIN) == [WriteOp(5, 2, '@', 0.0)]
  {
  }

  /** The offset truncates toward zero: a camera at x = 13 on a 10-column buffer shifts by -1, not -2. */
  lemma ExampleOffsetTruncates()
    ensures CameraOffset([Camera(13, 0)], 10, 5).0 == -1
    ensures (-13 + 10) / 2 == -2
  {
  }

  /**
    The camera's displacement is halved: unless the camera sits on the last
    column (c - cam.x == 1, see `CameraStepAtEdge`), moving it two cells to
    the right moves every sprite one column to the left.
   */
  lemma CameraStepHalved(cam: Camera, c: nat, r: nat, x: int, y: int)
    requires c - cam.x != 1
    ensures Project(x, y, CameraOffset([Camera(cam.x + 2, cam.y)], c, r)).0
         == Project(x, y, CameraOffset([cam], c, r)).0 - 1
  {
  }

  /**
    At the screen edge the halving loses the step: a camera one column left
    of the right edge and one moved two cells further right give the same
    offset, because both halves truncate to zero.
   */
  lemma CameraStepAtEdge(cam: Camera, c: nat, r: nat)
    requires c - cam.x == 1
    ensures CameraOffset([Camera(cam.x + 2, cam.y)], c, r).0 == CameraOffset([cam], c, r).0 == 0
  {
  }

  /** Centred "Hi" anchored at column 5 writes 'H' at column 4 and 'i' at column 5, at the floored depth. */
  lemma ExampleCentredText()
    ensures TextWrites(Text(0, 0, 1.5, "Hi", CENTER), (5, 2), 10, 5, F32_MIN)
         == [WriteOp(4, 2, 'H', 1.0), WriteOp(5, 2, 'i', 1.0)]
  {
  }

  /**
    Alignment counts bytes but places characters: a right-aligned "a→"
    ('→' takes three bytes) anchored at column 8 starts four columns to the
    left and so ends two columns short of the anchor.
   */
  lemma ExampleByteLengthAlignment()
    ensures Utf8Len("a→") == 4
    ensures TextWrites(Text(0, 0, 0.0, "a→", RIGHT), (8, 0), 10, 5, F32_MIN)
         == [WriteOp(4, 0, 'a', 0.0), WriteOp(5, 0, '→', 0.0)]
  {
  }

  /** A left-aligned "ab" anchored at column -1 is dropped, though 'b' would fall on column 0. */
  lemma ExampleNegativeStartDropped()
    ensures TextWrites(Text(0, 0, 0.0, "ab", LEFT), (-1, 0), 10, 5, F32_MIN) == []
  {
  }
}
