/**
  A screen cell and the two depth tests the renderer has used: the current
  frame buffer keeps the first of equally deep contributions, the older
  compositor keeps the last one.
 */
module Cells {

  /** `f32::MIN`, the lowest finite single-precision value. */
  const F32_MIN: real := -340282346638528859811704183484516925440.0

  /** A glyph and the depth of the contribution that put it there. */
  datatype Cell = Cell(glyph: char, depth: real)

  /** The empty cell of the frame buffer: a blank at the lowest depth. */
  const CLEAR: Cell := Cell(' ', F32_MIN)

  /** Depth test of the frame buffer's write: only a strictly deeper contribution replaces the cell. */
  function Deeper(cell: Cell, w: Cell): (r: Cell)
    ensures r == w || r == cell
    ensures r.depth >= cell.depth && r.depth >= w.depth
    ensures r == w <==> (w.depth > cell.depth || w == cell)
  {
    if w.depth > cell.depth then w else cell
  }

  /** Depth test of the older compositor: a contribution at least as deep replaces the cell. */
  function DeeperOrEqual(cell: Cell, w: Cell): (r: Cell)
    ensures r == w || r == cell
    ensures r.depth >= cell.depth && r.depth >= w.depth
    ensures r == w <==> (w.depth >= cell.depth || w == cell)
  {
    if w.depth >= cell.depth then w else cell
  }

  /** The cell after the contributions `ws` were written to it in order with `Deeper`. */
  function Layer(cell: Cell, ws: seq<Cell>): Cell
  {
    if ws == [] then cell else Deeper(Layer(cell, ws[..|ws| - 1]), ws[|ws| - 1])
  }

  /** The cell after the contributions `ws` were written to it in order with `DeeperOrEqual`. */
  function LayerOrEqual(cell: Cell, ws: seq<Cell>): Cell
  {
    if ws == [] then cell else DeeperOrEqual(LayerOrEqual(cell, ws[..|ws| - 1]), ws[|ws| - 1])
  }

  /**
    After any sequence of strict writes the cell's depth is the maximum of its
    initial depth and the written depths; the cell is unchanged when nothing
    was deeper, and otherwise holds the FIRST contribution that reached the
    maximum.
   */
  lemma {:induction false} LayerKeepsFirstDeepest(cell: Cell, ws: seq<Cell>)
    ensures Layer(cell, ws).depth >= cell.depth
    ensures forall k :: 0 <= k < |ws| ==> ws[k].depth <= Layer(cell, ws).depth
    ensures (forall k :: 0 <= k < |ws| ==> ws[k].depth <= cell.depth) ==> Layer(cell, ws) == cell
    ensures (exists k :: 0 <= k < |ws| && ws[k].depth > cell.depth) ==>
              exists k :: 0 <= k < |ws| && Layer(cell, ws) == ws[k] && ws[k].depth > cell.depth &&
                          forall j :: 0 <= j < k ==> ws[j].depth < ws[k].depth
  {
    if ws != [] {
      var n := |ws| - 1;
      var p, w := ws[..n], ws[n];
      LayerKeepsFirstDeepest(cell, p);
      var m := Layer(cell, p);
      assert Layer(cell, ws) == Deeper(m, w);
      assert forall k :: 0 <= k < n ==> ws[k] == p[k];
      if w.depth > m.depth {
        assert Layer(cell, ws) == ws[n];
      } else if exists k :: 0 <= k < |ws| && ws[k].depth > cell.depth {
        var k :| 0 <= k < |ws| && ws[k].depth > cell.depth;
        if k == n {
          assert m.depth > cell.depth;
          assert exists k' :: 0 <= k' < |p| && p[k'].depth > cell.depth;
        } else {
          assert p[k].depth > cell.depth;
        }
        var k' :| 0 <= k' < |p| && m == p[k'] && p[k'].depth > cell.depth &&
                  forall j :: 0 <= j < k' ==> p[j].depth < p[k'].depth;
        assert Layer(cell, ws) == ws[k'];
      }
    }
  }

  /**
    After any sequence of writes with `DeeperOrEqual` the cell's depth is the
    maximum of its initial depth and the written depths; the cell is unchanged
    when every contribution was shallower, and otherwise holds the LAST
    contribution that reached the maximum.
   */
  lemma {:induction false} LayerOrEqualKeepsLastDeepest(cell: Cell, ws: seq<Cell>)
    ensures LayerOrEqual(cell, ws).depth >= cell.depth
    ensures forall k :: 0 <= k < |ws| ==> ws[k].depth <= LayerOrEqual(cell, ws).depth
    ensures (forall k :: 0 <= k < |ws| ==> ws[k].depth < cell.depth) ==> LayerOrEqual(cell, ws) == cell
    ensures (exists k :: 0 <= k < |ws| && ws[k].depth >= cell.depth) ==>
              exists k :: 0 <= k < |ws| && LayerOrEqual(cell, ws) == ws[k] && ws[k].depth >= cell.depth &&
                          forall j :: k < j < |ws| ==> ws[j].depth < ws[k].depth
  {
    if ws != [] {
      var n := |ws| - 1;
      var p, w := ws[..n], ws[n];
      LayerOrEqualKeepsLastDeepest(cell, p);
      var m := LayerOrEqual(cell, p);
      assert LayerOrEqual(cell, ws) == DeeperOrEqual(m, w);
      assert forall k :: 0 <= k < n ==> ws[k] == p[k];
      if w.depth >= m.depth {
        assert LayerOrEqual(cell, ws) == ws[n];
      } else if exists k :: 0 <= k < |ws| && ws[k].depth >= cell.depth {
        var k :| 0 <= k < |ws| && ws[k].depth >= cell.depth;
        if k == n {
          assert m.depth > cell.depth;
          assert exists k' :: 0 <= k' < |p| && p[k'].depth >= cell.depth;
        } else {
          assert p[k].depth >= cell.depth;
        }
        var k' :| 0 <= k' < |p| && m == p[k'] && p[k'].depth >= cell.depth &&
                  forall j :: k' < j < |p| ==> p[j].depth < p[k'].depth;
        assert LayerOrEqual(cell, ws) == ws[k'];
        assert forall j :: k' < j < |ws| ==> ws[j].depth < ws[k'].depth by {
          forall j | k' < j < |ws| ensures ws[j].depth < ws[k'].depth {
            if j < n { assert ws[j] == p[j]; }
          }
        }
      } else {
        assert LayerOrEqual(cell, ws) == m;
      }
    }
  }

  /** Two strict writes of different depths give the same cell in either order. */
  lemma StrictOrderIrrelevantForDistinctDepths(cell: Cell, a: Cell, b: Cell)
    requires a.depth != b.depth
    ensures Layer(cell, [a, b]) == Layer(cell, [b, a])
  {
  }

  /** On a tie above the cell's depth the strict test keeps the earlier glyph, the other test the later. */
  lemma TieBreaksDiffer(cell: Cell, a: Cell, b: Cell)
    requires a.depth == b.depth > cell.depth
    ensures Layer(cell, [a, b]) == a
    ensures LayerOrEqual(cell, [a, b]) == b
  {
    assert [a, b][..1] == [a];
    assert [a][..0] == [];
    assert Layer(cell, [a]) == a;
    assert LayerOrEqual(cell, [a]) == a;
  }
}
