/**
  Rectangular grids of cells, stored as a sequence of lines, and the order in
  which a flush visits them. The frame buffer stores rows of cells
  (`g[row][col]`); the older compositor stores columns (`g[col][row]`). A
  flush walks the outer index, and inside it the inner index, emitting one
  `Put` per cell.
 */
module Grid {
  import opened Prelude
  import opened Cells

  /** `g` has `n` lines of `m` cells each. */
  predicate IsGrid(g: seq<seq<Cell>>, n: nat, m: nat)
  {
    |g| == n && forall i :: 0 <= i < n ==> |g[i]| == m
  }

  /** `n` lines of `m` copies of `fill` (`vec![vec![fill; m]; n]`). */
  function Filled(n: nat, m: nat, fill: Cell): (g: seq<seq<Cell>>)
    ensures IsGrid(g, n, m)
    ensures forall i, j :: 0 <= i < n && 0 <= j < m ==> g[i][j] == fill
  {
    seq(n, _ => seq(m, _ => fill))
  }

  /** A grid of the right shape whose every cell is `fill` is the filled grid. */
  lemma FilledUnique(g: seq<seq<Cell>>, n: nat, m: nat, fill: Cell)
    requires IsGrid(g, n, m)
    requires forall i, j :: 0 <= i < n && 0 <= j < m ==> g[i][j] == fill
    ensures g == Filled(n, m, fill)
  {
    var f := Filled(n, m, fill);
    forall i | 0 <= i < n ensures g[i] == f[i] {
      assert |g[i]| == |f[i]|;
    }
  }

  /**
    The draw call for the cell at outer index `i` and inner index `j`: the
    outer index is the row for a row-major grid and the column for a
    column-major one.
   */
  function Place(i: nat, j: nat, glyph: char, colMajor: bool): (e: Effect)
    ensures e.Put? && e.glyph == glyph
    ensures colMajor ==> e.col == i && e.row == j
    ensures !colMajor ==> e.row == i && e.col == j
  {
    if colMajor then Put(j, i, glyph) else Put(i, j, glyph)
  }

  /** The outer index of a draw call, -1 for any other effect. */
  function Outer(e: Effect, colMajor: bool): int
  {
    if !e.Put? then -1 else if colMajor then e.col else e.row
  }

  /** The inner index of a draw call, -1 for any other effect. */
  function Inner(e: Effect, colMajor: bool): int
  {
    if !e.Put? then -1 else if colMajor then e.row else e.col
  }

  /** `e` draws a cell of `g`, with that cell's glyph. */
  predicate DrawsCellOf(e: Effect, g: seq<seq<Cell>>, colMajor: bool)
  {
    e.Put? && 0 <= Outer(e, colMajor) < |g| && 0 <= Inner(e, colMajor) < |g[Outer(e, colMajor)]| &&
    e.glyph == g[Outer(e, colMajor)][Inner(e, colMajor)].glyph
  }

  /** The draw calls for line `i`, in order of the inner index. */
  function Line(i: nat, cells: seq<Cell>, colMajor: bool): (out: seq<Effect>)
    ensures |out| == |cells|
    ensures forall j :: 0 <= j < |cells| ==> out[j] == Place(i, j, cells[j].glyph, colMajor)
  {
    seq(|cells|, j requires 0 <= j < |cells| => Place(i, j, cells[j].glyph, colMajor))
  }

  /** The draw calls of a flush: line by line, and inside each line cell by cell. */
  function Sweep(g: seq<seq<Cell>>, colMajor: bool): (out: seq<Effect>)
    ensures forall k :: 0 <= k < |out| ==> out[k].Put?
  {
    if g == [] then [] else Sweep(g[..|g| - 1], colMajor) + Line(|g| - 1, g[|g| - 1], colMajor)
  }

  /** Appending a cell to a line appends its draw call. */
  lemma LineSnoc(i: nat, cells: seq<Cell>, x: Cell, colMajor: bool)
    ensures Line(i, cells + [x], colMajor) == Line(i, cells, colMajor) + [Place(i, |cells|, x.glyph, colMajor)]
  {
    var a := Line(i, cells + [x], colMajor);
    var b := Line(i, cells, colMajor) + [Place(i, |cells|, x.glyph, colMajor)];
    assert |a| == |b|;
    forall j | 0 <= j < |a| ensures a[j] == b[j] {
      if j < |cells| { assert (cells + [x])[j] == cells[j]; }
    }
  }

  /** Appending a line to a grid appends its draw calls. */
  lemma SweepSnoc(g: seq<seq<Cell>>, line: seq<Cell>, colMajor: bool)
    ensures Sweep(g + [line], colMajor) == Sweep(g, colMajor) + Line(|g|, line, colMajor)
  {
    assert (g + [line])[..|g|] == g;
  }

  /** A flush of an `n` by `m` grid makes exactly `n * m` draw calls. */
  lemma {:induction false} SweepLength(g: seq<seq<Cell>>, n: nat, m: nat, colMajor: bool)
    requires IsGrid(g, n, m)
    ensures |Sweep(g, colMajor)| == n * m
  {
    if n > 0 {
      SweepLength(g[..n - 1], n - 1, m, colMajor);
      assert |Sweep(g, colMajor)| == (n - 1) * m + m;
    }
  }

  /** Every draw call of a flush is for a cell of the grid and draws that cell's glyph. */
  lemma {:induction false} SweepSound(g: seq<seq<Cell>>, colMajor: bool)
    ensures forall k :: 0 <= k < |Sweep(g, colMajor)| ==> DrawsCellOf(Sweep(g, colMajor)[k], g, colMajor)
  {
    if g != [] {
      var n := |g| - 1;
      SweepSound(g[..n], colMajor);
      var s, l := Sweep(g[..n], colMajor), Line(n, g[n], colMajor);
      forall k | 0 <= k < |s + l|
        ensures DrawsCellOf((s + l)[k], g, colMajor)
      {
        if k < |s| {
          assert (s + l)[k] == s[k];
          assert g[..n][Outer(s[k], colMajor)] == g[Outer(s[k], colMajor)];
        } else {
          assert (s + l)[k] == l[k - |s|];
        }
      }
    }
  }

  /** Every cell of the grid is drawn by the flush, with its own glyph. */
  lemma {:induction false} SweepCovers(g: seq<seq<Cell>>, colMajor: bool, i: nat, j: nat)
    requires i < |g| && j < |g[i]|
    ensures Place(i, j, g[i][j].glyph, colMajor) in Sweep(g, colMajor)
  {
    var n := |g| - 1;
    var l := Line(n, g[n], colMajor);
    if i == n {
      assert l[j] == Place(i, j, g[i][j].glyph, colMajor);
    } else {
      SweepCovers(g[..n], colMajor, i, j);
    }
  }

  /**
    The draw calls of a flush are strictly increasing in (outer, inner) order:
    line by line, cell by cell, so no cell is drawn twice.
   */
  lemma {:induction false} SweepOrdered(g: seq<seq<Cell>>, colMajor: bool)
    ensures forall k, l :: 0 <= k < l < |Sweep(g, colMajor)| ==>
              Outer(Sweep(g, colMajor)[k], colMajor) < Outer(Sweep(g, colMajor)[l], colMajor) ||
              (Outer(Sweep(g, colMajor)[k], colMajor) == Outer(Sweep(g, colMajor)[l], colMajor) &&
               Inner(Sweep(g, colMajor)[k], colMajor) < Inner(Sweep(g, colMajor)[l], colMajor))
  {
    if g != [] {
      var n := |g| - 1;
      SweepOrdered(g[..n], colMajor);
      SweepSound(g[..n], colMajor);
      var s, ln := Sweep(g[..n], colMajor), Line(n, g[n], colMajor);
      var t := s + ln;
      forall k, l | 0 <= k < l < |t|
        ensures Outer(t[k], colMajor) < Outer(t[l], colMajor) ||
                (Outer(t[k], colMajor) == Outer(t[l], colMajor) && Inner(t[k], colMajor) < Inner(t[l], colMajor))
      {
        if l < |s| {
          assert t[k] == s[k] && t[l] == s[l];
        } else if k < |s| {
          assert t[k] == s[k] && t[l] == ln[l - |s|];
          assert Outer(s[k], colMajor) < |g[..n]|;
        } else {
          assert t[k] == ln[k - |s|] && t[l] == ln[l - |s|];
        }
      }
    }
  }
}
