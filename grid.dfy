/** The grid of the simulation as a value: `s[i][j]` is the cell in column `i`
    and row `j`, `true` when it is alive. The outer sequence has one entry per
    column and every inner sequence one entry per row, as the nested lists of
    the program do. */
module Grid {

  /** `s` is a `w` by `h` grid: `w` columns of `h` cells each. */
  predicate IsGrid(s: seq<seq<bool>>, w: nat, h: nat) {
    |s| == w && forall i :: 0 <= i < |s| ==> |s[i]| == h
  }

  /** The coordinate `(x, y)` lies on a `w` by `h` grid. */
  predicate InBounds(w: int, h: int, x: int, y: int) {
    0 <= x < w && 0 <= y < h
  }

  /** The `w` by `h` grid whose live cells are exactly the members of `live`
      that lie on it. */
  function Pattern(w: nat, h: nat, live: set<(int, int)>): (s: seq<seq<bool>>)
    ensures IsGrid(s, w, h)
    ensures forall x, y :: 0 <= x < w && 0 <= y < h ==> s[x][y] == ((x, y) in live)
  {
    seq(w, x => seq(h, y => (x, y) in live))
  }

  /** The coordinates of the live cells of `s`. */
  function LiveSet(s: seq<seq<bool>>): set<(int, int)> {
    set x, y | 0 <= x < |s| && 0 <= y < |s[x]| && s[x][y] :: (x, y)
  }

  /** The coordinates of the dead cells of `s`. */
  function DeadSet(s: seq<seq<bool>>): set<(int, int)> {
    set x, y | 0 <= x < |s| && 0 <= y < |s[x]| && !s[x][y] :: (x, y)
  }

  /** All coordinates of a `w` by `h` grid. */
  function AllCells(w: nat, h: nat): set<(int, int)> {
    set x, y | 0 <= x < w && 0 <= y < h :: (x, y)
  }

  /** `s` with the cell `(x, y)` made alive. */
  function MakeAlive(s: seq<seq<bool>>, x: nat, y: nat): (t: seq<seq<bool>>)
    requires x < |s| && y < |s[x]|
    ensures |t| == |s| && forall i :: 0 <= i < |s| ==> |t[i]| == |s[i]|
  {
    s[x := s[x][y := true]]
  }

  /** The cells of `MakeAlive(s, x, y)`: `(x, y)` is alive, every other cell
      is as in `s`. */
  lemma MakeAliveCells(s: seq<seq<bool>>, w: nat, h: nat, x: nat, y: nat)
    requires IsGrid(s, w, h) && x < w && y < h
    ensures IsGrid(MakeAlive(s, x, y), w, h)
    ensures forall i, j :: 0 <= i < w && 0 <= j < h ==> MakeAlive(s, x, y)[i][j] == (if i == x && j == y then true else s[i][j])
  {
  }

  /** The first `n` cells of column `x` of a two-dimensional array. */
  function ColumnOf(a: array2<bool>, x: nat, n: nat): (c: seq<bool>)
    reads a
    requires x < a.Length0 && n <= a.Length1
    ensures |c| == n && forall y :: 0 <= y < n ==> c[y] == a[x, y]
  {
    if n == 0 then [] else ColumnOf(a, x, n - 1) + [a[x, n - 1]]
  }

  /** The first `m` columns of a two-dimensional array. */
  function ColumnsOf(a: array2<bool>, m: nat): (s: seq<seq<bool>>)
    reads a
    requires m <= a.Length0
    ensures IsGrid(s, m, a.Length1)
    ensures forall x, y :: 0 <= x < m && 0 <= y < a.Length1 ==> s[x][y] == a[x, y]
  {
    if m == 0 then [] else ColumnsOf(a, m - 1) + [ColumnOf(a, m - 1, a.Length1)]
  }

  /** The contents of a two-dimensional array, as a grid value. */
  function Cells(a: array2<bool>): (s: seq<seq<bool>>)
    reads a
    ensures IsGrid(s, a.Length0, a.Length1)
    ensures forall x, y :: 0 <= x < a.Length0 && 0 <= y < a.Length1 ==> s[x][y] == a[x, y]
  {
    ColumnsOf(a, a.Length0)
  }

  /** Making a dead cell alive adds exactly that cell to the live cells and
      removes exactly that cell from the dead cells. */
  lemma MakeAliveSets(s: seq<seq<bool>>, x: nat, y: nat)
    requires x < |s| && y < |s[x]| && !s[x][y]
    ensures (x, y) !in LiveSet(s) && (x, y) in DeadSet(s)
    ensures LiveSet(MakeAlive(s, x, y)) == LiveSet(s) + {(x, y)}
    ensures DeadSet(MakeAlive(s, x, y)) == DeadSet(s) - {(x, y)}
    ensures |LiveSet(MakeAlive(s, x, y))| == |LiveSet(s)| + 1
    ensures |DeadSet(MakeAlive(s, x, y))| == |DeadSet(s)| - 1
  {
    var t := MakeAlive(s, x, y);
    assert LiveSet(t) == LiveSet(s) + {(x, y)} by {
      forall p | p in LiveSet(t) ensures p in LiveSet(s) + {(x, y)} {
        var (i, j) := p;
        assert t[i][j];
      }
      forall p | p in LiveSet(s) + {(x, y)} ensures p in LiveSet(t) {
        var (i, j) := p;
        if p != (x, y) { assert s[i][j]; }
      }
    }
    assert DeadSet(t) == DeadSet(s) - {(x, y)} by {
      forall p | p in DeadSet(t) ensures p in DeadSet(s) - {(x, y)} {
        var (i, j) := p;
        assert !t[i][j];
      }
      forall p | p in DeadSet(s) - {(x, y)} ensures p in DeadSet(t) {
        var (i, j) := p;
        assert !s[i][j];
      }
    }
  }

  /** The coordinates of column `x` of a grid with `h` rows. */
  function Column(x: int, h: nat): set<(int, int)> {
    set y | 0 <= y < h :: (x, y)
  }

  /** A column of `h` cells has `h` coordinates. */
  lemma {:induction false} ColumnSize(x: int, h: nat)
    ensures |Column(x, h)| == h
  {
    if h > 0 {
      ColumnSize(x, h - 1);
      assert Column(x, h) == Column(x, h - 1) + {(x, h - 1)};
    }
  }

  /** A `w` by `h` grid has `w * h` cells. */
  lemma {:induction false} AllCellsSize(w: nat, h: nat)
    ensures |AllCells(w, h)| == w * h
  {
    if w > 0 {
      AllCellsSize(w - 1, h);
      ColumnSize(w - 1, h);
      var rest, column := AllCells(w - 1, h), Column(w - 1, h);
      assert AllCells(w, h) == rest + column;
      assert rest * column == {};
      assert |rest + column| == |rest| + |column|;
      assert (w - 1) * h + h == w * h;
    }
  }

  /** In a grid with no live cell, every one of its `w * h` cells is dead. */
  lemma EmptyGridDeadCells(w: nat, h: nat)
    ensures LiveSet(Pattern(w, h, {})) == {}
    ensures |DeadSet(Pattern(w, h, {}))| == w * h
  {
    var s := Pattern(w, h, {});
    assert DeadSet(s) == AllCells(w, h);
    AllCellsSize(w, h);
  }
}
