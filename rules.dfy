/** The evolution rule of the simulation on grid values: the neighbour count
    of life.py's `neigh_num` and the next generation built by `evolve`. */
module Rules {
  import opened Grid

  /** The eight Moore-neighbourhood offsets, in the order `neigh_num` visits
      them: the row above, the two sides, the row below. */
  const Offsets: seq<(int, int)> :=
    [(-1, -1), (0, -1), (1, -1), (-1, 0), (1, 0), (-1, 1), (0, 1), (1, 1)]

  /** 1 when `(x, y)` is on the grid and alive, 0 otherwise; a coordinate off
      the grid is never looked at. */
  function LiveAt(s: seq<seq<bool>>, w: nat, h: nat, x: int, y: int): nat
    requires IsGrid(s, w, h)
  {
    if InBounds(w, h, x, y) && s[x][y] then 1 else 0
  }

  /** The number of offsets `d` in `offs` for which `(i, j) + d` is a live cell
      of the grid, accumulated in list order. */
  function CountOver(s: seq<seq<bool>>, w: nat, h: nat, i: int, j: int, offs: seq<(int, int)>): (r: nat)
    requires IsGrid(s, w, h)
    ensures r <= |offs|
    decreases |offs|
  {
    if offs == [] then 0
    else
      var (x, y) := offs[|offs| - 1];
      CountOver(s, w, h, i, j, offs[..|offs| - 1]) + LiveAt(s, w, h, i + x, j + y)
  }

  /** The live-neighbour count of cell `(i, j)`, as `neigh_num` computes it. */
  function Count(s: seq<seq<bool>>, w: nat, h: nat, i: int, j: int): (r: nat)
    requires IsGrid(s, w, h)
    ensures r <= 8
  {
    CountOver(s, w, h, i, j, Offsets)
  }

  /** The cells of the Moore neighbourhood of `(i, j)`: the eight cells around
      it, the cell itself excluded, with no wrap-around. */
  function Neighbourhood(i: int, j: int): set<(int, int)> {
    set x, y | i - 1 <= x <= i + 1 && j - 1 <= y <= j + 1 && (x, y) != (i, j) :: (x, y)
  }

  /** The live cells of the grid in the Moore neighbourhood of `(i, j)`. */
  function LiveNeighbours(s: seq<seq<bool>>, w: nat, h: nat, i: int, j: int): set<(int, int)>
    requires IsGrid(s, w, h)
  {
    set x, y | i - 1 <= x <= i + 1 && j - 1 <= y <= j + 1 && (x, y) != (i, j)
                 && InBounds(w, h, x, y) && s[x][y] :: (x, y)
  }

  /** Conway's rule: a live cell with 2 or 3 live neighbours survives, a dead
      cell with exactly 3 is born, every other cell is dead next. */
  predicate Rule(alive: bool, c: nat) {
    (alive && (c == 2 || c == 3)) || (!alive && c == 3)
  }

  /** The next generation of a `w` by `h` grid. */
  function Next(s: seq<seq<bool>>, w: nat, h: nat): (t: seq<seq<bool>>)
    requires IsGrid(s, w, h)
    ensures IsGrid(t, w, h)
  {
    seq(w, i requires 0 <= i < w => seq(h, j requires 0 <= j < h => Rule(s[i][j], Count(s, w, h, i, j))))
  }

  // ---------------------------------------------------------------------------
  // The neighbour count

  /** No offset occurs twice in `offs`. */
  predicate Distinct(offs: seq<(int, int)>) {
    forall k, l :: 0 <= k < l < |offs| ==> offs[k] != offs[l]
  }

  /** The cells that the offsets in `offs` reach from `(i, j)` and find alive. */
  function Hits(s: seq<seq<bool>>, w: nat, h: nat, i: int, j: int, offs: seq<(int, int)>): set<(int, int)>
    requires IsGrid(s, w, h)
  {
    set d | d in offs && LiveAt(s, w, h, i + d.0, j + d.1) == 1 :: (i + d.0, j + d.1)
  }

  /** One more offset adds its own cell to the count. */
  lemma CountOverStep(s: seq<seq<bool>>, w: nat, h: nat, i: int, j: int, offs: seq<(int, int)>, k: nat)
    requires IsGrid(s, w, h) && k < |offs|
    ensures CountOver(s, w, h, i, j, offs[..k + 1])
         == CountOver(s, w, h, i, j, offs[..k]) + LiveAt(s, w, h, i + offs[k].0, j + offs[k].1)
  {
    assert offs[..k + 1][..k] == offs[..k];
  }

  /** Appending an offset to the list adds its cell to the hits when that cell
      is alive. */
  lemma HitsSnoc(s: seq<seq<bool>>, w: nat, h: nat, i: int, j: int, front: seq<(int, int)>, d: (int, int))
    requires IsGrid(s, w, h)
    ensures Hits(s, w, h, i, j, front + [d])
         == Hits(s, w, h, i, j, front) + (if LiveAt(s, w, h, i + d.0, j + d.1) == 1 then {(i + d.0, j + d.1)} else {})
  {
    forall e ensures e in front + [d] <==> e in front || e == d {}
  }

  /** A distinct offset list never reaches the same cell twice. */
  lemma HitsFresh(s: seq<seq<bool>>, w: nat, h: nat, i: int, j: int, front: seq<(int, int)>, d: (int, int))
    requires IsGrid(s, w, h) && d !in front
    ensures (i + d.0, j + d.1) !in Hits(s, w, h, i, j, front)
  {
    forall e | e in front ensures (i + e.0, j + e.1) != (i + d.0, j + d.1) {
      assert e != d;
    }
  }

  /** Dropping the last offset of a distinct list leaves a distinct list
      without that offset. */
  lemma DistinctFront(offs: seq<(int, int)>)
    requires Distinct(offs) && offs != []
    ensures Distinct(offs[..|offs| - 1]) && offs[|offs| - 1] !in offs[..|offs| - 1]
  {
    var n := |offs| - 1;
    forall k | 0 <= k < n ensures offs[..n][k] != offs[n] {
      assert offs[k] != offs[n];
    }
  }

  /** A fresh offset adds one hit exactly when its cell is alive. */
  lemma HitsSnocSize(s: seq<seq<bool>>, w: nat, h: nat, i: int, j: int, front: seq<(int, int)>, d: (int, int))
    requires IsGrid(s, w, h) && d !in front
    ensures |Hits(s, w, h, i, j, front + [d])| == |Hits(s, w, h, i, j, front)| + LiveAt(s, w, h, i + d.0, j + d.1)
  {
    HitsFresh(s, w, h, i, j, front, d);
    HitsSnoc(s, w, h, i, j, front, d);
  }

  /** Over a list of distinct offsets, the count is the number of distinct
      live cells the offsets reach. */
  lemma {:induction false} CountOverHits(s: seq<seq<bool>>, w: nat, h: nat, i: int, j: int, offs: seq<(int, int)>)
    requires IsGrid(s, w, h) && Distinct(offs)
    ensures CountOver(s, w, h, i, j, offs) == |Hits(s, w, h, i, j, offs)|
    decreases |offs|
  {
    if offs != [] {
      var n := |offs| - 1;
      var front, d := offs[..n], offs[n];
      assert offs == front + [d];
      DistinctFront(offs);
      CountOverHits(s, w, h, i, j, front);
      HitsSnocSize(s, w, h, i, j, front, d);
    }
  }

  /** Every cell of the neighbourhood is reached by one of the offsets. */
  lemma OffsetsCover(dx: int, dy: int)
    requires -1 <= dx <= 1 && -1 <= dy <= 1 && (dx, dy) != (0, 0)
    ensures (dx, dy) in Offsets
  {
    if dy == -1 {
      assert Offsets[dx + 1] == (dx, dy);
    } else if dy == 0 {
      assert Offsets[if dx == -1 then 3 else 4] == (dx, dy);
    } else {
      assert Offsets[dx + 6] == (dx, dy);
    }
  }

  /** An offset of the list that reaches a live cell hits it. */
  lemma InHits(s: seq<seq<bool>>, w: nat, h: nat, i: int, j: int, offs: seq<(int, int)>, d: (int, int))
    requires IsGrid(s, w, h) && d in offs && LiveAt(s, w, h, i + d.0, j + d.1) == 1
    ensures (i + d.0, j + d.1) in Hits(s, w, h, i, j, offs)
  {
  }

  /** Each live cell of the neighbourhood is hit by its offset. */
  lemma LiveNeighbourIsHit(s: seq<seq<bool>>, w: nat, h: nat, i: int, j: int, x: int, y: int)
    requires IsGrid(s, w, h) && (x, y) in LiveNeighbours(s, w, h, i, j)
    ensures (x, y) in Hits(s, w, h, i, j, Offsets)
  {
    var d := (x - i, y - j);
    OffsetsCover(d.0, d.1);
    assert (i + d.0, j + d.1) == (x, y);
    assert LiveAt(s, w, h, i + d.0, j + d.1) == 1;
    InHits(s, w, h, i, j, Offsets, d);
  }

  /** Each cell an offset hits is a live cell of the neighbourhood. */
  lemma HitIsLiveNeighbour(s: seq<seq<bool>>, w: nat, h: nat, i: int, j: int, d: (int, int))
    requires IsGrid(s, w, h) && d in Offsets && LiveAt(s, w, h, i + d.0, j + d.1) == 1
    ensures (i + d.0, j + d.1) in LiveNeighbours(s, w, h, i, j)
  {
    assert -1 <= d.0 <= 1 && -1 <= d.1 <= 1 && d != (0, 0);
  }

  /** The count of `neigh_num` is the number of live cells of the grid in the
      Moore neighbourhood of `(i, j)`: each such cell is counted once, the cell
      itself never, and cells off the grid never. */
  lemma CountIsLiveNeighbours(s: seq<seq<bool>>, w: nat, h: nat, i: int, j: int)
    requires IsGrid(s, w, h)
    ensures Count(s, w, h, i, j) == |LiveNeighbours(s, w, h, i, j)|
  {
    CountOverHits(s, w, h, i, j, Offsets);
    var hits, live := Hits(s, w, h, i, j, Offsets), LiveNeighbours(s, w, h, i, j);
    forall p | p in live ensures p in hits {
      LiveNeighbourIsHit(s, w, h, i, j, p.0, p.1);
    }
    forall d | d in Offsets && LiveAt(s, w, h, i + d.0, j + d.1) == 1 ensures (i + d.0, j + d.1) in live {
      HitIsLiveNeighbour(s, w, h, i, j, d);
    }
    assert hits == live;
  }

  /** The count written out offset by offset. */
  lemma CountUnfold(s: seq<seq<bool>>, w: nat, h: nat, i: int, j: int)
    requires IsGrid(s, w, h)
    ensures Count(s, w, h, i, j)
         == LiveAt(s, w, h, i - 1, j - 1) + LiveAt(s, w, h, i, j - 1) + LiveAt(s, w, h, i + 1, j - 1)
          + LiveAt(s, w, h, i - 1, j) + LiveAt(s, w, h, i + 1, j)
          + LiveAt(s, w, h, i - 1, j + 1) + LiveAt(s, w, h, i, j + 1) + LiveAt(s, w, h, i + 1, j + 1)
  {
    assert Offsets[..0] == [];
    CountOverStep(s, w, h, i, j, Offsets, 0);
    CountOverStep(s, w, h, i, j, Offsets, 1);
    CountOverStep(s, w, h, i, j, Offsets, 2);
    CountOverStep(s, w, h, i, j, Offsets, 3);
    CountOverStep(s, w, h, i, j, Offsets, 4);
    CountOverStep(s, w, h, i, j, Offsets, 5);
    CountOverStep(s, w, h, i, j, Offsets, 6);
    CountOverStep(s, w, h, i, j, Offsets, 7);
    assert Offsets[..8] == Offsets;
  }

  /** A corner cell has at most 3 neighbours on the grid, so at most 3 live
      ones. */
  lemma CountAtCorner(s: seq<seq<bool>>, w: nat, h: nat, i: int, j: int)
    requires IsGrid(s, w, h) && InBounds(w, h, i, j)
    requires (i == 0 || i == w - 1) && (j == 0 || j == h - 1)
    ensures Count(s, w, h, i, j) <= 3
  {
    CountUnfold(s, w, h, i, j);
  }

  /** A cell on the border of the grid has at most 5 live neighbours. */
  lemma CountAtEdge(s: seq<seq<bool>>, w: nat, h: nat, i: int, j: int)
    requires IsGrid(s, w, h) && InBounds(w, h, i, j)
    requires i == 0 || i == w - 1 || j == 0 || j == h - 1
    ensures Count(s, w, h, i, j) <= 5
  {
    CountUnfold(s, w, h, i, j);
  }

  /** The count depends only on the cells of the neighbourhood that lie on
      the grid: two grids that agree there give the same count. */
  lemma CountIsLocal(s: seq<seq<bool>>, t: seq<seq<bool>>, w: nat, h: nat, i: int, j: int)
    requires IsGrid(s, w, h) && IsGrid(t, w, h)
    requires forall p :: p in Neighbourhood(i, j) && InBounds(w, h, p.0, p.1) ==> s[p.0][p.1] == t[p.0][p.1]
    ensures Count(s, w, h, i, j) == Count(t, w, h, i, j)
  {
    CountIsLiveNeighbours(s, w, h, i, j);
    CountIsLiveNeighbours(t, w, h, i, j);
    forall p | p in LiveNeighbours(s, w, h, i, j) ensures p in LiveNeighbours(t, w, h, i, j) {
      assert p in Neighbourhood(i, j);
    }
    forall p | p in LiveNeighbours(t, w, h, i, j) ensures p in LiveNeighbours(s, w, h, i, j) {
      assert p in Neighbourhood(i, j);
    }
    assert LiveNeighbours(s, w, h, i, j) == LiveNeighbours(t, w, h, i, j);
  }

  /** The cell itself is never counted: changing it leaves its count alone. */
  lemma CountIgnoresCentre(s: seq<seq<bool>>, w: nat, h: nat, i: nat, j: nat, b: bool)
    requires IsGrid(s, w, h) && InBounds(w, h, i, j)
    ensures IsGrid(s[i := s[i][j := b]], w, h)
    ensures Count(s[i := s[i][j := b]], w, h, i, j) == Count(s, w, h, i, j)
  {
    var t := s[i := s[i][j := b]];
    forall p | p in Neighbourhood(i, j) && InBounds(w, h, p.0, p.1) ensures s[p.0][p.1] == t[p.0][p.1] {
      assert p != (i, j);
    }
    CountIsLocal(s, t, w, h, i, j);
  }

  /** With no live cell on the grid every count is 0. */
  lemma CountOfEmpty(w: nat, h: nat, i: int, j: int)
    ensures Count(Pattern(w, h, {}), w, h, i, j) == 0
  {
    var s := Pattern(w, h, {});
    CountIsLiveNeighbours(s, w, h, i, j);
    assert LiveNeighbours(s, w, h, i, j) == {};
  }

  /** With a single live cell `c` on the grid, a cell counts 1 exactly when `c`
      is one of its neighbours, and 0 otherwise. */
  lemma CountOfSingle(w: nat, h: nat, c: (int, int), i: int, j: int)
    requires InBounds(w, h, c.0, c.1)
    ensures Count(Pattern(w, h, {c}), w, h, i, j) == if c in Neighbourhood(i, j) then 1 else 0
  {
    var s := Pattern(w, h, {c});
    CountIsLiveNeighbours(s, w, h, i, j);
    if c in Neighbourhood(i, j) {
      assert LiveNeighbours(s, w, h, i, j) == {c};
    } else {
      assert LiveNeighbours(s, w, h, i, j) == {};
    }
  }

  // ---------------------------------------------------------------------------
  // The next generation

  /** Each cell of the next generation follows Conway's rule, applied to the
      number of live cells in its Moore neighbourhood in the current grid. */
  lemma NextCell(s: seq<seq<bool>>, w: nat, h: nat, i: nat, j: nat)
    requires IsGrid(s, w, h) && InBounds(w, h, i, j)
    ensures var c := |LiveNeighbours(s, w, h, i, j)|;
      Next(s, w, h)[i][j] <==> (s[i][j] && (c == 2 || c == 3)) || (!s[i][j] && c == 3)
  {
    CountIsLiveNeighbours(s, w, h, i, j);
  }

  /** A cell with fewer than 2 or more than 3 live neighbours is dead in the
      next generation, whatever it is now. */
  lemma NextDiesOfCrowding(s: seq<seq<bool>>, w: nat, h: nat, i: nat, j: nat)
    requires IsGrid(s, w, h) && InBounds(w, h, i, j)
    requires |LiveNeighbours(s, w, h, i, j)| < 2 || |LiveNeighbours(s, w, h, i, j)| > 3
    ensures !Next(s, w, h)[i][j]
  {
    NextCell(s, w, h, i, j);
  }

  /** A live cell with no live neighbour dies. */
  lemma LoneCellDies(s: seq<seq<bool>>, w: nat, h: nat, i: nat, j: nat)
    requires IsGrid(s, w, h) && InBounds(w, h, i, j) && s[i][j]
    requires forall p :: p in Neighbourhood(i, j) && InBounds(w, h, p.0, p.1) ==> !s[p.0][p.1]
    ensures !Next(s, w, h)[i][j]
  {
    var e := Pattern(w, h, {});
    CountIsLocal(s, e, w, h, i, j);
    CountOfEmpty(w, h, i, j);
    NextCell(s, w, h, i, j);
  }

  /** A grid with no live cell evolves to a grid with no live cell. */
  lemma EmptyStaysEmpty(w: nat, h: nat)
    ensures Next(Pattern(w, h, {}), w, h) == Pattern(w, h, {})
  {
    var s := Pattern(w, h, {});
    forall i, j | 0 <= i < w && 0 <= j < h ensures Next(s, w, h)[i][j] == s[i][j] {
      CountOfEmpty(w, h, i, j);
    }
    GridExt(Next(s, w, h), s, w, h);
  }

  /** A single live cell vanishes in one generation. */
  lemma SingleCellVanishes(w: nat, h: nat, c: (int, int))
    requires InBounds(w, h, c.0, c.1)
    ensures Next(Pattern(w, h, {c}), w, h) == Pattern(w, h, {})
  {
    var s, e := Pattern(w, h, {c}), Pattern(w, h, {});
    forall i, j | 0 <= i < w && 0 <= j < h ensures Next(s, w, h)[i][j] == e[i][j] {
      CountOfSingle(w, h, c, i, j);
    }
    GridExt(Next(s, w, h), e, w, h);
  }

  /** Two `w` by `h` grids that agree on every cell are equal. */
  lemma GridExt(s: seq<seq<bool>>, t: seq<seq<bool>>, w: nat, h: nat)
    requires IsGrid(s, w, h) && IsGrid(t, w, h)
    requires forall i, j :: 0 <= i < w && 0 <= j < h ==> s[i][j] == t[i][j]
    ensures s == t
  {
    forall i | 0 <= i < w ensures s[i] == t[i] {
      assert forall j :: 0 <= j < h ==> s[i][j] == t[i][j];
    }
  }
}
