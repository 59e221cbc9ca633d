/** The engine of life.py as the program runs it: the grid is a two-dimensional
    array `a[i, j]` with `w` columns and `h` rows, `neigh_num` and `evolve`
    read it, and `random_state` seeds it in place. Each method is proved
    against the grid-value functions of module Rules. */
module Life {
  import opened Grid
  import opened Rules

  /** `neigh_num`: the number of live cells among the eight Moore neighbours
      of `(i, j)`, walking the offset list and skipping every offset that
      leaves the grid, so that no cell off the grid is ever read. */
  method NeighNum(a: array2<bool>, i: int, j: int, w: nat, h: nat) returns (cnt: nat)
    requires a.Length0 == w && a.Length1 == h
    ensures cnt == Count(Cells(a), w, h, i, j)
    ensures cnt <= 8
  {
    ghost var s := Cells(a);
    cnt := 0;
    var pos := Offsets;
    for k := 0 to |pos|
      invariant cnt == CountOver(s, w, h, i, j, pos[..k])
    {
      var (x, y) := pos[k];
      CountOverStep(s, w, h, i, j, pos, k);
      if i + x >= 0 && i + x < w && j + y >= 0 && j + y < h {
        if a[i + x, j + y] {
          cnt := cnt + 1;
        }
      }
    }
    assert pos[..|pos|] == Offsets;
  }

  /** `evolve`: a freshly allocated grid of the same shape holding the next
      generation. The input array is only read (the method may modify
      nothing), so every count comes from the current generation and never
      from the grid being built. */
  method Evolve(a: array2<bool>, w: nat, h: nat) returns (r: array2<bool>)
    requires a.Length0 == w && a.Length1 == h
    ensures fresh(r)
    ensures r.Length0 == w && r.Length1 == h
    ensures Cells(r) == Next(Cells(a), w, h)
  {
    ghost var s := Cells(a);
    r := new bool[w, h]((_, _) => false);
    for i := 0 to w
      invariant forall x, y :: 0 <= x < w && 0 <= y < h ==> r[x, y] == (x < i && Rule(s[x][y], Count(s, w, h, x, y)))
    {
      EvolveColumn(a, r, i, w, h);
    }
    GridExt(Cells(r), Next(s, w, h), w, h);
  }

  /** The inner loop of `evolve`: column `i` of the new grid, still all dead,
      receives the next generation of column `i` of `a`; every other cell of
      the new grid keeps its value. */
  method EvolveColumn(a: array2<bool>, r: array2<bool>, i: nat, w: nat, h: nat)
    requires a.Length0 == w && a.Length1 == h && r.Length0 == w && r.Length1 == h
    requires a != r && i < w
    requires forall y :: 0 <= y < h ==> !r[i, y]
    modifies r
    ensures forall x, y :: 0 <= x < w && 0 <= y < h ==>
      r[x, y] == if x == i then Rule(Cells(a)[x][y], Count(Cells(a), w, h, x, y)) else old(r[x, y])
  {
    ghost var s := Cells(a);
    for j := 0 to h
      invariant Cells(a) == s
      invariant forall y :: 0 <= y < h ==> r[i, y] == (y < j && Rule(s[i][y], Count(s, w, h, i, y)))
      invariant forall x, y :: 0 <= x < w && 0 <= y < h && x != i ==> r[x, y] == old(r[x, y])
    {
      var cnt := NeighNum(a, i, j, w, h);
      if (a[i, j] && (cnt == 2 || cnt == 3)) || (!a[i, j] && cnt == 3) {
        r[i, j] := true;
      }
    }
  }

  /** `random_state`: makes `n` dead cells alive, one per round. The source
      draws random coordinates and draws again while the cell it hit is
      alive; here the round takes any dead cell of the grid, which is what
      that retry loop ends on. Enough dead cells must exist, or the retry
      loop never ends. */
  method RandomState(a: array2<bool>, n: int, w: nat, h: nat)
    requires a.Length0 == w && a.Length1 == h
    requires n <= |DeadSet(Cells(a))|
    modifies a
    ensures LiveSet(old(Cells(a))) <= LiveSet(Cells(a))
    ensures |LiveSet(Cells(a))| == |LiveSet(old(Cells(a)))| + (if n > 0 then n else 0)
    ensures |DeadSet(Cells(a))| == |DeadSet(old(Cells(a)))| - (if n > 0 then n else 0)
  {
    var k := 0;
    while k < n
      invariant 0 <= k && (k <= n || k == 0)
      invariant LiveSet(old(Cells(a))) <= LiveSet(Cells(a))
      invariant |LiveSet(Cells(a))| == |LiveSet(old(Cells(a)))| + k
      invariant |DeadSet(Cells(a))| == |DeadSet(old(Cells(a)))| - k
    {
      ghost var before := Cells(a);
      DeadCellExists(before, w, h);
      var i, j :| 0 <= i < w && 0 <= j < h && !a[i, j];
      a[i, j] := true;
      MakeAliveCells(before, w, h, i, j);
      GridExt(Cells(a), MakeAlive(before, i, j), w, h);
      MakeAliveSets(before, i, j);
      k := k + 1;
    }
  }

  /** A grid with a dead cell has one on the grid. */
  lemma DeadCellExists(s: seq<seq<bool>>, w: nat, h: nat)
    requires IsGrid(s, w, h) && |DeadSet(s)| > 0
    ensures exists i, j :: 0 <= i < w && 0 <= j < h && !s[i][j]
  {
    var p :| p in DeadSet(s);
    assert 0 <= p.0 < w && 0 <= p.1 < h && !s[p.0][p.1];
  }

  /** The number of cells the program seeds alive: a tenth of the grid,
      rounded down. */
  function SeedTarget(w: nat, h: nat): nat {
    (w * h) / 10
  }

  /** The seeding target always fits an empty grid, with room to spare on
      any grid that has a cell, so the program's own call to `random_state`
      meets its precondition. */
  lemma SeedTargetFits(w: nat, h: nat)
    ensures SeedTarget(w, h) <= |DeadSet(Pattern(w, h, {}))|
    ensures w * h > 0 ==> SeedTarget(w, h) < |DeadSet(Pattern(w, h, {}))|
  {
    EmptyGridDeadCells(w, h);
  }

  /** The start of the program: an all-dead `w` by `h` grid seeded with
      `SeedTarget(w, h)` live cells, every other cell dead. */
  method InitialState(w: nat, h: nat) returns (a: array2<bool>)
    ensures fresh(a)
    ensures a.Length0 == w && a.Length1 == h
    ensures |LiveSet(Cells(a))| == SeedTarget(w, h)
    ensures |DeadSet(Cells(a))| == w * h - SeedTarget(w, h)
  {
    a := new bool[w, h]((_, _) => false);
    assert Cells(a) == Pattern(w, h, {}) by {
      GridExt(Cells(a), Pattern(w, h, {}), w, h);
    }
    SeedTargetFits(w, h);
    EmptyGridDeadCells(w, h);
    RandomState(a, SeedTarget(w, h), w, h);
  }
}
