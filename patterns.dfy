/** Classic patterns and what one generation does to them: the block is a
    still life, the blinker an oscillator of period 2, and the L-shaped
    tromino turns into a block by a birth in its empty corner. Each pattern
    may sit anywhere on the grid where its cells fit, edges included. */
module Patterns {
  import opened Grid
  import opened Rules

  /** The 2 by 2 block whose cell with the smallest coordinates is `(a, b)`. */
  function Block(a: int, b: int): set<(int, int)> {
    {(a, b), (a + 1, b), (a, b + 1), (a + 1, b + 1)}
  }

  /** Three cells in a horizontal line centred on `(a, b)`. */
  function Horizontal(a: int, b: int): set<(int, int)> {
    {(a - 1, b), (a, b), (a + 1, b)}
  }

  /** Three cells in a vertical line centred on `(a, b)`. */
  function Vertical(a: int, b: int): set<(int, int)> {
    {(a, b - 1), (a, b), (a, b + 1)}
  }

  /** The block at `(a, b)` without its corner `(a + 1, b + 1)`. */
  function Tromino(a: int, b: int): set<(int, int)> {
    {(a, b), (a + 1, b), (a, b + 1)}
  }

  // Membership in each pattern as a range condition on the coordinates.

  lemma InBlock(a: int, b: int, x: int, y: int)
    ensures (x, y) in Block(a, b) <==> a <= x <= a + 1 && b <= y <= b + 1
  {
  }

  lemma InHorizontal(a: int, b: int, x: int, y: int)
    ensures (x, y) in Horizontal(a, b) <==> a - 1 <= x <= a + 1 && y == b
  {
  }

  lemma InVertical(a: int, b: int, x: int, y: int)
    ensures (x, y) in Vertical(a, b) <==> x == a && b - 1 <= y <= b + 1
  {
  }

  lemma InTromino(a: int, b: int, x: int, y: int)
    ensures (x, y) in Tromino(a, b) <==> a <= x <= a + 1 && b <= y <= b + 1 && !(x == a + 1 && y == b + 1)
  {
  }

  /** 1 exactly when `(x, y)` is on the grid and in the pattern. */
  function Ind(w: nat, h: nat, live: set<(int, int)>, x: int, y: int): nat {
    if InBounds(w, h, x, y) && (x, y) in live then 1 else 0
  }

  /** The count of a cell of a pattern, written out offset by offset. */
  lemma CountOfPattern(w: nat, h: nat, live: set<(int, int)>, x: int, y: int)
    ensures Count(Pattern(w, h, live), w, h, x, y)
         == Ind(w, h, live, x - 1, y - 1) + Ind(w, h, live, x, y - 1) + Ind(w, h, live, x + 1, y - 1)
          + Ind(w, h, live, x - 1, y) + Ind(w, h, live, x + 1, y)
          + Ind(w, h, live, x - 1, y + 1) + Ind(w, h, live, x, y + 1) + Ind(w, h, live, x + 1, y + 1)
  {
    var s := Pattern(w, h, live);
    CountUnfold(s, w, h, x, y);
    LiveAtPattern(w, h, live, x - 1, y - 1);
    LiveAtPattern(w, h, live, x, y - 1);
    LiveAtPattern(w, h, live, x + 1, y - 1);
    LiveAtPattern(w, h, live, x - 1, y);
    LiveAtPattern(w, h, live, x + 1, y);
    LiveAtPattern(w, h, live, x - 1, y + 1);
    LiveAtPattern(w, h, live, x, y + 1);
    LiveAtPattern(w, h, live, x + 1, y + 1);
  }

  /** One cell of the next generation of a pattern. */
  lemma NextOfPattern(w: nat, h: nat, live: set<(int, int)>, x: nat, y: nat)
    requires InBounds(w, h, x, y)
    ensures Next(Pattern(w, h, live), w, h)[x][y] == Rule((x, y) in live, Count(Pattern(w, h, live), w, h, x, y))
  {
  }

  /** On a pattern, `LiveAt` and `Ind` agree. */
  lemma LiveAtPattern(w: nat, h: nat, live: set<(int, int)>, x: int, y: int)
    ensures LiveAt(Pattern(w, h, live), w, h, x, y) == Ind(w, h, live, x, y)
  {
  }

  /** The block is a still life: it evolves to itself. */
  lemma BlockIsStill(w: nat, h: nat, a: int, b: int)
    requires 0 <= a && a + 1 < w && 0 <= b && b + 1 < h
    ensures Next(Pattern(w, h, Block(a, b)), w, h) == Pattern(w, h, Block(a, b))
  {
    var s := Pattern(w, h, Block(a, b));
    forall x, y | 0 <= x < w && 0 <= y < h ensures Next(s, w, h)[x][y] == s[x][y] {
      BlockCell(w, h, a, b, x, y);
    }
    GridExt(Next(s, w, h), s, w, h);
  }

  /** The indicator of the pattern as a range condition, where the pattern fits the grid. */
  lemma BlockAt(w: nat, h: nat, a: int, b: int, x: int, y: int)
    requires 0 <= a && a + 1 < w && 0 <= b && b + 1 < h
    ensures Ind(w, h, Block(a, b), x, y) == if a <= x <= a + 1 && b <= y <= b + 1 then 1 else 0
  {
  }

  /** One cell of the next generation of the pattern. */
  lemma BlockCell(w: nat, h: nat, a: int, b: int, x: nat, y: nat)
    requires 0 <= a && a + 1 < w && 0 <= b && b + 1 < h && InBounds(w, h, x, y)
    ensures Next(Pattern(w, h, Block(a, b)), w, h)[x][y] == ((x, y) in Block(a, b))
  {
    NextOfPattern(w, h, Block(a, b), x, y);
    CountOfPattern(w, h, Block(a, b), x, y);
    BlockAt(w, h, a, b, x - 1, y - 1);
    BlockAt(w, h, a, b, x, y - 1);
    BlockAt(w, h, a, b, x + 1, y - 1);
    BlockAt(w, h, a, b, x - 1, y);
    BlockAt(w, h, a, b, x + 1, y);
    BlockAt(w, h, a, b, x - 1, y + 1);
    BlockAt(w, h, a, b, x, y + 1);
    BlockAt(w, h, a, b, x + 1, y + 1);
    BlockAt(w, h, a, b, x, y);
    InBlock(a, b, x, y);
  }

  /** The blinker: a horizontal line of three becomes a vertical one centred
      on the same cell. */
  lemma HorizontalBecomesVertical(w: nat, h: nat, a: int, b: int)
    requires 1 <= a && a + 1 < w && 1 <= b && b + 1 < h
    ensures Next(Pattern(w, h, Horizontal(a, b)), w, h) == Pattern(w, h, Vertical(a, b))
  {
    var s, t := Pattern(w, h, Horizontal(a, b)), Pattern(w, h, Vertical(a, b));
    forall x, y | 0 <= x < w && 0 <= y < h ensures Next(s, w, h)[x][y] == t[x][y] {
      HorizontalCell(w, h, a, b, x, y);
    }
    GridExt(Next(s, w, h), t, w, h);
  }

  /** The indicator of the pattern as a range condition, where the pattern fits the grid. */
  lemma HorizontalAt(w: nat, h: nat, a: int, b: int, x: int, y: int)
    requires 1 <= a && a + 1 < w && 1 <= b && b + 1 < h
    ensures Ind(w, h, Horizontal(a, b), x, y) == if a - 1 <= x <= a + 1 && y == b then 1 else 0
  {
  }

  /** The live-neighbour counts around a horizontal line of three. */
  lemma HorizontalCount(w: nat, h: nat, a: int, b: int, x: nat, y: nat)
    requires 1 <= a && a + 1 < w && 1 <= b && b + 1 < h && InBounds(w, h, x, y)
    ensures Count(Pattern(w, h, Horizontal(a, b)), w, h, x, y)
       == if y == b then (if x == a then 2 else if a - 2 <= x <= a + 2 then 1 else 0)
           else if y == b - 1 || y == b + 1 then (if x == a then 3 else if a - 1 <= x <= a + 1 then 2 else if a - 2 <= x <= a + 2 then 1 else 0)
           else 0
  {
    CountOfPattern(w, h, Horizontal(a, b), x, y);
    HorizontalAt(w, h, a, b, x - 1, y - 1);
    HorizontalAt(w, h, a, b, x, y - 1);
    HorizontalAt(w, h, a, b, x + 1, y - 1);
    HorizontalAt(w, h, a, b, x - 1, y);
    HorizontalAt(w, h, a, b, x + 1, y);
    HorizontalAt(w, h, a, b, x - 1, y + 1);
    HorizontalAt(w, h, a, b, x, y + 1);
    HorizontalAt(w, h, a, b, x + 1, y + 1);
  }

  /** The rule applied to the counts of a horizontal line. */
  lemma HorizontalRule(a: int, b: int, x: int, y: int, alive: bool, c: nat)
    requires alive <==> a - 1 <= x <= a + 1 && y == b
    requires c == if y == b then (if x == a then 2 else if a - 2 <= x <= a + 2 then 1 else 0)
               else if y == b - 1 || y == b + 1 then (if x == a then 3 else if a - 1 <= x <= a + 1 then 2 else if a - 2 <= x <= a + 2 then 1 else 0)
               else 0
    ensures Rule(alive, c) <==> x == a && b - 1 <= y <= b + 1
  {
  }

  /** One cell of the next generation of the pattern. */
  lemma HorizontalCell(w: nat, h: nat, a: int, b: int, x: nat, y: nat)
    requires 1 <= a && a + 1 < w && 1 <= b && b + 1 < h && InBounds(w, h, x, y)
    ensures Next(Pattern(w, h, Horizontal(a, b)), w, h)[x][y] == ((x, y) in Vertical(a, b))
  {
    NextOfPattern(w, h, Horizontal(a, b), x, y);
    HorizontalCount(w, h, a, b, x, y);
    InHorizontal(a, b, x, y);
    HorizontalRule(a, b, x, y, (x, y) in Horizontal(a, b), Count(Pattern(w, h, Horizontal(a, b)), w, h, x, y));
    InVertical(a, b, x, y);
  }

  /** ... and the vertical line becomes the horizontal one again. */
  lemma VerticalBecomesHorizontal(w: nat, h: nat, a: int, b: int)
    requires 1 <= a && a + 1 < w && 1 <= b && b + 1 < h
    ensures Next(Pattern(w, h, Vertical(a, b)), w, h) == Pattern(w, h, Horizontal(a, b))
  {
    var s, t := Pattern(w, h, Vertical(a, b)), Pattern(w, h, Horizontal(a, b));
    forall x, y | 0 <= x < w && 0 <= y < h ensures Next(s, w, h)[x][y] == t[x][y] {
      VerticalCell(w, h, a, b, x, y);
    }
    GridExt(Next(s, w, h), t, w, h);
  }

  /** The indicator of the pattern as a range condition, where the pattern fits the grid. */
  lemma VerticalAt(w: nat, h: nat, a: int, b: int, x: int, y: int)
    requires 1 <= a && a + 1 < w && 1 <= b && b + 1 < h
    ensures Ind(w, h, Vertical(a, b), x, y) == if x == a && b - 1 <= y <= b + 1 then 1 else 0
  {
  }

  /** The live-neighbour counts around a vertical line of three. */
  lemma VerticalCount(w: nat, h: nat, a: int, b: int, x: nat, y: nat)
    requires 1 <= a && a + 1 < w && 1 <= b && b + 1 < h && InBounds(w, h, x, y)
    ensures Count(Pattern(w, h, Vertical(a, b)), w, h, x, y)
       == if x == a then (if y == b then 2 else if b - 2 <= y <= b + 2 then 1 else 0)
           else if x == a - 1 || x == a + 1 then (if y == b then 3 else if b - 1 <= y <= b + 1 then 2 else if b - 2 <= y <= b + 2 then 1 else 0)
           else 0
  {
    CountOfPattern(w, h, Vertical(a, b), x, y);
    VerticalAt(w, h, a, b, x - 1, y - 1);
    VerticalAt(w, h, a, b, x, y - 1);
    VerticalAt(w, h, a, b, x + 1, y - 1);
    VerticalAt(w, h, a, b, x - 1, y);
    VerticalAt(w, h, a, b, x + 1, y);
    VerticalAt(w, h, a, b, x - 1, y + 1);
    VerticalAt(w, h, a, b, x, y + 1);
    VerticalAt(w, h, a, b, x + 1, y + 1);
  }

  /** The rule applied to the counts of a vertical line. */
  lemma VerticalRule(a: int, b: int, x: int, y: int, alive: bool, c: nat)
    requires alive <==> x == a && b - 1 <= y <= b + 1
    requires c == if x == a then (if y == b then 2 else if b - 2 <= y <= b + 2 then 1 else 0)
               else if x == a - 1 || x == a + 1 then (if y == b then 3 else if b - 1 <= y <= b + 1 then 2 else if b - 2 <= y <= b + 2 then 1 else 0)
               else 0
    ensures Rule(alive, c) <==> a - 1 <= x <= a + 1 && y == b
  {
  }

  /** One cell of the next generation of the pattern. */
  lemma VerticalCell(w: nat, h: nat, a: int, b: int, x: nat, y: nat)
    requires 1 <= a && a + 1 < w && 1 <= b && b + 1 < h && InBounds(w, h, x, y)
    ensures Next(Pattern(w, h, Vertical(a, b)), w, h)[x][y] == ((x, y) in Horizontal(a, b))
  {
    NextOfPattern(w, h, Vertical(a, b), x, y);
    VerticalCount(w, h, a, b, x, y);
    InVertical(a, b, x, y);
    VerticalRule(a, b, x, y, (x, y) in Vertical(a, b), Count(Pattern(w, h, Vertical(a, b)), w, h, x, y));
    InHorizontal(a, b, x, y);
  }

  /** The blinker has period 2. */
  lemma BlinkerPeriodTwo(w: nat, h: nat, a: int, b: int)
    requires 1 <= a && a + 1 < w && 1 <= b && b + 1 < h
    ensures Next(Pattern(w, h, Horizontal(a, b)), w, h) != Pattern(w, h, Horizontal(a, b))
    ensures Next(Next(Pattern(w, h, Horizontal(a, b)), w, h), w, h) == Pattern(w, h, Horizontal(a, b))
  {
    HorizontalBecomesVertical(w, h, a, b);
    VerticalBecomesHorizontal(w, h, a, b);
    var v := Pattern(w, h, Vertical(a, b));
    assert v[a][b - 1] && !Pattern(w, h, Horizontal(a, b))[a][b - 1];
  }

  /** Birth: the empty corner of the L-shaped tromino has exactly 3 live
      neighbours and is born, the three cells survive with 2 each, and
      nothing else is born, so the tromino becomes a block. */
  lemma TrominoBecomesBlock(w: nat, h: nat, a: int, b: int)
    requires 0 <= a && a + 1 < w && 0 <= b && b + 1 < h
    ensures Next(Pattern(w, h, Tromino(a, b)), w, h) == Pattern(w, h, Block(a, b))
  {
    var s, t := Pattern(w, h, Tromino(a, b)), Pattern(w, h, Block(a, b));
    forall x, y | 0 <= x < w && 0 <= y < h ensures Next(s, w, h)[x][y] == t[x][y] {
      TrominoCell(w, h, a, b, x, y);
    }
    GridExt(Next(s, w, h), t, w, h);
  }

  /** The indicator of the pattern as a range condition, where the pattern fits the grid. */
  lemma TrominoAt(w: nat, h: nat, a: int, b: int, x: int, y: int)
    requires 0 <= a && a + 1 < w && 0 <= b && b + 1 < h
    ensures Ind(w, h, Tromino(a, b), x, y) == if a <= x <= a + 1 && b <= y <= b + 1 && !(x == a + 1 && y == b + 1) then 1 else 0
  {
  }

  /** One cell of the next generation of the pattern. */
  lemma TrominoCell(w: nat, h: nat, a: int, b: int, x: nat, y: nat)
    requires 0 <= a && a + 1 < w && 0 <= b && b + 1 < h && InBounds(w, h, x, y)
    ensures Next(Pattern(w, h, Tromino(a, b)), w, h)[x][y] == ((x, y) in Block(a, b))
  {
    NextOfPattern(w, h, Tromino(a, b), x, y);
    CountOfPattern(w, h, Tromino(a, b), x, y);
    TrominoAt(w, h, a, b, x - 1, y - 1);
    TrominoAt(w, h, a, b, x, y - 1);
    TrominoAt(w, h, a, b, x + 1, y - 1);
    TrominoAt(w, h, a, b, x - 1, y);
    TrominoAt(w, h, a, b, x + 1, y);
    TrominoAt(w, h, a, b, x - 1, y + 1);
    TrominoAt(w, h, a, b, x, y + 1);
    TrominoAt(w, h, a, b, x + 1, y + 1);
    TrominoAt(w, h, a, b, x, y);
    InBlock(a, b, x, y);
  }
}
