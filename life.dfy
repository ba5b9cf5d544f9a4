// The rules of Conway's Game of Life on a finite grid with a dead boundary:
// positions outside the grid count as dead cells, there is no wraparound.
// These pure definitions are the specification the board's methods are
// proved against.
module Life {

  /** A grid of cell states, row by row; `true` is a live cell. */
  type Grid = seq<seq<bool>>

  /** `g` has `h` rows of `w` cells each. */
  ghost predicate IsGrid(g: Grid, h: int, w: int)
  {
    |g| == h && forall r :: 0 <= r < |g| ==> |g[r]| == w
  }

  /** 1 when (r, c) lies inside the grid and holds a live cell, 0 otherwise. */
  function Alive(g: Grid, r: int, c: int): (v: int)
    ensures v == 0 || v == 1
    ensures v == 1 <==> 0 <= r < |g| && 0 <= c < |g[r]| && g[r][c]
  {
    if 0 <= r < |g| && 0 <= c < |g[r]| && g[r][c] then 1 else 0
  }

  /** The eight neighbours of (r, c), at the offsets {-1,0,1}² without
      (0,0), in the order top-left, top, top-right, left, right,
      bottom-left, bottom, bottom-right; off-grid positions read as 0. */
  function Window(g: Grid, r: int, c: int): (s: seq<int>)
    ensures |s| == 8
  {
    [Alive(g, r - 1, c - 1), Alive(g, r - 1, c), Alive(g, r - 1, c + 1),
     Alive(g, r, c - 1),                          Alive(g, r, c + 1),
     Alive(g, r + 1, c - 1), Alive(g, r + 1, c), Alive(g, r + 1, c + 1)]
  }

  function Sum(s: seq<int>): int
  {
    if s == [] then 0 else s[0] + Sum(s[1..])
  }

  /** Number of live cells among the in-grid neighbours of (r, c): the
      bounds-checked states at the eight offsets added up. */
  function NeighborCount(g: Grid, r: int, c: int): int
  {
    Alive(g, r - 1, c - 1) + Alive(g, r - 1, c) + Alive(g, r - 1, c + 1)
    + Alive(g, r, c - 1) + Alive(g, r, c + 1)
    + Alive(g, r + 1, c - 1) + Alive(g, r + 1, c) + Alive(g, r + 1, c + 1)
  }

  /** The neighbour count of every cell of `g`, row by row. */
  function Counts(g: Grid): (n: seq<seq<int>>)
    ensures |n| == |g|
    ensures forall r :: 0 <= r < |g| ==> |n[r]| == |g[r]|
  {
    seq(|g|, r requires 0 <= r < |g| => seq(|g[r]|, c => NeighborCount(g, r, c)))
  }

  /** The B3/S23 rule: the state of a cell in the next generation, from its
      state now and its number of live neighbours. */
  function NextState(alive: bool, n: int): (b: bool)
    ensures b <==> n == 3 || (alive && n == 2)
    ensures alive && (n < 2 || n > 3) ==> !b
    ensures !alive && n != 3 ==> !b
  {
    if alive then
      // under- and overpopulation kill the cell; two or three keep it
      !(n < 2) && !(n > 3)
    else
      n == 3
  }

  /** One generation: every cell is updated from the counts of the current
      grid, so no cell sees a neighbour's new state. */
  function Step(g: Grid): (s: Grid)
    ensures |s| == |g|
    ensures forall r :: 0 <= r < |g| ==> |s[r]| == |g[r]|
    ensures forall r, c :: 0 <= r < |g| && 0 <= c < |g[r]| ==>
      (s[r][c] <==> NeighborCount(g, r, c) == 3 || (g[r][c] && NeighborCount(g, r, c) == 2))
  {
    seq(|g|, r requires 0 <= r < |g| =>
      seq(|g[r]|, c requires 0 <= c < |g[r]| => NextState(g[r][c], NeighborCount(g, r, c))))
  }

  /** Every cell of `g` moved on by the B3/S23 rule, reading its count from
      `n`, a grid of counts of the same shape captured beforehand. */
  function Advance(g: Grid, n: seq<seq<int>>): (s: Grid)
    requires |n| == |g| && forall r :: 0 <= r < |g| ==> |n[r]| == |g[r]|
    ensures |s| == |g|
    ensures forall r :: 0 <= r < |g| ==> |s[r]| == |g[r]|
  {
    seq(|g|, r requires 0 <= r < |g| =>
      seq(|g[r]|, c requires 0 <= c < |g[r]| => NextState(g[r][c], n[r][c])))
  }

  /** Synchronous update: counting every cell's neighbours first and then
      moving every cell on from those counts is one generation. */
  lemma StepIsAdvanceOfCounts(g: Grid)
    ensures Step(g) == Advance(g, Counts(g))
  {
    var s, t := Step(g), Advance(g, Counts(g));
    forall r | 0 <= r < |g|
      ensures s[r] == t[r]
    {
      assert forall c :: 0 <= c < |g[r]| ==> s[r][c] == t[r][c];
    }
  }

  /** `k` generations starting from `g`. */
  function Iterate(g: Grid, k: nat): Grid
    decreases k
  {
    if k == 0 then g else Iterate(Step(g), k - 1)
  }

  lemma {:induction false} SumSuffix(s: seq<int>, k: int)
    requires 0 <= k < |s|
    ensures Sum(s[k..]) == s[k] + Sum(s[k + 1..])
  {
    assert s[k..][1..] == s[k + 1..];
  }

  /** Adding up the eight window slots one after the other gives the
      neighbour count. */
  lemma WindowSum(g: Grid, r: int, c: int)
    ensures Sum(Window(g, r, c)) == NeighborCount(g, r, c)
  {
    var s := Window(g, r, c);
    assert s[0..] == s;
    assert s[8..] == [];
    SumSuffix(s, 0); SumSuffix(s, 1); SumSuffix(s, 2); SumSuffix(s, 3);
    SumSuffix(s, 4); SumSuffix(s, 5); SumSuffix(s, 6); SumSuffix(s, 7);
  }

  /** Every count lies in 0..8; a corner cell has at most 3 real neighbours
      and any other border cell at most 5. */
  lemma NeighborCountBounds(g: Grid, h: int, w: int, r: int, c: int)
    requires IsGrid(g, h, w)
    requires 0 <= r < h && 0 <= c < w
    ensures 0 <= NeighborCount(g, r, c) <= 8
    ensures (r == 0 || r == h - 1) && (c == 0 || c == w - 1) ==> NeighborCount(g, r, c) <= 3
    ensures (r == 0 || r == h - 1 || c == 0 || c == w - 1) ==> NeighborCount(g, r, c) <= 5
  {
  }

  /** A live corner cell (any of the four) with no other live cell on the
      board dies, and a dead one stays dead: the off-grid positions never
      supply neighbours. */
  lemma LoneCornerDies(g: Grid, h: int, w: int, r0: int, c0: int)
    requires IsGrid(g, h, w) && 1 <= h && 1 <= w
    requires (r0 == 0 || r0 == h - 1) && (c0 == 0 || c0 == w - 1)
    requires forall r, c :: 0 <= r < h && 0 <= c < w && (r, c) != (r0, c0) ==> !g[r][c]
    ensures !Step(g)[r0][c0]
  {
    assert NeighborCount(g, r0, c0) == 0;
  }

  // ---- Patterns ----

  /** A 2×2 block with top-left corner (r0, c0), every other cell dead. */
  function Block(h: nat, w: nat, r0: int, c0: int): (g: Grid)
    ensures IsGrid(g, h, w)
  {
    seq(h, r => seq(w, c => r0 <= r <= r0 + 1 && c0 <= c <= c0 + 1))
  }

  /** 1 on the cells of the block with top-left corner (r0, c0), 0 elsewhere. */
  function BlockAt(r0: int, c0: int, r: int, c: int): int
  {
    if r0 <= r <= r0 + 1 && c0 <= c <= c0 + 1 then 1 else 0
  }

  /** Reading the block at any position: off the block is dead, on or off the grid. */
  lemma BlockAlive(h: nat, w: nat, r0: int, c0: int, r: int, c: int)
    requires 0 <= r0 && r0 + 2 <= h && 0 <= c0 && c0 + 2 <= w
    ensures Alive(Block(h, w, r0, c0), r, c) == BlockAt(r0, c0, r, c)
  {
  }

  /** The counting argument for the block, on the integers alone. */
  lemma BlockWindow(r0: int, c0: int, r: int, c: int)
    ensures var n := BlockAt(r0, c0, r - 1, c - 1) + BlockAt(r0, c0, r - 1, c) + BlockAt(r0, c0, r - 1, c + 1)
                   + BlockAt(r0, c0, r, c - 1) + BlockAt(r0, c0, r, c + 1)
                   + BlockAt(r0, c0, r + 1, c - 1) + BlockAt(r0, c0, r + 1, c) + BlockAt(r0, c0, r + 1, c + 1);
            if BlockAt(r0, c0, r, c) == 1 then n == 3 else n <= 2
  {
    if r0 - 1 <= r <= r0 + 2 && c0 - 1 <= c <= c0 + 2 {
      if r == r0 - 1 {
      } else if r == r0 {
      } else if r == r0 + 1 {
      }
    }
  }

  /** Each cell of the block has three live neighbours, every other cell
      at most two. */
  lemma BlockCount(h: nat, w: nat, r0: int, c0: int, r: int, c: int)
    requires 0 <= r0 && r0 + 2 <= h && 0 <= c0 && c0 + 2 <= w
    ensures r0 <= r <= r0 + 1 && c0 <= c <= c0 + 1 ==> NeighborCount(Block(h, w, r0, c0), r, c) == 3
    ensures !(r0 <= r <= r0 + 1 && c0 <= c <= c0 + 1) ==> NeighborCount(Block(h, w, r0, c0), r, c) <= 2
  {
    BlockAlive(h, w, r0, c0, r - 1, c - 1); BlockAlive(h, w, r0, c0, r - 1, c); BlockAlive(h, w, r0, c0, r - 1, c + 1);
    BlockAlive(h, w, r0, c0, r, c - 1); BlockAlive(h, w, r0, c0, r, c + 1);
    BlockAlive(h, w, r0, c0, r + 1, c - 1); BlockAlive(h, w, r0, c0, r + 1, c); BlockAlive(h, w, r0, c0, r + 1, c + 1);
    BlockWindow(r0, c0, r, c);
  }

  lemma BlockCell(h: nat, w: nat, r0: int, c0: int, r: int, c: int)
    requires 0 <= r0 && r0 + 2 <= h && 0 <= c0 && c0 + 2 <= w
    requires 0 <= r < h && 0 <= c < w
    ensures Step(Block(h, w, r0, c0))[r][c] == Block(h, w, r0, c0)[r][c]
  {
    BlockCount(h, w, r0, c0, r, c);
  }

  /** An isolated 2×2 block is a still life, also when it touches the
      border of the grid. */
  lemma BlockIsStillLife(h: nat, w: nat, r0: int, c0: int)
    requires 0 <= r0 && r0 + 2 <= h && 0 <= c0 && c0 + 2 <= w
    ensures Step(Block(h, w, r0, c0)) == Block(h, w, r0, c0)
  {
    var g := Block(h, w, r0, c0);
    var s := Step(g);
    forall r | 0 <= r < h
      ensures s[r] == g[r]
    {
      forall c | 0 <= c < w
        ensures s[r][c] == g[r][c]
      {
        BlockCell(h, w, r0, c0, r, c);
      }
    }
  }

  /** The block stays unchanged for any number of generations. */
  lemma {:induction false} BlockStaysForever(h: nat, w: nat, r0: int, c0: int, k: nat)
    requires 0 <= r0 && r0 + 2 <= h && 0 <= c0 && c0 + 2 <= w
    ensures Iterate(Block(h, w, r0, c0), k) == Block(h, w, r0, c0)
  {
    if k > 0 {
      BlockIsStillLife(h, w, r0, c0);
      BlockStaysForever(h, w, r0, c0, k - 1);
    }
  }

  /** The standard glider on an 8×8 board, live at (0,1), (1,2), (2,0),
      (2,1) and (2,2), and its next phase, live at (1,0), (1,2), (2,1),
      (2,2) and (3,1). */
  predicate GliderLive(r: int, c: int)
  {
    (r == 0 && c == 1) || (r == 1 && c == 2) || (r == 2 && 0 <= c <= 2)
  }

  predicate GliderNextLive(r: int, c: int)
  {
    (r == 1 && (c == 0 || c == 2)) || (r == 2 && 1 <= c <= 2) || (r == 3 && c == 1)
  }

  function Glider(): (g: Grid)
    ensures IsGrid(g, 8, 8)
  {
    seq(8, r => seq(8, c => GliderLive(r, c)))
  }

  function GliderNext(): (g: Grid)
    ensures IsGrid(g, 8, 8)
  {
    seq(8, r => seq(8, c => GliderNextLive(r, c)))
  }

  lemma GliderAlive(r: int, c: int)
    ensures Alive(Glider(), r, c) == if GliderLive(r, c) then 1 else 0
  {
  }

  lemma GliderCount(r: int, c: int)
    ensures NextState(GliderLive(r, c), NeighborCount(Glider(), r, c)) == GliderNextLive(r, c)
  {
    GliderAlive(r - 1, c - 1); GliderAlive(r - 1, c); GliderAlive(r - 1, c + 1);
    GliderAlive(r, c - 1); GliderAlive(r, c + 1);
    GliderAlive(r + 1, c - 1); GliderAlive(r + 1, c); GliderAlive(r + 1, c + 1);
    if r < -1 || r > 3 || c < -1 || c > 3 {
    } else if r == -1 {
    } else if r == 0 {
    } else if r == 1 {
    } else if r == 2 {
    }
  }

  lemma GliderCell(r: int, c: int)
    requires 0 <= r < 8 && 0 <= c < 8
    ensures Step(Glider())[r][c] == GliderNext()[r][c]
  {
    GliderCount(r, c);
  }

  /** One generation moves the glider to its known next phase. */
  lemma GliderStep()
    ensures Step(Glider()) == GliderNext()
  {
    var s := Step(Glider());
    var t := GliderNext();
    forall r | 0 <= r < 8
      ensures s[r] == t[r]
    {
      forall c | 0 <= c < 8
        ensures s[r][c] == t[r][c]
      {
        GliderCell(r, c);
      }
    }
  }
}
