// The Game of Life board: a grid of numbered cells, the per-cell counts of
// live neighbours, and the operations the tick driver and the input layer
// call on it.
module Boards {
  import opened Cells
  import opened Life

  /** The life states of a grid of cells. */
  function StatesOf(cs: seq<seq<Cell>>): (g: Grid)
    ensures |g| == |cs|
    ensures forall r :: 0 <= r < |cs| ==> |g[r]| == |cs[r]|
    ensures forall r, c :: 0 <= r < |cs| && 0 <= c < |cs[r]| ==> g[r][c] == cs[r][c].cellState
  {
    seq(|cs|, r requires 0 <= r < |cs| =>
      seq(|cs[r]|, c requires 0 <= c < |cs[r]| => cs[r][c].cellState))
  }

  /** The cells of an `h` by `w` board are numbered 0, 1, 2, ... in
      row-major order. */
  ghost predicate Numbered(cs: seq<seq<Cell>>, h: nat, w: nat)
  {
    && |cs| == h
    && (forall r :: 0 <= r < h ==> |cs[r]| == w)
    && (forall r, c :: 0 <= r < h && 0 <= c < w ==> cs[r][c].cellNumber == r * w + c)
  }

  /** A manual toggle request for cell number `n` applied to every cell. */
  function ToggleAll(cs: seq<seq<Cell>>, n: int): (ts: seq<seq<Cell>>)
    ensures |ts| == |cs|
    ensures forall r :: 0 <= r < |cs| ==> |ts[r]| == |cs[r]|
  {
    seq(|cs|, r requires 0 <= r < |cs| =>
      seq(|cs[r]|, c requires 0 <= c < |cs[r]| => cs[r][c].Toggle(n)))
  }

  // ---- Cell numbers ----

  lemma MulNonNegative(a: int, b: int)
    requires 0 <= a && 0 <= b
    ensures 0 <= a * b
  {
  }

  lemma MulSplit(a: int, b: int, w: int)
    ensures (a + b) * w == a * w + b * w
  {
  }

  /** The number of the cell at row r, column c lies in 0 .. h*w-1. */
  lemma CellNumberInRange(h: nat, w: nat, r: int, c: int)
    requires 0 <= r < h && 0 <= c < w
    ensures 0 <= r * w + c < h * w
  {
    MulNonNegative(r, w);
    MulNonNegative(h - r - 1, w);
    MulSplit(r + 1, h - r - 1, w);
    MulSplit(r, 1, w);
  }

  /** Row and column are recovered from a cell number by division and
      remainder by the width. */
  lemma CellNumberPosition(w: nat, r: int, c: int)
    requires 0 <= r && 0 <= c < w
    ensures (r * w + c) / w == r && (r * w + c) % w == c
  {
    var n := r * w + c;
    var q, m := n / w, n % w;
    assert q * w + m == n;
    if q > r {
      MulNonNegative(q - r - 1, w);
      MulSplit(r, q - r - 1, w);
      MulSplit(r + (q - r - 1), 1, w);
      assert false;
    } else if q < r {
      MulNonNegative(r - q - 1, w);
      MulSplit(q, r - q - 1, w);
      MulSplit(q + (r - q - 1), 1, w);
      assert false;
    }
  }

  /** The row-major numbering of an `h` by `w` board is a bijection onto
      0 .. h*w-1: every number is in range, no number repeats, and every
      number in range belongs to the cell at (n / w, n % w). */
  lemma NumberingIsBijection(cs: seq<seq<Cell>>, h: nat, w: nat)
    requires Numbered(cs, h, w)
    ensures forall r, c :: 0 <= r < h && 0 <= c < w ==> 0 <= cs[r][c].cellNumber < h * w
    ensures forall r1, c1, r2, c2 ::
      (0 <= r1 < h && 0 <= c1 < w && 0 <= r2 < h && 0 <= c2 < w &&
       cs[r1][c1].cellNumber == cs[r2][c2].cellNumber) ==> r1 == r2 && c1 == c2
    ensures forall n :: 0 <= n < h * w ==> 0 <= n / w < h && 0 <= n % w < w && cs[n / w][n % w].cellNumber == n
  {
    forall r, c | 0 <= r < h && 0 <= c < w
      ensures 0 <= cs[r][c].cellNumber < h * w
    {
      CellNumberInRange(h, w, r, c);
    }
    forall r1, c1, r2, c2 |
      0 <= r1 < h && 0 <= c1 < w && 0 <= r2 < h && 0 <= c2 < w &&
      cs[r1][c1].cellNumber == cs[r2][c2].cellNumber
      ensures r1 == r2 && c1 == c2
    {
      CellNumberPosition(w, r1, c1);
      CellNumberPosition(w, r2, c2);
    }
    forall n | 0 <= n < h * w
      ensures 0 <= n / w < h && 0 <= n % w < w && cs[n / w][n % w].cellNumber == n
    {
      if w == 0 {
        assert false;
      }
      var r, c := n / w, n % w;
      assert n == r * w + c;
      if r >= h {
        MulNonNegative(r - h, w);
        MulSplit(h, r - h, w);
        assert false;
      }
    }
  }

  // ---- Manual toggles ----

  /** Two toggle requests for the same number give back the original cells. */
  lemma ToggleAllTwice(cs: seq<seq<Cell>>, n: int)
    ensures ToggleAll(ToggleAll(cs, n), n) == cs
  {
    var ts := ToggleAll(ToggleAll(cs, n), n);
    forall r | 0 <= r < |cs|
      ensures ts[r] == cs[r]
    {
      assert forall c :: 0 <= c < |cs[r]| ==> ts[r][c] == cs[r][c];
    }
  }

  /** On a numbered board, a toggle request for a number outside
      0 .. h*w-1 changes nothing. */
  lemma ToggleAllMissing(cs: seq<seq<Cell>>, h: nat, w: nat, n: int)
    requires Numbered(cs, h, w)
    requires n < 0 || h * w <= n
    ensures ToggleAll(cs, n) == cs
  {
    NumberingIsBijection(cs, h, w);
    var ts := ToggleAll(cs, n);
    forall r | 0 <= r < h
      ensures ts[r] == cs[r]
    {
      assert forall c :: 0 <= c < w ==> ts[r][c] == cs[r][c];
    }
  }

  /** On a numbered board, a toggle request for a number n in 0 .. h*w-1
      flips the cell at row n / w, column n % w, and no other; numbers
      never change. */
  lemma ToggleAllHitsOne(cs: seq<seq<Cell>>, h: nat, w: nat, n: int)
    requires Numbered(cs, h, w)
    requires 0 <= n < h * w
    ensures forall r, c :: 0 <= r < h && 0 <= c < w ==>
      ToggleAll(cs, n)[r][c].cellNumber == cs[r][c].cellNumber
    ensures forall r, c :: 0 <= r < h && 0 <= c < w ==>
      (ToggleAll(cs, n)[r][c].cellState != cs[r][c].cellState <==> r == n / w && c == n % w)
  {
    NumberingIsBijection(cs, h, w);
    forall r, c | 0 <= r < h && 0 <= c < w
      ensures ToggleAll(cs, n)[r][c].cellState != cs[r][c].cellState <==> r == n / w && c == n % w
    {
      CellNumberPosition(w, r, c);
    }
  }

  lemma TakeOneMore<T>(s: seq<T>, i: int)
    requires 0 <= i < |s|
    ensures s[..i + 1] == s[..i] + [s[i]]
  {
  }

  /** Cells moved on one by one by the rule give the grid moved on by the rule. */
  lemma AdvanceCells(before: seq<seq<Cell>>, after: seq<seq<Cell>>, n: seq<seq<int>>)
    requires |after| == |before| == |n|
    requires forall r :: 0 <= r < |before| ==> |after[r]| == |before[r]| == |n[r]|
    requires forall r, c :: 0 <= r < |before| && 0 <= c < |before[r]| ==>
      after[r][c].cellState == NextState(before[r][c].cellState, n[r][c])
    ensures StatesOf(after) == Advance(StatesOf(before), n)
  {
    var s, t := StatesOf(after), Advance(StatesOf(before), n);
    forall r | 0 <= r < |before|
      ensures s[r] == t[r]
    {
      assert forall c :: 0 <= c < |before[r]| ==> s[r][c] == t[r][c];
    }
  }

  class Board {
    const width: nat
    const height: nat
    /** Stored as given; the initial states are always drawn per cell. */
    const random: bool
    var board: array2<Cell>
    var length: nat
    /** Live-neighbour counts, one row per board row once computed; empty before. */
    var surroundingsMap: seq<seq<int>>

    ghost predicate Valid()
      reads this`board, this`length, board
    {
      && board.Length0 == height && board.Length1 == width
      && length == height
      && forall r, c :: 0 <= r < height && 0 <= c < width ==> board[r, c].cellNumber == r * width + c
    }

    /** The cells, row by row. */
    ghost function Cells(): (cs: seq<seq<Cell>>)
      reads this`board, board
      ensures |cs| == board.Length0
      ensures forall r :: 0 <= r < board.Length0 ==> |cs[r]| == board.Length1
      ensures forall r, c :: 0 <= r < board.Length0 && 0 <= c < board.Length1 ==> cs[r][c] == board[r, c]
    {
      var a := board;
      seq(a.Length0, r requires 0 <= r < a.Length0 reads a =>
        seq(a.Length1, c requires 0 <= c < a.Length1 reads a => a[r, c]))
    }

    /** The life states of the cells, row by row. */
    ghost function States(): Grid
      reads this`board, board
    {
      StatesOf(Cells())
    }

    /** A `height` by `width` board whose cell at row r, column c has
        number r * width + c and state `initial` of that number (main.js
        draws each initial state at random). */
    constructor(width: nat, height: nat, random: bool, initial: int -> bool)
      ensures Valid() && fresh(board)
      ensures this.width == width && this.height == height && this.random == random
      ensures forall r, c :: 0 <= r < height && 0 <= c < width ==>
        board[r, c] == Cell(r * width + c, initial(r * width + c))
      ensures surroundingsMap == []
    {
      this.width := width;
      this.height := height;
      this.random := random;
      board := new Cell[0, 0];
      length := 0;
      surroundingsMap := [];
      new;
      CreateCells(initial);
      length := board.Length0;
    }

    /** Fills the board with `height` rows of `width` fresh cells, numbered
        by a counter that runs through the rows in order. */
    method CreateCells(initial: int -> bool)
      modifies this
      ensures fresh(board) && board.Length0 == height && board.Length1 == width
      ensures forall r, c :: 0 <= r < height && 0 <= c < width ==>
        board[r, c] == Cell(r * width + c, initial(r * width + c))
      ensures length == old(length) && surroundingsMap == old(surroundingsMap)
    {
      var cells := new Cell[height, width];
      var cellNumber := 0;
      var i := 0;
      while i < height
        modifies cells
        invariant 0 <= i <= height
        invariant cellNumber == i * width
        invariant forall r, c :: 0 <= r < i && 0 <= c < width ==>
          cells[r, c] == Cell(r * width + c, initial(r * width + c))
      {
        var j := 0;
        while j < width
          modifies cells
          invariant 0 <= j <= width
          invariant cellNumber == i * width + j
          invariant forall r, c :: 0 <= r < i && 0 <= c < width ==>
            cells[r, c] == Cell(r * width + c, initial(r * width + c))
          invariant forall c :: 0 <= c < j ==> cells[i, c] == Cell(i * width + c, initial(i * width + c))
        {
          cells[i, j] := Cell(cellNumber, initial(cellNumber));
          cellNumber := cellNumber + 1;
          j := j + 1;
        }
        assert (i + 1) * width == i * width + width;
        i := i + 1;
      }
      board := cells;
    }

    /** A snapshot of the board as 0/1 values, one per cell. */
    method GetBoardState() returns (state: seq<seq<int>>)
      requires Valid()
      ensures |state| == height
      ensures forall r :: 0 <= r < height ==> |state[r]| == width
      ensures forall r, c :: 0 <= r < height && 0 <= c < width ==>
        (state[r][c] == 0 || state[r][c] == 1) && (state[r][c] == 1 <==> States()[r][c])
    {
      state := [];
      var j := 0;
      while j < height
        invariant 0 <= j <= height
        invariant |state| == j
        invariant forall r :: 0 <= r < j ==> |state[r]| == width
        invariant forall r, c :: 0 <= r < j && 0 <= c < width ==> state[r][c] == board[r, c].IsAlive()
      {
        var newRow := [];
        var i := 0;
        while i < width
          invariant 0 <= i <= width
          invariant |newRow| == i
          invariant forall c :: 0 <= c < i ==> newRow[c] == board[j, c].IsAlive()
        {
          newRow := newRow + [board[j, i].IsAlive()];
          i := i + 1;
        }
        state := state + [newRow];
        j := j + 1;
      }
    }

    /** Recomputes `surroundingsMap`: for every cell, the number of live
        cells among its in-grid neighbours. The eight neighbour slots are
        filled case by case (corners, edges, interior), slots that fall off
        the grid staying 0, and then added up. main.js reads the row
        below and the column to the right without a guard, so a board with
        one row or one column is not accepted. */
    method BoardSlider() returns (counts: seq<seq<int>>)
      requires Valid()
      requires height == 0 || width == 0 || (2 <= height && 2 <= width)
      modifies this`surroundingsMap
      ensures counts == surroundingsMap == Counts(States())
      ensures |counts| == height
      ensures forall r :: 0 <= r < height ==> |counts[r]| == width
    {
      ghost var g := States();
      ghost var want := Counts(g);
      counts := [];
      var j := 0;
      while j < height
        invariant 0 <= j <= height
        invariant counts == want[..j]
      {
        var row := [];
        var i := 0;
        while i < width
          invariant 0 <= i <= width
          invariant row == want[j][..i]
        {
          var sum := Slide(g, j, i);
          TakeOneMore(want[j], i);
          row := row + [sum];
          i := i + 1;
        }
        assert row == want[j];
        TakeOneMore(want, j);
        counts := counts + [row];
        j := j + 1;
      }
      assert counts == want;
      surroundingsMap := counts;
      assert States() == g;
    }

    /** The count for the cell at row j, column i, as main.js's sliding
        window computes it. */
    method Slide(ghost g: Grid, j: nat, i: nat) returns (sum: int)
      requires Valid() && g == States()
      requires j < height && i < width && 2 <= height && 2 <= width
      ensures sum == NeighborCount(g, j, i)
    {
      assert forall r, c :: 0 <= r < height && 0 <= c < width ==> board[r, c].IsAlive() == Alive(g, r, c);
      var topLeft, top, topRight, left, right, bottomLeft, bottom, bottomRight := 0, 0, 0, 0, 0, 0, 0, 0;
      if j == 0 {
        // top row: nothing above
        if i == 0 {
          right := board[j, i + 1].IsAlive();
          bottom := board[j + 1, i].IsAlive();
          bottomRight := board[j + 1, i + 1].IsAlive();
        } else if i == width - 1 {
          left := board[j, i - 1].IsAlive();
          bottomLeft := board[j + 1, i - 1].IsAlive();
          bottom := board[j + 1, i].IsAlive();
        } else {
          left := board[j, i - 1].IsAlive();
          right := board[j, i + 1].IsAlive();
          bottomLeft := board[j + 1, i - 1].IsAlive();
          bottom := board[j + 1, i].IsAlive();
          bottomRight := board[j + 1, i + 1].IsAlive();
        }
      } else if j == height - 1 {
        // bottom row: nothing below
        if i == 0 {
          top := board[j - 1, i].IsAlive();
          topRight := board[j - 1, i + 1].IsAlive();
          right := board[j, i + 1].IsAlive();
        } else if i == width - 1 {
          topLeft := board[j - 1, i - 1].IsAlive();
          top := board[j - 1, i].IsAlive();
          left := board[j, i - 1].IsAlive();
        } else {
          topLeft := board[j - 1, i - 1].IsAlive();
          top := board[j - 1, i].IsAlive();
          topRight := board[j - 1, i + 1].IsAlive();
          left := board[j, i - 1].IsAlive();
          right := board[j, i + 1].IsAlive();
        }
      } else {
        if i == 0 {
          top := board[j - 1, i].IsAlive();
          topRight := board[j - 1, i + 1].IsAlive();
          right := board[j, i + 1].IsAlive();
          bottom := board[j + 1, i].IsAlive();
          bottomRight := board[j + 1, i + 1].IsAlive();
        } else if i == width - 1 {
          topLeft := board[j - 1, i - 1].IsAlive();
          top := board[j - 1, i].IsAlive();
          left := board[j, i - 1].IsAlive();
          bottomLeft := board[j + 1, i - 1].IsAlive();
          bottom := board[j + 1, i].IsAlive();
        } else {
          topLeft := board[j - 1, i - 1].IsAlive();
          top := board[j - 1, i].IsAlive();
          topRight := board[j - 1, i + 1].IsAlive();
          left := board[j, i - 1].IsAlive();
          right := board[j, i + 1].IsAlive();
          bottomLeft := board[j + 1, i - 1].IsAlive();
          bottom := board[j + 1, i].IsAlive();
          bottomRight := board[j + 1, i + 1].IsAlive();
        }
      }
      var slider := [topLeft, top, topRight, left, right, bottomLeft, bottom, bottomRight];
      assert slider == Window(g, j, i);
      sum := 0;
      var x := 0;
      assert slider[0..] == slider;
      while x < |slider|
        invariant 0 <= x <= |slider|
        invariant sum + Sum(slider[x..]) == Sum(slider)
      {
        SumSuffix(slider, x);
        sum := sum + slider[x];
        x := x + 1;
      }
      WindowSum(g, j, i);
    }

    /** Moves every cell to its next generation by the B3/S23 rule, reading
        the counts computed beforehand; only the life states change. */
    method CalculateNextGeneration()
      requires Valid()
      requires width == 0 || (|surroundingsMap| == height && forall r :: 0 <= r < height ==> |surroundingsMap[r]| == width)
      modifies board
      ensures Valid()
      ensures forall r, c :: 0 <= r < height && 0 <= c < width ==>
        board[r, c] == old(board[r, c]).(cellState := NextState(old(board[r, c]).cellState, surroundingsMap[r][c]))
      ensures width == 0 || States() == Advance(old(States()), surroundingsMap)
    {
      var j := 0;
      while j < height
        invariant 0 <= j <= height
        invariant forall r, c :: 0 <= r < j && 0 <= c < width ==>
          board[r, c] == old(board[r, c]).(cellState := NextState(old(board[r, c]).cellState, surroundingsMap[r][c]))
        invariant forall r, c :: j <= r < height && 0 <= c < width ==> board[r, c] == old(board[r, c])
      {
        var i := 0;
        while i < width
          invariant 0 <= i <= width
          invariant forall r, c :: 0 <= r < j && 0 <= c < width ==>
            board[r, c] == old(board[r, c]).(cellState := NextState(old(board[r, c]).cellState, surroundingsMap[r][c]))
          invariant forall c :: 0 <= c < i ==>
            board[j, c] == old(board[j, c]).(cellState := NextState(old(board[j, c]).cellState, surroundingsMap[j][c]))
          invariant forall r, c :: (j < r < height && 0 <= c < width) || (r == j && i <= c < width) ==>
            board[r, c] == old(board[r, c])
        {
          var cell := board[j, i];
          if cell.IsAlive() == 1 {
            if surroundingsMap[j][i] < 2 {
              board[j, i] := cell.(cellState := false);
            } else if surroundingsMap[j][i] > 3 {
              board[j, i] := cell.(cellState := false);
            } else if surroundingsMap[j][i] == 2 || surroundingsMap[j][i] == 3 {
              // stays alive
            }
          } else {
            if surroundingsMap[j][i] == 3 {
              board[j, i] := cell.(cellState := true);
            }
          }
          i := i + 1;
        }
        j := j + 1;
      }
      if width != 0 {
        AdvanceCells(old(Cells()), Cells(), surroundingsMap);
      }
    }

    /** Flips the state of the cell whose number is `cellNumber`; every
        other cell, and the board when no cell has that number, is left as
        it was. */
    method SetCellManually(cellNumber: int)
      requires Valid()
      modifies board
      ensures Valid()
      ensures Cells() == ToggleAll(old(Cells()), cellNumber)
      ensures cellNumber < 0 || height * width <= cellNumber ==> Cells() == old(Cells())
      ensures 0 <= cellNumber < height * width ==>
        forall r, c :: 0 <= r < height && 0 <= c < width ==>
          (board[r, c] != old(board[r, c]) <==> r == cellNumber / width && c == cellNumber % width)
    {
      var j := 0;
      while j < height
        invariant 0 <= j <= height
        invariant forall r, c :: 0 <= r < j && 0 <= c < width ==> board[r, c] == old(board[r, c]).Toggle(cellNumber)
        invariant forall r, c :: j <= r < height && 0 <= c < width ==> board[r, c] == old(board[r, c])
      {
        var i := 0;
        while i < width
          invariant 0 <= i <= width
          invariant forall r, c :: 0 <= r < j && 0 <= c < width ==> board[r, c] == old(board[r, c]).Toggle(cellNumber)
          invariant forall c :: 0 <= c < i ==> board[j, c] == old(board[j, c]).Toggle(cellNumber)
          invariant forall r, c :: (j < r < height && 0 <= c < width) || (r == j && i <= c < width) ==>
            board[r, c] == old(board[r, c])
        {
          var cell := board[j, i];
          if cell.cellNumber == cellNumber && cell.IsAlive() == 1 {
            board[j, i] := cell.(cellState := false);
          } else if cell.cellNumber == cellNumber && cell.IsAlive() == 0 {
            board[j, i] := cell.(cellState := true);
          }
          i := i + 1;
        }
        j := j + 1;
      }
      ghost var before := old(Cells());
      ghost var after := Cells();
      assert forall r :: 0 <= r < height ==> after[r] == ToggleAll(before, cellNumber)[r];
      assert Numbered(before, height, width);
      if cellNumber < 0 || height * width <= cellNumber {
        ToggleAllMissing(before, height, width, cellNumber);
      } else {
        ToggleAllHitsOne(before, height, width, cellNumber);
      }
    }

    /** One tick of the driver: counts for the current generation, then the
        move to the next. The whole board advances as one synchronous step. */
    method Tick()
      requires Valid()
      requires height == 0 || width == 0 || (2 <= height && 2 <= width)
      modifies this`surroundingsMap, board
      ensures Valid()
      ensures States() == Step(old(States()))
      ensures surroundingsMap == Counts(old(States()))
      ensures |surroundingsMap| == height
      ensures forall r :: 0 <= r < height ==> |surroundingsMap[r]| == width
    {
      ghost var g := States();
      var counts := BoardSlider();
      CalculateNextGeneration();
      StepIsAdvanceOfCounts(g);
      if width == 0 {
        ghost var s, t := States(), Step(g);
        assert forall r :: 0 <= r < height ==> s[r] == [] == t[r];
      }
    }
  }
}
