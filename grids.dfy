/** The board as a value: a rows x cols grid of cells, the four directions,
    the line of cells each direction moves along, and the specification of a
    whole directional move, of loss, of winning and of a spawn. */
module Grids {
  import opened Lines

  datatype Dir = Left | Right | Up | Down

  type Grid = seq<seq<int>>

  predicate IsGrid(g: Grid, rows: nat, cols: nat) {
    |g| == rows && forall r :: 0 <= r < rows ==> |g[r]| == cols
  }

  predicate NonnegGrid(g: Grid, rows: nat, cols: nat)
    requires IsGrid(g, rows, cols)
  {
    forall r, c :: 0 <= r < rows && 0 <= c < cols ==> g[r][c] >= 0
  }

  /** Every cell is empty or holds a power of two no smaller than 2. */
  ghost predicate TileGrid(g: Grid, rows: nat, cols: nat)
    requires IsGrid(g, rows, cols)
  {
    forall r, c :: 0 <= r < rows && 0 <= c < cols ==> IsTile(g[r][c])
  }

  /** Rows move along for Left and Right, columns for Up and Down. */
  function LineCount(d: Dir, rows: nat, cols: nat): nat {
    if d == Left || d == Right then rows else cols
  }

  function LineLen(d: Dir, rows: nat, cols: nat): nat {
    if d == Left || d == Right then cols else rows
  }

  /** Row of the i-th cell of line k, counted from the edge the tiles move toward. */
  function PosR(d: Dir, rows: nat, cols: nat, k: nat, i: nat): (r: nat)
    requires k < LineCount(d, rows, cols) && i < LineLen(d, rows, cols)
    ensures r < rows
  {
    match d
    case Left => k
    case Right => k
    case Up => i
    case Down => rows - 1 - i
  }

  /** Column of the i-th cell of line k, counted from the edge the tiles move toward. */
  function PosC(d: Dir, rows: nat, cols: nat, k: nat, i: nat): (c: nat)
    requires k < LineCount(d, rows, cols) && i < LineLen(d, rows, cols)
    ensures c < cols
  {
    match d
    case Left => i
    case Right => cols - 1 - i
    case Up => k
    case Down => k
  }

  /** The line that cell (r, c) belongs to. */
  function LineOf(d: Dir, rows: nat, cols: nat, r: nat, c: nat): (k: nat)
    requires r < rows && c < cols
    ensures k < LineCount(d, rows, cols)
  {
    if d == Left || d == Right then r else c
  }

  /** The position of cell (r, c) along its line. */
  function IndexOf(d: Dir, rows: nat, cols: nat, r: nat, c: nat): (i: nat)
    requires r < rows && c < cols
    ensures i < LineLen(d, rows, cols)
  {
    match d
    case Left => c
    case Right => cols - 1 - c
    case Up => r
    case Down => rows - 1 - r
  }

  /** (LineOf, IndexOf) and (PosR, PosC) are inverse to each other. */
  lemma PosInverse(d: Dir, rows: nat, cols: nat, k: nat, i: nat)
    requires k < LineCount(d, rows, cols) && i < LineLen(d, rows, cols)
    ensures LineOf(d, rows, cols, PosR(d, rows, cols, k, i), PosC(d, rows, cols, k, i)) == k
    ensures IndexOf(d, rows, cols, PosR(d, rows, cols, k, i), PosC(d, rows, cols, k, i)) == i
  {
  }

  lemma CellInverse(d: Dir, rows: nat, cols: nat, r: nat, c: nat)
    requires r < rows && c < cols
    ensures PosR(d, rows, cols, LineOf(d, rows, cols, r, c), IndexOf(d, rows, cols, r, c)) == r
    ensures PosC(d, rows, cols, LineOf(d, rows, cols, r, c), IndexOf(d, rows, cols, r, c)) == c
  {
  }

  /** Line k of g in direction d, read from the edge the tiles move toward. */
  function Line(g: Grid, rows: nat, cols: nat, d: Dir, k: nat): (s: seq<int>)
    requires IsGrid(g, rows, cols) && k < LineCount(d, rows, cols)
    ensures |s| == LineLen(d, rows, cols)
  {
    seq(LineLen(d, rows, cols), i requires 0 <= i < LineLen(d, rows, cols) =>
      g[PosR(d, rows, cols, k, i)][PosC(d, rows, cols, k, i)])
  }

  function Column(g: Grid, rows: nat, cols: nat, c: nat): (s: seq<int>)
    requires IsGrid(g, rows, cols) && c < cols
    ensures |s| == rows
  {
    seq(rows, r requires 0 <= r < rows => g[r][c])
  }

  /** Result of a whole move: the new grid, the reward, and the change flag. */
  datatype Moved = Moved(grid: Grid, reward: int, changed: bool)

  /** The results of sliding each line of g in direction d. */
  function Slides(g: Grid, rows: nat, cols: nat, d: Dir): (ls: seq<Slid>)
    requires IsGrid(g, rows, cols)
    ensures |ls| == LineCount(d, rows, cols)
  {
    seq(LineCount(d, rows, cols), k requires 0 <= k < LineCount(d, rows, cols) => Slide(Line(g, rows, cols, d, k)))
  }

  /** Some line result among ls raised its flag. */
  predicate AnyChanged(ls: seq<Slid>) {
    |ls| > 0 && (AnyChanged(ls[..|ls| - 1]) || ls[|ls| - 1].changed)
  }

  /** The rewards of the line results ls, added up. */
  function RewardSum(ls: seq<Slid>): int {
    if |ls| == 0 then 0 else RewardSum(ls[..|ls| - 1]) + ls[|ls| - 1].reward
  }

  /** A directional move: every line in direction d is slid independently.
      The reward is the sum of the lines' rewards and the flag is set when
      some line's flag is. */
  function MoveGrid(g: Grid, rows: nat, cols: nat, d: Dir): (m: Moved)
    requires IsGrid(g, rows, cols)
    ensures IsGrid(m.grid, rows, cols)
  {
    Moved(
      seq(rows, r requires 0 <= r < rows =>
        seq(cols, c requires 0 <= c < cols =>
          Slide(Line(g, rows, cols, d, LineOf(d, rows, cols, r, c))).line[IndexOf(d, rows, cols, r, c)])),
      RewardSum(Slides(g, rows, cols, d)),
      AnyChanged(Slides(g, rows, cols, d)))
  }

  /** The flag accumulated over line results is up exactly when one of them is. */
  lemma {:induction false} AnyChangedSome(ls: seq<Slid>)
    ensures AnyChanged(ls) <==> exists k :: 0 <= k < |ls| && ls[k].changed
  {
    if |ls| > 0 {
      AnyChangedSome(ls[..|ls| - 1]);
      assert forall k :: 0 <= k < |ls| - 1 ==> ls[..|ls| - 1][k] == ls[k];
    }
  }

  /** Rewards that are never negative add up to a total that is never
      negative, and that is zero exactly when every reward is. */
  lemma {:induction false} RewardSumSpec(ls: seq<Slid>)
    requires forall k :: 0 <= k < |ls| ==> ls[k].reward >= 0
    ensures RewardSum(ls) >= 0
    ensures RewardSum(ls) == 0 <==> forall k :: 0 <= k < |ls| ==> ls[k].reward == 0
  {
    if |ls| > 0 {
      var front := ls[..|ls| - 1];
      assert forall k :: 0 <= k < |front| ==> front[k] == ls[k];
      RewardSumSpec(front);
    }
  }

  /** No empty cell. */
  predicate FullGrid(g: Grid, rows: nat, cols: nat)
    requires IsGrid(g, rows, cols)
  {
    forall r, c :: 0 <= r < rows && 0 <= c < cols ==> g[r][c] != 0
  }

  /** Cell (r, c) has a right neighbour holding the same value. */
  predicate SameAsRight(g: Grid, rows: nat, cols: nat, r: nat, c: nat)
    requires IsGrid(g, rows, cols) && r < rows && c < cols
  {
    c + 1 < cols && g[r][c] == g[r][c + 1]
  }

  /** Cell (r, c) has a lower neighbour holding the same value. */
  predicate SameAsBelow(g: Grid, rows: nat, cols: nat, r: nat, c: nat)
    requires IsGrid(g, rows, cols) && r < rows && c < cols
  {
    r + 1 < rows && g[r][c] == g[r + 1][c]
  }

  /** No cell equals its right or its lower neighbour. */
  predicate NoEqualNeighbours(g: Grid, rows: nat, cols: nat)
    requires IsGrid(g, rows, cols)
  {
    forall r, c :: 0 <= r < rows && 0 <= c < cols ==> !SameAsRight(g, rows, cols, r, c) && !SameAsBelow(g, rows, cols, r, c)
  }

  /** The game is lost: the board is full and no two neighbours are equal. */
  predicate Lost(g: Grid, rows: nat, cols: nat)
    requires IsGrid(g, rows, cols)
  {
    FullGrid(g, rows, cols) && NoEqualNeighbours(g, rows, cols)
  }

  /** The winning tile grows with the board: 2 to the power 1 + rows * cols. */
  function WinTile(rows: nat, cols: nat): nat {
    Pow2(1 + rows * cols)
  }

  predicate Won(g: Grid, rows: nat, cols: nat)
    requires IsGrid(g, rows, cols)
  {
    exists r, c :: 0 <= r < rows && 0 <= c < cols && g[r][c] == WinTile(rows, cols)
  }

  /** Winning and losing are not exclusive: a full 1 x 2 board holding the
      winning tile 8 next to a different tile is both. */
  lemma WonAndLost()
    ensures IsGrid([[8, 2]], 1, 2)
    ensures Won([[8, 2]], 1, 2) && Lost([[8, 2]], 1, 2)
  {
    var g: Grid := [[8, 2]];
    assert g[0][0] == WinTile(1, 2);
  }

  /** after is before with exactly one previously empty cell set to one of the spawn values. */
  predicate Spawned(before: Grid, after: Grid, rows: nat, cols: nat, values: seq<int>)
    requires IsGrid(before, rows, cols) && IsGrid(after, rows, cols)
  {
    exists r, c :: 0 <= r < rows && 0 <= c < cols && before[r][c] == 0
      && after == before[r := before[r][c := after[r][c]]] && after[r][c] in values
  }

  function EmptyGrid(rows: nat, cols: nat): (g: Grid)
    ensures IsGrid(g, rows, cols)
  {
    seq(rows, _ => Zeros(cols))
  }

  // ---------------------------------------------------------------------
  // Spawning

  /** Coordinates as random_inboard_coord draws them: a row and a column
      inside the board. */
  predicate InBoard(draws: seq<(int, int)>, rows: nat, cols: nat) {
    forall j :: 0 <= j < |draws| ==> 0 <= draws[j].0 < rows && 0 <= draws[j].1 < cols
  }

  /** Some draw names an empty cell of g, so the rejection loop of
      random_spawn stops on these draws. */
  predicate HitsEmpty(g: Grid, rows: nat, cols: nat, draws: seq<(int, int)>)
    requires IsGrid(g, rows, cols) && InBoard(draws, rows, cols)
  {
    exists j :: 0 <= j < |draws| && g[draws[j].0][draws[j].1] == 0
  }

  /** The draw the rejection loop stops at: the first one naming an empty cell. */
  function FirstEmpty(g: Grid, rows: nat, cols: nat, draws: seq<(int, int)>): (j: nat)
    requires IsGrid(g, rows, cols) && InBoard(draws, rows, cols) && HitsEmpty(g, rows, cols, draws)
    ensures j < |draws| && g[draws[j].0][draws[j].1] == 0
    ensures forall i :: 0 <= i < j ==> g[draws[i].0][draws[i].1] != 0
  {
    if g[draws[0].0][draws[0].1] == 0 then 0
    else
      assert HitsEmpty(g, rows, cols, draws[1..]) by {
        var j :| 0 <= j < |draws| && g[draws[j].0][draws[j].1] == 0;
        assert draws[1..][j - 1] == draws[j];
      }
      1 + FirstEmpty(g, rows, cols, draws[1..])
  }

  /** g with value v written into cell (r, c): that cell holds v and every
      other cell is as in g. */
  function SpawnAt(g: Grid, rows: nat, cols: nat, r: nat, c: nat, v: int): (h: Grid)
    requires IsGrid(g, rows, cols) && r < rows && c < cols
    ensures IsGrid(h, rows, cols) && h[r][c] == v
    ensures forall r', c' :: 0 <= r' < rows && 0 <= c' < cols && (r', c') != (r, c) ==> h[r'][c'] == g[r'][c']
  {
    g[r := g[r][c := v]]
  }

  /** Writing a spawn value into an empty cell is a spawn, and it keeps the
      cells non-negative, and tiles, when the value is. */
  lemma SpawnAtSpawned(g: Grid, rows: nat, cols: nat, r: nat, c: nat, v: int, values: seq<int>)
    requires IsGrid(g, rows, cols) && r < rows && c < cols && g[r][c] == 0 && v in values
    ensures Spawned(g, SpawnAt(g, rows, cols, r, c, v), rows, cols, values)
    ensures NonnegGrid(g, rows, cols) && v >= 0 ==> NonnegGrid(SpawnAt(g, rows, cols, r, c, v), rows, cols)
    ensures TileGrid(g, rows, cols) && IsTile(v) ==> TileGrid(SpawnAt(g, rows, cols, r, c, v), rows, cols)
  {
    var h := SpawnAt(g, rows, cols, r, c, v);
    assert h == g[r := g[r][c := h[r][c]]];
  }

  /** On an empty board every draw names an empty cell. */
  lemma EmptyGridHits(rows: nat, cols: nat, draws: seq<(int, int)>)
    requires InBoard(draws, rows, cols) && |draws| > 0
    ensures HitsEmpty(EmptyGrid(rows, cols), rows, cols, draws)
    ensures FirstEmpty(EmptyGrid(rows, cols), rows, cols, draws) == 0
  {
    assert EmptyGrid(rows, cols)[draws[0].0][draws[0].1] == 0;
  }

  // ---------------------------------------------------------------------
  // The mirrored directions

  /** Right reads a row backwards, Up reads a column, Down reads a column backwards. */
  lemma LineViews(g: Grid, rows: nat, cols: nat, k: nat)
    requires IsGrid(g, rows, cols)
    ensures k < rows ==> Line(g, rows, cols, Left, k) == g[k]
    ensures k < rows ==> Line(g, rows, cols, Right, k) == Reverse(g[k])
    ensures k < cols ==> Line(g, rows, cols, Up, k) == Column(g, rows, cols, k)
    ensures k < cols ==> Line(g, rows, cols, Down, k) == Reverse(Column(g, rows, cols, k))
  {
  }

  /** Each line of the moved grid is the slid line of the original. */
  lemma MovedLine(g: Grid, rows: nat, cols: nat, d: Dir, k: nat)
    requires IsGrid(g, rows, cols) && k < LineCount(d, rows, cols)
    ensures Line(MoveGrid(g, rows, cols, d).grid, rows, cols, d, k) == Slide(Line(g, rows, cols, d, k)).line
  {
    var h := MoveGrid(g, rows, cols, d).grid;
    var v := Slide(Line(g, rows, cols, d, k)).line;
    forall i | 0 <= i < LineLen(d, rows, cols) ensures Line(h, rows, cols, d, k)[i] == v[i] {
      var r, c := PosR(d, rows, cols, k, i), PosC(d, rows, cols, k, i);
      PosInverse(d, rows, cols, k, i);
      assert Line(h, rows, cols, d, k)[i] == h[r][c];
    }
  }

  /** Right, Up and Down are Left applied to the reversed row, to the column,
      and to the reversed column. */
  lemma MirroredMoves(g: Grid, rows: nat, cols: nat, k: nat)
    requires IsGrid(g, rows, cols)
    ensures k < rows ==> MoveGrid(g, rows, cols, Left).grid[k] == Slide(g[k]).line
    ensures k < rows ==> MoveGrid(g, rows, cols, Right).grid[k] == Reverse(Slide(Reverse(g[k])).line)
    ensures k < cols ==> Column(MoveGrid(g, rows, cols, Up).grid, rows, cols, k) == Slide(Column(g, rows, cols, k)).line
    ensures k < cols ==> Column(MoveGrid(g, rows, cols, Down).grid, rows, cols, k)
                         == Reverse(Slide(Reverse(Column(g, rows, cols, k))).line)
  {
    if k < rows {
      LineViews(g, rows, cols, k);
      MovedLine(g, rows, cols, Left, k);
      MovedLine(g, rows, cols, Right, k);
      LineViews(MoveGrid(g, rows, cols, Left).grid, rows, cols, k);
      LineViews(MoveGrid(g, rows, cols, Right).grid, rows, cols, k);
      ReverseReverse(MoveGrid(g, rows, cols, Right).grid[k]);
    }
    if k < cols {
      LineViews(g, rows, cols, k);
      MovedLine(g, rows, cols, Up, k);
      MovedLine(g, rows, cols, Down, k);
      LineViews(MoveGrid(g, rows, cols, Up).grid, rows, cols, k);
      LineViews(MoveGrid(g, rows, cols, Down).grid, rows, cols, k);
      ReverseReverse(Column(MoveGrid(g, rows, cols, Down).grid, rows, cols, k));
    }
  }

  /** g with its first n lines in direction d slid and the others as they
      were: the board part-way through a move, which handles one line at a
      time. */
  function Partial(g: Grid, rows: nat, cols: nat, d: Dir, n: nat): (h: Grid)
    requires IsGrid(g, rows, cols)
    ensures IsGrid(h, rows, cols)
  {
    seq(rows, r requires 0 <= r < rows =>
      seq(cols, c requires 0 <= c < cols =>
        var k := LineOf(d, rows, cols, r, c);
        if k < n then Slide(Line(g, rows, cols, d, k)).line[IndexOf(d, rows, cols, r, c)] else g[r][c]))
  }

  /** h with line k in direction d replaced by v. */
  function SetLine(h: Grid, rows: nat, cols: nat, d: Dir, k: nat, v: seq<int>): (h': Grid)
    requires IsGrid(h, rows, cols) && k < LineCount(d, rows, cols) && |v| == LineLen(d, rows, cols)
    ensures IsGrid(h', rows, cols)
  {
    seq(rows, r requires 0 <= r < rows =>
      seq(cols, c requires 0 <= c < cols =>
        if LineOf(d, rows, cols, r, c) == k then v[IndexOf(d, rows, cols, r, c)] else h[r][c]))
  }

  lemma PartialStart(g: Grid, rows: nat, cols: nat, d: Dir)
    requires IsGrid(g, rows, cols)
    ensures Partial(g, rows, cols, d, 0) == g
  {
    SameCells(Partial(g, rows, cols, d, 0), g, rows, cols);
  }

  /** A line not yet handled still reads as in g. */
  lemma PartialLine(g: Grid, rows: nat, cols: nat, d: Dir, n: nat)
    requires IsGrid(g, rows, cols) && n < LineCount(d, rows, cols)
    ensures Line(Partial(g, rows, cols, d, n), rows, cols, d, n) == Line(g, rows, cols, d, n)
  {
    var h := Partial(g, rows, cols, d, n);
    forall i | 0 <= i < LineLen(d, rows, cols)
      ensures Line(h, rows, cols, d, n)[i] == Line(g, rows, cols, d, n)[i]
    {
      PosInverse(d, rows, cols, n, i);
    }
  }

  /** Replacing the next line by its slid form handles one more line. */
  lemma PartialStep(g: Grid, rows: nat, cols: nat, d: Dir, n: nat)
    requires IsGrid(g, rows, cols) && n < LineCount(d, rows, cols)
    ensures SetLine(Partial(g, rows, cols, d, n), rows, cols, d, n, Slide(Line(g, rows, cols, d, n)).line)
         == Partial(g, rows, cols, d, n + 1)
  {
    var v := Slide(Line(g, rows, cols, d, n)).line;
    var before, after := Partial(g, rows, cols, d, n), Partial(g, rows, cols, d, n + 1);
    var h := SetLine(before, rows, cols, d, n, v);
    forall r, c | 0 <= r < rows && 0 <= c < cols ensures h[r][c] == after[r][c] {
      if LineOf(d, rows, cols, r, c) != n {
        assert h[r][c] == before[r][c];
      }
    }
    SameCells(h, after, rows, cols);
  }

  /** Handling line n adds its flag and its reward to those of the lines
      before it. */
  lemma AccumulateLine(g: Grid, rows: nat, cols: nat, d: Dir, n: nat)
    requires IsGrid(g, rows, cols) && n < LineCount(d, rows, cols)
    ensures AnyChanged(Slides(g, rows, cols, d)[..n + 1])
         == (AnyChanged(Slides(g, rows, cols, d)[..n]) || Slide(Line(g, rows, cols, d, n)).changed)
    ensures RewardSum(Slides(g, rows, cols, d)[..n + 1])
         == RewardSum(Slides(g, rows, cols, d)[..n]) + Slide(Line(g, rows, cols, d, n)).reward
  {
    var ls := Slides(g, rows, cols, d);
    assert ls[..n + 1][..n] == ls[..n];
  }

  /** Once every line is handled, the board is the moved grid, and the flag
      and reward accumulated line by line are the move's. */
  lemma PartialDone(g: Grid, rows: nat, cols: nat, d: Dir)
    requires IsGrid(g, rows, cols)
    ensures Partial(g, rows, cols, d, LineCount(d, rows, cols)) == MoveGrid(g, rows, cols, d).grid
    ensures AnyChanged(Slides(g, rows, cols, d)[..LineCount(d, rows, cols)]) == MoveGrid(g, rows, cols, d).changed
    ensures RewardSum(Slides(g, rows, cols, d)[..LineCount(d, rows, cols)]) == MoveGrid(g, rows, cols, d).reward
  {
    SameCells(Partial(g, rows, cols, d, LineCount(d, rows, cols)), MoveGrid(g, rows, cols, d).grid, rows, cols);
    assert Slides(g, rows, cols, d)[..LineCount(d, rows, cols)] == Slides(g, rows, cols, d);
  }

  // ---------------------------------------------------------------------
  // Flag, reward and empty cells

  lemma LineNonneg(g: Grid, rows: nat, cols: nat, d: Dir, k: nat)
    requires IsGrid(g, rows, cols) && NonnegGrid(g, rows, cols) && k < LineCount(d, rows, cols)
    ensures Nonneg(Line(g, rows, cols, d, k))
  {
  }

  /** A move keeps every cell non-negative and earns a non-negative reward. */
  lemma MoveNonneg(g: Grid, rows: nat, cols: nat, d: Dir)
    requires IsGrid(g, rows, cols) && NonnegGrid(g, rows, cols)
    ensures NonnegGrid(MoveGrid(g, rows, cols, d).grid, rows, cols)
    ensures MoveGrid(g, rows, cols, d).reward >= 0
  {
    var m := MoveGrid(g, rows, cols, d);
    forall r, c | 0 <= r < rows && 0 <= c < cols ensures m.grid[r][c] >= 0 {
      var k := LineOf(d, rows, cols, r, c);
      LineNonneg(g, rows, cols, d, k);
      SlideSpec(Line(g, rows, cols, d, k));
    }
    var ls := Slides(g, rows, cols, d);
    forall k | 0 <= k < |ls| ensures ls[k].reward >= 0 {
      LineNonneg(g, rows, cols, d, k);
      SlideSpec(Line(g, rows, cols, d, k));
    }
    RewardSumSpec(ls);
  }

  lemma LineTiles(g: Grid, rows: nat, cols: nat, d: Dir, k: nat)
    requires IsGrid(g, rows, cols) && TileGrid(g, rows, cols) && k < LineCount(d, rows, cols)
    ensures Tiles(Line(g, rows, cols, d, k))
  {
  }

  /** A move keeps every cell a tile: merges only ever double a tile. */
  lemma MoveTiles(g: Grid, rows: nat, cols: nat, d: Dir)
    requires IsGrid(g, rows, cols) && TileGrid(g, rows, cols)
    ensures TileGrid(MoveGrid(g, rows, cols, d).grid, rows, cols)
  {
    var m := MoveGrid(g, rows, cols, d);
    forall r, c | 0 <= r < rows && 0 <= c < cols ensures IsTile(m.grid[r][c]) {
      var k := LineOf(d, rows, cols, r, c);
      LineTiles(g, rows, cols, d, k);
      SlideTiles(Line(g, rows, cols, d, k));
    }
  }

  /** The flag of a move holds exactly when the board changed. */
  lemma MoveChangedIff(g: Grid, rows: nat, cols: nat, d: Dir)
    requires IsGrid(g, rows, cols) && NonnegGrid(g, rows, cols)
    ensures MoveGrid(g, rows, cols, d).changed <==> MoveGrid(g, rows, cols, d).grid != g
  {
    if MoveGrid(g, rows, cols, d).changed {
      ChangedMoveDiffers(g, rows, cols, d);
    }
    if MoveGrid(g, rows, cols, d).grid != g {
      DifferingMoveChanged(g, rows, cols, d);
    }
  }

  /** A move whose flag is up changed some line, hence the board. */
  lemma ChangedMoveDiffers(g: Grid, rows: nat, cols: nat, d: Dir)
    requires IsGrid(g, rows, cols) && NonnegGrid(g, rows, cols) && MoveGrid(g, rows, cols, d).changed
    ensures MoveGrid(g, rows, cols, d).grid != g
  {
    var k := SomeChanged(Slides(g, rows, cols, d));
    ChangedLineDiffers(g, rows, cols, d, k);
  }

  /** A line result whose flag is up, when the accumulated flag is. */
  lemma SomeChanged(ls: seq<Slid>) returns (k: nat)
    requires AnyChanged(ls)
    ensures k < |ls| && ls[k].changed
  {
    AnyChangedSome(ls);
    k :| k < |ls| && ls[k].changed;
  }

  /** A move that changed a cell raised the flag of that cell's line. */
  lemma DifferingMoveChanged(g: Grid, rows: nat, cols: nat, d: Dir)
    requires IsGrid(g, rows, cols) && NonnegGrid(g, rows, cols) && MoveGrid(g, rows, cols, d).grid != g
    ensures MoveGrid(g, rows, cols, d).changed
  {
    var r, c := DifferingCell(MoveGrid(g, rows, cols, d).grid, g, rows, cols);
    DifferingCellChanged(g, rows, cols, d, r, c);
    var ls := Slides(g, rows, cols, d);
    assert ls[LineOf(d, rows, cols, r, c)].changed;
    AnyChangedSome(ls);
  }

  /** Two different grids of the same shape differ in some cell. */
  lemma DifferingCell(a: Grid, b: Grid, rows: nat, cols: nat) returns (r: nat, c: nat)
    requires IsGrid(a, rows, cols) && IsGrid(b, rows, cols) && a != b
    ensures r < rows && c < cols && a[r][c] != b[r][c]
  {
    r :| 0 <= r < rows && a[r] != b[r];
    c :| 0 <= c < cols && a[r][c] != b[r][c];
  }

  /** Grids of the same shape that agree cell by cell are equal. */
  lemma SameCells(a: Grid, b: Grid, rows: nat, cols: nat)
    requires IsGrid(a, rows, cols) && IsGrid(b, rows, cols)
    requires forall r, c :: 0 <= r < rows && 0 <= c < cols ==> a[r][c] == b[r][c]
    ensures a == b
  {
    if a != b {
      var r, c := DifferingCell(a, b, rows, cols);
    }
  }

  lemma ChangedLineDiffers(g: Grid, rows: nat, cols: nat, d: Dir, k: nat)
    requires IsGrid(g, rows, cols) && NonnegGrid(g, rows, cols) && k < LineCount(d, rows, cols)
    requires Slide(Line(g, rows, cols, d, k)).changed
    ensures MoveGrid(g, rows, cols, d).grid != g
  {
    var s := Line(g, rows, cols, d, k);
    LineNonneg(g, rows, cols, d, k);
    SlideSpec(s);
    MovedLine(g, rows, cols, d, k);
    assert Line(MoveGrid(g, rows, cols, d).grid, rows, cols, d, k) != s;
  }

  lemma DifferingCellChanged(g: Grid, rows: nat, cols: nat, d: Dir, r: nat, c: nat)
    requires IsGrid(g, rows, cols) && NonnegGrid(g, rows, cols) && r < rows && c < cols
    requires MoveGrid(g, rows, cols, d).grid[r][c] != g[r][c]
    ensures Slide(Line(g, rows, cols, d, LineOf(d, rows, cols, r, c))).changed
  {
    var k, i := LineOf(d, rows, cols, r, c), IndexOf(d, rows, cols, r, c);
    var s := Line(g, rows, cols, d, k);
    CellInverse(d, rows, cols, r, c);
    assert s[i] == g[r][c];
    LineNonneg(g, rows, cols, d, k);
    SlideSpec(s);
  }

  /** After a move that changed the board there is an empty cell to spawn into. */
  lemma MoveChangedLeavesEmpty(g: Grid, rows: nat, cols: nat, d: Dir)
    requires IsGrid(g, rows, cols) && NonnegGrid(g, rows, cols) && MoveGrid(g, rows, cols, d).changed
    ensures !FullGrid(MoveGrid(g, rows, cols, d).grid, rows, cols)
  {
    var k := SomeChanged(Slides(g, rows, cols, d));
    var r, c := EmptyCellOfChangedLine(g, rows, cols, d, k);
  }

  lemma EmptyCellOfChangedLine(g: Grid, rows: nat, cols: nat, d: Dir, k: nat) returns (r: nat, c: nat)
    requires IsGrid(g, rows, cols) && NonnegGrid(g, rows, cols) && k < LineCount(d, rows, cols)
    requires Slide(Line(g, rows, cols, d, k)).changed
    ensures r < rows && c < cols && MoveGrid(g, rows, cols, d).grid[r][c] == 0
  {
    var s := Line(g, rows, cols, d, k);
    LineNonneg(g, rows, cols, d, k);
    SlideChangedLeavesEmpty(s);
    var t := Slide(s).line;
    var i :| 0 <= i < |t| && t[i] == 0;
    MovedLine(g, rows, cols, d, k);
    r, c := PosR(d, rows, cols, k, i), PosC(d, rows, cols, k, i);
    assert Line(MoveGrid(g, rows, cols, d).grid, rows, cols, d, k)[i] == t[i];
  }

  // ---------------------------------------------------------------------
  // Loss

  /** On a lost board no line of any direction moves or earns anything. */
  lemma LostLineStays(g: Grid, rows: nat, cols: nat, d: Dir, k: nat)
    requires IsGrid(g, rows, cols) && NonnegGrid(g, rows, cols) && Lost(g, rows, cols)
    requires k < LineCount(d, rows, cols)
    ensures Slide(Line(g, rows, cols, d, k)) == Slid(Line(g, rows, cols, d, k), 0, false)
  {
    var s := Line(g, rows, cols, d, k);
    LineNonneg(g, rows, cols, d, k);
    assert Full(s);
    forall i | 0 <= i < |s| - 1 ensures s[i] != s[i + 1] {
      NeighbourCells(g, rows, cols, d, k, i);
    }
    SlideFixedIff(s);
  }

  /** On a lost board every direction leaves the board as it is, earns
      nothing and reports no change. */
  lemma LostMeansNoMove(g: Grid, rows: nat, cols: nat, d: Dir)
    requires IsGrid(g, rows, cols) && NonnegGrid(g, rows, cols) && Lost(g, rows, cols)
    ensures MoveGrid(g, rows, cols, d) == Moved(g, 0, false)
  {
    LostBoardStays(g, rows, cols, d);
    LostEarnsNothing(g, rows, cols, d);
  }

  /** On a lost board a move leaves every cell as it is. */
  lemma LostBoardStays(g: Grid, rows: nat, cols: nat, d: Dir)
    requires IsGrid(g, rows, cols) && NonnegGrid(g, rows, cols) && Lost(g, rows, cols)
    ensures MoveGrid(g, rows, cols, d).grid == g
  {
    var h := MoveGrid(g, rows, cols, d).grid;
    forall r, c | 0 <= r < rows && 0 <= c < cols ensures h[r][c] == g[r][c] {
      var k, i := LineOf(d, rows, cols, r, c), IndexOf(d, rows, cols, r, c);
      CellInverse(d, rows, cols, r, c);
      LostLineStays(g, rows, cols, d, k);
      assert Line(g, rows, cols, d, k)[i] == g[r][c];
    }
    SameCells(h, g, rows, cols);
  }

  /** On a lost board a move earns nothing and reports no change. */
  lemma LostEarnsNothing(g: Grid, rows: nat, cols: nat, d: Dir)
    requires IsGrid(g, rows, cols) && NonnegGrid(g, rows, cols) && Lost(g, rows, cols)
    ensures MoveGrid(g, rows, cols, d).reward == 0 && !MoveGrid(g, rows, cols, d).changed
  {
    var ls := Slides(g, rows, cols, d);
    forall k | 0 <= k < |ls| ensures ls[k].reward == 0 && !ls[k].changed {
      LostLineStays(g, rows, cols, d, k);
    }
    AnyChangedSome(ls);
    RewardSumSpec(ls);
  }


  /** Consecutive cells of a line are orthogonal neighbours on the board. */
  lemma NeighbourCells(g: Grid, rows: nat, cols: nat, d: Dir, k: nat, i: nat)
    requires IsGrid(g, rows, cols) && k < LineCount(d, rows, cols) && i + 1 < LineLen(d, rows, cols)
    requires NoEqualNeighbours(g, rows, cols)
    ensures Line(g, rows, cols, d, k)[i] != Line(g, rows, cols, d, k)[i + 1]
  {
    match d
    case Left => assert !SameAsRight(g, rows, cols, k, i);
    case Right => assert !SameAsRight(g, rows, cols, k, cols - 2 - i);
    case Up => assert !SameAsBelow(g, rows, cols, i, k);
    case Down => assert !SameAsBelow(g, rows, cols, rows - 2 - i, k);
  }

  /** A board with at least one tile is lost exactly when no direction changes it. */
  lemma StuckIffLost(g: Grid, rows: nat, cols: nat)
    requires IsGrid(g, rows, cols) && NonnegGrid(g, rows, cols)
    requires exists r, c :: 0 <= r < rows && 0 <= c < cols && g[r][c] != 0
    ensures Lost(g, rows, cols) <==> forall d: Dir :: !MoveGrid(g, rows, cols, d).changed
  {
    if Lost(g, rows, cols) {
      forall d: Dir ensures !MoveGrid(g, rows, cols, d).changed {
        LostMeansNoMove(g, rows, cols, d);
      }
    } else {
      var d, k := UnlostLine(g, rows, cols);
      AnyChangedSome(Slides(g, rows, cols, d));
      assert Slides(g, rows, cols, d)[k].changed;
      assert MoveGrid(g, rows, cols, d).changed;
    }
  }

  /** On a board that is not lost but holds a tile, some line of some direction moves. */
  lemma UnlostLine(g: Grid, rows: nat, cols: nat) returns (d: Dir, k: nat)
    requires IsGrid(g, rows, cols) && NonnegGrid(g, rows, cols) && !Lost(g, rows, cols)
    requires exists r, c :: 0 <= r < rows && 0 <= c < cols && g[r][c] != 0
    ensures k < LineCount(d, rows, cols) && Slide(Line(g, rows, cols, d, k)).changed
  {
    var r1, c1 :| 0 <= r1 < rows && 0 <= c1 < cols && g[r1][c1] != 0;
    if !FullGrid(g, rows, cols) {
      var r0, c0 :| 0 <= r0 < rows && 0 <= c0 < cols && g[r0][c0] == 0;
      if exists c :: 0 <= c < cols && g[r0][c] != 0 {
        var c :| 0 <= c < cols && g[r0][c] != 0;
        // row r0 holds an empty cell and a tile
        k := r0;
        if c0 < c {
          d := Left;
          GapMoves(Line(g, rows, cols, d, k), c0, c);
        } else {
          d := Right;
          GapMoves(Line(g, rows, cols, d, k), cols - 1 - c0, cols - 1 - c);
        }
      } else {
        // row r0 is empty, so column c1 holds an empty cell and a tile
        k := c1;
        assert g[r0][c1] == 0;
        if r0 < r1 {
          d := Up;
          GapMoves(Line(g, rows, cols, d, k), r0, r1);
        } else {
          d := Down;
          GapMoves(Line(g, rows, cols, d, k), rows - 1 - r0, rows - 1 - r1);
        }
      }
    } else if exists r, c :: 0 <= r < rows && 0 <= c < cols && SameAsRight(g, rows, cols, r, c) {
      var r, c :| 0 <= r < rows && 0 <= c < cols && SameAsRight(g, rows, cols, r, c);
      d, k := Left, r;
      LineNonneg(g, rows, cols, d, k);
      PairMoves(Line(g, rows, cols, d, k), c);
    } else {
      var r, c :| 0 <= r < rows && 0 <= c < cols && SameAsBelow(g, rows, cols, r, c);
      d, k := Up, c;
      LineNonneg(g, rows, cols, d, k);
      PairMoves(Line(g, rows, cols, d, k), r);
    }
  }

  /** An empty cell before a tile makes the line move. */
  lemma GapMoves(s: seq<int>, i: nat, j: nat)
    requires i < j < |s| && s[i] == 0 && s[j] != 0
    ensures Slide(s).changed
  {
  }

  lemma PairMoves(s: seq<int>, i: nat)
    requires Nonneg(s) && i + 1 < |s| && s[i] != 0 && s[i] == s[i + 1]
    ensures Slide(s).changed
  {
    if Pushed(s) {
      PushOfPushed(s);
      assert HasPair(s);
      MergeSpec(s);
    }
  }

  // ---------------------------------------------------------------------
  // Totals over the whole board

  /** Measure f summed over the first n lines of direction d. */
  function LinesTotal(g: Grid, rows: nat, cols: nat, d: Dir, f: int -> int, n: nat): int
    requires IsGrid(g, rows, cols) && n <= LineCount(d, rows, cols)
  {
    if n == 0 then 0 else LinesTotal(g, rows, cols, d, f, n - 1) + SumOf(Line(g, rows, cols, d, n - 1), f)
  }

  /** Measure f summed over the whole board, row by row. */
  function Total(g: Grid, rows: nat, cols: nat, f: int -> int): int
    requires IsGrid(g, rows, cols)
  {
    LinesTotal(g, rows, cols, Left, f, rows)
  }

  /** Sum of f over rows < m of the first n cells. */
  function RowsBlock(g: Grid, rows: nat, cols: nat, f: int -> int, m: nat, n: nat): int
    requires IsGrid(g, rows, cols) && m <= rows && n <= cols
  {
    if m == 0 then 0 else RowsBlock(g, rows, cols, f, m - 1, n) + PrefixSum(g[m - 1], f, n)
  }

  /** Sum of f over columns < n of the first m cells. */
  function ColumnsBlock(g: Grid, rows: nat, cols: nat, f: int -> int, m: nat, n: nat): int
    requires IsGrid(g, rows, cols) && m <= rows && n <= cols
  {
    if n == 0 then 0 else ColumnsBlock(g, rows, cols, f, m, n - 1) + PrefixSum(Column(g, rows, cols, n - 1), f, m)
  }

  lemma {:induction false} ColumnsBlockAddRow(g: Grid, rows: nat, cols: nat, f: int -> int, m: nat, n: nat)
    requires IsGrid(g, rows, cols) && m < rows && n <= cols
    ensures ColumnsBlock(g, rows, cols, f, m + 1, n) == ColumnsBlock(g, rows, cols, f, m, n) + PrefixSum(g[m], f, n)
  {
    if n > 0 {
      ColumnsBlockAddRow(g, rows, cols, f, m, n - 1);
    }
  }

  /** Summing by rows and summing by columns agree. */
  lemma {:induction false} BlockExchange(g: Grid, rows: nat, cols: nat, f: int -> int, m: nat, n: nat)
    requires IsGrid(g, rows, cols) && m <= rows && n <= cols
    ensures RowsBlock(g, rows, cols, f, m, n) == ColumnsBlock(g, rows, cols, f, m, n)
  {
    if m == 0 {
      ColumnsBlockEmpty(g, rows, cols, f, n);
    } else {
      BlockExchange(g, rows, cols, f, m - 1, n);
      ColumnsBlockAddRow(g, rows, cols, f, m - 1, n);
    }
  }

  lemma {:induction false} ColumnsBlockEmpty(g: Grid, rows: nat, cols: nat, f: int -> int, n: nat)
    requires IsGrid(g, rows, cols) && n <= cols
    ensures ColumnsBlock(g, rows, cols, f, 0, n) == 0
  {
    if n > 0 {
      ColumnsBlockEmpty(g, rows, cols, f, n - 1);
    }
  }

  lemma {:induction false} RowsBlockIsLeftLines(g: Grid, rows: nat, cols: nat, f: int -> int, m: nat)
    requires IsGrid(g, rows, cols) && m <= rows
    ensures RowsBlock(g, rows, cols, f, m, cols) == LinesTotal(g, rows, cols, Left, f, m)
  {
    if m > 0 {
      RowsBlockIsLeftLines(g, rows, cols, f, m - 1);
      LineViews(g, rows, cols, m - 1);
      SumOfIsPrefixSum(g[m - 1], f);
    }
  }

  lemma {:induction false} ColumnsBlockIsUpLines(g: Grid, rows: nat, cols: nat, f: int -> int, n: nat)
    requires IsGrid(g, rows, cols) && n <= cols
    ensures ColumnsBlock(g, rows, cols, f, rows, n) == LinesTotal(g, rows, cols, Up, f, n)
  {
    if n > 0 {
      ColumnsBlockIsUpLines(g, rows, cols, f, n - 1);
      LineViews(g, rows, cols, n - 1);
      SumOfIsPrefixSum(Column(g, rows, cols, n - 1), f);
    }
  }

  /** Reversing every line does not change the total. */
  lemma {:induction false} ReversedLinesTotal(g: Grid, rows: nat, cols: nat, d: Dir, e: Dir, f: int -> int, n: nat)
    requires IsGrid(g, rows, cols)
    requires (d, e) == (Left, Right) || (d, e) == (Up, Down)
    requires n <= LineCount(d, rows, cols)
    ensures LinesTotal(g, rows, cols, e, f, n) == LinesTotal(g, rows, cols, d, f, n)
  {
    if n > 0 {
      ReversedLinesTotal(g, rows, cols, d, e, f, n - 1);
      ReversedLine(g, rows, cols, d, e, n - 1);
      SumOfReverse(Line(g, rows, cols, d, n - 1), f);
    }
  }

  /** Right reads the rows of Left backwards, Down the columns of Up. */
  lemma ReversedLine(g: Grid, rows: nat, cols: nat, d: Dir, e: Dir, k: nat)
    requires IsGrid(g, rows, cols)
    requires (d, e) == (Left, Right) || (d, e) == (Up, Down)
    requires k < LineCount(d, rows, cols)
    ensures Line(g, rows, cols, e, k) == Reverse(Line(g, rows, cols, d, k))
  {
    LineViews(g, rows, cols, k);
  }

  /** The total over the lines of any direction is the total of the board. */
  lemma AnyDirTotal(g: Grid, rows: nat, cols: nat, d: Dir, f: int -> int)
    requires IsGrid(g, rows, cols)
    ensures LinesTotal(g, rows, cols, d, f, LineCount(d, rows, cols)) == Total(g, rows, cols, f)
  {
    match d
    case Left =>
    case Right => ReversedLinesTotal(g, rows, cols, Left, Right, f, rows);
    case Up =>
      RowsBlockIsLeftLines(g, rows, cols, f, rows);
      ColumnsBlockIsUpLines(g, rows, cols, f, cols);
      BlockExchange(g, rows, cols, f, rows, cols);
    case Down =>
      RowsBlockIsLeftLines(g, rows, cols, f, rows);
      ColumnsBlockIsUpLines(g, rows, cols, f, cols);
      BlockExchange(g, rows, cols, f, rows, cols);
      ReversedLinesTotal(g, rows, cols, Up, Down, f, cols);
  }

  /** Totals over the first n lines of h, whose every line has the sum of the
      matching line of g and at most its tiles. */
  lemma {:induction false} LinesTotalBound(g: Grid, h: Grid, rows: nat, cols: nat, d: Dir, n: nat)
    requires IsGrid(g, rows, cols) && IsGrid(h, rows, cols)
    requires n <= LineCount(d, rows, cols)
    requires forall k :: 0 <= k < n ==> SumOf(Line(h, rows, cols, d, k), Value) == SumOf(Line(g, rows, cols, d, k), Value)
    requires forall k :: 0 <= k < n ==> SumOf(Line(h, rows, cols, d, k), Occupied) <= SumOf(Line(g, rows, cols, d, k), Occupied)
    ensures LinesTotal(h, rows, cols, d, Value, n) == LinesTotal(g, rows, cols, d, Value, n)
    ensures LinesTotal(h, rows, cols, d, Occupied, n) <= LinesTotal(g, rows, cols, d, Occupied, n)
  {
    if n > 0 {
      LinesTotalBound(g, h, rows, cols, d, n - 1);
    }
  }

  lemma MovedLineTotals(g: Grid, rows: nat, cols: nat, d: Dir, k: nat)
    requires IsGrid(g, rows, cols) && NonnegGrid(g, rows, cols) && k < LineCount(d, rows, cols)
    ensures SumOf(Line(MoveGrid(g, rows, cols, d).grid, rows, cols, d, k), Value) == SumOf(Line(g, rows, cols, d, k), Value)
    ensures SumOf(Line(MoveGrid(g, rows, cols, d).grid, rows, cols, d, k), Occupied) <= SumOf(Line(g, rows, cols, d, k), Occupied)
  {
    MovedLine(g, rows, cols, d, k);
    LineNonneg(g, rows, cols, d, k);
    SlideSpec(Line(g, rows, cols, d, k));
  }

  /** A move keeps the sum of all cells and never adds a tile. */
  lemma MoveConserves(g: Grid, rows: nat, cols: nat, d: Dir)
    requires IsGrid(g, rows, cols) && NonnegGrid(g, rows, cols)
    ensures Total(MoveGrid(g, rows, cols, d).grid, rows, cols, Value) == Total(g, rows, cols, Value)
    ensures Total(MoveGrid(g, rows, cols, d).grid, rows, cols, Occupied) <= Total(g, rows, cols, Occupied)
  {
    var m := MoveGrid(g, rows, cols, d);
    forall k | 0 <= k < LineCount(d, rows, cols)
      ensures SumOf(Line(m.grid, rows, cols, d, k), Value) == SumOf(Line(g, rows, cols, d, k), Value)
      ensures SumOf(Line(m.grid, rows, cols, d, k), Occupied) <= SumOf(Line(g, rows, cols, d, k), Occupied)
    {
      MovedLineTotals(g, rows, cols, d, k);
    }
    LinesTotalBound(g, m.grid, rows, cols, d, LineCount(d, rows, cols));
    AnyDirTotal(g, rows, cols, d, Value);
    AnyDirTotal(g, rows, cols, d, Occupied);
    AnyDirTotal(m.grid, rows, cols, d, Value);
    AnyDirTotal(m.grid, rows, cols, d, Occupied);
  }
}
