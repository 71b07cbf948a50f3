/** The game-state engine of src/game.py: a board of nrows x ncols integer
    cells changed in place, the score, and the counters of steps and of
    moves that changed nothing. */
module Game2048 {
  import opened Lines
  import opened Grids

  datatype Option<T> = None | Some(value: T)

  /** The snapshot that get_env reports: a copy of the board, never the board itself. */
  datatype Env = Env(state: Grid, score: nat, nInvalidMoves: nat, nSteps: nat, won: bool, lost: bool)

  /** What update answers: the snapshot, with this move's reward and change flag. */
  datatype Step = Step(env: Env, reward: int, change: bool)

  /** update either performs the move or fails at the lookup of the action. */
  datatype UpdateResult = Done(step: Step) | UnknownAction(action: string)

  /** The action table of update: the keys "L", "R", "U" and "D", each bound
      to its own direction, and nothing else. */
  function ParseAction(action: string): (d: Option<Dir>)
    ensures d == Some(Left) <==> action == "L"
    ensures d == Some(Right) <==> action == "R"
    ensures d == Some(Up) <==> action == "U"
    ensures d == Some(Down) <==> action == "D"
    ensures d == None <==> action !in {"L", "R", "U", "D"}
  {
    if action == "L" then Some(Left)
    else if action == "R" then Some(Right)
    else if action == "U" then Some(Up)
    else if action == "D" then Some(Down)
    else None
  }

  /** The board after update has moved g in direction d: the moved grid
      and, when the move changed something, the tile v written into the
      cell at which random_spawn's draws stop. */
  function Played(g: Grid, rows: nat, cols: nat, d: Dir, draws: seq<(int, int)>, v: int): (h: Grid)
    requires IsGrid(g, rows, cols) && InBoard(draws, rows, cols)
    requires MoveGrid(g, rows, cols, d).changed ==> HitsEmpty(MoveGrid(g, rows, cols, d).grid, rows, cols, draws)
    ensures IsGrid(h, rows, cols)
  {
    var m := MoveGrid(g, rows, cols, d);
    if m.changed then
      var j := FirstEmpty(m.grid, rows, cols, draws);
      SpawnAt(m.grid, rows, cols, draws[j].0, draws[j].1, v)
    else m.grid
  }

  /** A move that changed the board is followed by a spawn; a move that
      changed nothing leaves the board as it was. Either way a board of
      tiles stays one when the spawned value is a tile. */
  lemma PlayedSpec(g: Grid, rows: nat, cols: nat, d: Dir, draws: seq<(int, int)>, v: int, values: seq<int>)
    requires IsGrid(g, rows, cols) && NonnegGrid(g, rows, cols) && InBoard(draws, rows, cols)
    requires MoveGrid(g, rows, cols, d).changed ==> HitsEmpty(MoveGrid(g, rows, cols, d).grid, rows, cols, draws)
    requires v in values
    ensures MoveGrid(g, rows, cols, d).changed ==>
      Spawned(MoveGrid(g, rows, cols, d).grid, Played(g, rows, cols, d, draws, v), rows, cols, values)
    ensures !MoveGrid(g, rows, cols, d).changed ==> Played(g, rows, cols, d, draws, v) == g
    ensures TileGrid(g, rows, cols) && IsTile(v) ==> TileGrid(Played(g, rows, cols, d, draws, v), rows, cols)
  {
    var m := MoveGrid(g, rows, cols, d);
    MoveChangedIff(g, rows, cols, d);
    if TileGrid(g, rows, cols) {
      MoveTiles(g, rows, cols, d);
    }
    if m.changed {
      var j := FirstEmpty(m.grid, rows, cols, draws);
      SpawnAtSpawned(m.grid, rows, cols, draws[j].0, draws[j].1, v, values);
    }
  }

  /** On a lost board every action leaves the board as it is, earns nothing
      and counts as an invalid move. */
  lemma LostPlayStays(g: Grid, rows: nat, cols: nat, d: Dir, draws: seq<(int, int)>, v: int)
    requires IsGrid(g, rows, cols) && NonnegGrid(g, rows, cols) && Lost(g, rows, cols) && InBoard(draws, rows, cols)
    ensures !MoveGrid(g, rows, cols, d).changed && MoveGrid(g, rows, cols, d).reward == 0
    ensures Played(g, rows, cols, d, draws, v) == g
  {
    LostMeansNoMove(g, rows, cols, d);
  }

  class Game {
    const nrows: nat
    const ncols: nat
    const spawnValues: seq<int>
    const board: array2<int>
    var score: nat
    var nInvalidMoves: nat
    var nSteps: nat

    /** __init__: an empty board of the configured size with one spawned
        tile, and every counter at zero. The coordinates and the value the
        first spawn draws are arguments. */
    constructor (rows: nat, cols: nat, values: seq<int>, draws: seq<(int, int)>, pick: nat)
      requires rows >= 1 && cols >= 1 && |values| > 0 && (forall v :: v in values ==> v > 0 && IsTile(v))
      requires pick < |values| && |draws| > 0 && InBoard(draws, rows, cols)
      ensures Valid() && nrows == rows && ncols == cols && spawnValues == values
      ensures score == 0 && nInvalidMoves == 0 && nSteps == 0
      ensures Cells() == SpawnAt(EmptyGrid(rows, cols), rows, cols, draws[0].0, draws[0].1, values[pick])
      ensures Spawned(EmptyGrid(rows, cols), Cells(), rows, cols, values)
      ensures fresh(board)
    {
      nrows, ncols, spawnValues := rows, cols, values;
      board := new int[rows, cols]((_, _) => 0);
      score, nInvalidMoves, nSteps := 0, 0, 0;
      new;
      SameCells(Cells(), EmptyGrid(rows, cols), rows, cols);
      EmptyGridHits(rows, cols, draws);
      RandomSpawn(draws, pick);
    }

    /** The board has the configured shape. */
    predicate Shaped() {
      board.Length0 == nrows && board.Length1 == ncols
    }

    /** The engine's invariant: a non-empty board whose cells are empty or
        powers of two no smaller than 2, and spawn values that are such powers. */
    ghost predicate Valid()
      reads board
    {
      Shaped() && nrows >= 1 && ncols >= 1
      && |spawnValues| > 0 && (forall v :: v in spawnValues ==> v > 0 && IsTile(v))
      && IsGrid(Cells(), nrows, ncols) && NonnegGrid(Cells(), nrows, ncols) && TileGrid(Cells(), nrows, ncols)
    }

    /** The board as a value. */
    function Cells(): (g: Grid)
      reads board
      ensures |g| == board.Length0
      ensures forall r :: 0 <= r < board.Length0 ==> |g[r]| == board.Length1
      ensures forall r, c :: 0 <= r < board.Length0 && 0 <= c < board.Length1 ==> g[r][c] == board[r, c]
    {
      seq(board.Length0, r requires 0 <= r < board.Length0 reads board =>
        seq(board.Length1, c requires 0 <= c < board.Length1 reads board => board[r, c]))
    }

    /** is_cell_occupied */
    function IsCellOccupied(r: nat, c: nat): (occupied: bool)
      reads board
      requires Shaped() && r < nrows && c < ncols
      ensures occupied <==> board[r, c] != 0
    {
      board[r, c] != 0
    }

    /** random_spawn: draw coordinates until one names an empty cell, then
        write the chosen spawn value there. The coordinates random_inboard_coord
        would draw and the index of the value np.random.choice would pick are
        the arguments. */
    method RandomSpawn(draws: seq<(int, int)>, pick: nat)
      requires Valid() && pick < |spawnValues|
      requires InBoard(draws, nrows, ncols) && HitsEmpty(Cells(), nrows, ncols, draws)
      modifies board
      ensures Valid()
      ensures var j := FirstEmpty(old(Cells()), nrows, ncols, draws);
        Cells() == SpawnAt(old(Cells()), nrows, ncols, draws[j].0, draws[j].1, spawnValues[pick])
      ensures Spawned(old(Cells()), Cells(), nrows, ncols, spawnValues)
    {
      ghost var g := Cells();
      ghost var first := FirstEmpty(g, nrows, ncols, draws);
      var i := 0;
      var (r, c) := draws[0];
      while IsCellOccupied(r, c)
        invariant i <= first && (r, c) == draws[i]
        decreases first - i
      {
        i := i + 1;
        r, c := draws[i].0, draws[i].1;
      }
      board[r, c] := spawnValues[pick];
      SpawnAtSpawned(g, nrows, ncols, r, c, spawnValues[pick], spawnValues);
      SameCells(Cells(), SpawnAt(g, nrows, ncols, r, c, spawnValues[pick]), nrows, ncols);
    }

    // -------------------------------------------------------------------
    // The single-line operations. Each takes as a ghost argument t the line
    // in the order its direction visits it (from the edge the tiles move
    // toward) and leaves the pushed or merged line in its place; every other
    // row (for Left and Right) or column (for Up and Down) is unchanged.

    /** _push_left_single: skip the leading tiles, then a cursor marks the
        first empty cell and every tile met later is swapped into it. The
        result says whether a tile moved. */
    method PushLeft(r: nat, ghost t: seq<int>) returns (valid: bool)
      requires Shaped() && r < nrows && |t| == ncols
      requires forall c :: 0 <= c < ncols ==> board[r, c] == t[c]
      modifies board
      ensures forall c :: 0 <= c < ncols ==> board[r, c] == Push(t)[c]
      ensures valid == !Pushed(t)
      ensures forall r', c' :: 0 <= r' < nrows && 0 <= c' < ncols && r' != r ==> board[r', c'] == old(board[r', c'])
    {
      valid := false;
      var c := 0;
      while c < ncols && IsCellOccupied(r, c)
        invariant 0 <= c <= ncols
        invariant forall j :: 0 <= j < c ==> t[j] != 0
      {
        c := c + 1;
      }
      ghost var i0 := c;
      var cEmpty := c;
      while c < ncols
        invariant i0 <= c <= ncols
        invariant PushScan(t, i0, c).1 == cEmpty
        invariant valid <==> i0 < cEmpty
        invariant forall j :: 0 <= j < ncols ==> board[r, j] == PushScan(t, i0, c).0[j]
        invariant forall r', c' :: 0 <= r' < nrows && 0 <= c' < ncols && r' != r ==> board[r', c'] == old(board[r', c'])
      {
        if IsCellOccupied(r, c) {
          var tile, empty := board[r, c], board[r, cEmpty];
          board[r, cEmpty] := tile;
          board[r, c] := empty;
          cEmpty := cEmpty + 1;
          valid := true;
        }
        c := c + 1;
      }
      PushScanDone(t, i0);
    }

    /** _push_right_single: the same compaction scanning from the right
        edge, so row r holds the line backwards. */
    method PushRight(r: nat, ghost t: seq<int>) returns (valid: bool)
      requires Shaped() && r < nrows && |t| == ncols
      requires forall c :: 0 <= c < ncols ==> board[r, c] == Reverse(t)[c]
      modifies board
      ensures forall c :: 0 <= c < ncols ==> board[r, c] == Reverse(Push(t))[c]
      ensures valid == !Pushed(t)
      ensures forall r', c' :: 0 <= r' < nrows && 0 <= c' < ncols && r' != r ==> board[r', c'] == old(board[r', c'])
    {
      valid := false;
      var c: int := ncols - 1;
      while c > -1 && IsCellOccupied(r, c)
        invariant -1 <= c < ncols
        invariant forall j :: c < j < ncols ==> Reverse(t)[j] != 0
      {
        c := c - 1;
      }
      ghost var c0 := c;
      var cEmpty := c;
      while c > -1
        invariant -1 <= c <= c0
        invariant PushScanBack(Reverse(t), c0, c).1 == cEmpty
        invariant valid <==> cEmpty < c0
        invariant forall j :: 0 <= j < ncols ==> board[r, j] == PushScanBack(Reverse(t), c0, c).0[j]
        invariant forall r', c' :: 0 <= r' < nrows && 0 <= c' < ncols && r' != r ==> board[r', c'] == old(board[r', c'])
      {
        if IsCellOccupied(r, c) {
          var tile, empty := board[r, c], board[r, cEmpty];
          board[r, cEmpty] := tile;
          board[r, c] := empty;
          cEmpty := cEmpty - 1;
          valid := true;
        }
        c := c - 1;
      }
      PushScanBackDone(t, c0);
    }

    /** _push_up_single: the compaction of column c toward the top. */
    method PushUp(c: nat, ghost t: seq<int>) returns (valid: bool)
      requires Shaped() && c < ncols && |t| == nrows
      requires forall r :: 0 <= r < nrows ==> board[r, c] == t[r]
      modifies board
      ensures forall r :: 0 <= r < nrows ==> board[r, c] == Push(t)[r]
      ensures valid == !Pushed(t)
      ensures forall r', c' :: 0 <= r' < nrows && 0 <= c' < ncols && c' != c ==> board[r', c'] == old(board[r', c'])
    {
      valid := false;
      var r := 0;
      while r < nrows && IsCellOccupied(r, c)
        invariant 0 <= r <= nrows
        invariant forall j :: 0 <= j < r ==> t[j] != 0
      {
        r := r + 1;
      }
      ghost var i0 := r;
      var rEmpty := r;
      while r < nrows
        invariant i0 <= r <= nrows
        invariant PushScan(t, i0, r).1 == rEmpty
        invariant valid <==> i0 < rEmpty
        invariant forall j :: 0 <= j < nrows ==> board[j, c] == PushScan(t, i0, r).0[j]
        invariant forall r', c' :: 0 <= r' < nrows && 0 <= c' < ncols && c' != c ==> board[r', c'] == old(board[r', c'])
      {
        if IsCellOccupied(r, c) {
          var tile, empty := board[r, c], board[rEmpty, c];
          board[rEmpty, c] := tile;
          board[r, c] := empty;
          rEmpty := rEmpty + 1;
          valid := true;
        }
        r := r + 1;
      }
      PushScanDone(t, i0);
    }

    /** _push_down_single: the compaction of column c toward the bottom, so
        the column holds the line backwards. */
    method PushDown(c: nat, ghost t: seq<int>) returns (valid: bool)
      requires Shaped() && c < ncols && |t| == nrows
      requires forall r :: 0 <= r < nrows ==> board[r, c] == Reverse(t)[r]
      modifies board
      ensures forall r :: 0 <= r < nrows ==> board[r, c] == Reverse(Push(t))[r]
      ensures valid == !Pushed(t)
      ensures forall r', c' :: 0 <= r' < nrows && 0 <= c' < ncols && c' != c ==> board[r', c'] == old(board[r', c'])
    {
      valid := false;
      var r: int := nrows - 1;
      while r > -1 && IsCellOccupied(r, c)
        invariant -1 <= r < nrows
        invariant forall j :: r < j < nrows ==> Reverse(t)[j] != 0
      {
        r := r - 1;
      }
      ghost var r0 := r;
      var rEmpty := r;
      while r > -1
        invariant -1 <= r <= r0
        invariant PushScanBack(Reverse(t), r0, r).1 == rEmpty
        invariant valid <==> rEmpty < r0
        invariant forall j :: 0 <= j < nrows ==> board[j, c] == PushScanBack(Reverse(t), r0, r).0[j]
        invariant forall r', c' :: 0 <= r' < nrows && 0 <= c' < ncols && c' != c ==> board[r', c'] == old(board[r', c'])
      {
        if IsCellOccupied(r, c) {
          var tile, empty := board[r, c], board[rEmpty, c];
          board[rEmpty, c] := tile;
          board[r, c] := empty;
          rEmpty := rEmpty - 1;
          valid := true;
        }
        r := r - 1;
      }
      PushScanBackDone(t, r0);
    }

    /** _merge_left_single: scanning from the left, an occupied cell equal to
        its right neighbour absorbs it, the neighbour becomes empty, and the
        new value is added to the reward. */
    method MergeLeft(r: nat, ghost t: seq<int>) returns (reward: int)
      requires Shaped() && r < nrows && |t| == ncols
      requires forall c :: 0 <= c < ncols ==> board[r, c] == t[c]
      modifies board
      ensures forall c :: 0 <= c < ncols ==> board[r, c] == Merge(t).line[c]
      ensures reward == Merge(t).reward
      ensures forall r', c' :: 0 <= r' < nrows && 0 <= c' < ncols && r' != r ==> board[r', c'] == old(board[r', c'])
    {
      reward := 0;
      var c := 0;
      while c < ncols - 1
        invariant c <= LastPair(ncols)
        invariant MergeScan(t, c).1 == reward
        invariant forall j :: 0 <= j < ncols ==> board[r, j] == MergeScan(t, c).0[j]
        invariant forall r', c' :: 0 <= r' < nrows && 0 <= c' < ncols && r' != r ==> board[r', c'] == old(board[r', c'])
      {
        if IsCellOccupied(r, c) {
          if board[r, c] == board[r, c + 1] {
            board[r, c] := board[r, c] + board[r, c + 1];
            board[r, c + 1] := 0;
            reward := reward + board[r, c];
          }
        }
        c := c + 1;
      }
      MergeScanDone(t);
    }

    /** _merge_right_single: the same merge scanning from the right edge. */
    method MergeRight(r: nat, ghost t: seq<int>) returns (reward: int)
      requires Shaped() && r < nrows && |t| == ncols
      requires forall c :: 0 <= c < ncols ==> board[r, c] == Reverse(t)[c]
      modifies board
      ensures forall c :: 0 <= c < ncols ==> board[r, c] == Reverse(Merge(t).line)[c]
      ensures reward == Merge(t).reward
      ensures forall r', c' :: 0 <= r' < nrows && 0 <= c' < ncols && r' != r ==> board[r', c'] == old(board[r', c'])
    {
      reward := 0;
      var c: int := ncols - 1;
      while c > 0
        invariant -1 <= c < ncols && (c == -1 ==> ncols == 0)
        invariant MergeScanBack(Reverse(t), c).1 == reward
        invariant forall j :: 0 <= j < ncols ==> board[r, j] == MergeScanBack(Reverse(t), c).0[j]
        invariant forall r', c' :: 0 <= r' < nrows && 0 <= c' < ncols && r' != r ==> board[r', c'] == old(board[r', c'])
      {
        if IsCellOccupied(r, c) {
          if board[r, c] == board[r, c - 1] {
            board[r, c] := board[r, c] + board[r, c - 1];
            board[r, c - 1] := 0;
            reward := reward + board[r, c];
          }
        }
        c := c - 1;
      }
      MergeScanBackDone(t);
    }

    /** _merge_up_single: the merge of column c scanning from the top. */
    method MergeUp(c: nat, ghost t: seq<int>) returns (reward: int)
      requires Shaped() && c < ncols && |t| == nrows
      requires forall r :: 0 <= r < nrows ==> board[r, c] == t[r]
      modifies board
      ensures forall r :: 0 <= r < nrows ==> board[r, c] == Merge(t).line[r]
      ensures reward == Merge(t).reward
      ensures forall r', c' :: 0 <= r' < nrows && 0 <= c' < ncols && c' != c ==> board[r', c'] == old(board[r', c'])
    {
      reward := 0;
      var r := 0;
      while r < nrows - 1
        invariant r <= LastPair(nrows)
        invariant MergeScan(t, r).1 == reward
        invariant forall j :: 0 <= j < nrows ==> board[j, c] == MergeScan(t, r).0[j]
        invariant forall r', c' :: 0 <= r' < nrows && 0 <= c' < ncols && c' != c ==> board[r', c'] == old(board[r', c'])
      {
        if IsCellOccupied(r, c) {
          if board[r, c] == board[r + 1, c] {
            board[r, c] := board[r, c] + board[r + 1, c];
            board[r + 1, c] := 0;
            reward := reward + board[r, c];
          }
        }
        r := r + 1;
      }
      MergeScanDone(t);
    }

    /** _merge_down_single: the merge of column c scanning from the bottom. */
    method MergeDown(c: nat, ghost t: seq<int>) returns (reward: int)
      requires Shaped() && c < ncols && |t| == nrows
      requires forall r :: 0 <= r < nrows ==> board[r, c] == Reverse(t)[r]
      modifies board
      ensures forall r :: 0 <= r < nrows ==> board[r, c] == Reverse(Merge(t).line)[r]
      ensures reward == Merge(t).reward
      ensures forall r', c' :: 0 <= r' < nrows && 0 <= c' < ncols && c' != c ==> board[r', c'] == old(board[r', c'])
    {
      reward := 0;
      var r: int := nrows - 1;
      while r > 0
        invariant -1 <= r < nrows && (r == -1 ==> nrows == 0)
        invariant MergeScanBack(Reverse(t), r).1 == reward
        invariant forall j :: 0 <= j < nrows ==> board[j, c] == MergeScanBack(Reverse(t), r).0[j]
        invariant forall r', c' :: 0 <= r' < nrows && 0 <= c' < ncols && c' != c ==> board[r', c'] == old(board[r', c'])
      {
        if IsCellOccupied(r, c) {
          if board[r, c] == board[r - 1, c] {
            board[r, c] := board[r, c] + board[r - 1, c];
            board[r - 1, c] := 0;
            reward := reward + board[r, c];
          }
        }
        r := r - 1;
      }
      MergeScanBackDone(t);
    }

    // -------------------------------------------------------------------
    // The whole moves. Each runs push, merge, push on every line in turn and
    // leaves on the board the grid MoveGrid specifies.

    /** Row r of the board, read as a Left or Right line. */
    lemma RowRead(d: Dir, r: nat, t: seq<int>)
      requires Shaped() && (d == Left || d == Right) && r < nrows
      requires Line(Cells(), nrows, ncols, d, r) == t
      ensures |t| == ncols
      ensures d == Left ==> forall c :: 0 <= c < ncols ==> board[r, c] == t[c]
      ensures d == Right ==> forall c :: 0 <= c < ncols ==> board[r, c] == Reverse(t)[c]
    {
    }

    /** Column c of the board, read as an Up or Down line. */
    lemma ColumnRead(d: Dir, c: nat, t: seq<int>)
      requires Shaped() && (d == Up || d == Down) && c < ncols
      requires Line(Cells(), nrows, ncols, d, c) == t
      ensures |t| == nrows
      ensures d == Up ==> forall r :: 0 <= r < nrows ==> board[r, c] == t[r]
      ensures d == Down ==> forall r :: 0 <= r < nrows ==> board[r, c] == Reverse(t)[r]
    {
    }

    /** Row r holds v, read from the left (Left) or from the right (Right),
        and every other row is as in before. */
    lemma RowReplaced(before: Grid, d: Dir, r: nat, v: seq<int>)
      requires Shaped() && IsGrid(before, nrows, ncols)
      requires (d == Left || d == Right) && r < nrows && |v| == ncols
      requires forall c :: 0 <= c < ncols ==> board[r, c] == (if d == Left then v else Reverse(v))[c]
      requires forall r', c' :: 0 <= r' < nrows && 0 <= c' < ncols && r' != r ==> board[r', c'] == before[r'][c']
      ensures Cells() == SetLine(before, nrows, ncols, d, r, v)
    {
      var h := SetLine(before, nrows, ncols, d, r, v);
      forall r', c' | 0 <= r' < nrows && 0 <= c' < ncols ensures Cells()[r'][c'] == h[r'][c'] {
        assert LineOf(d, nrows, ncols, r', c') == r';
      }
      SameCells(Cells(), h, nrows, ncols);
    }

    /** Column c holds v, read from the top (Up) or from the bottom (Down),
        and every other column is as in before. */
    lemma ColumnReplaced(before: Grid, d: Dir, c: nat, v: seq<int>)
      requires Shaped() && IsGrid(before, nrows, ncols)
      requires (d == Up || d == Down) && c < ncols && |v| == nrows
      requires forall r :: 0 <= r < nrows ==> board[r, c] == (if d == Up then v else Reverse(v))[r]
      requires forall r', c' :: 0 <= r' < nrows && 0 <= c' < ncols && c' != c ==> board[r', c'] == before[r'][c']
      ensures Cells() == SetLine(before, nrows, ncols, d, c, v)
    {
      var h := SetLine(before, nrows, ncols, d, c, v);
      forall r', c' | 0 <= r' < nrows && 0 <= c' < ncols ensures Cells()[r'][c'] == h[r'][c'] {
        assert LineOf(d, nrows, ncols, r', c') == c';
      }
      SameCells(Cells(), h, nrows, ncols);
    }

    /** One pass of the loop of _left on row r: push, merge, push, with the
        change flag and the reward total updated as the loop does. The row
        ends as the slid line, every other row is untouched, the flag rises
        exactly when the line changed, and the line's reward is added. */
    method RoundLeft(r: nat, ghost t: seq<int>, change: bool, reward: int) returns (change': bool, reward': int)
      requires Shaped() && r < nrows && Nonneg(t)
      requires Line(Cells(), nrows, ncols, Left, r) == t
      requires reward >= 0 && (reward > 0 ==> change)
      modifies board
      ensures Cells() == SetLine(old(Cells()), nrows, ncols, Left, r, Slide(t).line)
      ensures change' == (change || Slide(t).changed) && reward' == reward + Slide(t).reward
      ensures reward' >= 0 && (reward' > 0 ==> change')
    {
      ghost var before := Cells();
      RowRead(Left, r, t);
      change', reward' := change, reward;
      var moved := PushLeft(r, t);
      assert forall r', c' :: 0 <= r' < nrows && 0 <= c' < ncols && r' != r ==> board[r', c'] == before[r'][c'];
      change' := change' || moved;
      var merged := MergeLeft(r, Push(t));
      assert forall r', c' :: 0 <= r' < nrows && 0 <= c' < ncols && r' != r ==> board[r', c'] == before[r'][c'];
      reward' := reward' + merged;
      change' := change' || reward' > 0;
      var movedAgain := PushLeft(r, Merge(Push(t)).line);
      assert forall r', c' :: 0 <= r' < nrows && 0 <= c' < ncols && r' != r ==> board[r', c'] == before[r'][c'];
      change' := change' || movedAgain;
      SlideRound(t, change, reward, moved, merged, movedAgain);
      ghost var v := Slide(t).line;
      assert v == Push(Merge(Push(t)).line);
      RowReplaced(before, Left, r, v);
    }

    /** One pass of the loop of _right on row r. */
    method RoundRight(r: nat, ghost t: seq<int>, change: bool, reward: int) returns (change': bool, reward': int)
      requires Shaped() && r < nrows && Nonneg(t)
      requires Line(Cells(), nrows, ncols, Right, r) == t
      requires reward >= 0 && (reward > 0 ==> change)
      modifies board
      ensures Cells() == SetLine(old(Cells()), nrows, ncols, Right, r, Slide(t).line)
      ensures change' == (change || Slide(t).changed) && reward' == reward + Slide(t).reward
      ensures reward' >= 0 && (reward' > 0 ==> change')
    {
      ghost var before := Cells();
      RowRead(Right, r, t);
      change', reward' := change, reward;
      var moved := PushRight(r, t);
      assert forall r', c' :: 0 <= r' < nrows && 0 <= c' < ncols && r' != r ==> board[r', c'] == before[r'][c'];
      change' := change' || moved;
      var merged := MergeRight(r, Push(t));
      assert forall r', c' :: 0 <= r' < nrows && 0 <= c' < ncols && r' != r ==> board[r', c'] == before[r'][c'];
      reward' := reward' + merged;
      change' := change' || reward' > 0;
      var movedAgain := PushRight(r, Merge(Push(t)).line);
      assert forall r', c' :: 0 <= r' < nrows && 0 <= c' < ncols && r' != r ==> board[r', c'] == before[r'][c'];
      change' := change' || movedAgain;
      SlideRound(t, change, reward, moved, merged, movedAgain);
      ghost var v := Slide(t).line;
      assert v == Push(Merge(Push(t)).line);
      RowReplaced(before, Right, r, v);
    }

    /** One pass of the loop of _up on column c. */
    method RoundUp(c: nat, ghost t: seq<int>, change: bool, reward: int) returns (change': bool, reward': int)
      requires Shaped() && c < ncols && Nonneg(t)
      requires Line(Cells(), nrows, ncols, Up, c) == t
      requires reward >= 0 && (reward > 0 ==> change)
      modifies board
      ensures Cells() == SetLine(old(Cells()), nrows, ncols, Up, c, Slide(t).line)
      ensures change' == (change || Slide(t).changed) && reward' == reward + Slide(t).reward
      ensures reward' >= 0 && (reward' > 0 ==> change')
    {
      ghost var before := Cells();
      ColumnRead(Up, c, t);
      change', reward' := change, reward;
      var moved := PushUp(c, t);
      assert forall r', c' :: 0 <= r' < nrows && 0 <= c' < ncols && c' != c ==> board[r', c'] == before[r'][c'];
      change' := change' || moved;
      var merged := MergeUp(c, Push(t));
      assert forall r', c' :: 0 <= r' < nrows && 0 <= c' < ncols && c' != c ==> board[r', c'] == before[r'][c'];
      reward' := reward' + merged;
      change' := change' || reward' > 0;
      var movedAgain := PushUp(c, Merge(Push(t)).line);
      assert forall r', c' :: 0 <= r' < nrows && 0 <= c' < ncols && c' != c ==> board[r', c'] == before[r'][c'];
      change' := change' || movedAgain;
      SlideRound(t, change, reward, moved, merged, movedAgain);
      ghost var v := Slide(t).line;
      assert v == Push(Merge(Push(t)).line);
      ColumnReplaced(before, Up, c, v);
    }

    /** One pass of the loop of _down on column c. */
    method RoundDown(c: nat, ghost t: seq<int>, change: bool, reward: int) returns (change': bool, reward': int)
      requires Shaped() && c < ncols && Nonneg(t)
      requires Line(Cells(), nrows, ncols, Down, c) == t
      requires reward >= 0 && (reward > 0 ==> change)
      modifies board
      ensures Cells() == SetLine(old(Cells()), nrows, ncols, Down, c, Slide(t).line)
      ensures change' == (change || Slide(t).changed) && reward' == reward + Slide(t).reward
      ensures reward' >= 0 && (reward' > 0 ==> change')
    {
      ghost var before := Cells();
      ColumnRead(Down, c, t);
      change', reward' := change, reward;
      var moved := PushDown(c, t);
      assert forall r', c' :: 0 <= r' < nrows && 0 <= c' < ncols && c' != c ==> board[r', c'] == before[r'][c'];
      change' := change' || moved;
      var merged := MergeDown(c, Push(t));
      assert forall r', c' :: 0 <= r' < nrows && 0 <= c' < ncols && c' != c ==> board[r', c'] == before[r'][c'];
      reward' := reward' + merged;
      change' := change' || reward' > 0;
      var movedAgain := PushDown(c, Merge(Push(t)).line);
      assert forall r', c' :: 0 <= r' < nrows && 0 <= c' < ncols && c' != c ==> board[r', c'] == before[r'][c'];
      change' := change' || movedAgain;
      SlideRound(t, change, reward, moved, merged, movedAgain);
      ghost var v := Slide(t).line;
      assert v == Push(Merge(Push(t)).line);
      ColumnReplaced(before, Down, c, v);
    }

    /** _left: every row in turn gets one round of push, merge, push. The board ends as the grid MoveGrid specifies, with its
        reward and flag. */
    method MoveLeft() returns (change: bool, reward: int)
      requires Valid()
      modifies board
      ensures Valid()
      ensures Cells() == MoveGrid(old(Cells()), nrows, ncols, Left).grid
      ensures reward == MoveGrid(old(Cells()), nrows, ncols, Left).reward
      ensures change == MoveGrid(old(Cells()), nrows, ncols, Left).changed
    {
      ghost var g := Cells();
      change, reward := false, 0;
      PartialStart(g, nrows, ncols, Left);
      for r := 0 to nrows
        invariant Cells() == Partial(g, nrows, ncols, Left, r)
        invariant change == AnyChanged(Slides(g, nrows, ncols, Left)[..r])
        invariant reward == RewardSum(Slides(g, nrows, ncols, Left)[..r])
        invariant reward >= 0 && (reward > 0 ==> change)
      {
        ghost var t := Line(g, nrows, ncols, Left, r);
        PartialLine(g, nrows, ncols, Left, r);
        LineNonneg(g, nrows, ncols, Left, r);
        AccumulateLine(g, nrows, ncols, Left, r);
        change, reward := RoundLeft(r, t, change, reward);
        PartialStep(g, nrows, ncols, Left, r);
      }
      PartialDone(g, nrows, ncols, Left);
      MoveNonneg(g, nrows, ncols, Left);
      MoveTiles(g, nrows, ncols, Left);
    }

    /** _right: every row in turn gets one round, scanning from the right edge. The board ends as the grid MoveGrid specifies, with its
        reward and flag. */
    method MoveRight() returns (change: bool, reward: int)
      requires Valid()
      modifies board
      ensures Valid()
      ensures Cells() == MoveGrid(old(Cells()), nrows, ncols, Right).grid
      ensures reward == MoveGrid(old(Cells()), nrows, ncols, Right).reward
      ensures change == MoveGrid(old(Cells()), nrows, ncols, Right).changed
    {
      ghost var g := Cells();
      change, reward := false, 0;
      PartialStart(g, nrows, ncols, Right);
      for r := 0 to nrows
        invariant Cells() == Partial(g, nrows, ncols, Right, r)
        invariant change == AnyChanged(Slides(g, nrows, ncols, Right)[..r])
        invariant reward == RewardSum(Slides(g, nrows, ncols, Right)[..r])
        invariant reward >= 0 && (reward > 0 ==> change)
      {
        ghost var t := Line(g, nrows, ncols, Right, r);
        PartialLine(g, nrows, ncols, Right, r);
        LineNonneg(g, nrows, ncols, Right, r);
        AccumulateLine(g, nrows, ncols, Right, r);
        change, reward := RoundRight(r, t, change, reward);
        PartialStep(g, nrows, ncols, Right, r);
      }
      PartialDone(g, nrows, ncols, Right);
      MoveNonneg(g, nrows, ncols, Right);
      MoveTiles(g, nrows, ncols, Right);
    }

    /** _up: every column in turn gets one round, scanning from the top. The board ends as the grid MoveGrid specifies, with its
        reward and flag. */
    method MoveUp() returns (change: bool, reward: int)
      requires Valid()
      modifies board
      ensures Valid()
      ensures Cells() == MoveGrid(old(Cells()), nrows, ncols, Up).grid
      ensures reward == MoveGrid(old(Cells()), nrows, ncols, Up).reward
      ensures change == MoveGrid(old(Cells()), nrows, ncols, Up).changed
    {
      ghost var g := Cells();
      change, reward := false, 0;
      PartialStart(g, nrows, ncols, Up);
      for c := 0 to ncols
        invariant Cells() == Partial(g, nrows, ncols, Up, c)
        invariant change == AnyChanged(Slides(g, nrows, ncols, Up)[..c])
        invariant reward == RewardSum(Slides(g, nrows, ncols, Up)[..c])
        invariant reward >= 0 && (reward > 0 ==> change)
      {
        ghost var t := Line(g, nrows, ncols, Up, c);
        PartialLine(g, nrows, ncols, Up, c);
        LineNonneg(g, nrows, ncols, Up, c);
        AccumulateLine(g, nrows, ncols, Up, c);
        change, reward := RoundUp(c, t, change, reward);
        PartialStep(g, nrows, ncols, Up, c);
      }
      PartialDone(g, nrows, ncols, Up);
      MoveNonneg(g, nrows, ncols, Up);
      MoveTiles(g, nrows, ncols, Up);
    }

    /** _down: every column in turn gets one round, scanning from the bottom. The board ends as the grid MoveGrid specifies, with its
        reward and flag. */
    method MoveDown() returns (change: bool, reward: int)
      requires Valid()
      modifies board
      ensures Valid()
      ensures Cells() == MoveGrid(old(Cells()), nrows, ncols, Down).grid
      ensures reward == MoveGrid(old(Cells()), nrows, ncols, Down).reward
      ensures change == MoveGrid(old(Cells()), nrows, ncols, Down).changed
    {
      ghost var g := Cells();
      change, reward := false, 0;
      PartialStart(g, nrows, ncols, Down);
      for c := 0 to ncols
        invariant Cells() == Partial(g, nrows, ncols, Down, c)
        invariant change == AnyChanged(Slides(g, nrows, ncols, Down)[..c])
        invariant reward == RewardSum(Slides(g, nrows, ncols, Down)[..c])
        invariant reward >= 0 && (reward > 0 ==> change)
      {
        ghost var t := Line(g, nrows, ncols, Down, c);
        PartialLine(g, nrows, ncols, Down, c);
        LineNonneg(g, nrows, ncols, Down, c);
        AccumulateLine(g, nrows, ncols, Down, c);
        change, reward := RoundDown(c, t, change, reward);
        PartialStep(g, nrows, ncols, Down, c);
      }
      PartialDone(g, nrows, ncols, Down);
      MoveNonneg(g, nrows, ncols, Down);
      MoveTiles(g, nrows, ncols, Down);
    }

    // -------------------------------------------------------------------
    // Status, snapshot and the step of the game

    /** is_won: some cell holds 2 ** (2 + nrows * ncols - 1). */
    function IsWon(): (won: bool)
      reads board
      requires Shaped()
      ensures won <==> Won(Cells(), nrows, ncols)
    {
      exists r, c | 0 <= r < nrows && 0 <= c < ncols :: board[r, c] == Pow2(2 + nrows * ncols - 1)
    }

    /** is_lost: scan the cells row by row and give up on the first one that
        is empty or equals its lower or its right neighbour. */
    method IsLost() returns (lost: bool)
      requires Shaped()
      ensures lost == Lost(Cells(), nrows, ncols)
    {
      ghost var g := Cells();
      for r := 0 to nrows
        invariant forall r', c :: 0 <= r' < r && 0 <= c < ncols ==>
          g[r'][c] != 0 && !SameAsBelow(g, nrows, ncols, r', c) && !SameAsRight(g, nrows, ncols, r', c)
      {
        for c := 0 to ncols
          invariant forall r', c' :: (0 <= r' < r && 0 <= c' < ncols) || (r' == r && 0 <= c' < c) ==>
            g[r'][c'] != 0 && !SameAsBelow(g, nrows, ncols, r', c') && !SameAsRight(g, nrows, ncols, r', c')
        {
          if !IsCellOccupied(r, c)
            || (r + 1 < nrows && board[r, c] == board[r + 1, c])
            || (c + 1 < ncols && board[r, c] == board[r, c + 1])
          {
            assert g[r][c] == 0 || SameAsBelow(g, nrows, ncols, r, c) || SameAsRight(g, nrows, ncols, r, c);
            return false;
          }
        }
      }
      return true;
    }

    /** The state get_env reports, as a value. */
    ghost function Snapshot(): Env
      reads this, board
      requires Shaped()
    {
      Env(Cells(), score, nInvalidMoves, nSteps, Won(Cells(), nrows, ncols), Lost(Cells(), nrows, ncols))
    }

    /** get_env: the state reported to a player. The board is reported as a
        value. */
    method GetEnv() returns (env: Env)
      requires Valid()
      ensures env == Snapshot()
    {
      var lost := IsLost();
      env := Env(Cells(), score, nInvalidMoves, nSteps, IsWon(), lost);
    }

    /** The table of update: each action runs its directional move. */
    method Move(d: Dir) returns (change: bool, reward: int)
      requires Valid()
      modifies board
      ensures Valid()
      ensures Cells() == MoveGrid(old(Cells()), nrows, ncols, d).grid
      ensures reward == MoveGrid(old(Cells()), nrows, ncols, d).reward
      ensures change == MoveGrid(old(Cells()), nrows, ncols, d).changed
    {
      match d {
        case Left => change, reward := MoveLeft();
        case Right => change, reward := MoveRight();
        case Up => change, reward := MoveUp();
        case Down => change, reward := MoveDown();
      }
    }

    /** The part of update that follows the move: a changed board gets a
        spawned tile, an unchanged one counts as an invalid move; the reward
        is added to the score and the step is counted. */
    method AfterMove(change: bool, reward: int, draws: seq<(int, int)>, pick: nat)
      requires Valid() && pick < |spawnValues| && reward >= 0 && InBoard(draws, nrows, ncols)
      requires change ==> HitsEmpty(Cells(), nrows, ncols, draws)
      modifies this, board
      ensures Valid()
      ensures change ==>
        var j := FirstEmpty(old(Cells()), nrows, ncols, draws);
        Cells() == SpawnAt(old(Cells()), nrows, ncols, draws[j].0, draws[j].1, spawnValues[pick])
      ensures !change ==> Cells() == old(Cells())
      ensures nInvalidMoves == old(nInvalidMoves) + (if change then 0 else 1)
      ensures score == old(score) + reward && nSteps == old(nSteps) + 1
    {
      if change {
        RandomSpawn(draws, pick);
      } else {
        nInvalidMoves := nInvalidMoves + 1;
      }
      score := score + reward;
      nSteps := nSteps + 1;
    }

    /** update: look the action up, move, then spawn a tile if the move
        changed the board or count an invalid move if it did not; add the
        reward to the score, count the step and report the snapshot with the
        reward and the flag. An action outside the table fails before any
        state changes. The draws and the pick feed random_spawn. */
    method Update(action: string, draws: seq<(int, int)>, pick: nat) returns (result: UpdateResult)
      requires Valid() && pick < |spawnValues| && InBoard(draws, nrows, ncols)
      requires ParseAction(action).Some? && MoveGrid(Cells(), nrows, ncols, ParseAction(action).value).changed ==>
        HitsEmpty(MoveGrid(Cells(), nrows, ncols, ParseAction(action).value).grid, nrows, ncols, draws)
      modifies this, board
      ensures Valid()
      ensures score >= old(score)
      ensures ParseAction(action).None? ==>
        result == UnknownAction(action) && Cells() == old(Cells())
        && score == old(score) && nInvalidMoves == old(nInvalidMoves) && nSteps == old(nSteps)
      ensures ParseAction(action).Some? ==>
        var d := ParseAction(action).value;
        Cells() == Played(old(Cells()), nrows, ncols, d, draws, spawnValues[pick])
        && score == old(score) + MoveGrid(old(Cells()), nrows, ncols, d).reward
        && nInvalidMoves == old(nInvalidMoves) + (if MoveGrid(old(Cells()), nrows, ncols, d).changed then 0 else 1)
        && nSteps == old(nSteps) + 1
        && result == Done(Step(Snapshot(), MoveGrid(old(Cells()), nrows, ncols, d).reward, MoveGrid(old(Cells()), nrows, ncols, d).changed))
    {
      var dir := ParseAction(action);
      if dir.None? {
        return UnknownAction(action);
      }
      ghost var g := Cells();
      MoveNonneg(g, nrows, ncols, dir.value);
      var change, reward := Move(dir.value);
      AfterMove(change, reward, draws, pick);
      var env := GetEnv();
      result := Done(Step(env, reward, change));
    }
  }
}
