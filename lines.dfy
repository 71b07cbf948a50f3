/** One line of the board, read from the edge its tiles move toward (a row
    left to right for a Left move, a column bottom to top for a Down move).
    A cell holds an integer and 0 is an empty cell. This module gives the
    three steps every directional move applies to each line: compaction
    (Push), the merge pass (Merge) and the slide that combines them
    (Slide), together with what they preserve. */
module Lines {

  /** A run of n empty cells. */
  function Zeros(n: nat): (z: seq<int>)
    ensures |z| == n
    ensures forall i :: 0 <= i < n ==> z[i] == 0
  {
    seq(n, _ => 0)
  }

  /** The occupied cells of s, in their original order. */
  function NonZeros(s: seq<int>): (t: seq<int>)
    ensures |t| <= |s|
    ensures forall i :: 0 <= i < |t| ==> t[i] != 0
  {
    if s == [] then []
    else if s[|s| - 1] != 0 then NonZeros(s[..|s| - 1]) + [s[|s| - 1]]
    else NonZeros(s[..|s| - 1])
  }

  /** Compaction toward the edge: occupied cells first, in order, then the empty ones. */
  function Push(s: seq<int>): (p: seq<int>)
    ensures |p| == |s|
  {
    NonZeros(s) + Zeros(|s| - |NonZeros(s)|)
  }

  /** No empty cell comes before an occupied one. */
  predicate Pushed(s: seq<int>) {
    forall i, j :: 0 <= i < j < |s| && s[i] == 0 ==> s[j] == 0
  }

  predicate Full(s: seq<int>) {
    forall i :: 0 <= i < |s| ==> s[i] != 0
  }

  predicate Nonneg(s: seq<int>) {
    forall i :: 0 <= i < |s| ==> s[i] >= 0
  }

  /** Some occupied cell equals its successor, so the merge pass has work to do. */
  predicate HasPair(s: seq<int>) {
    exists i :: 0 <= i < |s| - 1 && s[i] != 0 && s[i] == s[i + 1]
  }

  /** Result of the merge pass: the new line and the reward it earned. */
  datatype Merged = Merged(line: seq<int>, reward: int)

  /** The merge pass, scanning from the edge: an occupied cell equal to its
      successor absorbs it, the successor becomes empty, and the new value is
      added to the reward. The emptied successor is skipped, so a freshly
      merged tile never merges again in the same pass. */
  function Merge(s: seq<int>): (m: Merged)
    ensures |m.line| == |s|
  {
    if |s| < 2 then Merged(s, 0)
    else if s[0] != 0 && s[0] == s[1] then
      var rest := Merge(s[2..]);
      Merged([s[0] + s[1], 0] + rest.line, s[0] + s[1] + rest.reward)
    else
      var rest := Merge(s[1..]);
      Merged([s[0]] + rest.line, rest.reward)
  }

  /** Result of a whole move on one line. */
  datatype Slid = Slid(line: seq<int>, reward: int, changed: bool)

  /** Push, merge, push again. The flag is what the engine accumulates for the
      line: the first push moved a tile, the merge earned a reward, or the
      second push moved a tile. */
  function Slide(s: seq<int>): (r: Slid)
    ensures |r.line| == |s|
  {
    var m := Merge(Push(s));
    Slid(Push(m.line), m.reward, !Pushed(s) || m.reward > 0 || !Pushed(m.line))
  }

  /** Weighted sums over a line; Sum adds the values, Count counts the tiles. */
  function SumOf(s: seq<int>, f: int -> int): int {
    if s == [] then 0 else f(s[0]) + SumOf(s[1..], f)
  }

  function Value(x: int): int { x }

  function Occupied(x: int): int { if x == 0 then 0 else 1 }

  function Sum(s: seq<int>): int { SumOf(s, Value) }

  function Count(s: seq<int>): int { SumOf(s, Occupied) }

  /** f summed over the first n cells, from the edge. */
  function PrefixSum(s: seq<int>, f: int -> int, n: nat): int
    requires n <= |s|
  {
    if n == 0 then 0 else PrefixSum(s, f, n - 1) + f(s[n - 1])
  }

  function Reverse(s: seq<int>): (r: seq<int>)
    ensures |r| == |s|
  {
    seq(|s|, i requires 0 <= i < |s| => s[|s| - 1 - i])
  }

  lemma ReverseReverse(s: seq<int>)
    ensures Reverse(Reverse(s)) == s
  {
  }

  // ---------------------------------------------------------------------
  // Sums

  lemma {:induction false} SumOfConcat(a: seq<int>, b: seq<int>, f: int -> int)
    ensures SumOf(a + b, f) == SumOf(a, f) + SumOf(b, f)
  {
    if a != [] {
      assert (a + b)[1..] == a[1..] + b;
      SumOfConcat(a[1..], b, f);
    } else {
      assert a + b == b;
    }
  }

  lemma {:induction false} SumOfZeros(n: nat, f: int -> int)
    requires f(0) == 0
    ensures SumOf(Zeros(n), f) == 0
  {
    if n > 0 {
      assert Zeros(n)[1..] == Zeros(n - 1);
      SumOfZeros(n - 1, f);
    }
  }

  lemma {:induction false} SumOfReverse(s: seq<int>, f: int -> int)
    ensures SumOf(Reverse(s), f) == SumOf(s, f)
  {
    if s != [] {
      assert Reverse(s) == [s[|s| - 1]] + Reverse(s[..|s| - 1]);
      assert s == s[..|s| - 1] + [s[|s| - 1]];
      SumOfReverse(s[..|s| - 1], f);
      SumOfConcat(s[..|s| - 1], [s[|s| - 1]], f);
    }
  }

  lemma {:induction false} PrefixSumIsSumOf(s: seq<int>, f: int -> int, n: nat)
    requires n <= |s|
    ensures PrefixSum(s, f, n) == SumOf(s[..n], f)
  {
    if n > 0 {
      PrefixSumIsSumOf(s, f, n - 1);
      assert s[..n] == s[..n - 1] + [s[n - 1]];
      SumOfConcat(s[..n - 1], [s[n - 1]], f);
    }
  }

  lemma SumOfIsPrefixSum(s: seq<int>, f: int -> int)
    ensures SumOf(s, f) == PrefixSum(s, f, |s|)
  {
    PrefixSumIsSumOf(s, f, |s|);
    assert s[..|s|] == s;
  }

  /** Counting the tiles of a line is measuring its occupied part. */
  lemma {:induction false} CountIsNonZeros(s: seq<int>)
    ensures Count(s) == |NonZeros(s)|
  {
    if s != [] {
      var init, last := s[..|s| - 1], s[|s| - 1];
      assert s == init + [last];
      CountIsNonZeros(init);
      SumOfConcat(init, [last], Occupied);
    }
  }

  /** A line has fewer tiles than cells exactly when it has an empty cell. */
  lemma {:induction false} CountBelowLength(s: seq<int>)
    ensures 0 <= Count(s) <= |s|
    ensures Count(s) < |s| <==> !Full(s)
  {
    if s != [] {
      CountBelowLength(s[1..]);
      if !Full(s[1..]) {
        var i :| 0 <= i < |s[1..]| && s[1..][i] == 0;
        assert s[i + 1] == 0;
      }
      if s[0] != 0 && !Full(s) {
        var i :| 0 <= i < |s| && s[i] == 0;
        assert s[1..][i - 1] == 0;
      }
    }
  }

  // ---------------------------------------------------------------------
  // Compaction

  lemma {:induction false} NonZerosConcat(a: seq<int>, b: seq<int>)
    ensures NonZeros(a + b) == NonZeros(a) + NonZeros(b)
  {
    if b != [] {
      var init, last := b[..|b| - 1], b[|b| - 1];
      assert (a + b)[..|a + b| - 1] == a + init;
      NonZerosConcat(a, init);
    } else {
      assert a + b == a;
    }
  }

  lemma {:induction false} NonZerosOfZeros(n: nat)
    ensures NonZeros(Zeros(n)) == []
  {
    if n > 0 {
      assert Zeros(n)[..n - 1] == Zeros(n - 1);
      NonZerosOfZeros(n - 1);
    }
  }

  lemma {:induction false} NonZerosOfFull(s: seq<int>)
    requires Full(s)
    ensures NonZeros(s) == s
  {
    if s != [] {
      assert s == s[..|s| - 1] + [s[|s| - 1]];
      NonZerosOfFull(s[..|s| - 1]);
    }
  }

  /** One more cell of the line read: the occupied prefix grows by that cell when it is a tile. */
  lemma NonZerosSnoc(s: seq<int>, i: nat)
    requires i < |s|
    ensures NonZeros(s[..i + 1]) == NonZeros(s[..i]) + (if s[i] != 0 then [s[i]] else [])
  {
    assert s[..i + 1][..i] == s[..i];
  }

  /** One step of the compaction loop that meets a tile at i while the cursor
      e marks the first empty cell: the tile is swapped into the cursor. */
  lemma PushStepTile(s: seq<int>, i: nat, e: nat)
    requires e < i < |s| && e == |NonZeros(s[..i])| && s[i] != 0
    ensures NonZeros(s[..i + 1]) + Zeros(i - e) + s[i + 1..]
            == (NonZeros(s[..i]) + Zeros(i - e) + s[i..])[e := s[i]][i := 0]
  {
    NonZerosSnoc(s, i);
  }

  /** One step of the compaction loop that meets an empty cell. */
  lemma PushStepEmpty(s: seq<int>, i: nat, e: nat)
    requires e <= i < |s| && s[i] == 0
    ensures NonZeros(s[..i + 1]) + Zeros(i + 1 - e) + s[i + 1..]
            == NonZeros(s[..i]) + Zeros(i - e) + s[i..]
  {
    NonZerosSnoc(s, i);
    assert s[i..] == [0] + s[i + 1..];
    assert Zeros(i + 1 - e) == Zeros(i - e) + [0];
  }

  /** Compaction puts every tile before every empty cell, keeps the tiles in
      their original order, and only rearranges the cells. */
  lemma {:induction false} PushSpec(s: seq<int>)
    ensures Pushed(Push(s))
    ensures NonZeros(Push(s)) == NonZeros(s)
    ensures Push(s)[..|NonZeros(s)|] == NonZeros(s)
    ensures multiset(Push(s)) == multiset(s)
  {
    var nz := NonZeros(s);
    var p := Push(s);
    forall i, j | 0 <= i < j < |p| && p[i] == 0 ensures p[j] == 0 {
      assert i >= |nz|;
    }
    NonZerosConcat(nz, Zeros(|s| - |nz|));
    NonZerosOfZeros(|s| - |nz|);
    NonZerosOfFull(nz);
    assert p[..|nz|] == nz;
    PushMultiset(s);
  }

  lemma {:induction false} PushMultiset(s: seq<int>)
    ensures multiset(Push(s)) == multiset(s)
  {
    if s != [] {
      var init, last := s[..|s| - 1], s[|s| - 1];
      assert s == init + [last];
      PushMultiset(init);
      var m := |init| - |NonZeros(init)|;
      assert multiset(Push(init)) == multiset(NonZeros(init)) + multiset(Zeros(m));
      if last != 0 {
        assert NonZeros(s) == NonZeros(init) + [last];
        assert Push(s) == NonZeros(init) + [last] + Zeros(m);
        assert multiset(Push(s)) == multiset(NonZeros(init)) + multiset{last} + multiset(Zeros(m));
      } else {
        assert NonZeros(s) == NonZeros(init);
        assert Zeros(m + 1) == Zeros(m) + [0];
        assert Push(s) == NonZeros(init) + Zeros(m) + [0];
        assert multiset(Push(s)) == multiset(NonZeros(init)) + multiset(Zeros(m)) + multiset{0};
      }
    }
  }

  /** A line changes under compaction exactly when an empty cell precedes a tile. */
  lemma {:induction false} PushFixedIff(s: seq<int>)
    ensures Push(s) == s <==> Pushed(s)
  {
    PushSpec(s);
    if Pushed(s) {
      PushOfPushed(s);
    }
  }

  lemma {:induction false} PushOfPushed(s: seq<int>)
    requires Pushed(s)
    ensures Push(s) == s
  {
    if s != [] {
      var init, last := s[..|s| - 1], s[|s| - 1];
      assert s == init + [last];
      assert Pushed(init) by {
        forall i, j | 0 <= i < j < |init| && init[i] == 0 ensures init[j] == 0 {
          assert s[i] == 0;
        }
      }
      PushOfPushed(init);
      var m := |init| - |NonZeros(init)|;
      if last != 0 {
        assert Full(init) by {
          forall i | 0 <= i < |init| ensures init[i] != 0 {
            assert init[i] == s[i] && s[|s| - 1] != 0;
          }
        }
        NonZerosOfFull(init);
        assert m == 0;
      } else {
        assert Zeros(m + 1) == Zeros(m) + [0];
      }
    }
  }

  /** The total of any cell measure that ignores empty cells survives compaction. */
  lemma {:induction false} PushTotal(s: seq<int>, f: int -> int)
    requires f(0) == 0
    ensures SumOf(Push(s), f) == SumOf(s, f)
  {
    NonZerosTotal(s, f);
    SumOfConcat(NonZeros(s), Zeros(|s| - |NonZeros(s)|), f);
    SumOfZeros(|s| - |NonZeros(s)|, f);
  }

  lemma {:induction false} NonZerosTotal(s: seq<int>, f: int -> int)
    requires f(0) == 0
    ensures SumOf(NonZeros(s), f) == SumOf(s, f)
  {
    if s != [] {
      var init, last := s[..|s| - 1], s[|s| - 1];
      assert s == init + [last];
      NonZerosTotal(init, f);
      SumOfConcat(init, [last], f);
      if last != 0 {
        SumOfConcat(NonZeros(init), [last], f);
      }
    }
  }

  // ---------------------------------------------------------------------
  // The merge pass

  /** With no equal occupied neighbours the merge pass changes nothing and earns nothing. */
  lemma {:induction false} MergeNoPair(s: seq<int>)
    requires !HasPair(s)
    ensures Merge(s) == Merged(s, 0)
  {
    if |s| >= 2 {
      assert !(s[0] != 0 && s[0] == s[1]);
      assert !HasPair(s[1..]);
      MergeNoPair(s[1..]);
      assert s == [s[0]] + s[1..];
    }
  }

  /** On a line of non-negative values the merge pass keeps values non-negative,
      earns a non-negative reward, keeps the sum, and never adds a tile; when
      some occupied cell equals its successor it earns a positive reward and
      removes at least one tile. */
  lemma {:induction false} MergeSpec(s: seq<int>)
    requires Nonneg(s)
    ensures Nonneg(Merge(s).line) && Merge(s).reward >= 0
    ensures Sum(Merge(s).line) == Sum(s)
    ensures Count(Merge(s).line) <= Count(s)
    ensures HasPair(s) ==> Merge(s).reward > 0 && Count(Merge(s).line) < Count(s)
    ensures !HasPair(s) ==> Merge(s) == Merged(s, 0)
  {
    if !HasPair(s) {
      MergeNoPair(s);
    } else if s[0] != 0 && s[0] == s[1] {
      MergePairStep(s);
      MergeSpec(s[2..]);
    } else {
      MergeSkipStep(s);
      assert HasPair(s[1..]) by {
        var i :| 0 <= i < |s| - 1 && s[i] != 0 && s[i] == s[i + 1];
        assert s[1..][i - 1] != 0 && s[1..][i - 1] == s[1..][i];
      }
      MergeSpec(s[1..]);
    }
  }

  /** The merge pass on a line starting with a pair, in terms of the rest. */
  lemma MergePairStep(s: seq<int>)
    requires Nonneg(s) && |s| >= 2 && s[0] != 0 && s[0] == s[1]
    ensures Nonneg(s[2..])
    ensures Sum(s) == s[0] + s[1] + Sum(s[2..]) && Count(s) == 2 + Count(s[2..])
    ensures Sum(Merge(s).line) == s[0] + s[1] + Sum(Merge(s[2..]).line)
    ensures Count(Merge(s).line) == 1 + Count(Merge(s[2..]).line)
    ensures Nonneg(Merge(s[2..]).line) ==> Nonneg(Merge(s).line)
    ensures Merge(s).reward == s[0] + s[1] + Merge(s[2..]).reward
  {
    var rest := s[2..];
    assert Nonneg(rest) by { forall i | 0 <= i < |rest| ensures rest[i] >= 0 { assert rest[i] == s[i + 2]; } }
    var out := [s[0] + s[1], 0] + Merge(rest).line;
    assert Merge(s).line == out;
    FrontTotals(s);
    FrontTotals(s[1..]);
    assert s[1..][1..] == rest;
    PairTotals(s[0], Merge(rest).line);
    if Nonneg(Merge(rest).line) {
      forall i | 0 <= i < |out| ensures out[i] >= 0 {
        if i >= 2 { assert out[i] == Merge(rest).line[i - 2]; }
      }
    }
  }

  /** The merge pass on a line whose first cell does not merge, in terms of the rest. */
  lemma MergeSkipStep(s: seq<int>)
    requires Nonneg(s) && |s| >= 2 && !(s[0] != 0 && s[0] == s[1])
    ensures Nonneg(s[1..])
    ensures Sum(s) == s[0] + Sum(s[1..]) && Count(s) == Occupied(s[0]) + Count(s[1..])
    ensures Sum(Merge(s).line) == s[0] + Sum(Merge(s[1..]).line)
    ensures Count(Merge(s).line) == Occupied(s[0]) + Count(Merge(s[1..]).line)
    ensures Nonneg(Merge(s[1..]).line) ==> Nonneg(Merge(s).line)
    ensures Merge(s).reward == Merge(s[1..]).reward
  {
    var rest := s[1..];
    assert Nonneg(rest) by { forall i | 0 <= i < |rest| ensures rest[i] >= 0 { assert rest[i] == s[i + 1]; } }
    var out := [s[0]] + Merge(rest).line;
    assert Merge(s).line == out;
    FrontTotals(s);
    HeadTotals(s[0], Merge(rest).line);
    if Nonneg(Merge(rest).line) {
      forall i | 0 <= i < |out| ensures out[i] >= 0 {
        if i >= 1 { assert out[i] == Merge(rest).line[i - 1]; }
      }
    }
  }

  /** Totals of a line that starts with the tile a pair x, x merged into,
      followed by the cell the merge emptied. */
  lemma PairTotals(x: int, merged: seq<int>)
    requires x > 0
    ensures Sum([x + x, 0] + merged) == x + x + Sum(merged) && Count([x + x, 0] + merged) == 1 + Count(merged)
  {
    SumOfConcat([x + x, 0], merged, Value);
    SumOfConcat([x + x, 0], merged, Occupied);
  }

  /** Totals of a non-empty line, split after its first cell. */
  lemma FrontTotals(s: seq<int>)
    requires |s| > 0
    ensures Sum(s) == s[0] + Sum(s[1..]) && Count(s) == Occupied(s[0]) + Count(s[1..])
  {
    assert s == [s[0]] + s[1..];
    HeadTotals(s[0], s[1..]);
  }

  /** Totals of a line with cell x in front. */
  lemma HeadTotals(x: int, rest: seq<int>)
    ensures Sum([x] + rest) == x + Sum(rest) && Count([x] + rest) == Occupied(x) + Count(rest)
  {
    SumOfConcat([x], rest, Value);
    SumOfConcat([x], rest, Occupied);
  }

  /** One step of the merge loop at position i that merges t[i] with t[i + 1]. */
  lemma MergeStepPair(t: seq<int>, i: nat)
    requires i + 1 < |t| && t[i] != 0 && t[i] == t[i + 1]
    ensures var u := t[i := t[i] + t[i + 1]][i + 1 := 0];
      t[..i] + Merge(t[i..]).line == u[..i + 1] + Merge(u[i + 1..]).line
      && Merge(t[i..]).reward == u[i] + Merge(u[i + 1..]).reward
  {
    var u := t[i := t[i] + t[i + 1]][i + 1 := 0];
    assert t[i..][2..] == t[i + 2..];
    assert u[i + 1..] == [0] + t[i + 2..];
    if |u[i + 1..]| >= 2 {
      assert u[i + 1..][1..] == t[i + 2..];
    }
    assert u[..i + 1] == t[..i] + [t[i] + t[i + 1]];
  }

  /** One step of the merge loop at position i that leaves the cell alone. */
  lemma MergeStepSkip(t: seq<int>, i: nat)
    requires i + 1 < |t| && !(t[i] != 0 && t[i] == t[i + 1])
    ensures t[..i] + Merge(t[i..]).line == t[..i + 1] + Merge(t[i + 1..]).line
    ensures Merge(t[i..]).reward == Merge(t[i + 1..]).reward
  {
    assert t[i..][1..] == t[i + 1..];
    assert t[..i + 1] == t[..i] + [t[i]];
  }

  /** What the compaction loop knows after reading i cells of s: the first
      empty cell is at i0, e tiles have been packed, and the line now holds
      those tiles, then empty cells, then the cells not yet read. */
  ghost predicate PushLoop(s: seq<int>, i0: nat, i: nat, e: nat, cur: seq<int>) {
    i0 <= e <= i <= |s|
    && Full(s[..i0]) && (i0 < |s| ==> s[i0] == 0)
    && e == |NonZeros(s[..i])| && (e == i ==> i == i0)
    && cur == NonZeros(s[..i]) + Zeros(i - e) + s[i..]
  }

  /** The compaction loop starts after the leading tiles. */
  lemma PushLoopStart(s: seq<int>, i0: nat)
    requires i0 <= |s| && Full(s[..i0]) && (i0 < |s| ==> s[i0] == 0)
    ensures PushLoop(s, i0, i0, i0, s)
  {
    NonZerosOfFull(s[..i0]);
    assert s[..i0] + Zeros(0) + s[i0..] == s;
  }

  /** One step of the compaction loop: a tile is swapped into the first
      empty cell, an empty cell is passed over. */
  lemma PushLoopStep(s: seq<int>, i0: nat, i: nat, e: nat, cur: seq<int>, e': nat, cur': seq<int>)
    requires PushLoop(s, i0, i, e, cur) && i < |s|
    requires cur[i] != 0 ==> e' == e + 1 && e < |cur| && cur' == cur[e := cur[i]][i := cur[e]]
    requires cur[i] == 0 ==> e' == e && cur' == cur
    ensures PushLoop(s, i0, i + 1, e', cur')
  {
    NonZerosSnoc(s, i);
    assert cur[i] == s[i];
    if s[i] != 0 {
      PushStepTile(s, i, e);
    } else {
      PushStepEmpty(s, i, e);
    }
  }

  /** A line with no tile is all empty cells. */
  lemma {:induction false} NoNonZeros(t: seq<int>)
    requires NonZeros(t) == []
    ensures forall j :: 0 <= j < |t| ==> t[j] == 0
  {
    if t != [] {
      NoNonZeros(t[..|t| - 1]);
    }
  }

  /** When the compaction loop ends the line is pushed, and some tile moved
      exactly when the line was not pushed already. */
  lemma PushLoopEnd(s: seq<int>, i0: nat, e: nat, cur: seq<int>)
    requires PushLoop(s, i0, |s|, e, cur)
    ensures cur == Push(s)
    ensures Pushed(s) <==> e == i0
  {
    assert s[..|s|] == s && s[|s|..] == [];
    PushFixedIff(s);
    if e == i0 {
      assert s == s[..i0] + s[i0..];
      NonZerosConcat(s[..i0], s[i0..]);
      NonZerosOfFull(s[..i0]);
      NoNonZeros(s[i0..]);
      assert s[i0..] == Zeros(|s| - i0);
      assert cur == s;
    } else {
      assert cur[i0] != 0;
    }
  }

  /** What the merge loop knows at position i: the cells before i are final
      and the rest still merges to the same result. */
  ghost predicate MergeLoop(s: seq<int>, i: nat, reward: int, cur: seq<int>) {
    i <= |cur| == |s|
    && Merge(s).line == cur[..i] + Merge(cur[i..]).line
    && Merge(s).reward == reward + Merge(cur[i..]).reward
  }

  lemma MergeLoopStart(s: seq<int>)
    ensures MergeLoop(s, 0, 0, s)
  {
    assert s[..0] + s[0..] == s;
  }

  /** A step of the merge loop that merges cell i with cell i + 1. */
  lemma MergeLoopPair(s: seq<int>, i: nat, reward: int, cur: seq<int>)
    requires MergeLoop(s, i, reward, cur) && i + 1 < |cur| && cur[i] != 0 && cur[i] == cur[i + 1]
    ensures MergeLoop(s, i + 1, reward + (cur[i] + cur[i + 1]), cur[i := cur[i] + cur[i + 1]][i + 1 := 0])
  {
    MergeStepPair(cur, i);
  }

  /** A step of the merge loop that leaves cell i alone. */
  lemma MergeLoopSkip(s: seq<int>, i: nat, reward: int, cur: seq<int>)
    requires MergeLoop(s, i, reward, cur) && i + 1 < |cur| && !(cur[i] != 0 && cur[i] == cur[i + 1])
    ensures MergeLoop(s, i + 1, reward, cur)
  {
    MergeStepSkip(cur, i);
  }

  /** When fewer than two cells remain the merge loop is done. */
  lemma MergeLoopEnd(s: seq<int>, i: nat, reward: int, cur: seq<int>)
    requires MergeLoop(s, i, reward, cur) && |cur| <= i + 1
    ensures cur == Merge(s).line && reward == Merge(s).reward
  {
    assert cur[..i] + cur[i..] == cur;
  }

  /** The line and the first-empty cursor once the compaction loop that
      starts at i0 has visited cells i0 .. i - 1: a tile met at i is
      swapped with the cell at the cursor, which then advances. */
  ghost function PushScan(s: seq<int>, i0: nat, i: nat): (st: (seq<int>, nat))
    requires i0 <= i <= |s|
    ensures |st.0| == |s| && i0 <= st.1 <= i
    decreases i
  {
    if i == i0 then (s, i0)
    else
      var (cur, e) := PushScan(s, i0, i - 1);
      if cur[i - 1] != 0 then (cur[e := cur[i - 1]][i - 1 := cur[e]], e + 1) else (cur, e)
  }

  /** The scan keeps the compaction invariant. */
  lemma {:induction false} PushScanLoop(s: seq<int>, i0: nat, i: nat)
    requires i0 <= i <= |s| && Full(s[..i0]) && (i0 < |s| ==> s[i0] == 0)
    ensures PushLoop(s, i0, i, PushScan(s, i0, i).1, PushScan(s, i0, i).0)
    decreases i
  {
    if i == i0 {
      PushLoopStart(s, i0);
    } else {
      PushScanLoop(s, i0, i - 1);
      var (cur, e) := PushScan(s, i0, i - 1);
      PushLoopStep(s, i0, i - 1, e, cur, PushScan(s, i0, i).1, PushScan(s, i0, i).0);
    }
  }

  /** A full scan started at the first empty cell pushes the line, and the
      cursor has moved exactly when the line was not pushed already. */
  lemma PushScanDone(s: seq<int>, i0: nat)
    requires i0 <= |s| && Full(s[..i0]) && (i0 < |s| ==> s[i0] == 0)
    ensures PushScan(s, i0, |s|).0 == Push(s)
    ensures Pushed(s) <==> PushScan(s, i0, |s|).1 == i0
  {
    PushScanLoop(s, i0, |s|);
    PushLoopEnd(s, i0, PushScan(s, i0, |s|).1, PushScan(s, i0, |s|).0);
  }

  /** The line and the reward once the merge loop has looked at the pairs
      starting at 0 .. i - 1: an occupied cell equal to its successor takes
      the sum, the successor is emptied, and the sum is earned. */
  ghost function MergeScan(s: seq<int>, i: nat): (st: (seq<int>, int))
    requires i <= |s|
    ensures |st.0| == |s|
    decreases i
  {
    if i == 0 then (s, 0)
    else
      var (cur, reward) := MergeScan(s, i - 1);
      if i < |s| && cur[i - 1] != 0 && cur[i - 1] == cur[i]
      then (cur[i - 1 := cur[i - 1] + cur[i]][i := 0], reward + (cur[i - 1] + cur[i]))
      else (cur, reward)
  }

  /** The scan keeps the merge invariant. */
  lemma {:induction false} MergeScanLoop(s: seq<int>, i: nat)
    requires i == 0 || i < |s|
    ensures MergeLoop(s, i, MergeScan(s, i).1, MergeScan(s, i).0)
    decreases i
  {
    if i == 0 {
      MergeLoopStart(s);
    } else {
      MergeScanLoop(s, i - 1);
      var j := i - 1;
      var (cur, reward) := MergeScan(s, j);
      if cur[j] != 0 && cur[j] == cur[j + 1] {
        MergeLoopPair(s, j, reward, cur);
        assert MergeScan(s, j + 1) == (cur[j := cur[j] + cur[j + 1]][j + 1 := 0], reward + (cur[j] + cur[j + 1]));
      } else {
        MergeLoopSkip(s, j, reward, cur);
        assert MergeScan(s, j + 1) == (cur, reward);
      }
    }
  }

  /** The last merge step looks at the pair ending in the last cell. */
  function LastPair(n: nat): (i: nat)
    ensures i <= n && (i == 0 || i < n) && n <= i + 1
  {
    if n == 0 then 0 else n - 1
  }

  /** A full merge scan merges the line and earns the merge reward. */
  lemma MergeScanDone(s: seq<int>)
    ensures MergeScan(s, LastPair(|s|)).0 == Merge(s).line
    ensures MergeScan(s, LastPair(|s|)).1 == Merge(s).reward
  {
    var i := LastPair(|s|);
    MergeScanLoop(s, i);
    MergeLoopEnd(s, i, MergeScan(s, i).1, MergeScan(s, i).0);
  }

  /** The compaction loop run from the far end of a line, as the pushes
      toward the right and toward the bottom run it: the row and the
      cursor once cells c0 down to c + 1 have been visited. */
  ghost function PushScanBack(row: seq<int>, c0: int, c: int): (st: (seq<int>, int))
    requires -1 <= c <= c0 < |row|
    ensures |st.0| == |row| && c <= st.1 <= c0
    decreases c0 - c
  {
    if c == c0 then (row, c0)
    else
      var (cur, ce) := PushScanBack(row, c0, c + 1);
      if cur[c + 1] != 0 then (cur[ce := cur[c + 1]][c + 1 := cur[ce]], ce - 1) else (cur, ce)
  }

  /** One step of the backward compaction on a reversed line mirrors one
      step of the forward compaction: a tile at mirrored cell i is swapped
      to the mirrored cursor, and both cursors advance together. */
  lemma BackStepMirrors(cur: seq<int>, e: nat, i: nat, row: seq<int>, ce: int, c: int,
                        cur': seq<int>, e': nat, row': seq<int>, ce': int)
    requires e < |cur| && i < |cur| && row == Reverse(cur)
    requires ce == |cur| - 1 - e && c + 1 == |cur| - 1 - i
    requires cur' == (if cur[i] != 0 then cur[e := cur[i]][i := cur[e]] else cur)
    requires e' == (if cur[i] != 0 then e + 1 else e)
    requires row' == (if row[c + 1] != 0 then row[ce := row[c + 1]][c + 1 := row[ce]] else row)
    requires ce' == (if row[c + 1] != 0 then ce - 1 else ce)
    ensures row' == Reverse(cur') && ce' == |cur| - 1 - e'
  {
    assert row[c + 1] == cur[i] && row[ce] == cur[e];
  }

  /** One step of the backward merge on a reversed line mirrors one step of
      the forward merge: the pair at mirrored cells c + 1 and c is the pair
      at cells i and i + 1, and both earn the same reward. */
  lemma MergeBackStepMirrors(cur: seq<int>, i: nat, row: seq<int>, c: int, reward: int,
                             cur': seq<int>, row': seq<int>, reward': int, rowReward': int)
    requires i + 1 < |cur| && row == Reverse(cur) && c + 1 == |cur| - 1 - i
    requires cur' == (if cur[i] != 0 && cur[i] == cur[i + 1]
                      then cur[i := cur[i] + cur[i + 1]][i + 1 := 0] else cur)
    requires reward' == (if cur[i] != 0 && cur[i] == cur[i + 1]
                         then reward + (cur[i] + cur[i + 1]) else reward)
    requires row' == (if c + 1 > 0 && row[c + 1] != 0 && row[c + 1] == row[c]
                      then row[c + 1 := row[c + 1] + row[c]][c := 0] else row)
    requires rowReward' == (if c + 1 > 0 && row[c + 1] != 0 && row[c + 1] == row[c]
                            then reward + (row[c + 1] + row[c]) else reward)
    ensures row' == Reverse(cur') && rowReward' == reward'
  {
    assert row[c + 1] == cur[i] && row[c] == cur[i + 1];
  }

  /** Scanning a row from the right is scanning the reversed row from the
      left: the state is the reverse, with the cursor mirrored. */
  lemma {:induction false} PushScanBackIsReversed(t: seq<int>, c0: int, c: int)
    requires -1 <= c <= c0 < |t|
    ensures PushScanBack(Reverse(t), c0, c).0 == Reverse(PushScan(t, |t| - 1 - c0, |t| - 1 - c).0)
    ensures PushScanBack(Reverse(t), c0, c).1 == |t| - 1 - PushScan(t, |t| - 1 - c0, |t| - 1 - c).1
    decreases c0 - c
  {
    var i0 := |t| - 1 - c0;
    if c == c0 {
      assert PushScanBack(Reverse(t), c0, c) == (Reverse(t), c0);
      assert PushScan(t, i0, |t| - 1 - c) == (t, i0);
    } else {
      PushScanBackIsReversed(t, c0, c + 1);
      PushScanBackStep(t, c0, c);
    }
  }

  /** One more cell of the backward scan keeps it the mirror of the forward scan. */
  lemma PushScanBackStep(t: seq<int>, c0: int, c: int)
    requires -1 <= c < c0 < |t|
    requires PushScanBack(Reverse(t), c0, c + 1).0 == Reverse(PushScan(t, |t| - 1 - c0, |t| - 1 - (c + 1)).0)
    requires PushScanBack(Reverse(t), c0, c + 1).1 == |t| - 1 - PushScan(t, |t| - 1 - c0, |t| - 1 - (c + 1)).1
    ensures PushScanBack(Reverse(t), c0, c).0 == Reverse(PushScan(t, |t| - 1 - c0, |t| - 1 - c).0)
    ensures PushScanBack(Reverse(t), c0, c).1 == |t| - 1 - PushScan(t, |t| - 1 - c0, |t| - 1 - c).1
  {
    var n, i0 := |t|, |t| - 1 - c0;
    var i := n - 1 - (c + 1);
    var (cur, e) := PushScan(t, i0, i);
    var (row, ce) := PushScanBack(Reverse(t), c0, c + 1);
    var (cur', e') := PushScan(t, i0, i + 1);
    var (row', ce') := PushScanBack(Reverse(t), c0, c);
    BackStepMirrors(cur, e, i, row, ce, c, cur', e', row', ce');
  }


  /** The leading tiles a backward scan skips are the leading tiles of the
      reversed line. */
  lemma BackPrefix(t: seq<int>, c: int)
    requires -1 <= c < |t|
    requires forall j :: c < j < |t| ==> Reverse(t)[j] != 0
    requires c >= 0 ==> Reverse(t)[c] == 0
    ensures Full(t[..|t| - 1 - c]) && (|t| - 1 - c < |t| ==> t[|t| - 1 - c] == 0)
  {
    var i0 := |t| - 1 - c;
    forall j | 0 <= j < i0
      ensures t[..i0][j] != 0
    {
      assert Reverse(t)[|t| - 1 - j] == t[j];
    }
    if c >= 0 {
      assert Reverse(t)[c] == t[i0];
    }
  }

  /** A full backward scan that starts at the last empty cell leaves the
      pushed line reversed, and the cursor has moved exactly when the line
      was not pushed already. */
  lemma PushScanBackDone(t: seq<int>, c0: int)
    requires -1 <= c0 < |t|
    requires forall j :: c0 < j < |t| ==> Reverse(t)[j] != 0
    requires c0 >= 0 ==> Reverse(t)[c0] == 0
    ensures PushScanBack(Reverse(t), c0, -1).0 == Reverse(Push(t))
    ensures Pushed(t) <==> PushScanBack(Reverse(t), c0, -1).1 == c0
  {
    BackPrefix(t, c0);
    PushScanBackIsReversed(t, c0, -1);
    PushScanDone(t, |t| - 1 - c0);
  }

  /** The merge loop run from the far end of a line: the row and the reward
      once the pairs starting at cells |row| - 1 down to c + 1 have been
      looked at, each pair being a cell and its neighbour toward the start. */
  ghost function MergeScanBack(row: seq<int>, c: int): (st: (seq<int>, int))
    requires -1 <= c && c + 1 <= |row|
    ensures |st.0| == |row|
    decreases |row| - c
  {
    if c + 1 >= |row| then (row, 0)
    else
      var (cur, reward) := MergeScanBack(row, c + 1);
      if c + 1 > 0 && cur[c + 1] != 0 && cur[c + 1] == cur[c]
      then (cur[c + 1 := cur[c + 1] + cur[c]][c := 0], reward + (cur[c + 1] + cur[c]))
      else (cur, reward)
  }

  /** Merging a row from the right is merging the reversed row from the left. */
  lemma {:induction false} MergeScanBackIsReversed(t: seq<int>, c: int)
    requires 0 <= c < |t| || c == -1 == |t| - 1
    ensures MergeScanBack(Reverse(t), c).0 == Reverse(MergeScan(t, |t| - 1 - c).0)
    ensures MergeScanBack(Reverse(t), c).1 == MergeScan(t, |t| - 1 - c).1
    decreases |t| - c
  {
    if c + 1 >= |t| {
      ReverseReverse(t);
    } else {
      MergeScanBackIsReversed(t, c + 1);
      MergeScanBackStep(t, c);
    }
  }

  /** One more pair of the backward merge keeps it the mirror of the forward merge. */
  lemma MergeScanBackStep(t: seq<int>, c: int)
    requires 0 <= c && c + 1 < |t|
    requires MergeScanBack(Reverse(t), c + 1).0 == Reverse(MergeScan(t, |t| - 1 - (c + 1)).0)
    requires MergeScanBack(Reverse(t), c + 1).1 == MergeScan(t, |t| - 1 - (c + 1)).1
    ensures MergeScanBack(Reverse(t), c).0 == Reverse(MergeScan(t, |t| - 1 - c).0)
    ensures MergeScanBack(Reverse(t), c).1 == MergeScan(t, |t| - 1 - c).1
  {
    var i := |t| - 1 - (c + 1);
    var (cur, reward) := MergeScan(t, i);
    var (row, rowReward) := MergeScanBack(Reverse(t), c + 1);
    var (cur', reward') := MergeScan(t, i + 1);
    var (row', rowReward') := MergeScanBack(Reverse(t), c);
    MergeBackStepMirrors(cur, i, row, c, reward, cur', row', reward', rowReward');
  }

  /** A full backward merge scan leaves the merged line reversed. */
  lemma MergeScanBackDone(t: seq<int>)
    ensures MergeScanBack(Reverse(t), if |t| == 0 then -1 else 0).0 == Reverse(Merge(t).line)
    ensures MergeScanBack(Reverse(t), if |t| == 0 then -1 else 0).1 == Merge(t).reward
  {
    MergeScanBackIsReversed(t, if |t| == 0 then -1 else 0);
    MergeScanDone(t);
  }

  // ---------------------------------------------------------------------
  // The whole move on one line

  /** On a line of non-negative values: the slide keeps the sum, never adds a
      tile, earns a non-negative reward, leaves a compacted line of
      non-negative values, and its flag holds exactly when the line changed. */
  lemma {:induction false} SlideSpec(s: seq<int>)
    requires Nonneg(s)
    ensures Sum(Slide(s).line) == Sum(s)
    ensures Count(Slide(s).line) <= Count(s)
    ensures Nonneg(Slide(s).line) && Slide(s).reward >= 0
    ensures Pushed(Slide(s).line)
    ensures Slide(s).changed <==> Slide(s).line != s
  {
    var p := Push(s);
    var m := Merge(p);
    var out := Push(m.line);
    PushSpec(s);
    PushTotal(s, Value);
    PushTotal(s, Occupied);
    assert Nonneg(p) by {
      forall i | 0 <= i < |p| ensures p[i] >= 0 {
        assert p[i] in multiset(s);
      }
    }
    MergeSpec(p);
    PushSpec(m.line);
    PushTotal(m.line, Value);
    PushTotal(m.line, Occupied);
    assert Nonneg(out) by {
      forall i | 0 <= i < |out| ensures out[i] >= 0 {
        assert out[i] in multiset(m.line);
      }
    }
    PushFixedIff(s);
    PushFixedIff(m.line);
    if !Pushed(s) {
      assert out != s;
    } else if m.reward > 0 {
      assert HasPair(p);
      assert Count(out) < Count(s);
    } else {
      assert !HasPair(p);
      assert out == s;
    }
  }

  /** One round of the engine's move loop on a line, as the loop tracks it:
      the flag rises when the first push moves a tile, when the running reward
      total becomes positive, or when the second push moves a tile. Given a
      running total that is non-negative and positive only once the flag is
      up, this is the flag of Slide; the merge's reward is the slide's. */
  lemma SlideRound(t: seq<int>, change: bool, reward: int, moved: bool, merged: int, movedAgain: bool)
    requires Nonneg(t) && reward >= 0 && (reward > 0 ==> change)
    requires moved == !Pushed(t) && merged == Merge(Push(t)).reward
    requires movedAgain == !Pushed(Merge(Push(t)).line)
    ensures (((change || moved) || reward + merged > 0) || movedAgain) == (change || Slide(t).changed)
    ensures merged == Slide(t).reward && merged >= 0
  {
    SlideSpec(t);
  }

  /** A line is left alone by a move exactly when it is compacted and no
      occupied cell equals its successor. */
  lemma {:induction false} SlideFixedIff(s: seq<int>)
    requires Nonneg(s)
    ensures Slide(s).line == s <==> Pushed(s) && !HasPair(s)
    ensures Slide(s).line == s ==> Slide(s) == Slid(s, 0, false)
  {
    SlideSpec(s);
    PushFixedIff(s);
    if Pushed(s) {
      MergeSpec(s);
      if !HasPair(s) {
        PushFixedIff(s);
      }
    }
  }

  /** A line that changed has an empty cell afterwards: a push needed one and
      kept it, a merge made one. */
  lemma {:induction false} SlideChangedLeavesEmpty(s: seq<int>)
    requires Nonneg(s) && Slide(s).changed
    ensures !Full(Slide(s).line)
  {
    SlideSpec(s);
    SlideFixedIff(s);
    CountBelowLength(s);
    CountBelowLength(Slide(s).line);
    PushFixedIff(s);
    if !Pushed(s) {
      assert !Full(s) by {
        var i, j :| 0 <= i < j < |s| && s[i] == 0 && s[j] != 0;
      }
    } else {
      PushOfPushed(s);
      MergeSpec(s);
      PushTotal(Merge(s).line, Occupied);
    }
  }

  /** The line a slide leaves is compacted, so pushing it again moves nothing:
      the first push of a repeated move in the same direction reports no
      movement on it. */
  lemma {:induction false} SlideIsCompacted(s: seq<int>)
    ensures Pushed(Slide(s).line) && Push(Slide(s).line) == Slide(s).line
  {
    PushSpec(Merge(Push(s)).line);
    PushFixedIff(Slide(s).line);
  }

  // ---------------------------------------------------------------------
  // Tiles

  /** 2 to the power e. */
  function Pow2(e: nat): nat {
    if e == 0 then 1 else 2 * Pow2(e - 1)
  }

  /** A value a cell can hold in play: empty, or a power of two no smaller than 2. */
  ghost predicate IsTile(x: int) {
    x == 0 || exists k: nat :: 1 <= k && x == Pow2(k)
  }

  ghost predicate Tiles(s: seq<int>) {
    forall i :: 0 <= i < |s| ==> IsTile(s[i])
  }

  /** Two equal tiles merge into a tile: 2^k + 2^k == 2^(k + 1). */
  lemma TileDouble(x: int)
    requires IsTile(x) && x != 0
    ensures IsTile(x + x) && x + x != 0
  {
    var k: nat :| 1 <= k && x == Pow2(k);
    assert x + x == Pow2(k + 1);
  }

  /** Compaction only rearranges cells, so it keeps a line of tiles one. */
  lemma PushTiles(s: seq<int>)
    requires Tiles(s)
    ensures Tiles(Push(s))
  {
    PushMultiset(s);
    forall i | 0 <= i < |Push(s)| ensures IsTile(Push(s)[i]) {
      assert Push(s)[i] in multiset(s);
    }
  }

  /** The merge pass turns a line of tiles into a line of tiles. */
  lemma {:induction false} MergeTiles(s: seq<int>)
    requires Tiles(s)
    ensures Tiles(Merge(s).line)
  {
    if |s| >= 2 {
      var n := if s[0] != 0 && s[0] == s[1] then 2 else 1;
      var rest := s[n..];
      assert Tiles(rest) by { forall i | 0 <= i < |rest| ensures IsTile(rest[i]) { assert rest[i] == s[i + n]; } }
      MergeTiles(rest);
      var out := if n == 2 then [s[0] + s[1], 0] + Merge(rest).line else [s[0]] + Merge(rest).line;
      assert Merge(s).line == out;
      if n == 2 {
        TileDouble(s[0]);
      }
      forall i | 0 <= i < |out| ensures IsTile(out[i]) {
        if i >= n { assert out[i] == Merge(rest).line[i - n]; }
      }
    }
  }

  /** A whole move of a line of tiles leaves a line of tiles. */
  lemma SlideTiles(s: seq<int>)
    requires Tiles(s)
    ensures Tiles(Slide(s).line)
  {
    PushTiles(s);
    MergeTiles(Push(s));
    PushTiles(Merge(Push(s)).line);
  }

  /** NonZeros of a short line, read off cell by cell. */
  lemma NonZerosOfFour(a: int, b: int, c: int, d: int)
    ensures NonZeros([a, b, c, d]) ==
      (if a != 0 then [a] else []) + (if b != 0 then [b] else []) + (if c != 0 then [c] else []) + (if d != 0 then [d] else [])
  {
    assert [a][..0] == [] && [a, b][..1] == [a] && [a, b, c][..2] == [a, b] && [a, b, c, d][..3] == [a, b, c];
    assert NonZeros([a]) == (if a != 0 then [a] else []);
    assert NonZeros([a, b]) == NonZeros([a]) + (if b != 0 then [b] else []);
    assert NonZeros([a, b, c]) == NonZeros([a, b]) + (if c != 0 then [c] else []);
    assert NonZeros([a, b, c, d]) == NonZeros([a, b, c]) + (if d != 0 then [d] else []);
  }

  /** The merge pass on three equal tiles merges the pair nearest the edge. */
  lemma MergeThreeEqual()
    ensures Merge([2, 2, 2, 0]) == Merged([4, 0, 2, 0], 4)
  {
    assert [2, 2, 2, 0][2..] == [2, 0] && [2, 0][1..] == [0];
    assert Merge([2, 0]) == Merged([2, 0], 0);
  }

  /** Three equal tiles: the two nearest the edge merge, the third only moves. */
  lemma SlideThreeEqual()
    ensures Slide([2, 2, 2, 0]) == Slid([4, 2, 0, 0], 4, true)
  {
    NonZerosOfFour(2, 2, 2, 0);
    assert Push([2, 2, 2, 0]) == [2, 2, 2, 0];
    MergeThreeEqual();
    NonZerosOfFour(4, 0, 2, 0);
    assert Push([4, 0, 2, 0]) == [4, 2, 0, 0];
    assert !Pushed([4, 0, 2, 0]) by {
      assert [4, 0, 2, 0][1] == 0 && [4, 0, 2, 0][2] != 0;
    }
  }

  /** The merge pass on two adjacent equal tiles at the edge. */
  lemma MergeLeadingPair()
    ensures Merge([2, 2, 0, 0]) == Merged([4, 0, 0, 0], 4)
  {
    assert [2, 2, 0, 0][2..] == [0, 0] && [0, 0][1..] == [0];
    assert Merge([0, 0]) == Merged([0, 0], 0);
  }

  /** Tiles separated by gaps are compacted, then merged. */
  lemma SlideAcrossGaps()
    ensures Slide([0, 2, 0, 2]) == Slid([4, 0, 0, 0], 4, true)
  {
    NonZerosOfFour(0, 2, 0, 2);
    assert Push([0, 2, 0, 2]) == [2, 2, 0, 0];
    MergeLeadingPair();
    NonZerosOfFour(4, 0, 0, 0);
    assert Push([4, 0, 0, 0]) == [4, 0, 0, 0];
    assert !Pushed([0, 2, 0, 2]) by {
      assert [0, 2, 0, 2][0] == 0 && [0, 2, 0, 2][1] != 0;
    }
  }

  /** A compacted line without equal neighbours is a move without effect. */
  lemma SlideNoEffect()
    ensures Slide([2, 4, 0, 0]) == Slid([2, 4, 0, 0], 0, false)
  {
    var s := [2, 4, 0, 0];
    assert Pushed(s) by {
      forall i, j | 0 <= i < j < 4 && s[i] == 0 ensures s[j] == 0 {
        assert i >= 2;
      }
    }
    assert !HasPair(s) by {
      forall i | 0 <= i < 3 ensures !(s[i] != 0 && s[i] == s[i + 1]) {
        assert i == 0 || i == 1 || i == 2;
      }
    }
    SlideFixedIff(s);
  }
}
