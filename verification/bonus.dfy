/** The cell lists the two bonuses draw from (Game.cpp:504-510 and
    Game.cpp:560-567), and the distinctness facts about a shuffled list
    that the effects rely on. */
module Bonus {
  import opened Constants
  import opened Grid
  import opened Matching
  import opened Removal

  /** No cell occurs twice. */
  predicate Distinct(s: seq<Pos>) {
    forall i, j :: 0 <= i < j < |s| ==> s[i] != s[j]
  }

  function Max(a: int, b: int): (m: int) {
    if a < b then b else a
  }

  function Min(a: int, b: int): (m: int) {
    if a < b then a else b
  }

  lemma SortedDistinct(s: seq<Pos>)
    requires StrictlySorted(s)
    ensures Distinct(s)
  {
    forall i, j | 0 <= i < j < |s|
      ensures s[i] != s[j]
    {
      assert Less(s[i], s[j]);
    }
  }

  /** A list without repetition holds each cell at most once. */
  lemma {:induction false} DistinctCount(s: seq<Pos>, x: Pos)
    requires Distinct(s)
    ensures multiset(s)[x] <= 1
  {
    if s != [] {
      assert s == [s[0]] + s[1..];
      assert Distinct(s[1..]) by {
        forall i, j | 0 <= i < j < |s[1..]|
          ensures s[1..][i] != s[1..][j]
        {
          assert s[1..][i] == s[i + 1] && s[1..][j] == s[j + 1];
        }
      }
      DistinctCount(s[1..], x);
    }
  }

  /** A cell at two positions of a list is counted twice. */
  lemma RepeatCount(r: seq<Pos>, i: int, j: int)
    requires 0 <= i < j < |r| && r[i] == r[j]
    ensures multiset(r)[r[i]] >= 2
  {
    assert r == r[..i] + [r[i]] + r[i + 1..j] + [r[j]] + r[j + 1..];
  }

  /** A shuffle of a list without repetition has none either. */
  lemma PermutedDistinct(s: seq<Pos>, r: seq<Pos>)
    requires Distinct(s) && multiset(r) == multiset(s)
    ensures Distinct(r)
  {
    forall i, j | 0 <= i < j < |r|
      ensures r[i] != r[j]
    {
      if r[i] == r[j] {
        RepeatCount(r, i, j);
        DistinctCount(s, r[i]);
      }
    }
  }

  /** The Bomb's targets: the origin followed by the first four cells of a
      shuffle of all the other cells are five distinct cells of the board. */
  lemma BombTargets(origin: Pos, ordered: seq<Pos>, shuffled: seq<Pos>, targets: seq<Pos>)
    requires InBounds(origin) && forall p :: p in ordered <==> InBounds(p) && p != origin
    requires |shuffled| == ROWS * COLS - 1 && Distinct(shuffled) && multiset(shuffled) == multiset(ordered)
    requires targets == [origin] + shuffled[..4]
    ensures |targets| == 5 && targets[0] == origin && Distinct(targets)
    ensures forall i :: 0 <= i < |targets| ==> InBounds(targets[i])
  {
    forall i | 0 <= i < 4
      ensures InBounds(shuffled[i]) && shuffled[i] != origin
    {
      assert shuffled[i] in multiset(ordered);
    }
    forall i, j | 0 <= i < j < 5
      ensures targets[i] != targets[j]
    {
      if i > 0 {
        assert targets[i] == shuffled[i - 1] && targets[j] == shuffled[j - 1];
      }
    }
  }

  lemma TwoEntries(s: seq<Pos>, x: Pos, y: Pos)
    requires x in s && y in s && x != y
    ensures |s| >= 2
  {
  }

  /** The Recolor vicinity (Game.cpp:504-510): every cell on the board within
      Chebyshev distance 3 of the origin, the origin excluded, in row-major
      order. On a 12 x 12 board there are always at least two of them. */
  method Vicinity(row: int, col: int) returns (vicinity: seq<Pos>)
    requires InBounds(Pos(row, col))
    ensures StrictlySorted(vicinity)
    ensures forall p :: p in vicinity <==> InBounds(p) && p != Pos(row, col) && Near(Pos(row, col), p)
    ensures |vicinity| >= 2
  {
    var origin := Pos(row, col);
    vicinity := [];
    for r := Max(0, row - 3) to Min(ROWS - 1, row + 3) + 1
      invariant StrictlySorted(vicinity)
      invariant forall i :: 0 <= i < |vicinity| ==> vicinity[i].row < r
      invariant forall p :: p in vicinity <==>
        InBounds(p) && p != origin && Near(origin, p) && p.row < r
    {
      for c := Max(0, col - 3) to Min(COLS - 1, col + 3) + 1
        invariant StrictlySorted(vicinity)
        invariant forall i :: 0 <= i < |vicinity| ==> Less(vicinity[i], Pos(r, c))
        invariant forall p :: p in vicinity <==>
          InBounds(p) && p != origin && Near(origin, p) && Less(p, Pos(r, c))
      {
        if r != row || c != col {
          vicinity := vicinity + [Pos(r, c)];
        }
      }
    }
    var vertical := if row > 0 then Pos(row - 1, col) else Pos(row + 1, col);
    var horizontal := if col > 0 then Pos(row, col - 1) else Pos(row, col + 1);
    TwoEntries(vicinity, vertical, horizontal);
  }

  /** The Bomb candidates (Game.cpp:560-567): every cell but the origin, in
      row-major order. */
  method BombCandidates(row: int, col: int) returns (candidates: seq<Pos>)
    requires InBounds(Pos(row, col))
    ensures StrictlySorted(candidates)
    ensures forall p :: p in candidates <==> InBounds(p) && p != Pos(row, col)
    ensures |candidates| == ROWS * COLS - 1
  {
    var origin := Pos(row, col);
    candidates := [];
    for r := 0 to ROWS
      invariant StrictlySorted(candidates)
      invariant forall i :: 0 <= i < |candidates| ==> candidates[i].row < r
      invariant forall p :: p in candidates <==> InBounds(p) && p != origin && p.row < r
      invariant |candidates| == r * COLS - (if row < r then 1 else 0)
    {
      for c := 0 to COLS
        invariant StrictlySorted(candidates)
        invariant forall i :: 0 <= i < |candidates| ==> Less(candidates[i], Pos(r, c))
        invariant forall p :: p in candidates <==> InBounds(p) && p != origin && Less(p, Pos(r, c))
        invariant |candidates| == r * COLS + c - (if Less(origin, Pos(r, c)) then 1 else 0)
      {
        if r != row || c != col {
          candidates := candidates + [Pos(r, c)];
        }
      }
    }
  }
}
