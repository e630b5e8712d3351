/** Match detection (Game.cpp: checkMatches): a flood fill over 4-connected
    cells of one colour; every connected same-colour region of at least
    three non-empty cells is a match. */
module Matching {
  import opened Constants
  import opened Tiles
  import opened Grid

  // ---------------------------------------------------------------------
  // What a match is
  // ---------------------------------------------------------------------

  /** p and q are in-bounds, 4-adjacent and carry the same non-empty colour. */
  predicate Linked(b: Board, p: Pos, q: Pos)
    requires Shaped(b)
  {
    InBounds(p) && InBounds(q) && Adjacent(p, q) &&
    Cell(b, p).color != EMPTY && Cell(b, p).color == Cell(b, q).color
  }

  /** Three distinct cells of one colour, one of which is linked to the other
      two: the smallest connected same-colour region of size three. A
      4-connected region has at least three cells exactly when it contains
      such a triple, and a cell lies in such a region exactly when it belongs
      to such a triple. */
  predicate Triple(b: Board, x: Pos, y: Pos, z: Pos)
    requires Shaped(b)
  {
    x != y && y != z && x != z &&
    ((Linked(b, x, y) && Linked(b, x, z)) ||
     (Linked(b, y, x) && Linked(b, y, z)) ||
     (Linked(b, z, x) && Linked(b, z, y)))
  }

  /** p belongs to a connected same-colour region of at least three cells. */
  ghost predicate InMatch(b: Board, p: Pos)
    requires Shaped(b)
  {
    exists q, s :: Triple(b, p, q, s)
  }

  /** Some cell of the board belongs to a match. */
  ghost predicate HasMatch(b: Board)
    requires Shaped(b)
  {
    exists p :: InBounds(p) && InMatch(b, p)
  }

  /** The members of a triple are each in a match, and a match has at least
      three cells: whoever is in a match has two distinct partners in it. */
  lemma TripleMembersMatch(b: Board, x: Pos, y: Pos, z: Pos)
    requires Shaped(b) && Triple(b, x, y, z)
    ensures InMatch(b, x) && InMatch(b, y) && InMatch(b, z)
    ensures InBounds(x) && Cell(b, x).color != EMPTY
  {
    assert Triple(b, y, x, z);
    assert Triple(b, z, x, y);
  }

  /** A matched cell is on the board and holds a colour. */
  lemma MatchInBounds(b: Board, p: Pos)
    requires Shaped(b) && InMatch(b, p)
    ensures InBounds(p) && Cell(b, p).color != EMPTY
  {
    var q, s :| Triple(b, p, q, s);
    TripleMembersMatch(b, p, q, s);
  }

  /** A list grown from an on-board list by matched cells is on the board. */
  lemma MatchesInBounds(b: Board, matchesIn: seq<Pos>, matchesOut: seq<Pos>)
    requires Shaped(b) && forall i :: 0 <= i < |matchesIn| ==> InBounds(matchesIn[i])
    requires forall p :: p in matchesOut ==> p in matchesIn || InMatch(b, p)
    ensures forall i :: 0 <= i < |matchesOut| ==> InBounds(matchesOut[i])
  {
    forall i | 0 <= i < |matchesOut|
      ensures InBounds(matchesOut[i])
    {
      if matchesOut[i] !in matchesIn {
        MatchInBounds(b, matchesOut[i]);
      }
    }
  }

  // ---------------------------------------------------------------------
  // std::sort followed by std::unique on a vector of (row, col) pairs
  // ---------------------------------------------------------------------

  /** The lexicographic order of std::pair<int, int>. */
  predicate Less(a: Pos, b: Pos) {
    a.row < b.row || (a.row == b.row && a.col < b.col)
  }

  /** Sorted with no two equal entries. */
  predicate StrictlySorted(s: seq<Pos>) {
    forall i, j :: 0 <= i < j < |s| ==> Less(s[i], s[j])
  }

  function InsertUnique(x: Pos, s: seq<Pos>): (r: seq<Pos>)
    requires StrictlySorted(s)
    ensures StrictlySorted(r)
    ensures forall y :: y in r <==> y == x || y in s
    ensures |r| <= |s| + 1
  {
    if s == [] then [x]
    else if x == s[0] then s
    else if Less(x, s[0]) then [x] + s
    else
      var rest := InsertUnique(x, s[1..]);
      assert forall y :: y in rest ==> Less(s[0], y) by {
        forall y | y in rest
          ensures Less(s[0], y)
        {
          if y != x {
            assert y in s[1..];
            var k :| 0 <= k < |s[1..]| && s[1..][k] == y;
            assert s[k + 1] == y;
          }
        }
      }
      var r := [s[0]] + rest;
      assert forall j :: 1 <= j < |r| ==> r[j] in rest;
      r
  }

  /** What sort-then-unique leaves: the entries of s, ascending, each once. */
  function SortUnique(s: seq<Pos>): (r: seq<Pos>)
    ensures StrictlySorted(r)
    ensures forall y :: y in r <==> y in s
    ensures |r| <= |s|
  {
    if s == [] then [] else InsertUnique(s[0], SortUnique(s[1..]))
  }

  /** In a strictly sorted sequence the head precedes every other entry. */
  lemma SortedHead(s: seq<Pos>, y: Pos)
    requires StrictlySorted(s) && y in s
    ensures y == s[0] || Less(s[0], y)
  {
    var k :| 0 <= k < |s| && s[k] == y;
    if k > 0 {
      assert Less(s[0], s[k]);
    }
  }

  /** The tail of a strictly sorted sequence holds every entry but the head. */
  lemma SortedTail(s: seq<Pos>, y: Pos)
    requires StrictlySorted(s) && s != []
    ensures y in s[1..] <==> y in s && y != s[0]
  {
    if y in s[1..] {
      var k :| 0 <= k < |s[1..]| && s[1..][k] == y;
      assert s[k + 1] == y && Less(s[0], y);
    }
    if y in s && y != s[0] {
      var m :| 0 <= m < |s| && s[m] == y;
      assert s[1..][m - 1] == y;
    }
  }

  /** A strictly sorted sequence is determined by its entries, so SortUnique
      is the only possible outcome of sorting and removing duplicates. */
  lemma {:induction false} StrictlySortedUnique(a: seq<Pos>, b: seq<Pos>)
    requires StrictlySorted(a) && StrictlySorted(b)
    requires forall y :: y in a <==> y in b
    ensures a == b
  {
    if a != [] {
      assert a[0] in b;
    }
    if b != [] {
      assert b[0] in a;
    }
    if a != [] && b != [] {
      SortedHead(b, a[0]);
      SortedHead(a, b[0]);
      assert a[0] == b[0];
      forall y
        ensures y in a[1..] <==> y in b[1..]
      {
        SortedTail(a, y);
        SortedTail(b, y);
      }
      StrictlySortedUnique(a[1..], b[1..]);
      assert a == [a[0]] + a[1..] && b == [b[0]] + b[1..];
    }
  }

  /** A strictly sorted list whose entries all occur in another strictly
      sorted list is no longer than it. */
  lemma {:induction false} SortedSubsetLength(a: seq<Pos>, b: seq<Pos>)
    requires StrictlySorted(a) && StrictlySorted(b)
    requires forall y :: y in a ==> y in b
    ensures |a| <= |b|
    decreases |a| + |b|
  {
    if a != [] {
      assert a[0] in b;
      SortedHead(b, a[0]);
      SortedTail(b, a[0]);
      if a[0] == b[0] {
        forall y | y in a[1..]
          ensures y in b[1..]
        {
          SortedTail(a, y);
          SortedTail(b, y);
        }
        SortedSubsetLength(a[1..], b[1..]);
      } else {
        forall y | y in a
          ensures y in b[1..]
        {
          SortedHead(a, y);
          SortedTail(b, y);
        }
        SortedSubsetLength(a, b[1..]);
      }
    }
  }

  /** A sequence holding three distinct entries has at least three entries. */
  lemma ThreeEntries(s: seq<Pos>, x: Pos, y: Pos, z: Pos)
    requires x in s && y in s && z in s
    requires x != y && y != z && x != z
    ensures |s| >= 3
  {
  }

  // ---------------------------------------------------------------------
  // The flood fill
  // ---------------------------------------------------------------------

  function Elems(s: seq<Pos>): (elems: set<Pos>) {
    set x | x in s
  }

  /** If n is an in-bounds cell of p's colour, it is in S. */
  predicate Covers(b: Board, S: set<Pos>, p: Pos, n: Pos)
    requires Shaped(b) && InBounds(p)
  {
    InBounds(n) && Cell(b, n).color == Cell(b, p).color ==> n in S
  }

  /** Every in-bounds neighbour of p with p's colour is in S. */
  predicate ClosedIn(b: Board, S: set<Pos>, p: Pos)
    requires Shaped(b) && InBounds(p)
  {
    var ns := Neighbours(p);
    Covers(b, S, p, ns[0]) && Covers(b, S, p, ns[1]) && Covers(b, S, p, ns[2]) && Covers(b, S, p, ns[3])
  }

  /** S lies on the board and holds, with each of its cells, every
      same-colour neighbour of that cell. */
  ghost predicate ClosedSet(b: Board, S: set<Pos>)
    requires Shaped(b)
  {
    (forall p :: p in S ==> InBounds(p)) &&
    (forall p {:trigger ClosedIn(b, S, p)} :: p in S ==> ClosedIn(b, S, p))
  }

  /** A cluster as the flood fill builds it: distinct in-bounds cells of one
      non-empty colour, each after the first adjacent to an earlier one
      (its parent, the cell it was reached from). */
  ghost predicate Cluster(b: Board, cluster: seq<Pos>, parent: seq<nat>)
    requires Shaped(b)
  {
    |cluster| >= 1 && |parent| == |cluster| &&
    (forall i :: 0 <= i < |cluster| ==> InBounds(cluster[i])) &&
    Cell(b, cluster[0]).color != EMPTY &&
    (forall i :: 0 <= i < |cluster| ==> Cell(b, cluster[i]).color == Cell(b, cluster[0]).color) &&
    (forall i, j :: 0 <= i < j < |cluster| ==> cluster[i] != cluster[j]) &&
    (forall i :: 0 < i < |cluster| ==> parent[i] < i && Adjacent(cluster[parent[i]], cluster[i]))
  }

  /** Each member after the first is linked to its parent. */
  lemma ParentLinked(b: Board, cluster: seq<Pos>, parent: seq<nat>, i: int)
    requires Shaped(b) && Cluster(b, cluster, parent) && 0 < i < |cluster|
    ensures parent[i] < i && Linked(b, cluster[parent[i]], cluster[i])
  {
    assert Cell(b, cluster[parent[i]]).color == Cell(b, cluster[0]).color;
  }

  /** The first three cells reached form a connected triple. */
  lemma FirstThreeMatch(b: Board, cluster: seq<Pos>, parent: seq<nat>)
    requires Shaped(b) && Cluster(b, cluster, parent) && |cluster| >= 3
    ensures InMatch(b, cluster[0]) && InMatch(b, cluster[1]) && InMatch(b, cluster[2])
  {
    var c0, c1, c2 := cluster[0], cluster[1], cluster[2];
    ParentLinked(b, cluster, parent, 1);
    ParentLinked(b, cluster, parent, 2);
    if parent[2] == 0 {
      assert Triple(b, c0, c1, c2);
      TripleMembersMatch(b, c0, c1, c2);
    } else {
      assert Triple(b, c1, c0, c2);
      TripleMembersMatch(b, c1, c0, c2);
    }
  }

  /** A path of two links through distinct end cells is a match. */
  lemma ChainMatches(b: Board, x: Pos, y: Pos, z: Pos)
    requires Shaped(b) && Linked(b, x, y) && Linked(b, y, z) && x != z
    ensures InMatch(b, x) && InMatch(b, y) && InMatch(b, z)
  {
    assert Triple(b, y, x, z);
    TripleMembersMatch(b, y, x, z);
  }

  /** Any member of a cluster of three or more lies in a match: a later cell
      forms a path with its parent and its parent's parent (or, when its
      parent is the first cell, with the second cell). */
  lemma MemberMatches(b: Board, cluster: seq<Pos>, parent: seq<nat>, i: int)
    requires Shaped(b) && Cluster(b, cluster, parent) && |cluster| >= 3 && 0 <= i < |cluster|
    ensures InMatch(b, cluster[i])
  {
    if i < 3 {
      FirstThreeMatch(b, cluster, parent);
    } else {
      var j := parent[i];
      ParentLinked(b, cluster, parent, i);
      if j == 0 {
        ParentLinked(b, cluster, parent, 1);
        ChainMatches(b, cluster[1], cluster[0], cluster[i]);
      } else {
        ParentLinked(b, cluster, parent, j);
        ChainMatches(b, cluster[parent[j]], cluster[j], cluster[i]);
      }
    }
  }

  /** Every cell of a cluster of three or more lies in a match. */
  lemma LargeClusterMatches(b: Board, cluster: seq<Pos>, parent: seq<nat>)
    requires Shaped(b) && Cluster(b, cluster, parent) && |cluster| >= 3
    ensures forall i :: 0 <= i < |cluster| ==> InMatch(b, cluster[i])
  {
    forall i | 0 <= i < |cluster|
      ensures InMatch(b, cluster[i])
    {
      MemberMatches(b, cluster, parent, i);
    }
  }

  /** In a flood-filled cluster, whatever is linked to a member is a member:
      it was visited, and it cannot belong to an earlier, closed region. */
  lemma StaysInCluster(b: Board, visited: set<Pos>, cluster: seq<Pos>, x: Pos, y: Pos)
    requires Shaped(b)
    requires ClosedSet(b, visited)
    requires forall i :: 0 <= i < |cluster| ==> InBounds(cluster[i]) && cluster[i] !in visited
    requires forall i :: 0 <= i < |cluster| ==> ClosedIn(b, visited + Elems(cluster), cluster[i])
    requires x in cluster && Linked(b, x, y)
    ensures y in cluster
  {
    var ix :| 0 <= ix < |cluster| && cluster[ix] == x;
    assert ClosedIn(b, visited + Elems(cluster), cluster[ix]);
    assert y in visited + Elems(cluster);
    assert y in visited ==> ClosedIn(b, visited, y);
  }

  /** A flood-filled cluster of fewer than three cells holds no match cell. */
  lemma SmallClusterNoMatch(b: Board, visited: set<Pos>, cluster: seq<Pos>)
    requires Shaped(b)
    requires ClosedSet(b, visited)
    requires forall i :: 0 <= i < |cluster| ==> InBounds(cluster[i]) && cluster[i] !in visited
    requires forall i :: 0 <= i < |cluster| ==> ClosedIn(b, visited + Elems(cluster), cluster[i])
    requires |cluster| < 3
    ensures forall i :: 0 <= i < |cluster| ==> !InMatch(b, cluster[i])
  {
    forall i | 0 <= i < |cluster|
      ensures !InMatch(b, cluster[i])
    {
      var x := cluster[i];
      if InMatch(b, x) {
        var q, s :| Triple(b, x, q, s);
        if Linked(b, x, q) && Linked(b, x, s) {
          StaysInCluster(b, visited, cluster, x, q);
          StaysInCluster(b, visited, cluster, x, s);
        } else if Linked(b, q, x) && Linked(b, q, s) {
          StaysInCluster(b, visited, cluster, x, q);
          StaysInCluster(b, visited, cluster, q, s);
        } else {
          StaysInCluster(b, visited, cluster, x, s);
          StaysInCluster(b, visited, cluster, s, q);
        }
        ThreeEntries(cluster, x, q, s);
      }
    }
  }

  /** The state the flood fill keeps between steps: the cluster found so
      far, every stacked cell in it, the visited set grown by exactly the
      cluster, and `unseen` the in-bounds cells not yet visited. */
  ghost predicate FloodState(b: Board, start: Pos, visited: set<Pos>, cluster: seq<Pos>, parent: seq<nat>,
                             stack: seq<Pos>, visitedOut: set<Pos>, unseen: set<Pos>)
    requires Shaped(b)
  {
    Cluster(b, cluster, parent) && cluster[0] == start &&
    (forall p :: p in visitedOut <==> p in visited || p in cluster) &&
    (forall p :: p in unseen <==> InBounds(p) && p !in visitedOut) &&
    (forall i :: 0 <= i < |cluster| ==> cluster[i] !in visited) &&
    (forall p :: p in stack ==> p in cluster)
  }

  /** Every member of the cluster other than the one at `skip` is still on
      the stack or has all its same-colour neighbours in S. */
  predicate PendingOrClosed(b: Board, cluster: seq<Pos>, stack: seq<Pos>, S: set<Pos>, skip: int)
    requires Shaped(b) && forall i :: 0 <= i < |cluster| ==> InBounds(cluster[i])
  {
    forall i :: 0 <= i < |cluster| && i != skip ==> cluster[i] in stack || ClosedIn(b, S, cluster[i])
  }

  /** Popping the top of the stack leaves only that member unaccounted for. */
  lemma FloodPop(b: Board, cluster: seq<Pos>, parent: seq<nat>, stack: seq<Pos>, S: set<Pos>, ci: nat)
    requires Shaped(b) && Cluster(b, cluster, parent) && stack != []
    requires ci < |cluster| && cluster[ci] == stack[|stack| - 1]
    requires PendingOrClosed(b, cluster, stack, S, -1)
    ensures PendingOrClosed(b, cluster, stack[..|stack| - 1], S, ci)
  {
    var rest := stack[..|stack| - 1];
    forall i | 0 <= i < |cluster| && i != ci && cluster[i] in stack
      ensures cluster[i] in rest
    {
      var k :| 0 <= k < |stack| && stack[k] == cluster[i];
      assert k != |stack| - 1;
      assert rest[k] == stack[k];
    }
  }

  /** The first k neighbours of p are covered by S. */
  predicate CoversFirst(b: Board, S: set<Pos>, p: Pos, k: int)
    requires Shaped(b) && InBounds(p) && 0 <= k <= 4
  {
    forall j :: 0 <= j < k ==> Covers(b, S, p, Neighbours(p)[j])
  }

  /** Covering survives growing the set. */
  lemma CoversGrow(b: Board, S: set<Pos>, p: Pos, k: int, x: Pos)
    requires Shaped(b) && InBounds(p) && 0 <= k <= 4 && CoversFirst(b, S, p, k)
    ensures CoversFirst(b, S + {x}, p, k)
  {
  }

  /** Covering the k-th neighbour extends the covered prefix. */
  lemma CoversStep(b: Board, S: set<Pos>, p: Pos, k: int)
    requires Shaped(b) && InBounds(p) && 0 <= k < 4 && CoversFirst(b, S, p, k)
    requires Covers(b, S, p, Neighbours(p)[k])
    ensures CoversFirst(b, S, p, k + 1)
  {
  }

  /** A cluster grows by any cell outside it that is adjacent to a member
      and has the cluster's colour. */
  lemma ClusterPush(b: Board, cluster: seq<Pos>, parent: seq<nat>, ci: nat, n: Pos)
    requires Shaped(b) && Cluster(b, cluster, parent)
    requires ci < |cluster| && Adjacent(cluster[ci], n) && InBounds(n) && n !in cluster
    requires Cell(b, n).color == Cell(b, cluster[ci]).color
    ensures Cluster(b, cluster + [n], parent + [ci])
  {
    var c, pa := cluster + [n], parent + [ci];
    forall i, j | 0 <= i < j < |c|
      ensures c[i] != c[j]
    {
      if j < |cluster| {
        assert c[i] == cluster[i] && c[j] == cluster[j];
      } else {
        assert c[i] == cluster[i];
      }
    }
    forall i | 0 < i < |c|
      ensures pa[i] < i && Adjacent(c[pa[i]], c[i])
    {
      if i < |cluster| {
        assert pa[i] == parent[i] && c[i] == cluster[i] && c[pa[i]] == cluster[parent[i]];
      }
    }
  }

  /** Pushing an unvisited same-colour neighbour of a cluster member keeps
      the flood fill's state and uses up one unseen cell. */
  lemma FloodPush(b: Board, start: Pos, visited: set<Pos>, cluster: seq<Pos>, parent: seq<nat>,
                  stack: seq<Pos>, visitedOut: set<Pos>, unseen: set<Pos>, ci: nat, n: Pos)
    requires Shaped(b) && FloodState(b, start, visited, cluster, parent, stack, visitedOut, unseen)
    requires ci < |cluster| && Adjacent(cluster[ci], n) && InBounds(n)
    requires n !in visitedOut && Cell(b, n).color == Cell(b, cluster[ci]).color
    ensures FloodState(b, start, visited, cluster + [n], parent + [ci], stack + [n], visitedOut + {n}, unseen - {n})
    ensures |unseen - {n}| < |unseen|
  {
    assert unseen == (unseen - {n}) + {n};
    ClusterPush(b, cluster, parent, ci, n);
  }

  /** Pushing n keeps every other member pending or closed, in the grown
      visited set. */
  lemma PendingPush(b: Board, cluster: seq<Pos>, stack: seq<Pos>, S: set<Pos>, ci: nat, n: Pos)
    requires Shaped(b) && InBounds(n) && forall i :: 0 <= i < |cluster| ==> InBounds(cluster[i])
    requires PendingOrClosed(b, cluster, stack, S, ci)
    ensures PendingOrClosed(b, cluster + [n], stack + [n], S + {n}, ci)
  {
    var c := cluster + [n];
    forall i | 0 <= i < |c| && i != ci
      ensures c[i] in stack + [n] || ClosedIn(b, S + {n}, c[i])
    {
      if i < |cluster| {
        assert c[i] == cluster[i];
      }
    }
  }

  /** The same-colour region of start, outside the cells visited before:
      a cluster reached from start, none of it visited before, and every
      member's same-colour neighbours either in it or visited before. */
  ghost predicate Region(b: Board, start: Pos, visited: set<Pos>, cluster: seq<Pos>, parent: seq<nat>)
    requires Shaped(b)
  {
    Cluster(b, cluster, parent) && cluster[0] == start &&
    (forall i :: 0 <= i < |cluster| ==> cluster[i] !in visited) &&
    (forall i :: 0 <= i < |cluster| ==> ClosedIn(b, visited + Elems(cluster), cluster[i]))
  }

  /** The flood fill from start (Game.cpp:309-337): an explicit stack, the
      set of cells visited by this and earlier fills, and the cluster in the
      order cells were reached. The result is the whole same-colour region
      of start: every member's same-colour neighbours are members or were
      visited before. */
  method Flood(b: Board, start: Pos, visited: set<Pos>)
    returns (cluster: seq<Pos>, visitedOut: set<Pos>, ghost parent: seq<nat>)
    requires Shaped(b)
    requires InBounds(start) && Cell(b, start).color != EMPTY && start !in visited
    requires forall p :: p in visited ==> InBounds(p)
    ensures Region(b, start, visited, cluster, parent)
    ensures visitedOut == visited + Elems(cluster)
  {
    var color := Cell(b, start).color;
    visitedOut := visited + {start};
    cluster, parent := [start], [0];
    var stack := [start];
    ghost var unseen := set r, c | 0 <= r < ROWS && 0 <= c < COLS && Pos(r, c) !in visitedOut :: Pos(r, c);

    while stack != []
      invariant FloodState(b, start, visited, cluster, parent, stack, visitedOut, unseen)
      invariant PendingOrClosed(b, cluster, stack, visitedOut, -1)
      decreases |unseen|, |stack|
    {
      ghost var unseen0 := unseen;
      var cur := stack[|stack| - 1];
      assert cur in stack;
      ghost var ci: nat :| 0 <= ci < |cluster| && cluster[ci] == cur;
      FloodPop(b, cluster, parent, stack, visitedOut, ci);
      stack := stack[..|stack| - 1];
      ghost var stack0 := stack;
      var neighbours := Neighbours(cur);
      assert Cell(b, cur).color == color;
      for k := 0 to 4
        invariant FloodState(b, start, visited, cluster, parent, stack, visitedOut, unseen)
        invariant ci < |cluster| && cur == cluster[ci]
        invariant PendingOrClosed(b, cluster, stack, visitedOut, ci)
        invariant CoversFirst(b, visitedOut, cur, k)
        invariant (unseen == unseen0 && stack == stack0) || |unseen| < |unseen0|
      {
        var n := neighbours[k];
        if 0 <= n.row < ROWS && 0 <= n.col < COLS && n !in visitedOut && Cell(b, n).color == color {
          FloodPush(b, start, visited, cluster, parent, stack, visitedOut, unseen, ci, n);
          PendingPush(b, cluster, stack, visitedOut, ci, n);
          CoversGrow(b, visitedOut, cur, k, n);
          visitedOut, unseen := visitedOut + {n}, unseen - {n};
          stack := stack + [n];
          parent, cluster := parent + [ci], cluster + [n];
        }
        CoversStep(b, visitedOut, cur, k);
      }
      assert ClosedIn(b, visitedOut, cluster[ci]);
    }
    assert visitedOut == visited + Elems(cluster);
  }

  /** Adding a flood-filled region to the visited cells keeps them closed
      under same-colour adjacency, and appending the region when it has three
      or more cells keeps `added` equal to the match cells among them. */
  lemma AddRegion(b: Board, visited: set<Pos>, cluster: seq<Pos>, parent: seq<nat>, added: set<Pos>)
    requires Shaped(b) && Cluster(b, cluster, parent)
    requires ClosedSet(b, visited)
    requires forall i :: 0 <= i < |cluster| ==> cluster[i] !in visited
    requires forall i :: 0 <= i < |cluster| ==> ClosedIn(b, visited + Elems(cluster), cluster[i])
    requires forall p :: p in added <==> p in visited && InMatch(b, p)
    ensures ClosedSet(b, visited + Elems(cluster))
    ensures |cluster| >= 3 ==>
      forall p :: p in added + Elems(cluster) <==> p in visited + Elems(cluster) && InMatch(b, p)
    ensures |cluster| < 3 ==>
      forall p :: p in added <==> p in visited + Elems(cluster) && InMatch(b, p)
  {
    var all := visited + Elems(cluster);
    forall p | p in all
      ensures InBounds(p)
    {
      if p !in visited {
        var i :| 0 <= i < |cluster| && cluster[i] == p;
      }
    }
    forall p | p in all
      ensures ClosedIn(b, all, p)
    {
      if p in visited {
        assert ClosedIn(b, visited, p);
      } else {
        var i :| 0 <= i < |cluster| && cluster[i] == p;
      }
    }
    if |cluster| >= 3 {
      LargeClusterMatches(b, cluster, parent);
    } else {
      SmallClusterNoMatch(b, visited, cluster);
    }
  }

  /** Cell p comes before (row, col) in row-major order. */
  predicate Before(p: Pos, row: int, col: int) {
    p.row < row || (p.row == row && p.col < col)
  }

  /** The scan's state before cell (row, col): the visited cells are closed
      under same-colour adjacency, every non-empty cell before (row, col) is
      visited, and `added` holds exactly the visited match cells. */
  ghost predicate Scanned(b: Board, visited: set<Pos>, added: set<Pos>, row: int, col: int)
    requires Shaped(b)
  {
    ClosedSet(b, visited) &&
    (forall p :: InBounds(p) && Cell(b, p).color != EMPTY && Before(p, row, col) ==> p in visited) &&
    (forall p :: p in added <==> p in visited && InMatch(b, p))
  }

  /** Skipping a visited or empty cell moves the scan on. */
  lemma ScanSkip(b: Board, visited: set<Pos>, added: set<Pos>, row: int, col: int)
    requires Shaped(b) && Scanned(b, visited, added, row, col)
    requires Pos(row, col) in visited || (InBounds(Pos(row, col)) && Cell(b, Pos(row, col)).color == EMPTY)
    ensures Scanned(b, visited, added, row, col + 1)
  {
  }

  /** A finished row moves the scan to the start of the next. */
  lemma ScanNextRow(b: Board, visited: set<Pos>, added: set<Pos>, row: int)
    requires Shaped(b) && Scanned(b, visited, added, row, COLS)
    ensures Scanned(b, visited, added, row + 1, 0)
  {
  }

  /** Flood-filling from (row, col) and appending the region when it has
      three or more cells moves the scan on. */
  lemma ScanRegion(b: Board, visited: set<Pos>, added: set<Pos>, row: int, col: int,
                   cluster: seq<Pos>, parent: seq<nat>)
    requires Shaped(b) && Scanned(b, visited, added, row, col)
    requires Region(b, Pos(row, col), visited, cluster, parent)
    ensures Scanned(b, visited + Elems(cluster), if |cluster| >= 3 then added + Elems(cluster) else added, row, col + 1)
  {
    var all := visited + Elems(cluster);
    AddRegion(b, visited, cluster, parent, added);
    assert Pos(row, col) in all;
    forall p | InBounds(p) && Cell(b, p).color != EMPTY && Before(p, row, col + 1)
      ensures p in all
    {
      if p != Pos(row, col) {
        assert Before(p, row, col);
      }
    }
  }

  /** Once every non-empty cell is visited, `added` holds exactly the match
      cells; it is non-empty when the board has a match, and then the list
      holds at least three distinct cells. */
  lemma ScanComplete(b: Board, visited: set<Pos>, added: set<Pos>)
    requires Shaped(b) && Scanned(b, visited, added, ROWS, 0)
    ensures forall p :: p in added <==> InMatch(b, p)
    ensures added != {} <==> HasMatch(b)
  {
    forall p | InMatch(b, p)
      ensures p in added
    {
      var q, s :| Triple(b, p, q, s);
      TripleMembersMatch(b, p, q, s);
    }
    if added != {} {
      var p :| p in added;
      var q, s :| Triple(b, p, q, s);
      TripleMembersMatch(b, p, q, s);
    }
    if HasMatch(b) {
      var p :| InBounds(p) && InMatch(b, p);
      assert p in added;
    }
  }

  /** A list holding the cells of a match holds at least three cells. */
  lemma MatchHasThreeCells(b: Board, list: seq<Pos>)
    requires Shaped(b) && HasMatch(b)
    requires forall p :: InMatch(b, p) ==> p in list
    ensures |list| >= 3
  {
    var p :| InBounds(p) && InMatch(b, p);
    var q, s :| Triple(b, p, q, s);
    TripleMembersMatch(b, p, q, s);
    ThreeEntries(list, p, q, s);
  }

  /** The list the scan builds holds the caller's entries and the cells in
      `added`, and is the caller's list untouched until something is added. */
  ghost predicate Listed(matchesIn: seq<Pos>, matches: seq<Pos>, added: set<Pos>, found: bool) {
    (forall p :: p in matches <==> p in matchesIn || p in added) &&
    (found <==> added != {}) &&
    (!found ==> matches == matchesIn)
  }

  /** One step of the scan (Game.cpp:309-337): a visited or empty cell is
      skipped; otherwise its region is flood-filled, marked visited, and
      appended to the list when it has three or more cells. */
  method ScanCell(b: Board, row: int, col: int, visited: set<Pos>, matches: seq<Pos>, found: bool,
                  ghost matchesIn: seq<Pos>, ghost added: set<Pos>)
    returns (visitedOut: set<Pos>, matchesOut: seq<Pos>, foundOut: bool, ghost addedOut: set<Pos>)
    requires Shaped(b) && 0 <= row < ROWS && 0 <= col < COLS
    requires Scanned(b, visited, added, row, col)
    requires Listed(matchesIn, matches, added, found)
    ensures Scanned(b, visitedOut, addedOut, row, col + 1)
    ensures Listed(matchesIn, matchesOut, addedOut, foundOut)
  {
    var here := Pos(row, col);
    visitedOut, matchesOut, foundOut, addedOut := visited, matches, found, added;
    if here in visited || Cell(b, here).color == EMPTY {
      ScanSkip(b, visited, added, row, col);
    } else {
      var cluster;
      ghost var parent;
      cluster, visitedOut, parent := Flood(b, here, visited);
      ScanRegion(b, visited, added, row, col, cluster, parent);
      if |cluster| >= 3 {
        matchesOut, addedOut := matches + cluster, added + Elems(cluster);
        foundOut := true;
      }
    }
  }

  /** checkMatches (Game.cpp:301-353). Runs a flood fill from every
      non-empty cell not yet visited, row by row; appends each cluster of
      three or more cells to matchesIn; if any was appended, sorts the list
      and removes duplicates. It reports whether the board holds a match,
      and the list it leaves holds exactly the old entries and the match
      cells. matchesIn is the caller's vector, which need not be empty. */
  method CheckMatches(b: Board, matchesIn: seq<Pos>) returns (found: bool, matchesOut: seq<Pos>)
    requires Shaped(b)
    ensures found <==> HasMatch(b)
    ensures found ==> StrictlySorted(matchesOut) && |matchesOut| >= 3
    ensures found ==> forall p :: p in matchesOut <==> p in matchesIn || InMatch(b, p)
    ensures !found ==> matchesOut == matchesIn
  {
    found := false;
    var visited: set<Pos> := {};
    ghost var added: set<Pos> := {};
    matchesOut := matchesIn;
    for row := 0 to ROWS
      invariant Scanned(b, visited, added, row, 0)
      invariant Listed(matchesIn, matchesOut, added, found)
    {
      for col := 0 to COLS
        invariant Scanned(b, visited, added, row, col)
        invariant Listed(matchesIn, matchesOut, added, found)
      {
        visited, matchesOut, found, added := ScanCell(b, row, col, visited, matchesOut, found, matchesIn, added);
      }
      ScanNextRow(b, visited, added, row);
    }
    ScanComplete(b, visited, added);
    if found {
      MatchHasThreeCells(b, matchesOut);
      matchesOut := SortUnique(matchesOut);
      MatchHasThreeCells(b, matchesOut);
    }
  }
}
