/** Values shared by both planners of the repository: grid cells, the
    Manhattan heuristic, 4-adjacency, row-major enumeration of a rectangle
    and sequence reversal. */
module GridBasics {

  /** A grid position. nav_pygame.py reads it as (row, column), app.py as (x, y). */
  type Cell = (int, int)

  datatype Option<T> = None | Some(value: T)

  /** The four moves both planners try, in their order. */
  const Moves: seq<Cell> := [(1, 0), (-1, 0), (0, 1), (0, -1)]

  function Abs(x: int): nat { if x < 0 then -x else x }

  function Min(a: int, b: int): int { if a < b then a else b }

  function Shift(c: Cell, d: Cell): Cell { (c.0 + d.0, c.1 + d.1) }

  /** The heuristic of both planners: |a0 - b0| + |a1 - b1|. */
  function Manhattan(a: Cell, b: Cell): (d: nat)
    ensures d == 0 <==> a == b
  {
    Abs(a.0 - b.0) + Abs(a.1 - b.1)
  }

  /** Manhattan distance is a metric. */
  lemma ManhattanMetric(a: Cell, b: Cell, c: Cell)
    ensures Manhattan(a, b) == Manhattan(b, a)
    ensures Manhattan(a, c) <= Manhattan(a, b) + Manhattan(b, c)
  {
  }

  /** 4-connected neighbours. */
  predicate Adjacent(a: Cell, b: Cell) {
    Manhattan(a, b) == 1
  }

  /** Every move leads to a 4-neighbour ... */
  lemma MoveIsAdjacent(a: Cell, i: int)
    requires 0 <= i < |Moves|
    ensures Adjacent(a, Shift(a, Moves[i]))
  {
  }

  /** ... and every 4-neighbour is reached by exactly one of the moves. */
  lemma AdjacentIsMove(a: Cell, b: Cell) returns (i: nat)
    requires Adjacent(a, b)
    ensures i < |Moves| && Shift(a, Moves[i]) == b
    ensures forall j :: 0 <= j < |Moves| && Shift(a, Moves[j]) == b ==> j == i
  {
    if b.0 == a.0 + 1 { i := 0; }
    else if b.0 == a.0 - 1 { i := 1; }
    else if b.1 == a.1 + 1 { i := 2; }
    else { i := 3; }
  }

  function Reverse<T>(s: seq<T>): seq<T> {
    seq(|s|, i requires 0 <= i < |s| => s[|s| - 1 - i])
  }

  function Elems<T>(s: seq<T>): set<T> {
    set x | x in s
  }

  predicate Distinct<T(==)>(s: seq<T>) {
    forall i, j :: 0 <= i < j < |s| ==> s[i] != s[j]
  }

  /** A sequence has at least as many positions as elements, and exactly as
      many when it has no repetition. */
  lemma {:induction false} ElemsCard<T>(s: seq<T>)
    ensures |Elems(s)| <= |s|
    ensures Distinct(s) ==> |Elems(s)| == |s|
  {
    if s != [] {
      var t := s[..|s| - 1];
      var x := s[|s| - 1];
      ElemsCard(t);
      assert s == t + [x];
      assert Elems(s) == Elems(t) + {x};
      if Distinct(s) {
        assert Distinct(t);
        assert x !in Elems(t);
      }
    }
  }

  /** A sequence without repetition holds each of its elements once. */
  lemma {:induction false} DistinctCounts<T>(s: seq<T>)
    requires Distinct(s)
    ensures forall x :: multiset(s)[x] == if x in s then 1 else 0
  {
    if s != [] {
      var t := s[..|s| - 1];
      assert s == t + [s[|s| - 1]];
      assert Distinct(t);
      DistinctCounts(t);
    }
  }

  /** An element at two positions is counted at least twice. */
  lemma RepeatCounts<T>(s: seq<T>, i: int, j: int)
    requires 0 <= i < j < |s| && s[i] == s[j]
    ensures multiset(s)[s[i]] >= 2
  {
    assert s == s[..i] + [s[i]] + s[i + 1..j] + [s[j]] + s[j + 1..];
  }

  /** The cells (a, b) with 0 <= a < n and 0 <= b < m, a-major, b-minor:
      `[(a, b) for a in range(n) for b in range(m)]`. */
  function Enumerate(n: int, m: int): (s: seq<Cell>)
    ensures forall c {:trigger c in s} :: c in s <==> 0 <= c.0 < n && 0 <= c.1 < m
    ensures Distinct(s)
    ensures n >= 0 && m >= 0 ==> |s| == n * m
    decreases n
  {
    if n <= 0 then []
    else
      var front := Enumerate(n - 1, m);
      var row := Row(n - 1, m);
      assert forall i, j :: 0 <= i < |front| && 0 <= j < |row| ==> front[i] != row[j] by {
        forall i, j | 0 <= i < |front| && 0 <= j < |row| ensures front[i] != row[j] {
          assert front[i] in front;
        }
      }
      DistinctAppend(front, row);
      assert m >= 0 ==> |front + row| == (n - 1) * m + m == n * m;
      front + row
  }

  /** The cells (a, b) with 0 <= b < m, in order of b. */
  function Row(a: int, m: int): (r: seq<Cell>)
    ensures forall c {:trigger c in r} :: c in r <==> c.0 == a && 0 <= c.1 < m
    ensures forall j :: 0 <= j < |r| ==> r[j] == (a, j)
    ensures m >= 0 ==> |r| == m
  {
    var r := seq(if m < 0 then 0 else m, j requires 0 <= j => (a, j));
    assert forall c: Cell :: c.0 == a && 0 <= c.1 < m ==> r[c.1] == c;
    r
  }

  /** Two sequences without repetition and without a common element
      concatenate to one without repetition. */
  lemma DistinctAppend<T>(a: seq<T>, b: seq<T>)
    requires Distinct(a) && Distinct(b)
    requires forall i, j :: 0 <= i < |a| && 0 <= j < |b| ==> a[i] != b[j]
    ensures Distinct(a + b)
  {
    forall i, j | 0 <= i < j < |a + b| ensures (a + b)[i] != (a + b)[j] {
      if j < |a| {
      } else if i >= |a| {
        assert (a + b)[i] == b[i - |a|] && (a + b)[j] == b[j - |a|];
      } else {
        assert (a + b)[i] == a[i] && (a + b)[j] == b[j - |a|];
      }
    }
  }
}
