/** The shared grid abstraction of the maze solver: cell states, positions,
    neighbour enumeration, the guarded single-cell write and routes. */
module Grid {

  /** The state of one maze cell. The program renders each as a coloured glyph;
      only the distinction between them matters here. */
  datatype State = Wall | Path | Start | End | Scan | Visited | Step

  /** A (row, column) position; identity is purely positional. */
  datatype Pos = Pos(row: int, col: int)

  /** The fixed start cell of every maze. */
  const Origin := Pos(1, 1)

  /** The goal cell of an h-by-w maze: (h-2, w-2). It lies on the grid
      exactly when both sides are at least 2, and off the border once both
      are at least 3. */
  function Goal(g: array2<State>): (q: Pos)
    ensures InBounds(g, q) <==> 2 <= g.Length0 && 2 <= g.Length1
    ensures 3 <= g.Length0 && 3 <= g.Length1 ==> 1 <= q.row < g.Length0 - 1 && 1 <= q.col < g.Length1 - 1
  {
    Pos(g.Length0 - 2, g.Length1 - 2)
  }

  predicate InBounds(g: array2<State>, p: Pos) {
    0 <= p.row < g.Length0 && 0 <= p.col < g.Length1
  }

  function At(g: array2<State>, p: Pos): State
    requires InBounds(g, p)
    reads g
  {
    g[p.row, p.col]
  }

  /** The states a search may step onto. */
  predicate Open(s: State) {
    s == Path || s == End
  }

  predicate Adjacent(p: Pos, q: Pos) {
    (p.row == q.row && (q.col == p.col + 1 || q.col == p.col - 1)) ||
    (p.col == q.col && (q.row == p.row + 1 || q.row == p.row - 1))
  }

  /** The neighbour of p in direction k, in the order the solvers try them:
      0 east, 1 south, 2 west, 3 north. */
  function Neighbour(p: Pos, k: nat): (q: Pos)
    requires k < 4
    ensures Adjacent(p, q)
  {
    match k
    case 0 => Pos(p.row, p.col + 1)
    case 1 => Pos(p.row + 1, p.col)
    case 2 => Pos(p.row, p.col - 1)
    case _ => Pos(p.row - 1, p.col)
  }

  /** The direction index under which q is a neighbour of p. */
  function Heading(p: Pos, q: Pos): (k: nat)
    requires Adjacent(p, q)
    ensures k < 4
  {
    if q == Pos(p.row, p.col + 1) then 0
    else if q == Pos(p.row + 1, p.col) then 1
    else if q == Pos(p.row, p.col - 1) then 2
    else 3
  }

  /** The neighbours of p in directions k..3 that a search may step onto. */
  function MovesFrom(g: array2<State>, p: Pos, k: nat): (ms: seq<Pos>)
    requires k <= 4
    reads g
    decreases 4 - k
    ensures forall q :: q in ms <==>
      Adjacent(p, q) && Heading(p, q) >= k && InBounds(g, q) && Open(At(g, q))
    ensures forall i, j :: 0 <= i < j < |ms| ==>
      Adjacent(p, ms[i]) && Adjacent(p, ms[j]) && Heading(p, ms[i]) < Heading(p, ms[j])
  {
    if k == 4 then []
    else
      var q := Neighbour(p, k);
      var rest := MovesFrom(g, p, k + 1);
      if InBounds(g, q) && Open(At(g, q)) then [q] + rest else rest
  }

  /** get_moves: the in-bounds orthogonal neighbours of p whose state is Path
      or End, in east, south, west, north order. */
  function Moves(g: array2<State>, p: Pos): (ms: seq<Pos>)
    reads g
    ensures forall q :: q in ms <==> Adjacent(p, q) && InBounds(g, q) && Open(At(g, q))
    ensures forall i, j :: 0 <= i < j < |ms| ==>
      Adjacent(p, ms[i]) && Adjacent(p, ms[j]) && Heading(p, ms[i]) < Heading(p, ms[j])
  {
    MovesFrom(g, p, 0)
  }

  /** No position occurs twice in s. */
  predicate Distinct(s: seq<Pos>) {
    forall i, j :: 0 <= i < j < |s| ==> s[i] != s[j]
  }

  lemma DistinctConcat(a: seq<Pos>, b: seq<Pos>)
    requires Distinct(a) && Distinct(b)
    requires forall x :: x in a ==> x !in b
    ensures Distinct(a + b)
  {
    var c := a + b;
    forall i, j | 0 <= i < j < |c| ensures c[i] != c[j] {
      if j >= |a| && i < |a| {
        assert c[i] in a && c[j] in b;
      }
    }
  }

  /** The neighbours Moves yields are pairwise different. */
  lemma MovesDistinct(g: array2<State>, p: Pos)
    ensures Distinct(Moves(g, p))
  {
    var ms := Moves(g, p);
    forall i, j | 0 <= i < j < |ms| ensures ms[i] != ms[j] {
      assert Heading(p, ms[i]) < Heading(p, ms[j]);
    }
  }

  /** mark_cell: writes sym at pos unless pos is the start or the end; every
      other cell keeps its state. */
  method MarkCell(maze: array2<State>, pos: Pos, sym: State, start: Pos, end: Pos)
    requires pos == start || pos == end || InBounds(maze, pos)
    modifies maze
    ensures forall i, j :: 0 <= i < maze.Length0 && 0 <= j < maze.Length1 ==>
      maze[i, j] == if Pos(i, j) == pos && pos != start && pos != end then sym else old(maze[i, j])
  {
    if pos != start && pos != end {
      maze[pos.row, pos.col] := sym;
    }
  }

  /** The row-by-row copy each solver takes of the maze it is given. */
  method CopyGrid(g: array2<State>) returns (c: array2<State>)
    ensures fresh(c) && c.Length0 == g.Length0 && c.Length1 == g.Length1
    ensures forall i, j :: 0 <= i < g.Length0 && 0 <= j < g.Length1 ==> c[i, j] == g[i, j]
  {
    c := new State[g.Length0, g.Length1]((i, j) reads g =>
      if 0 <= i < g.Length0 && 0 <= j < g.Length1 then g[i, j] else Wall);
  }

  /** c leads from `from` (excluded) to `to` (its last element) in unit
      steps. */
  predicate Steps(from: Pos, to: Pos, c: seq<Pos>) {
    |c| > 0 && c[|c| - 1] == to && Adjacent(from, c[0]) &&
    forall i :: 0 < i < |c| ==> Adjacent(c[i - 1], c[i])
  }

  /** route leads from `from` to `to` in unit steps, over in-bounds cells
      whose state is Path or End. */
  ghost predicate IsRoute(g: array2<State>, from: Pos, to: Pos, route: seq<Pos>)
    reads g
  {
    Steps(from, to, route) &&
    forall i :: 0 <= i < |route| ==> InBounds(g, route[i]) && Open(At(g, route[i]))
  }

  /** Every open neighbour of a cell in s is in s. */
  ghost predicate ClosedUnderSteps(g: array2<State>, s: set<Pos>)
    reads g
  {
    forall x, y :: x in s && Adjacent(x, y) && InBounds(g, y) && Open(At(g, y)) ==> y in s
  }

  /** A set closed under steps that holds the start of a route holds every
      cell of the route, in particular its end. */
  lemma {:induction false} RouteStaysInside(g: array2<State>, s: set<Pos>, from: Pos, to: Pos, route: seq<Pos>)
    requires ClosedUnderSteps(g, s) && from in s && IsRoute(g, from, to, route)
    ensures to in s
  {
    RoutePrefixInside(g, s, from, to, route, |route| - 1);
  }

  lemma {:induction false} RoutePrefixInside(g: array2<State>, s: set<Pos>, from: Pos, to: Pos, route: seq<Pos>, k: nat)
    requires ClosedUnderSteps(g, s) && from in s && IsRoute(g, from, to, route)
    requires k < |route|
    ensures route[k] in s
    decreases k
  {
    if k == 0 {
      assert Adjacent(from, route[0]) && InBounds(g, route[0]) && Open(At(g, route[0]));
    } else {
      RoutePrefixInside(g, s, from, to, route, k - 1);
      assert Adjacent(route[k - 1], route[k]) && InBounds(g, route[k]) && Open(At(g, route[k]));
    }
  }

  /** All in-bounds cells of g. */
  ghost function Cells(g: array2<State>): set<Pos> {
    set i, j | 0 <= i < g.Length0 && 0 <= j < g.Length1 :: Pos(i, j)
  }

  /** The in-bounds cells whose state is Path or End. */
  ghost function OpenCells(g: array2<State>): set<Pos>
    reads g
  {
    set i, j | 0 <= i < g.Length0 && 0 <= j < g.Length1 && Open(g[i, j]) :: Pos(i, j)
  }

  lemma SubsetCard<T>(a: set<T>, b: set<T>)
    requires a <= b
    ensures |a| <= |b|
  {
    assert b == a + (b - a);
  }
}
