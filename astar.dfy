/** astar_solve: best-first search on f = g + Manhattan distance to the goal,
    over a priority queue of (f, g, cell) entries with lazy re-push. Like the
    other solvers it copies the maze, pops, stops when the popped cell is the
    goal, and otherwise counts the pop, marks the cell and relaxes its
    neighbours. */
module AStar {
  import opened Grid
  import opened Paths
  import opened Search

  /** A priority-queue entry (f, g, cell). */
  datatype Entry = Entry(f: int, g: nat, cell: Pos)

  /** Python's tuple order on (f, g, (row, col)): lexicographic, so it is
      reflexive, led by f, among equal f led by g, and among equal f and g
      led by the row and then the column of the cell. */
  predicate Le(a: Entry, b: Entry)
    ensures a == b ==> Le(a, b)
    ensures Le(a, b) ==> a.f <= b.f
    ensures a.f < b.f ==> Le(a, b)
    ensures a.f == b.f && Le(a, b) ==> a.g <= b.g
    ensures a.f == b.f && a.g < b.g ==> Le(a, b)
    ensures a.f == b.f && a.g == b.g ==>
      (Le(a, b) <==> a.cell.row < b.cell.row || (a.cell.row == b.cell.row && a.cell.col <= b.cell.col))
  {
    a.f < b.f || (a.f == b.f &&
      (a.g < b.g || (a.g == b.g &&
        (a.cell.row < b.cell.row || (a.cell.row == b.cell.row && a.cell.col <= b.cell.col)))))
  }

  /** Le is a total order on entries: any two compare, it chains, and two
      entries below each other are the same entry. So the minimum of a
      non-empty queue is one definite entry. */
  lemma LeTotalOrder(a: Entry, b: Entry, c: Entry)
    ensures Le(a, b) || Le(b, a)
    ensures Le(a, b) && Le(b, c) ==> Le(a, c)
    ensures Le(a, b) && Le(b, a) ==> a == b
  {
  }

  function Abs(x: int): nat {
    if x < 0 then -x else x
  }

  /** h_func: the Manhattan distance from p to q. It vanishes exactly between
      equal cells, does not depend on the order of its arguments, and bounds
      each coordinate difference. */
  function Manhattan(p: Pos, q: Pos): (d: nat)
    ensures d == 0 <==> p == q
    ensures d == Abs(q.row - p.row) + Abs(q.col - p.col)
    ensures Abs(p.row - q.row) <= d && Abs(p.col - q.col) <= d
  {
    Abs(p.row - q.row) + Abs(p.col - q.col)
  }

  /** The Manhattan heuristic is consistent: one step changes it by at most
      one. */
  lemma ManhattanConsistent(p: Pos, r: Pos, q: Pos)
    requires Adjacent(p, r)
    ensures Manhattan(p, q) <= Manhattan(r, q) + 1 && Manhattan(r, q) <= Manhattan(p, q) + 1
  {
  }

  /** heappop: removes and returns the least entry of the queue. */
  method PopMin(heap: seq<Entry>) returns (e: Entry, rest: seq<Entry>)
    requires heap != []
    ensures forall x :: x in heap ==> Le(e, x)
    ensures multiset(heap) == multiset(rest) + multiset{e}
  {
    var m := 0;
    var i := 1;
    while i < |heap|
      invariant 0 <= m < i <= |heap|
      invariant forall k :: 0 <= k < i ==> Le(heap[m], heap[k])
    {
      if !Le(heap[m], heap[i]) {
        forall k | 0 <= k < i ensures Le(heap[i], heap[k]) {
          LeTotalOrder(heap[i], heap[m], heap[k]);
        }
        m := i;
      }
      i := i + 1;
    }
    e := heap[m];
    rest := heap[..m] + heap[m + 1..];
    assert heap == heap[..m] + [heap[m]] + heap[m + 1..];
  }

  /** The state a relaxation updates: g_score, parent and open_set. */
  datatype Scores = Scores(g: map<Pos, nat>, parent: map<Pos, Pos>, heap: seq<Entry>)

  /** The relaxation of moves[i..] from s, move by move: a move whose
      tentative score g[curr] + 1 beats its recorded score, or that has none,
      gets that score, curr as its parent and a queue entry. */
  ghost function RelaxFrom(moves: seq<Pos>, i: nat, curr: Pos, goal: Pos, s: Scores): Scores
    requires i <= |moves| && curr in s.g
    decreases |moves| - i
  {
    if i == |moves| then s
    else
      var move, tentG := moves[i], s.g[curr] + 1;
      if move !in s.g || tentG < s.g[move] then
        RelaxFrom(moves, i + 1, curr, goal, Improve(s, move, tentG, curr, goal))
      else
        RelaxFrom(moves, i + 1, curr, goal, s)
  }

  /** The relaxation loop of astar_solve over the moves of curr. */
  method Relax(moves: seq<Pos>, curr: Pos, goal: Pos, gScore: map<Pos, nat>, parent: map<Pos, Pos>,
               openSet: seq<Entry>)
    returns (gScore': map<Pos, nat>, parent': map<Pos, Pos>, openSet': seq<Entry>)
    requires curr in gScore
    ensures Scores(gScore', parent', openSet') == RelaxFrom(moves, 0, curr, goal, Scores(gScore, parent, openSet))
  {
    gScore', parent', openSet' := gScore, parent, openSet;
    var i := 0;
    while i < |moves|
      invariant 0 <= i <= |moves| && curr in gScore'
      invariant RelaxFrom(moves, i, curr, goal, Scores(gScore', parent', openSet')) ==
                RelaxFrom(moves, 0, curr, goal, Scores(gScore, parent, openSet))
    {
      var move := moves[i];
      var tentG := gScore'[curr] + 1;
      if move !in gScore' || tentG < gScore'[move] {
        gScore' := gScore'[move := tentG];
        parent' := parent'[move := curr];
        openSet' := openSet' + [Entry(tentG + Manhattan(move, goal), tentG, move)];
      }
      i := i + 1;
    }
  }

  /** y got a first or a different score from s to r. */
  ghost predicate Changed(s: Scores, r: Scores, y: Pos) {
    y in r.g && (y !in s.g || r.g[y] != s.g[y])
  }

  /** One improving step of the relaxation: move gets score t, parent curr
      and a queue entry. */
  function Improve(s: Scores, move: Pos, t: nat, curr: Pos, goal: Pos): Scores {
    Scores(s.g[move := t], s.parent[move := curr], s.heap + [Entry(t + Manhattan(move, goal), t, move)])
  }

  /** Relaxation keeps every scored cell scored and never raises a score. */
  lemma {:induction false} RelaxLowers(moves: seq<Pos>, i: nat, curr: Pos, goal: Pos, s: Scores)
    requires i <= |moves| && curr in s.g
    ensures var r := RelaxFrom(moves, i, curr, goal, s);
      forall y :: y in s.g ==> y in r.g && r.g[y] <= s.g[y]
    decreases |moves| - i
  {
    if i < |moves| {
      var move, t := moves[i], s.g[curr] + 1;
      if move !in s.g || t < s.g[move] {
        var s1 := Improve(s, move, t, curr, goal);
        assert RelaxFrom(moves, i, curr, goal, s) == RelaxFrom(moves, i + 1, curr, goal, s1);
        RelaxLowers(moves, i + 1, curr, goal, s1);
      } else {
        assert RelaxFrom(moves, i, curr, goal, s) == RelaxFrom(moves, i + 1, curr, goal, s);
        RelaxLowers(moves, i + 1, curr, goal, s);
      }
    }
  }

  /** The cells scored after relaxing moves[i..] are the ones scored before
      and the moves. */
  lemma {:induction false} RelaxDomain(moves: seq<Pos>, i: nat, curr: Pos, goal: Pos, s: Scores)
    requires i <= |moves| && curr in s.g
    ensures var r := RelaxFrom(moves, i, curr, goal, s);
      forall y :: y in r.g <==> y in s.g || y in moves[i..]
    decreases |moves| - i
  {
    if i < |moves| {
      var move, t := moves[i], s.g[curr] + 1;
      assert moves[i..] == [move] + moves[i + 1..];
      if move !in s.g || t < s.g[move] {
        var s1 := Improve(s, move, t, curr, goal);
        assert RelaxFrom(moves, i, curr, goal, s) == RelaxFrom(moves, i + 1, curr, goal, s1);
        RelaxDomain(moves, i + 1, curr, goal, s1);
      } else {
        assert RelaxFrom(moves, i, curr, goal, s) == RelaxFrom(moves, i + 1, curr, goal, s);
        RelaxDomain(moves, i + 1, curr, goal, s);
      }
    }
  }

  /** A score the relaxation changes belongs to a move and becomes exactly
      g[curr] + 1. */
  lemma {:induction false} RelaxChangedScore(moves: seq<Pos>, i: nat, curr: Pos, goal: Pos, s: Scores)
    requires i <= |moves| && curr in s.g && curr !in moves
    ensures var r := RelaxFrom(moves, i, curr, goal, s);
      forall y :: Changed(s, r, y) ==> y in moves[i..] && r.g[y] == s.g[curr] + 1
    decreases |moves| - i
  {
    if i < |moves| {
      var move, t := moves[i], s.g[curr] + 1;
      var r := RelaxFrom(moves, i, curr, goal, s);
      assert moves[i..] == [move] + moves[i + 1..];
      if move !in s.g || t < s.g[move] {
        var s1 := Improve(s, move, t, curr, goal);
        assert RelaxFrom(moves, i, curr, goal, s) == RelaxFrom(moves, i + 1, curr, goal, s1);
        RelaxChangedScore(moves, i + 1, curr, goal, s1);
        assert move in moves && s1.g[curr] == s.g[curr];
        forall y | Changed(s, r, y) ensures y in moves[i..] && r.g[y] == t {
          if y != move {
            assert Changed(s1, r, y);
          } else if !Changed(s1, r, y) {
            assert r.g[y] == s1.g[y];
          }
        }
      } else {
        assert RelaxFrom(moves, i, curr, goal, s) == RelaxFrom(moves, i + 1, curr, goal, s);
        RelaxChangedScore(moves, i + 1, curr, goal, s);
        forall y | Changed(s, r, y) ensures y in moves[i..] && r.g[y] == t {
          assert y in moves[i + 1..];
        }
      }
    }
  }

  /** After relaxing moves[i..] every move is scored at most g[curr] + 1. */
  lemma {:induction false} RelaxMovesBound(moves: seq<Pos>, i: nat, curr: Pos, goal: Pos, s: Scores)
    requires i <= |moves| && curr in s.g && curr !in moves
    ensures var r := RelaxFrom(moves, i, curr, goal, s);
      forall y :: y in moves[i..] ==> y in r.g && r.g[y] <= s.g[curr] + 1
    decreases |moves| - i
  {
    if i < |moves| {
      var move, t := moves[i], s.g[curr] + 1;
      assert moves[i..] == [move] + moves[i + 1..];
      if move !in s.g || t < s.g[move] {
        var s1 := Improve(s, move, t, curr, goal);
        assert RelaxFrom(moves, i, curr, goal, s) == RelaxFrom(moves, i + 1, curr, goal, s1);
        RelaxMovesBound(moves, i + 1, curr, goal, s1);
        RelaxLowers(moves, i + 1, curr, goal, s1);
      } else {
        assert RelaxFrom(moves, i, curr, goal, s) == RelaxFrom(moves, i + 1, curr, goal, s);
        RelaxMovesBound(moves, i + 1, curr, goal, s);
        RelaxLowers(moves, i + 1, curr, goal, s);
      }
    }
  }

  /** The cells with a parent link after relaxing moves[i..] are the ones
      linked before and the ones whose score changed. */
  lemma {:induction false} RelaxParentDomain(moves: seq<Pos>, i: nat, curr: Pos, goal: Pos, s: Scores)
    requires i <= |moves| && curr in s.g
    ensures var r := RelaxFrom(moves, i, curr, goal, s);
      forall y :: y in r.parent <==> y in s.parent || Changed(s, r, y)
    decreases |moves| - i
  {
    if i < |moves| {
      var move, t := moves[i], s.g[curr] + 1;
      var r := RelaxFrom(moves, i, curr, goal, s);
      if move !in s.g || t < s.g[move] {
        var s1 := Improve(s, move, t, curr, goal);
        assert RelaxFrom(moves, i, curr, goal, s) == RelaxFrom(moves, i + 1, curr, goal, s1);
        RelaxParentDomain(moves, i + 1, curr, goal, s1);
        RelaxLowers(moves, i + 1, curr, goal, s1);
        assert Changed(s, r, move);
        forall y | y != move ensures Changed(s, r, y) == Changed(s1, r, y) {
        }
      } else {
        assert RelaxFrom(moves, i, curr, goal, s) == RelaxFrom(moves, i + 1, curr, goal, s);
        RelaxParentDomain(moves, i + 1, curr, goal, s);
      }
    }
  }

  /** After relaxing moves[i..] a cell whose score changed is linked to
      curr, and every other link is the one it was. */
  lemma {:induction false} RelaxParentLinks(moves: seq<Pos>, i: nat, curr: Pos, goal: Pos, s: Scores)
    requires i <= |moves| && curr in s.g
    ensures var r := RelaxFrom(moves, i, curr, goal, s);
      (forall y :: Changed(s, r, y) && y in r.parent ==> r.parent[y] == curr) &&
      (forall y :: y in s.parent && !Changed(s, r, y) ==> y in r.parent && r.parent[y] == s.parent[y])
    decreases |moves| - i
  {
    if i < |moves| {
      var move, t := moves[i], s.g[curr] + 1;
      var r := RelaxFrom(moves, i, curr, goal, s);
      if move !in s.g || t < s.g[move] {
        var s1 := Improve(s, move, t, curr, goal);
        assert RelaxFrom(moves, i, curr, goal, s) == RelaxFrom(moves, i + 1, curr, goal, s1);
        RelaxParentLinks(moves, i + 1, curr, goal, s1);
        RelaxLowers(moves, i + 1, curr, goal, s1);
        RelaxParentDomain(moves, i + 1, curr, goal, s1);
        assert Changed(s, r, move);
        forall y | y != move ensures Changed(s, r, y) == Changed(s1, r, y) {
        }
      } else {
        assert RelaxFrom(moves, i, curr, goal, s) == RelaxFrom(moves, i + 1, curr, goal, s);
        RelaxParentLinks(moves, i + 1, curr, goal, s);
      }
    }
  }

  /** Relaxation only appends to the queue. */
  lemma {:induction false} RelaxKeepsQueued(moves: seq<Pos>, i: nat, curr: Pos, goal: Pos, s: Scores)
    requires i <= |moves| && curr in s.g
    ensures var r := RelaxFrom(moves, i, curr, goal, s);
      forall x :: x in s.heap ==> x in r.heap
    decreases |moves| - i
  {
    if i < |moves| {
      var move, t := moves[i], s.g[curr] + 1;
      if move !in s.g || t < s.g[move] {
        var s1 := Improve(s, move, t, curr, goal);
        assert RelaxFrom(moves, i, curr, goal, s) == RelaxFrom(moves, i + 1, curr, goal, s1);
        assert forall x :: x in s.heap ==> x in s1.heap;
        RelaxKeepsQueued(moves, i + 1, curr, goal, s1);
      } else {
        assert RelaxFrom(moves, i, curr, goal, s) == RelaxFrom(moves, i + 1, curr, goal, s);
        RelaxKeepsQueued(moves, i + 1, curr, goal, s);
      }
    }
  }

  /** Every entry the relaxation pushes is (t + h, t, move) for a move, with
      t = g[curr] + 1. */
  lemma {:induction false} RelaxNewEntries(moves: seq<Pos>, i: nat, curr: Pos, goal: Pos, s: Scores)
    requires i <= |moves| && curr in s.g && curr !in moves
    ensures var r, t := RelaxFrom(moves, i, curr, goal, s), s.g[curr] + 1;
      forall x :: x in r.heap ==> x in s.heap || (x.cell in moves[i..] && x.g == t && x.f == t + Manhattan(x.cell, goal))
    decreases |moves| - i
  {
    if i < |moves| {
      var move, t := moves[i], s.g[curr] + 1;
      assert moves[i..] == [move] + moves[i + 1..];
      if move !in s.g || t < s.g[move] {
        var s1 := Improve(s, move, t, curr, goal);
        assert RelaxFrom(moves, i, curr, goal, s) == RelaxFrom(moves, i + 1, curr, goal, s1);
        RelaxNewEntries(moves, i + 1, curr, goal, s1);
      } else {
        assert RelaxFrom(moves, i, curr, goal, s) == RelaxFrom(moves, i + 1, curr, goal, s);
        RelaxNewEntries(moves, i + 1, curr, goal, s);
      }
    }
  }

  /** Every cell whose score the relaxation changes gets the entry (t + h,
      t, cell) in the queue, t = g[curr] + 1. */
  lemma {:induction false} RelaxChangedQueued(moves: seq<Pos>, i: nat, curr: Pos, goal: Pos, s: Scores)
    requires i <= |moves| && curr in s.g && curr !in moves
    ensures var r, t := RelaxFrom(moves, i, curr, goal, s), s.g[curr] + 1;
      forall y :: Changed(s, r, y) ==> Entry(t + Manhattan(y, goal), t, y) in r.heap
    decreases |moves| - i
  {
    if i < |moves| {
      var move, t := moves[i], s.g[curr] + 1;
      var r := RelaxFrom(moves, i, curr, goal, s);
      if move !in s.g || t < s.g[move] {
        var s1 := Improve(s, move, t, curr, goal);
        assert RelaxFrom(moves, i, curr, goal, s) == RelaxFrom(moves, i + 1, curr, goal, s1);
        RelaxChangedQueued(moves, i + 1, curr, goal, s1);
        RelaxKeepsQueued(moves, i + 1, curr, goal, s1);
        assert Entry(t + Manhattan(move, goal), t, move) in s1.heap;
        forall y | y != move ensures Changed(s, r, y) == Changed(s1, r, y) {
        }
      } else {
        assert RelaxFrom(moves, i, curr, goal, s) == RelaxFrom(moves, i + 1, curr, goal, s);
        RelaxChangedQueued(moves, i + 1, curr, goal, s);
      }
    }
  }

  /** Relaxing moves that are all scored at most g[curr] + 1 already changes
      nothing. */
  lemma {:induction false} RelaxSettled(moves: seq<Pos>, i: nat, curr: Pos, goal: Pos, s: Scores)
    requires i <= |moves| && curr in s.g
    requires forall y :: y in moves[i..] ==> y in s.g && s.g[y] <= s.g[curr] + 1
    ensures RelaxFrom(moves, i, curr, goal, s) == s
    decreases |moves| - i
  {
    if i < |moves| {
      assert moves[i] in moves[i..];
      assert forall y :: y in moves[i + 1..] ==> y in moves[i..];
      RelaxSettled(moves, i + 1, curr, goal, s);
    }
  }

  /** Relaxation never touches the start (its score 0 is least) nor an
      expanded cell other than the start (marked, so not a move). */
  ghost predicate Untouchable(base: array2<State>, closed: set<Pos>, moves: seq<Pos>)
  {
    forall k :: k in moves ==> k !in closed || k == Origin || k == Goal(base)
  }

  lemma MovesUnmarked(base: array2<State>, maze: array2<State>, closed: set<Pos>, curr: Pos)
    requires Marked(base, maze, closed)
    ensures Untouchable(base, closed, Moves(maze, curr))
  {
    forall k | k in Moves(maze, curr) ensures k !in closed || k == Origin || k == Goal(base) {
      assert InBounds(maze, k) && Open(At(maze, k));
    }
  }

  /** Every open neighbour outside the expanded cells of an expanded cell x
      has a score of at most g[x] + 1. */
  ghost predicate Settles(base: array2<State>, closed: set<Pos>, g: map<Pos, nat>)
    reads base
  {
    forall x, y ::
      x in closed && x in g && y !in closed && Adjacent(x, y) && InBounds(base, y) && Open(At(base, y)) ==>
        y in g && g[y] <= g[x] + 1
  }

  /** The entry of the start cell the queue begins with. */
  function StartEntry(base: array2<State>): Entry {
    Entry(Manhattan(Origin, Goal(base)), 0, Origin)
  }

  /** The scored, linked and expanded cells between two pops: the start is
      scored 0 and expanded first, every expanded cell is scored, every
      scored cell lies in the maze, the goal is never expanded, and exactly
      the scored cells other than the start have parent links. */
  ghost predicate AKeys(base: array2<State>, heap: seq<Entry>, g: map<Pos, nat>, closed: set<Pos>,
                        parent: map<Pos, Pos>, explored: nat)
    reads base
  {
    Origin in g && g[Origin] == 0 &&
    closed <= g.Keys <= Universe(base) && Goal(base) !in closed &&
    (closed == {} ==> explored == 0 && g.Keys == {Origin} && heap == [StartEntry(base)]) &&
    (closed != {} ==> Origin in closed && explored >= 1) &&
    parent.Keys == g.Keys - {Origin}
  }

  /** Every queue entry (f, g', cell) has a scored cell, g' is its score or
      a stale higher one, and f = g' + h. */
  ghost predicate EntriesScored(heap: seq<Entry>, g: map<Pos, nat>, goal: Pos) {
    forall x :: x in heap ==> x.cell in g && g[x.cell] <= x.g && x.f == x.g + Manhattan(x.cell, goal)
  }

  /** Every scored cell not expanded has its current entry in the queue. */
  ghost predicate OpenQueued(heap: seq<Entry>, g: map<Pos, nat>, closed: set<Pos>, goal: Pos) {
    forall y :: y in g && y !in closed ==> Entry(g[y] + Manhattan(y, goal), g[y], y) in heap
  }

  /** The bookkeeping A* keeps between two pops. closed (ghost) is the set of
      expanded cells; g-scores rank the parent links. */
  ghost predicate ABooks(base: array2<State>, heap: seq<Entry>, g: map<Pos, nat>, closed: set<Pos>,
                         parent: map<Pos, Pos>, explored: nat)
    reads base
  {
    AKeys(base, heap, g, closed, parent, explored) &&
    EntriesScored(heap, g, Goal(base)) &&
    OpenQueued(heap, g, closed, Goal(base)) &&
    Links(base, closed, parent, g) &&
    Settles(base, closed, g)
  }

  lemma StartABooks(base: array2<State>, maze: array2<State>)
    requires maze.Length0 == base.Length0 && maze.Length1 == base.Length1
    requires forall i, j :: 0 <= i < base.Length0 && 0 <= j < base.Length1 ==> maze[i, j] == base[i, j]
    ensures Marked(base, maze, {})
    ensures ABooks(base, [StartEntry(base)], map[Origin := 0], {}, map[], 0)
  {
  }

  /** What an expansion of curr may assume about the moves it relaxes: they
      are open neighbours of curr in the base maze, they include every open
      neighbour that is not expanded, and none of them is expanded except
      possibly the start or the goal. */
  ghost predicate FitMoves(base: array2<State>, closed: set<Pos>, curr: Pos, moves: seq<Pos>)
    reads base
  {
    (forall k :: k in moves ==> Adjacent(curr, k) && InBounds(base, k) && Open(At(base, k))) &&
    (forall y :: Adjacent(curr, y) && InBounds(base, y) && Open(At(base, y)) && y !in closed ==> y in moves) &&
    Untouchable(base, closed, moves)
  }

  /** Expanded cells keep their scores: relaxation can only lower a score
      to g[curr] + 1 >= 1, the start's is 0, and every other move is not
      expanded. */
  lemma ExpandedFrozen(base: array2<State>, g: map<Pos, nat>, closed: set<Pos>, parent: map<Pos, Pos>,
                       rest: seq<Entry>, curr: Pos, moves: seq<Pos>, r: Scores)
    requires Origin in g && g[Origin] == 0 && closed <= g.Keys && Goal(base) !in closed
    requires Untouchable(base, closed + {curr}, moves)
    requires curr in g && curr !in moves && r == RelaxFrom(moves, 0, curr, Goal(base), Scores(g, parent, rest))
    ensures forall y :: y in closed + {curr} ==> y in r.g && r.g[y] == g[y] && !Changed(Scores(g, parent, rest), r, y)
  {
    RelaxLowers(moves, 0, curr, Goal(base), Scores(g, parent, rest));
    RelaxChangedScore(moves, 0, curr, Goal(base), Scores(g, parent, rest));
    assert moves[0..] == moves;
    forall y | y in closed + {curr} && y in moves ensures r.g[y] == g[y] {
      assert y == Origin && r.g[y] <= g[y];
    }
  }

  /** After an expansion the start keeps score 0, the scored cells stay
      inside the maze, the goal stays unexpanded, and exactly the scored
      cells other than the start have parent links. */
  lemma ExpandKeepsKeys(base: array2<State>, heap: seq<Entry>, rest: seq<Entry>, e: Entry,
                        g: map<Pos, nat>, closed: set<Pos>, parent: map<Pos, Pos>, explored: nat,
                        curr: Pos, moves: seq<Pos>, r: Scores)
    requires AKeys(base, heap, g, closed, parent, explored)
    requires e in heap && e == Entry(e.f, e.g, curr) && curr != Goal(base)
    requires forall k :: k in moves ==> InBounds(base, k)
    requires Untouchable(base, closed + {curr}, moves)
    requires curr in g && curr !in moves && r == RelaxFrom(moves, 0, curr, Goal(base), Scores(g, parent, rest))
    ensures AKeys(base, r.heap, r.g, closed + {curr}, r.parent, explored + 1)
  {
    var s := Scores(g, parent, rest);
    if closed == {} {
      assert heap == [StartEntry(base)];
    }
    ExpandedFrozen(base, g, closed, parent, rest, curr, moves, r);
    RelaxDomain(moves, 0, curr, Goal(base), s);
    RelaxParentDomain(moves, 0, curr, Goal(base), s);
    assert moves[0..] == moves;
    forall y | y in r.g ensures y in Universe(base) {
      if y !in g {
        assert InBounds(base, y) && Pos(y.row, y.col) == y;
      }
    }
  }

  /** After an expansion every queue entry carries its cell's score or a
      stale higher one, with f = g + h. */
  lemma ExpandKeepsEntryScores(heap: seq<Entry>, rest: seq<Entry>, e: Entry, g: map<Pos, nat>,
                               parent: map<Pos, Pos>, curr: Pos, moves: seq<Pos>, goal: Pos, r: Scores)
    requires EntriesScored(heap, g, goal) && multiset(heap) == multiset(rest) + multiset{e}
    requires curr in g && curr !in moves && r == RelaxFrom(moves, 0, curr, goal, Scores(g, parent, rest))
    ensures EntriesScored(r.heap, r.g, goal)
  {
    var s := Scores(g, parent, rest);
    RelaxLowers(moves, 0, curr, goal, s);
    RelaxNewEntries(moves, 0, curr, goal, s);
    RelaxMovesBound(moves, 0, curr, goal, s);
    forall x | x in rest ensures x in heap {
      assert multiset(heap)[x] > 0;
    }
  }

  /** After an expansion every scored cell not expanded has its current
      entry in the queue: a changed cell got a fresh one, and an unchanged
      cell other than curr kept the one it had, which was not popped. */
  lemma ExpandKeepsOpenEntries(heap: seq<Entry>, rest: seq<Entry>, e: Entry, g: map<Pos, nat>, closed: set<Pos>,
                               parent: map<Pos, Pos>, curr: Pos, moves: seq<Pos>, goal: Pos, r: Scores)
    requires OpenQueued(heap, g, closed, goal)
    requires e == Entry(e.f, e.g, curr) && multiset(heap) == multiset(rest) + multiset{e}
    requires curr in g && curr !in moves && r == RelaxFrom(moves, 0, curr, goal, Scores(g, parent, rest))
    ensures OpenQueued(r.heap, r.g, closed + {curr}, goal)
  {
    var s := Scores(g, parent, rest);
    RelaxChangedScore(moves, 0, curr, goal, s);
    RelaxChangedQueued(moves, 0, curr, goal, s);
    RelaxKeepsQueued(moves, 0, curr, goal, s);
    forall y | y in r.g && y !in closed + {curr}
      ensures Entry(r.g[y] + Manhattan(y, goal), r.g[y], y) in r.heap
    {
      if Changed(s, r, y) {
        assert r.g[y] == g[curr] + 1;
      } else {
        var x := Entry(g[y] + Manhattan(y, goal), g[y], y);
        assert x in heap && x != e;
        assert multiset(heap)[x] == multiset(rest)[x];
      }
    }
  }

  /** Parent links survive an expansion of curr when every link is either
      an old one with its old score or a new one from curr to a move scored
      g[curr] + 1, and the expanded cells keep their scores. */
  lemma LinksAfterExpand(base: array2<State>, g: map<Pos, nat>, closed: set<Pos>, parent: map<Pos, Pos>,
                         curr: Pos, moves: seq<Pos>, g': map<Pos, nat>, parent': map<Pos, Pos>)
    requires Links(base, closed, parent, g) && curr in g && closed <= g.Keys
    requires forall k :: k in moves ==> Adjacent(curr, k) && InBounds(base, k) && Open(At(base, k))
    requires forall y :: y in closed + {curr} ==> y in g' && g'[y] == g[y]
    requires forall k :: k in parent' ==>
               k in g' &&
               ((k in parent && parent'[k] == parent[k] && k in g && g'[k] == g[k]) ||
                (parent'[k] == curr && k in moves && g'[k] == g[curr] + 1))
    ensures Links(base, closed + {curr}, parent', g')
  {
    forall k | k in parent'
      ensures parent'[k] in closed + {curr} && k in g' && parent'[k] in g'
      ensures g'[k] == g'[parent'[k]] + 1
      ensures Adjacent(parent'[k], k) && InBounds(base, k) && Open(At(base, k))
    {
      if !(parent'[k] == curr && k in moves && g'[k] == g[curr] + 1) {
        assert parent[k] in closed;
      }
    }
  }

  /** After an expansion every parent link joins an open cell to an
      expanded neighbour scored one less. */
  lemma ExpandKeepsLinks(base: array2<State>, g: map<Pos, nat>, closed: set<Pos>, parent: map<Pos, Pos>,
                         rest: seq<Entry>, curr: Pos, moves: seq<Pos>, r: Scores)
    requires Links(base, closed, parent, g)
    requires Origin in g && g[Origin] == 0 && closed <= g.Keys && Goal(base) !in closed
    requires forall k :: k in moves ==> Adjacent(curr, k) && InBounds(base, k) && Open(At(base, k))
    requires Untouchable(base, closed + {curr}, moves)
    requires curr in g && curr !in moves && r == RelaxFrom(moves, 0, curr, Goal(base), Scores(g, parent, rest))
    ensures Links(base, closed + {curr}, r.parent, r.g)
  {
    var s := Scores(g, parent, rest);
    assert forall y :: y in closed + {curr} ==> y in r.g && r.g[y] == g[y] by {
      ExpandedFrozen(base, g, closed, parent, rest, curr, moves, r);
    }
    assert forall k :: k in r.parent ==>
             k in r.g &&
             ((k in parent && r.parent[k] == parent[k] && k in g && r.g[k] == g[k]) ||
              (r.parent[k] == curr && k in moves && r.g[k] == g[curr] + 1)) by {
      RelaxChangedScore(moves, 0, curr, Goal(base), s);
      RelaxParentDomain(moves, 0, curr, Goal(base), s);
      RelaxParentLinks(moves, 0, curr, Goal(base), s);
      RelaxDomain(moves, 0, curr, Goal(base), s);
      assert moves[0..] == moves;
    }
    LinksAfterExpand(base, g, closed, parent, curr, moves, r.g, r.parent);
  }

  /** After an expansion every open neighbour of an expanded cell that is
      not expanded itself is scored at most one above it. */
  lemma ExpandKeepsSettles(base: array2<State>, g: map<Pos, nat>, closed: set<Pos>, parent: map<Pos, Pos>,
                           rest: seq<Entry>, curr: Pos, moves: seq<Pos>, r: Scores)
    requires Settles(base, closed, g)
    requires Origin in g && g[Origin] == 0 && closed <= g.Keys && Goal(base) !in closed
    requires forall y :: Adjacent(curr, y) && InBounds(base, y) && Open(At(base, y)) && y !in closed + {curr} ==> y in moves
    requires Untouchable(base, closed + {curr}, moves)
    requires curr in g && curr !in moves && r == RelaxFrom(moves, 0, curr, Goal(base), Scores(g, parent, rest))
    ensures Settles(base, closed + {curr}, r.g)
  {
    var s := Scores(g, parent, rest);
    ExpandedFrozen(base, g, closed, parent, rest, curr, moves, r);
    RelaxLowers(moves, 0, curr, Goal(base), s);
    RelaxMovesBound(moves, 0, curr, Goal(base), s);
    assert moves[0..] == moves;
    forall x, y | x in closed + {curr} && x in r.g && y !in closed + {curr} && Adjacent(x, y) && InBounds(base, y) && Open(At(base, y))
      ensures y in r.g && r.g[y] <= r.g[x] + 1
    {
      if x == curr {
        assert y in moves;
      } else {
        assert x in closed && y in g;
      }
    }
  }

  /** One expansion keeps the A* bookkeeping. */
  lemma ExpandKeepsABooks(base: array2<State>, heap: seq<Entry>, rest: seq<Entry>, e: Entry,
                          g: map<Pos, nat>, closed: set<Pos>, parent: map<Pos, Pos>, explored: nat,
                          curr: Pos, moves: seq<Pos>, r: Scores)
    requires ABooks(base, heap, g, closed, parent, explored)
    requires e in heap && e == Entry(e.f, e.g, curr) && curr != Goal(base) && multiset(heap) == multiset(rest) + multiset{e}
    requires FitMoves(base, closed + {curr}, curr, moves)
    requires curr in g && curr !in moves && r == RelaxFrom(moves, 0, curr, Goal(base), Scores(g, parent, rest))
    ensures ABooks(base, r.heap, r.g, closed + {curr}, r.parent, explored + 1)
  {
    assert AKeys(base, r.heap, r.g, closed + {curr}, r.parent, explored + 1) by {
      ExpandKeepsKeys(base, heap, rest, e, g, closed, parent, explored, curr, moves, r);
    }
    assert EntriesScored(r.heap, r.g, Goal(base)) by {
      ExpandKeepsEntryScores(heap, rest, e, g, parent, curr, moves, Goal(base), r);
    }
    assert OpenQueued(r.heap, r.g, closed + {curr}, Goal(base)) by {
      ExpandKeepsOpenEntries(heap, rest, e, g, closed, parent, curr, moves, Goal(base), r);
    }
    assert Links(base, closed + {curr}, r.parent, r.g) by {
      ExpandKeepsLinks(base, g, closed, parent, rest, curr, moves, r);
    }
    assert Settles(base, closed + {curr}, r.g) by {
      ExpandKeepsSettles(base, g, closed, parent, rest, curr, moves, r);
    }
  }

  /** Expanding a cell a second time (from a stale entry) changes no score,
      link or entry: its neighbours are settled already. */
  lemma ReexpandChangesNothing(base: array2<State>, g: map<Pos, nat>, closed: set<Pos>, parent: map<Pos, Pos>,
                               rest: seq<Entry>, curr: Pos, moves: seq<Pos>)
    requires Settles(base, closed, g)
    requires Origin in g && g[Origin] == 0 && Goal(base) !in closed
    requires curr in closed && curr in g
    requires forall k :: k in moves ==> Adjacent(curr, k) && InBounds(base, k) && Open(At(base, k))
    requires Untouchable(base, closed, moves)
    ensures RelaxFrom(moves, 0, curr, Goal(base), Scores(g, parent, rest)) == Scores(g, parent, rest)
  {
    assert moves[0..] == moves;
    forall y | y in moves ensures y in g && g[y] <= g[curr] + 1 {
      if y != Origin {
        assert y !in closed;
      }
    }
    RelaxSettled(moves, 0, curr, Goal(base), Scores(g, parent, rest));
  }

  /** When the goal is popped, the result meets the solver's contract: the
      path rebuilt from the parent links is a route from the start (excluded)
      to the goal over open cells, and is empty exactly when start and goal
      coincide, in which case nothing was expanded. */
  lemma AFoundOutcome(base: array2<State>, maze: array2<State>, heap: seq<Entry>, e: Entry, g: map<Pos, nat>,
                      closed: set<Pos>, parent: map<Pos, Pos>, explored: nat, path: seq<Pos>)
    requires Marked(base, maze, closed)
    requires ABooks(base, heap, g, closed, parent, explored)
    requires e in heap && e.cell == Goal(base)
    requires path == [] <==> Goal(base) !in parent
    requires forall i :: 0 <= i < |path| ==> path[i] in parent
    requires forall i :: 0 < i < |path| ==> parent[path[i]] == path[i - 1]
    requires path != [] ==> path[|path| - 1] == Goal(base) && parent[path[0]] !in parent
    ensures OnlyVisitedMarks(base, maze)
    ensures Origin == Goal(base) ==> explored == 0 && path == []
    ensures Origin != Goal(base) ==> explored >= 1 && path != [] && IsRoute(base, Origin, Goal(base), path) && Origin !in path
  {
    MarkedOnlyVisited(base, maze, closed, parent, g);
    if closed == {} {
      assert heap == [StartEntry(base)];
    }
    if path != [] {
      LinkedPathIsRoute(base, closed, g.Keys, parent, g, path);
    }
  }

  /** When the queue runs empty, the result meets the solver's contract:
      every scored cell was expanded, so the expanded cells hold every open
      neighbour of their members, and no route leads from the start to the
      goal. */
  lemma AExhaustedOutcome(base: array2<State>, maze: array2<State>, g: map<Pos, nat>, closed: set<Pos>,
                          parent: map<Pos, Pos>, explored: nat)
    requires Marked(base, maze, closed)
    requires ABooks(base, [], g, closed, parent, explored)
    ensures OnlyVisitedMarks(base, maze)
    ensures Origin != Goal(base) && explored >= 1
    ensures forall route :: !IsRoute(base, Origin, Goal(base), route)
  {
    MarkedOnlyVisited(base, maze, closed, parent, g);
    assert forall y :: y in g ==> y in closed;
    assert StepsCovered(base, closed, closed);
    CoveredNoRoute(base, closed);
  }

  /** An expansion either expands a new cell or, from a stale entry, leaves
      everything but the shortened queue as it was. */
  lemma ExpandShrinks(base: array2<State>, heap: seq<Entry>, rest: seq<Entry>, e: Entry,
                      g: map<Pos, nat>, closed: set<Pos>, parent: map<Pos, Pos>, explored: nat,
                      curr: Pos, moves: seq<Pos>, r: Scores)
    requires ABooks(base, heap, g, closed, parent, explored)
    requires e in heap && e == Entry(e.f, e.g, curr) && multiset(heap) == multiset(rest) + multiset{e}
    requires FitMoves(base, closed + {curr}, curr, moves)
    requires curr in g && curr !in moves && r == RelaxFrom(moves, 0, curr, Goal(base), Scores(g, parent, rest))
    ensures |Universe(base) - (closed + {curr})| < |Universe(base) - closed| ||
            (closed + {curr} == closed && |r.heap| < |heap|)
  {
    if curr in closed {
      assert closed + {curr} == closed;
      assert r.heap == rest by {
        ReexpandChangesNothing(base, g, closed, parent, rest, curr, moves);
      }
      assert |multiset(heap)| == |multiset(rest)| + 1;
    } else {
      assert curr in Universe(base);
      CloseOneCard(Universe(base), closed, curr);
    }
  }

  /** The expansion step of astar_solve: count curr, mark it Scan and then
      Visited on the copy, and relax its neighbours. e is the entry popped
      from heap, leaving rest; closed is the ghost set of expanded cells. A
      first expansion enlarges closed; a repeated one, from a stale entry,
      changes nothing but the count and the queue, which has shrunk. */
  method AExpand(base: array2<State>, maze: array2<State>, curr: Pos, e: Entry, rest: seq<Entry>,
                 gScore: map<Pos, nat>, parent: map<Pos, Pos>, explored: nat,
                 ghost heap: seq<Entry>, ghost closed: set<Pos>)
    returns (openSet': seq<Entry>, gScore': map<Pos, nat>, parent': map<Pos, Pos>, explored': nat,
             ghost closed': set<Pos>)
    requires maze != base && Marked(base, maze, closed)
    requires ABooks(base, heap, gScore, closed, parent, explored)
    requires e in heap && e == Entry(e.f, e.g, curr) && curr != Goal(base)
    requires multiset(heap) == multiset(rest) + multiset{e}
    modifies maze
    ensures Marked(base, maze, closed')
    ensures ABooks(base, openSet', gScore', closed', parent', explored')
    ensures closed' == closed + {curr} && explored' == explored + 1
    ensures Scores(gScore', parent', openSet') == RelaxFrom(Moves(maze, curr), 0, curr, Goal(base), Scores(gScore, parent, rest))
    ensures |Universe(base) - closed'| < |Universe(base) - closed| || (closed' == closed && |openSet'| < |heap|)
  {
    explored' := explored + 1;
    assert curr == Origin || InBounds(base, curr) by {
      assert curr in gScore && gScore.Keys <= Universe(base);
    }
    CloseCell(base, maze, curr, closed);
    closed' := closed + {curr};
    var moves := Moves(maze, curr);
    assert FitMoves(base, closed', curr, moves) by {
      MovesOnMarked(base, maze, closed', curr);
      MovesUnmarked(base, maze, closed', curr);
    }
    gScore', parent', openSet' := Relax(moves, curr, Goal(base), gScore, parent, rest);
    ghost var r := Scores(gScore', parent', openSet');
    assert ABooks(base, openSet', gScore', closed', parent', explored') by {
      ExpandKeepsABooks(base, heap, rest, e, gScore, closed, parent, explored, curr, moves, r);
    }
    ExpandShrinks(base, heap, rest, e, gScore, closed, parent, explored, curr, moves, r);
  }

  /** astar_solve: best-first search from (1, 1) to (h-2, w-2), always
      expanding the queue entry least in (f, g, cell) order. Returns the
      marked copy, the number of expansions and the path. */
  method AStarSolve(base: array2<State>) returns (maze: array2<State>, explored: nat, path: seq<Pos>, ghost closed: set<Pos>)
    requires base.Length0 > 0
    ensures maze != base
    ensures OnlyVisitedMarks(base, maze)
    ensures Marked(base, maze, closed) && Goal(base) !in closed
    ensures Origin == Goal(base) ==> explored == 0 && path == []
    ensures Origin != Goal(base) ==> explored >= 1
    ensures path != [] ==> IsRoute(base, Origin, Goal(base), path) && Origin !in path && Distinct(path)
    ensures path == [] && Origin != Goal(base) ==> forall route :: !IsRoute(base, Origin, Goal(base), route)
  {
    maze := CopyGrid(base);
    var start, end := Origin, Goal(base);
    var parent: map<Pos, Pos> := map[];
    explored := 0;
    var openSet := [Entry(Manhattan(start, end), 0, start)];
    var gScore := map[start := 0];
    closed := {};
    StartABooks(base, maze);
    while openSet != []
      invariant Marked(base, maze, closed)
      invariant ABooks(base, openSet, gScore, closed, parent, explored)
      decreases |Universe(base) - closed|, |openSet|
    {
      ghost var heap := openSet;
      var e, rest := PopMin(openSet);
      assert multiset(heap)[e] > 0;
      var curr := e.cell;
      if curr == end {
        LinksRanked(base, closed, parent, gScore);
        path := GetPath(parent, end, gScore);
        AFoundOutcome(base, maze, heap, e, gScore, closed, parent, explored, path);
        return;
      }
      openSet, gScore, parent, explored, closed :=
        AExpand(base, maze, curr, e, rest, gScore, parent, explored, heap, closed);
    }
    path := [];
    AExhaustedOutcome(base, maze, gScore, closed, parent, explored);
  }
}
