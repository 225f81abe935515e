/** bfs_solve and dfs_solve: the two uninformed searches. Both copy the maze,
    pop a cell from the frontier, stop when the popped cell is the goal, and
    otherwise count it, mark it Scan then Visited on the copy, and push every
    neighbour not yet discovered with a parent link. They differ only in which
    end of the frontier they pop. */
module Search {
  import opened Grid
  import opened Paths

  /** The elements of s as a set. */
  ghost function Elems(s: seq<Pos>): set<Pos> {
    set x | x in s
  }

  /** The cells of ms not in seen, in the order of ms. */
  function Unseen(ms: seq<Pos>, seen: set<Pos>): (r: seq<Pos>)
    ensures |r| <= |ms|
    ensures forall q :: q in r ==> q in ms && q !in seen
    decreases |ms|
  {
    if ms == [] then []
    else
      var last := ms[|ms| - 1];
      Unseen(ms[..|ms| - 1], seen) + (if last in seen then [] else [last])
  }

  /** Unseen keeps exactly the cells of ms outside seen, each once if ms has
      no repeats. */
  lemma {:induction false} UnseenExactly(ms: seq<Pos>, seen: set<Pos>)
    ensures forall q :: q in Unseen(ms, seen) <==> q in ms && q !in seen
    ensures Distinct(ms) ==> Distinct(Unseen(ms, seen))
    decreases |ms|
  {
    if ms != [] {
      var init, last := ms[..|ms| - 1], ms[|ms| - 1];
      assert ms == init + [last];
      UnseenExactly(init, seen);
      if Distinct(ms) {
        assert Distinct(init);
        assert last !in init;
        var u := Unseen(init, seen);
        var r := Unseen(ms, seen);
        forall i, j | 0 <= i < j < |r| ensures r[i] != r[j] {
          if j == |u| { assert r[i] in init; }
        }
      }
    }
  }

  /** The neighbour loop of both solvers: every cell of moves (the neighbours
      Moves yields) that is not yet visited becomes visited, gets curr as its
      parent, and is appended to the frontier, in the order of moves. */
  method PushUnseen(moves: seq<Pos>, curr: Pos, visited: set<Pos>, parent: map<Pos, Pos>, frontier: seq<Pos>)
    returns (visited': set<Pos>, parent': map<Pos, Pos>, frontier': seq<Pos>)
    requires Distinct(moves)
    ensures visited' == visited + Elems(moves)
    ensures frontier' == frontier + Unseen(moves, visited)
    ensures parent' == parent + LinkAll(Unseen(moves, visited), curr)
  {
    visited', parent', frontier' := visited, parent, frontier;
    ghost var added: seq<Pos> := [];
    var i := 0;
    while i < |moves|
      invariant 0 <= i <= |moves|
      invariant PushedSoFar(moves, i, curr, visited, parent, frontier, added, visited', parent', frontier')
    {
      var move := moves[i];
      ghost var v, p, f, a := visited', parent', frontier', added;
      if move !in visited' {
        visited' := visited' + {move};
        parent' := parent'[move := curr];
        frontier' := frontier' + [move];
        added := added + [move];
      }
      PushStep(moves, i, curr, visited, parent, frontier, a, v, p, f, added, visited', parent', frontier');
      i := i + 1;
    }
    assert moves[..|moves|] == moves;
  }

  /** PushUnseen's loop invariant after the first i moves: added holds the
      moves found new so far, and the outputs are the inputs extended by
      them. */
  ghost predicate PushedSoFar(moves: seq<Pos>, i: nat, curr: Pos, visited: set<Pos>, parent: map<Pos, Pos>,
                              frontier: seq<Pos>, added: seq<Pos>,
                              visited': set<Pos>, parent': map<Pos, Pos>, frontier': seq<Pos>)
  {
    i <= |moves| &&
    added == Unseen(moves[..i], visited) &&
    visited' == visited + Elems(moves[..i]) &&
    frontier' == frontier + added &&
    parent' == parent + LinkAll(added, curr)
  }

  /** One turn of PushUnseen's loop keeps its invariant: the next move is new
      exactly when it was not visited before the loop. */
  lemma PushStep(moves: seq<Pos>, i: nat, curr: Pos, visited: set<Pos>, parent: map<Pos, Pos>,
                 frontier: seq<Pos>, added: seq<Pos>, v: set<Pos>, p: map<Pos, Pos>, f: seq<Pos>,
                 added': seq<Pos>, v': set<Pos>, p': map<Pos, Pos>, f': seq<Pos>)
    requires i < |moves| && Distinct(moves)
    requires PushedSoFar(moves, i, curr, visited, parent, frontier, added, v, p, f)
    requires moves[i] in v ==> added' == added && v' == v && p' == p && f' == f
    requires moves[i] !in v ==>
      added' == added + [moves[i]] && v' == v + {moves[i]} && p' == p[moves[i] := curr] && f' == f + [moves[i]]
    ensures PushedSoFar(moves, i + 1, curr, visited, parent, frontier, added', v', p', f')
  {
    PrefixStep(moves, i, visited);
    LinkAllSnoc(parent, added, moves[i], curr);
  }

  /** Extending a prefix of a duplicate-free ms by its next element. */
  lemma PrefixStep(ms: seq<Pos>, i: nat, seen: set<Pos>)
    requires i < |ms| && Distinct(ms)
    ensures ms[i] !in Elems(ms[..i])
    ensures Elems(ms[..i + 1]) == Elems(ms[..i]) + {ms[i]}
    ensures Unseen(ms[..i + 1], seen) == Unseen(ms[..i], seen) + (if ms[i] in seen then [] else [ms[i]])
  {
    assert ms[..i + 1][..i] == ms[..i];
    assert ms[..i + 1] == ms[..i] + [ms[i]];
  }

  /** Every cell of ks linked to the parent p. */
  ghost function LinkAll(ks: seq<Pos>, p: Pos): map<Pos, Pos> {
    map k | k in ks :: p
  }

  lemma LinkAllSnoc(parent: map<Pos, Pos>, ks: seq<Pos>, k: Pos, p: Pos)
    ensures parent + LinkAll(ks + [k], p) == (parent + LinkAll(ks, p))[k := p]
  {
    var l := parent + LinkAll(ks + [k], p);
    var r := (parent + LinkAll(ks, p))[k := p];
    assert l.Keys == r.Keys;
    forall x | x in l ensures l[x] == r[x] {
      if x in ks + [k] { assert x == k || x in ks; }
    }
  }

  /** Every cell a search can ever hold: the in-bounds cells and the start. */
  ghost function Universe(base: array2<State>): set<Pos> {
    Cells(base) + {Origin}
  }

  /** The solver's copy equals the base maze except on the expanded cells
      other than start and goal, which read Visited. */
  ghost predicate Marked(base: array2<State>, maze: array2<State>, closed: set<Pos>)
    reads base, maze
  {
    maze.Length0 == base.Length0 && maze.Length1 == base.Length1 &&
    forall i, j :: 0 <= i < base.Length0 && 0 <= j < base.Length1 ==>
      maze[i, j] == if Pos(i, j) in closed && Pos(i, j) != Origin && Pos(i, j) != Goal(base)
                    then Visited else base[i, j]
  }

  /** Every parent link joins a cell to an expanded neighbour one level less
      deep, and leads onto an in-bounds cell that is Path or End in the base
      maze. */
  ghost predicate Links(base: array2<State>, closed: set<Pos>, parent: map<Pos, Pos>, depth: map<Pos, nat>)
    reads base
  {
    forall k :: k in parent ==>
      parent[k] in closed && k in depth && parent[k] in depth && depth[k] == depth[parent[k]] + 1 &&
      Adjacent(parent[k], k) && InBounds(base, k) && Open(At(base, k))
  }

  /** Every open neighbour of an expanded cell has been discovered. */
  ghost predicate StepsCovered(base: array2<State>, closed: set<Pos>, visited: set<Pos>)
    reads base
  {
    forall x, y :: x in closed && Adjacent(x, y) && InBounds(base, y) && Open(At(base, y)) ==> y in visited
  }

  /** The bookkeeping BFS and DFS keep between two pops. closed (ghost) is the
      set of expanded cells; depth (ghost) ranks the parent links. */
  ghost predicate Books(base: array2<State>, frontier: seq<Pos>, visited: set<Pos>, closed: set<Pos>,
                        parent: map<Pos, Pos>, depth: map<Pos, nat>, explored: nat)
    reads base
  {
    Origin in visited && closed <= visited && visited <= Universe(base) &&
    Goal(base) !in closed && explored == |closed| &&
    (closed == {} ==> visited == {Origin}) && (closed != {} ==> Origin in closed) &&
    (forall x :: x in frontier ==> x in visited && x !in closed) &&
    (forall x :: x in visited ==> x in closed || x in frontier) &&
    Distinct(frontier) &&
    parent.Keys == visited - {Origin} && depth.Keys == visited &&
    Links(base, closed, parent, depth) &&
    StepsCovered(base, closed, visited)
  }

  /** Taking curr out of a duplicate-free frontier pre + [curr] + post leaves
      pre + post: every other cell, each once. */
  lemma PopSplit(frontier: seq<Pos>, pre: seq<Pos>, curr: Pos, post: seq<Pos>, rest: seq<Pos>)
    requires frontier == pre + [curr] + post && rest == pre + post && Distinct(frontier)
    ensures curr in frontier && Distinct(rest)
    ensures forall x :: x in rest <==> x in frontier && x != curr
  {
    forall i, j | 0 <= i < j < |rest| ensures rest[i] != rest[j] {
      var i', j' := if i < |pre| then i else i + 1, if j < |pre| then j else j + 1;
      assert rest[i] == frontier[i'] && rest[j] == frontier[j'];
    }
    assert forall x :: x in rest <==> x in frontier && x != curr by {
      assert frontier[|pre|] == curr;
      forall x | x in frontier && x != curr ensures x in rest {
        var i :| 0 <= i < |frontier| && frontier[i] == x;
        assert x == rest[if i < |pre| then i else i - 1];
      }
      forall x | x in rest ensures x in frontier && x != curr {
        var i :| 0 <= i < |rest| && rest[i] == x;
        var i' := if i < |pre| then i else i + 1;
        assert frontier[i'] == x && i' != |pre|;
      }
    }
  }

  lemma SplitFront(s: seq<Pos>)
    requires s != []
    ensures s == [] + [s[0]] + s[1..] && s[1..] == [] + s[1..]
  {
  }

  lemma SplitBack(s: seq<Pos>)
    requires s != []
    ensures s == s[..|s| - 1] + [s[|s| - 1]] + [] && s[..|s| - 1] == s[..|s| - 1] + []
  {
  }

  /** On the marked copy, Moves yields open neighbours of the base maze, and
      every open neighbour of the base maze that is not expanded. */
  lemma MovesOnMarked(base: array2<State>, maze: array2<State>, closed: set<Pos>, curr: Pos)
    requires Marked(base, maze, closed)
    ensures forall k :: k in Moves(maze, curr) ==>
      Adjacent(curr, k) && InBounds(base, k) && Open(At(base, k))
    ensures forall y :: Adjacent(curr, y) && InBounds(base, y) && Open(At(base, y)) && y !in closed ==>
      y in Moves(maze, curr)
  {
    forall y | Adjacent(curr, y) && InBounds(base, y) && Open(At(base, y)) && y !in closed
      ensures y in Moves(maze, curr)
    {
      assert At(maze, y) == At(base, y);
    }
  }

  /** One expansion keeps the bookkeeping: pop curr (not the goal) from the
      frontier, mark it on the copy, and discover its neighbours moves. */
  lemma DiscoverKeepsBooks(base: array2<State>, frontier: seq<Pos>, rest: seq<Pos>, moves: seq<Pos>,
                           curr: Pos, visited: set<Pos>, closed: set<Pos>, parent: map<Pos, Pos>,
                           depth: map<Pos, nat>, explored: nat,
                           visited': set<Pos>, parent': map<Pos, Pos>, depth': map<Pos, nat>)
    requires Books(base, frontier, visited, closed, parent, depth, explored)
    requires curr in frontier && curr != Goal(base)
    requires (forall x :: x in rest <==> x in frontier && x != curr) && Distinct(rest)
    requires Distinct(moves)
    requires forall k :: k in moves ==> Adjacent(curr, k) && InBounds(base, k) && Open(At(base, k))
    requires forall y :: Adjacent(curr, y) && InBounds(base, y) && Open(At(base, y)) && y !in closed + {curr} ==>
      y in moves
    requires visited' == visited + Elems(moves)
    requires parent' == parent + LinkAll(Unseen(moves, visited), curr)
    requires depth' == map k | k in visited' :: if k in visited then depth[k] else depth[curr] + 1
    ensures Books(base, rest + Unseen(moves, visited), visited', closed + {curr}, parent', depth', explored + 1)
  {
    forall k | k in moves ensures k in Universe(base) {
      assert Pos(k.row, k.col) == k;
    }
    DiscoverKeepsFrontier(frontier, rest, moves, curr, visited, closed, visited');
    DiscoverKeepsLinks(base, moves, curr, visited, closed, parent, depth, visited', parent', depth');
    DiscoverKeepsCover(base, moves, curr, visited, closed, visited');
  }

  /** The frontier part of DiscoverKeepsBooks: after the pop and the pushes
      the frontier holds exactly the discovered cells not yet expanded, each
      once. */
  lemma DiscoverKeepsFrontier(frontier: seq<Pos>, rest: seq<Pos>, moves: seq<Pos>, curr: Pos,
                              visited: set<Pos>, closed: set<Pos>, visited': set<Pos>)
    requires forall x :: x in frontier ==> x in visited && x !in closed
    requires forall x :: x in visited ==> x in closed || x in frontier
    requires (forall x :: x in rest <==> x in frontier && x != curr) && Distinct(rest)
    requires curr in frontier && closed <= visited && Distinct(moves)
    requires visited' == visited + Elems(moves)
    ensures forall x :: x in rest + Unseen(moves, visited) ==> x in visited' && x !in closed + {curr}
    ensures forall x :: x in visited' ==> x in closed + {curr} || x in rest + Unseen(moves, visited)
    ensures Distinct(rest + Unseen(moves, visited))
  {
    UnseenExactly(moves, visited);
    DistinctConcat(rest, Unseen(moves, visited));
  }

  /** The coverage half of DiscoverKeepsBooks: every open neighbour of curr
      is expanded, curr itself, or now discovered. */
  lemma DiscoverKeepsCover(base: array2<State>, moves: seq<Pos>, curr: Pos, visited: set<Pos>,
                           closed: set<Pos>, visited': set<Pos>)
    requires StepsCovered(base, closed, visited) && closed <= visited && curr in visited
    requires forall y :: Adjacent(curr, y) && InBounds(base, y) && Open(At(base, y)) && y !in closed + {curr} ==>
      y in moves
    requires visited' == visited + Elems(moves)
    ensures StepsCovered(base, closed + {curr}, visited')
  {
  }

  /** The links half of DiscoverKeepsBooks: each newly discovered cell is an
      open neighbour of curr, linked to curr one level deeper. */
  lemma DiscoverKeepsLinks(base: array2<State>, moves: seq<Pos>, curr: Pos, visited: set<Pos>,
                           closed: set<Pos>, parent: map<Pos, Pos>, depth: map<Pos, nat>,
                           visited': set<Pos>, parent': map<Pos, Pos>, depth': map<Pos, nat>)
    requires Links(base, closed, parent, depth)
    requires parent.Keys == visited - {Origin} && depth.Keys == visited && Origin in visited && curr in visited
    requires forall k :: k in moves ==> Adjacent(curr, k) && InBounds(base, k) && Open(At(base, k))
    requires visited' == visited + Elems(moves)
    requires parent' == parent + LinkAll(Unseen(moves, visited), curr)
    requires depth' == map k | k in visited' :: if k in visited then depth[k] else depth[curr] + 1
    ensures parent'.Keys == visited' - {Origin} && depth'.Keys == visited'
    ensures Links(base, closed + {curr}, parent', depth')
  {
    var found := Unseen(moves, visited);
    UnseenExactly(moves, visited);
    assert parent'.Keys == visited' - {Origin};
    forall k | k in parent'
      ensures parent'[k] in closed + {curr} && k in depth' && parent'[k] in depth' &&
              depth'[k] == depth'[parent'[k]] + 1 &&
              Adjacent(parent'[k], k) && InBounds(base, k) && Open(At(base, k))
    {
    }
  }

  /** Parent links that step one level deeper are ranked, so get_path
      terminates on them. */
  lemma LinksRanked(base: array2<State>, closed: set<Pos>, parent: map<Pos, Pos>, depth: map<Pos, nat>)
    requires Links(base, closed, parent, depth)
    ensures Ranked(parent, depth)
  {
  }

  /** A path get_path rebuilt from parent links that join open cells to
      expanded neighbours is a route from the start (excluded) to the goal:
      the walk back ends at the only discovered cell without a parent entry,
      the start. */
  lemma LinkedPathIsRoute(base: array2<State>, closed: set<Pos>, visited: set<Pos>, parent: map<Pos, Pos>,
                          depth: map<Pos, nat>, path: seq<Pos>)
    requires Links(base, closed, parent, depth)
    requires parent.Keys == visited - {Origin} && closed <= visited
    requires path != []
    requires forall i :: 0 <= i < |path| ==> path[i] in parent
    requires forall i :: 0 < i < |path| ==> parent[path[i]] == path[i - 1]
    requires path[|path| - 1] == Goal(base) && parent[path[0]] !in parent
    ensures IsRoute(base, Origin, Goal(base), path) && Origin !in path
  {
    forall i | 0 < i < |path| ensures Adjacent(path[i - 1], path[i]) {
      assert path[i] in parent;
    }
  }

  /** A set of expanded cells that holds the start, not the goal, and every
      open neighbour of its members leaves no route to the goal. */
  lemma CoveredNoRoute(base: array2<State>, closed: set<Pos>)
    requires StepsCovered(base, closed, closed) && Origin in closed && Goal(base) !in closed
    ensures forall route :: !IsRoute(base, Origin, Goal(base), route)
  {
    forall route | IsRoute(base, Origin, Goal(base), route) ensures false {
      RouteStaysInside(base, closed, Origin, Goal(base), route);
    }
  }

  /** When the goal is popped, the result meets the solver's contract: the
      path rebuilt from the parent links is a route from the start (excluded)
      to the goal over open cells, and is empty exactly when start and goal
      coincide. */
  lemma FoundOutcome(base: array2<State>, maze: array2<State>, frontier: seq<Pos>, visited: set<Pos>,
                     closed: set<Pos>, parent: map<Pos, Pos>, depth: map<Pos, nat>, explored: nat, path: seq<Pos>)
    requires Marked(base, maze, closed)
    requires Books(base, frontier, visited, closed, parent, depth, explored)
    requires Goal(base) in frontier
    requires path == [] <==> Goal(base) !in parent
    requires forall i :: 0 <= i < |path| ==> path[i] in parent
    requires forall i :: 0 < i < |path| ==> parent[path[i]] == path[i - 1]
    requires path != [] ==> path[|path| - 1] == Goal(base) && parent[path[0]] !in parent
    requires Distinct(path)
    ensures OnlyVisitedMarks(base, maze)
    ensures explored <= |OpenCells(base)| + 1
    ensures Origin == Goal(base) ==> explored == 0 && path == []
    ensures Origin != Goal(base) ==> explored >= 1
    ensures path != [] ==> IsRoute(base, Origin, Goal(base), path) && Origin !in path && Distinct(path)
    ensures path == [] && Origin != Goal(base) ==> forall route :: !IsRoute(base, Origin, Goal(base), route)
  {
    ExploredBound(base, frontier, visited, closed, parent, depth, explored);
    MarkedOnlyVisited(base, maze, closed, parent, depth);
    if path != [] {
      LinkedPathIsRoute(base, closed, visited, parent, depth, path);
    }
  }

  /** When the frontier runs empty, the result meets the solver's contract:
      no route leads from the start to the goal. */
  lemma ExhaustedOutcome(base: array2<State>, maze: array2<State>, visited: set<Pos>, closed: set<Pos>,
                         parent: map<Pos, Pos>, depth: map<Pos, nat>, explored: nat)
    requires Marked(base, maze, closed)
    requires Books(base, [], visited, closed, parent, depth, explored)
    ensures OnlyVisitedMarks(base, maze)
    ensures explored <= |OpenCells(base)| + 1
    ensures Origin != Goal(base) && explored >= 1
    ensures forall route :: !IsRoute(base, Origin, Goal(base), route)
  {
    ExploredBound(base, [], visited, closed, parent, depth, explored);
    MarkedOnlyVisited(base, maze, closed, parent, depth);
    assert visited == closed;
    CoveredNoRoute(base, closed);
  }

  /** Every expanded cell is the start or an open cell, so the expansions
      number at most one more than the open cells. */
  lemma ExploredBound(base: array2<State>, frontier: seq<Pos>, visited: set<Pos>, closed: set<Pos>,
                      parent: map<Pos, Pos>, depth: map<Pos, nat>, explored: nat)
    requires Books(base, frontier, visited, closed, parent, depth, explored)
    ensures explored <= |OpenCells(base)| + 1
  {
    forall x | x in closed && x != Origin ensures x in OpenCells(base) {
      assert x in parent;
      assert Pos(x.row, x.col) == x;
    }
    SubsetCard(closed, OpenCells(base) + {Origin});
  }

  lemma CloseOneCard(u: set<Pos>, closed: set<Pos>, curr: Pos)
    requires curr in u && curr !in closed
    ensures |u - (closed + {curr})| < |u - closed|
  {
    assert u - (closed + {curr}) == (u - closed) - {curr};
  }

  /** The marks a solver leaves on its copy: each cell keeps its base state
      or, if it was Path or End and is neither start nor goal, reads Visited. */
  ghost predicate OnlyVisitedMarks(base: array2<State>, maze: array2<State>)
    reads base, maze
  {
    maze.Length0 == base.Length0 && maze.Length1 == base.Length1 &&
    forall i, j :: 0 <= i < base.Length0 && 0 <= j < base.Length1 ==>
      maze[i, j] == base[i, j] ||
      (maze[i, j] == Visited && Open(base[i, j]) && Pos(i, j) != Origin && Pos(i, j) != Goal(base))
  }

  /** The copy of a solver whose expanded cells other than the start all
      have parent links onto open cells carries only Visited marks. */
  lemma MarkedOnlyVisited(base: array2<State>, maze: array2<State>, closed: set<Pos>,
                          parent: map<Pos, Pos>, depth: map<Pos, nat>)
    requires Marked(base, maze, closed)
    requires Links(base, closed, parent, depth)
    requires forall x :: x in closed && x != Origin ==> x in parent
    ensures OnlyVisitedMarks(base, maze)
  {
    forall i, j | 0 <= i < base.Length0 && 0 <= j < base.Length1 && Pos(i, j) in closed && Pos(i, j) != Origin
      ensures Open(base[i, j])
    {
      assert Pos(i, j) in parent;
    }
  }

  /** Before the first pop: the copy is unmarked, only the start is
      discovered, and nothing is expanded. */
  lemma StartBooks(base: array2<State>, maze: array2<State>)
    requires maze.Length0 == base.Length0 && maze.Length1 == base.Length1
    requires forall i, j :: 0 <= i < base.Length0 && 0 <= j < base.Length1 ==> maze[i, j] == base[i, j]
    ensures Marked(base, maze, {})
    ensures Books(base, [Origin], {Origin}, {}, map[], map[Origin := 0], 0)
  {
  }

  /** Marks curr Scan and then Visited on the copy, as both solvers do when
      they expand it; the start and the end keep their own states. */
  method CloseCell(base: array2<State>, maze: array2<State>, curr: Pos, ghost closed: set<Pos>)
    requires maze != base && Marked(base, maze, closed)
    requires curr == Origin || curr == Goal(base) || InBounds(base, curr)
    modifies maze
    ensures Marked(base, maze, closed + {curr})
  {
    MarkCell(maze, curr, Scan, Origin, Goal(base));
    MarkCell(maze, curr, Visited, Origin, Goal(base));
  }

  /** The expansion step both solvers share: count curr, mark it Scan and
      then Visited on the copy, and push its undiscovered neighbours. rest is
      the frontier with curr popped; closed and depth are the ghost
      bookkeeping. */
  method Expand(base: array2<State>, maze: array2<State>, curr: Pos, rest: seq<Pos>, visited: set<Pos>,
                parent: map<Pos, Pos>, explored: nat,
                ghost frontier: seq<Pos>, ghost closed: set<Pos>, ghost depth: map<Pos, nat>)
    returns (rest': seq<Pos>, visited': set<Pos>, parent': map<Pos, Pos>, explored': nat,
             ghost closed': set<Pos>, ghost depth': map<Pos, nat>)
    requires maze != base && Marked(base, maze, closed)
    requires Books(base, frontier, visited, closed, parent, depth, explored)
    requires curr in frontier && curr != Goal(base)
    requires (forall x :: x in rest <==> x in frontier && x != curr) && Distinct(rest)
    modifies maze
    ensures Marked(base, maze, closed')
    ensures Books(base, rest', visited', closed', parent', depth', explored')
    ensures closed' == closed + {curr} && explored' == explored + 1
    ensures visited' == visited + Elems(Moves(maze, curr))
    ensures rest' == rest + Unseen(Moves(maze, curr), visited)
    ensures parent' == parent + LinkAll(Unseen(Moves(maze, curr), visited), curr)
    ensures |Universe(base) - closed'| < |Universe(base) - closed|
  {
    explored' := explored + 1;
    assert curr == Origin || curr in parent;
    CloseCell(base, maze, curr, closed);
    closed' := closed + {curr};
    CloseOneCard(Universe(base), closed, curr);
    MovesDistinct(maze, curr);
    MovesOnMarked(base, maze, closed', curr);
    visited', parent', rest' := PushUnseen(Moves(maze, curr), curr, visited, parent, rest);
    depth' := map k | k in visited' :: if k in visited then depth[k] else depth[curr] + 1;
    DiscoverKeepsBooks(base, frontier, rest, Moves(maze, curr), curr, visited, closed, parent, depth, explored,
                       visited', parent', depth');
  }

  /** bfs_solve: breadth-first search from (1, 1) to (h-2, w-2) with a FIFO
      queue. Returns the marked copy, the number of expansions and the path. */
  method BfsSolve(base: array2<State>) returns (maze: array2<State>, explored: nat, path: seq<Pos>, ghost closed: set<Pos>)
    requires base.Length0 > 0
    ensures maze != base
    ensures OnlyVisitedMarks(base, maze)
    ensures Marked(base, maze, closed) && explored == |closed| && Goal(base) !in closed
    ensures explored <= |OpenCells(base)| + 1
    ensures Origin == Goal(base) ==> explored == 0 && path == []
    ensures Origin != Goal(base) ==> explored >= 1
    ensures path != [] ==> IsRoute(base, Origin, Goal(base), path) && Origin !in path && Distinct(path)
    ensures path == [] && Origin != Goal(base) ==> forall route :: !IsRoute(base, Origin, Goal(base), route)
  {
    maze := CopyGrid(base);
    var start, end := Origin, Goal(base);
    var parent: map<Pos, Pos> := map[];
    explored := 0;
    var queue := [start];
    var visited := {start};
    closed := {};
    ghost var depth: map<Pos, nat> := map[start := 0];
    StartBooks(base, maze);
    while queue != []
      invariant Marked(base, maze, closed)
      invariant Books(base, queue, visited, closed, parent, depth, explored)
      decreases |Universe(base) - closed|
    {
      ghost var frontier := queue;
      var curr := queue[0];
      queue := queue[1..];
      SplitFront(frontier);
      PopSplit(frontier, [], curr, queue, queue);
      if curr == end {
        LinksRanked(base, closed, parent, depth);
        path := GetPath(parent, end, depth);
        FoundOutcome(base, maze, frontier, visited, closed, parent, depth, explored, path);
        return;
      }
      queue, visited, parent, explored, closed, depth :=
        Expand(base, maze, curr, queue, visited, parent, explored, frontier, closed, depth);
    }
    path := [];
    ExhaustedOutcome(base, maze, visited, closed, parent, depth, explored);
  }

  /** dfs_solve: depth-first search from (1, 1) to (h-2, w-2) with a LIFO
      stack. Returns the marked copy, the number of expansions and the path. */
  method DfsSolve(base: array2<State>) returns (maze: array2<State>, explored: nat, path: seq<Pos>, ghost closed: set<Pos>)
    requires base.Length0 > 0
    ensures maze != base
    ensures OnlyVisitedMarks(base, maze)
    ensures Marked(base, maze, closed) && explored == |closed| && Goal(base) !in closed
    ensures explored <= |OpenCells(base)| + 1
    ensures Origin == Goal(base) ==> explored == 0 && path == []
    ensures Origin != Goal(base) ==> explored >= 1
    ensures path != [] ==> IsRoute(base, Origin, Goal(base), path) && Origin !in path && Distinct(path)
    ensures path == [] && Origin != Goal(base) ==> forall route :: !IsRoute(base, Origin, Goal(base), route)
  {
    maze := CopyGrid(base);
    var start, end := Origin, Goal(base);
    var parent: map<Pos, Pos> := map[];
    explored := 0;
    var stack := [start];
    var visited := {start};
    closed := {};
    ghost var depth: map<Pos, nat> := map[start := 0];
    StartBooks(base, maze);
    while stack != []
      invariant Marked(base, maze, closed)
      invariant Books(base, stack, visited, closed, parent, depth, explored)
      decreases |Universe(base) - closed|
    {
      ghost var frontier := stack;
      var curr := stack[|stack| - 1];
      stack := stack[..|stack| - 1];
      SplitBack(frontier);
      PopSplit(frontier, stack, curr, [], stack);
      if curr == end {
        LinksRanked(base, closed, parent, depth);
        path := GetPath(parent, end, depth);
        FoundOutcome(base, maze, frontier, visited, closed, parent, depth, explored, path);
        return;
      }
      stack, visited, parent, explored, closed, depth :=
        Expand(base, maze, curr, stack, visited, parent, explored, frontier, closed, depth);
    }
    path := [];
    ExhaustedOutcome(base, maze, visited, closed, parent, depth, explored);
  }
}
