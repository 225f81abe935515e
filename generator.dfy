/** generate_maze: the recursive backtracker that carves a maze out of a
    grid of walls. Rooms are the cells with two odd coordinates; walk jumps
    two cells at a time from room to room and opens the wall cell between. */
module Generator {
  import opened Grid

  /** The four jumps walk tries from a room, before shuffling: east, west,
      south, north. */
  const Jumps: seq<(int, int)> := [(0, 2), (0, -2), (2, 0), (-2, 0)]

  /** random.shuffle, as an oracle: shuffle(p) is the order in which walk
      tries the jumps from p, any rearrangement of Jumps. One order per cell
      suffices because walk enters every cell at most once (Walk's contract). */
  ghost predicate Shuffles(shuffle: Pos -> seq<(int, int)>) {
    forall p :: multiset(shuffle(p)) == multiset(Jumps)
  }

  predicate Odd(x: int) {
    x % 2 == 1
  }

  /** The cells of an h-by-w grid walk may jump to: off the outer ring. */
  predicate Interior(h: int, w: int, q: Pos) {
    1 <= q.row < h - 1 && 1 <= q.col < w - 1
  }

  function Jump(p: Pos, d: (int, int)): Pos {
    Pos(p.row + d.0, p.col + d.1)
  }

  /** The cell between p and Jump(p, d) (Python's dr // 2, exact here). */
  function Between(p: Pos, d: (int, int)): Pos {
    Pos(p.row + d.0 / 2, p.col + d.1 / 2)
  }

  /** The grid's contents as a map from its in-bounds cells. */
  ghost function Snap(g: array2<State>): (m: map<Pos, State>)
    reads g
    ensures forall q :: q in m <==> InBounds(g, q)
  {
    map q | q in Cells(g) :: At(g, q)
  }

  lemma SnapAt(g: array2<State>, q: Pos)
    requires InBounds(g, q)
    ensures q in Snap(g) && Snap(g)[q] == At(g, q)
  {
  }

  /** grid[c] = v: writing one cell updates the snapshot at that cell only. */
  method Put(grid: array2<State>, c: Pos, v: State)
    requires InBounds(grid, c)
    modifies grid
    ensures Snap(grid) == old(Snap(grid))[c := v]
  {
    grid[c.row, c.col] := v;
  }

  /** The wall cells of a snapshot. */
  ghost function WallsOf(m: map<Pos, State>): set<Pos> {
    set q | q in m && m[q] == Wall
  }

  /** From m0 to m1 only cells with an odd coordinate changed, each to Path,
      and each interior or p itself. */
  ghost predicate Opens(m0: map<Pos, State>, m1: map<Pos, State>, h: int, w: int, p: Pos) {
    m1.Keys == m0.Keys &&
    forall q :: q in m1 ==>
      m1[q] == m0[q] || (m1[q] == Path && (Odd(q.row) || Odd(q.col)) && (Interior(h, w, q) || q == p))
  }

  /** Every interior cell one jump from p is no longer a wall: walk is done
      with p. */
  ghost predicate Finished(m: map<Pos, State>, h: int, w: int, p: Pos) {
    forall d :: d in Jumps && Interior(h, w, Jump(p, d)) ==> Jump(p, d) in m && m[Jump(p, d)] != Wall
  }

  /** Each cell of s is a room that was a wall in m0 and is Path in m1. */
  ghost predicate Entered(m0: map<Pos, State>, m1: map<Pos, State>, s: seq<Pos>) {
    forall q :: q in s ==> q in m0 && q in m1 && Odd(q.row) && Odd(q.col) && m0[q] == Wall && m1[q] == Path
  }

  ghost predicate AllFinished(m: map<Pos, State>, h: int, w: int, s: seq<Pos>) {
    forall q :: q in s ==> Finished(m, h, w, q)
  }

  /** Every room opened from m0 to m1 is in s. */
  ghost predicate RoomsIn(m0: map<Pos, State>, m1: map<Pos, State>, s: seq<Pos>) {
    forall q :: q in m0 && q in m1 && Odd(q.row) && Odd(q.col) && m0[q] == Wall && m1[q] != Wall ==> q in s
  }

  /** How walk reached an entered room: from the room entered up-th, by the
      jump dir, whose in-between cell it opened. */
  datatype Link = Link(up: nat, dir: (int, int))

  /** The passages of a walk: every room of s after the first was reached
      from an earlier room of s by a jump whose in-between cell is Path in
      m. The first link is unused. */
  ghost predicate Tree(m: map<Pos, State>, s: seq<Pos>, t: seq<Link>) {
    |t| == |s| &&
    forall i :: 0 < i < |s| ==>
      t[i].up < i && t[i].dir in Jumps && s[i] == Jump(s[t[i].up], t[i].dir) &&
      Between(s[t[i].up], t[i].dir) in m && m[Between(s[t[i].up], t[i].dir)] == Path
  }

  /** q is the in-between cell of one of the links of t, that is, a
      passage walk opened. */
  ghost predicate IsPassage(s: seq<Pos>, t: seq<Link>, q: Pos) {
    exists i :: 0 < i < |s| && i < |t| && t[i].up < |s| && q == Between(s[t[i].up], t[i].dir)
  }

  /** Every cell changed from m0 to m1 that is not a room is a passage of the
      tree: walk opens no other cell between rooms. */
  ghost predicate OnlyPassages(m0: map<Pos, State>, m1: map<Pos, State>, s: seq<Pos>, t: seq<Link>) {
    forall q :: q in m0 && q in m1 && m1[q] != m0[q] && !(Odd(q.row) && Odd(q.col)) ==> IsPassage(s, t, q)
  }

  /** What one call walk(p) achieves, from snapshot m0 to m1, entering the
      cells of entered in order over the passages tree. */
  ghost predicate Walked(m0: map<Pos, State>, m1: map<Pos, State>, h: int, w: int, p: Pos,
                         entered: seq<Pos>, tree: seq<Link>) {
    Opens(m0, m1, h, w, p) && entered != [] && entered[0] == p && Distinct(entered) &&
    Entered(m0, m1, entered) && AllFinished(m1, h, w, entered) && RoomsIn(m0, m1, entered) &&
    Tree(m1, entered, tree) && OnlyPassages(m0, m1, entered, tree)
  }

  /** The state of walk(p) after trying the first k jumps of dirs. */
  ghost predicate Walking(m0: map<Pos, State>, m: map<Pos, State>, h: int, w: int, p: Pos,
                          entered: seq<Pos>, tree: seq<Link>, dirs: seq<(int, int)>, k: nat)
  {
    k <= |dirs| &&
    Opens(m0, m, h, w, p) && entered != [] && entered[0] == p && Distinct(entered) &&
    Entered(m0, m, entered) && AllFinished(m, h, w, entered[1..]) && RoomsIn(m0, m, entered) &&
    Tree(m, entered, tree) && OnlyPassages(m0, m, entered, tree) &&
    forall j :: 0 <= j < k && Interior(h, w, Jump(p, dirs[j])) ==>
      Jump(p, dirs[j]) in m && m[Jump(p, dirs[j])] != Wall
  }

  /** Opening p, a wall room, starts the walk. */
  lemma WalkBegins(m0: map<Pos, State>, h: int, w: int, p: Pos, dirs: seq<(int, int)>)
    requires p in m0 && m0[p] == Wall && Odd(p.row) && Odd(p.col)
    ensures Walking(m0, m0[p := Path], h, w, p, [p], [Link(0, (0, 0))], dirs, 0)
  {
    var m := m0[p := Path];
    assert forall q :: q in m && Odd(q.row) && Odd(q.col) && m0[q] == Wall && m[q] != Wall ==> q == p;
    assert [p][1..] == [];
  }

  /** Opening the cell between p and a target room keeps the walk's frame,
      and strictly shrinks the walls since m0. */
  lemma OpenBetween(m0: map<Pos, State>, m: map<Pos, State>, h: int, w: int, p: Pos, d: (int, int))
    requires forall q :: q in m0 <==> 0 <= q.row < h && 0 <= q.col < w
    requires Opens(m0, m, h, w, p) && p in m0 && m0[p] == Wall && m[p] == Path
    requires Odd(p.row) && Odd(p.col) && d in Jumps && Interior(h, w, Jump(p, d))
    ensures Between(p, d) in m && !(Odd(Between(p, d).row) && Odd(Between(p, d).col))
    ensures Odd(Jump(p, d).row) && Odd(Jump(p, d).col)
    ensures Opens(m0, m[Between(p, d) := Path], h, w, p)
    ensures WallsOf(m[Between(p, d) := Path]) <= WallsOf(m)
  {
    var c := Between(p, d);
    assert d == (0, 2) || d == (0, -2) || d == (2, 0) || d == (-2, 0);
    assert Interior(h, w, c) && (Odd(c.row) != Odd(c.col));
  }

  /** Once p is open, the walls are strictly fewer than when walk(p) began. */
  lemma WallsShrink(m0: map<Pos, State>, m: map<Pos, State>, h: int, w: int, p: Pos)
    requires Opens(m0, m, h, w, p) && p in m0 && m0[p] == Wall && m[p] == Path
    ensures WallsOf(m) < WallsOf(m0)
  {
    assert p in WallsOf(m0) && p !in WallsOf(m);
  }

  /** A jump whose target is off the interior or already open needs no walk. */
  lemma WalkSkips(m0: map<Pos, State>, m: map<Pos, State>, h: int, w: int, p: Pos,
                  entered: seq<Pos>, tree: seq<Link>, dirs: seq<(int, int)>, k: nat)
    requires Walking(m0, m, h, w, p, entered, tree, dirs, k) && k < |dirs|
    requires !Interior(h, w, Jump(p, dirs[k])) || (Jump(p, dirs[k]) in m && m[Jump(p, dirs[k])] != Wall)
    ensures Walking(m0, m, h, w, p, entered, tree, dirs, k + 1)
  {
  }

  /** After the recursive walk from the target q of jump k, the walk of p
      has tried k + 1 jumps: q's walk only opened rooms, and entered rooms
      that were walls while those of p were already Path. */
  lemma WalkRecurses(m0: map<Pos, State>, m: map<Pos, State>, mb: map<Pos, State>, m1: map<Pos, State>,
                     h: int, w: int, p: Pos, entered: seq<Pos>, tree: seq<Link>, dirs: seq<(int, int)>, k: nat,
                     sub: seq<Pos>, subTree: seq<Link>)
    requires Walking(m0, m, h, w, p, entered, tree, dirs, k) && k < |dirs|
    requires Opens(m0, mb, h, w, p) && Between(p, dirs[k]) in m && mb == m[Between(p, dirs[k]) := Path]
    requires !(Odd(Between(p, dirs[k]).row) && Odd(Between(p, dirs[k]).col))
    requires Interior(h, w, Jump(p, dirs[k]))
    requires Walked(mb, m1, h, w, Jump(p, dirs[k]), sub, subTree)
    requires dirs[k] in Jumps
    ensures Walking(m0, m1, h, w, p, entered + sub, Graft(tree, subTree, dirs[k]), dirs, k + 1)
  {
    var q, c := Jump(p, dirs[k]), Between(p, dirs[k]);
    PathsStay(m, mb, m1, h, w, q, c);
    RecurseFrame(m0, m, mb, m1, h, w, p, q, c, entered, sub);
    RecurseTries(m, m1, h, w, p, entered, tree, dirs, k, sub, subTree);
    RecursePassages(m0, m, mb, m1, p, entered, tree, sub, subTree, dirs[k]);
  }

  /** The passages half of WalkRecurses: a cell changed since walk(p) began
      that is not a room was opened by p's walk before the jump, is the cell
      between p and q, or was opened by q's sub-walk; each is a passage of
      the grafted tree. */
  lemma RecursePassages(m0: map<Pos, State>, m: map<Pos, State>, mb: map<Pos, State>, m1: map<Pos, State>,
                        p: Pos, entered: seq<Pos>, tree: seq<Link>, sub: seq<Pos>, subTree: seq<Link>, d: (int, int))
    requires entered != [] && entered[0] == p && |tree| == |entered| && OnlyPassages(m0, m, entered, tree)
    requires m.Keys == m0.Keys && Between(p, d) in m && mb == m[Between(p, d) := Path] && m1.Keys == mb.Keys
    requires sub != [] && |subTree| == |sub| && OnlyPassages(mb, m1, sub, subTree)
    ensures OnlyPassages(m0, m1, entered + sub, Graft(tree, subTree, d))
  {
    var s, t, n := entered + sub, Graft(tree, subTree, d), |entered|;
    forall q | q in m0 && q in m1 && m1[q] != m0[q] && !(Odd(q.row) && Odd(q.col))
      ensures IsPassage(s, t, q)
    {
      if m1[q] != mb[q] {
        var j :| 0 < j < |sub| && j < |subTree| && subTree[j].up < |sub| && q == Between(sub[subTree[j].up], subTree[j].dir);
        assert t[n + j] == Link(subTree[j].up + n, subTree[j].dir) && s[subTree[j].up + n] == sub[subTree[j].up];
      } else if q == Between(p, d) {
        assert t[n] == Link(0, d) && s[0] == p;
      } else {
        var j :| 0 < j < |entered| && j < |tree| && tree[j].up < |entered| && q == Between(entered[tree[j].up], tree[j].dir);
        assert t[j] == tree[j] && s[tree[j].up] == entered[tree[j].up];
      }
    }
  }

  /** The sub-walk from q only turns cells into Path, so whatever was Path,
      or not a wall, before the cell c was opened stays so. */
  lemma PathsStay(m: map<Pos, State>, mb: map<Pos, State>, m1: map<Pos, State>, h: int, w: int, q: Pos, c: Pos)
    requires c in m && mb == m[c := Path] && Opens(mb, m1, h, w, q)
    ensures m1.Keys == m.Keys && c in m1 && m1[c] == Path
    ensures forall x :: x in m && m[x] == Path ==> m1[x] == Path
    ensures forall x :: x in m && m[x] != Wall ==> m1[x] != Wall
  {
    forall x | x in m ensures m[x] == Path ==> m1[x] == Path {
      assert m1[x] == mb[x] || m1[x] == Path;
    }
  }

  /** The frame half of WalkRecurses: the cells changed stay of the allowed
      kind, and the rooms entered by p's walk and by q's sub-walk are
      distinct, were walls, are Path, and are all the rooms opened. */
  lemma RecurseFrame(m0: map<Pos, State>, m: map<Pos, State>, mb: map<Pos, State>, m1: map<Pos, State>,
                     h: int, w: int, p: Pos, q: Pos, c: Pos, entered: seq<Pos>, sub: seq<Pos>)
    requires Opens(m0, mb, h, w, p) && Opens(mb, m1, h, w, q) && Interior(h, w, q)
    requires c in m && mb == m[c := Path] && !(Odd(c.row) && Odd(c.col))
    requires Distinct(entered) && Entered(m0, m, entered) && RoomsIn(m0, m, entered)
    requires Distinct(sub) && Entered(mb, m1, sub) && RoomsIn(mb, m1, sub)
    requires forall x :: x in m && m[x] == Path ==> m1[x] == Path
    ensures Opens(m0, m1, h, w, p)
    ensures Distinct(entered + sub) && Entered(m0, m1, entered + sub) && RoomsIn(m0, m1, entered + sub)
  {
    assert Opens(m0, m1, h, w, p) by {
      forall x | x in m1
        ensures m1[x] == m0[x] || (m1[x] == Path && (Odd(x.row) || Odd(x.col)) && (Interior(h, w, x) || x == p))
      {
        assert mb[x] == m0[x] || (mb[x] == Path && (Odd(x.row) || Odd(x.col)) && (Interior(h, w, x) || x == p));
        assert m1[x] == mb[x] || (m1[x] == Path && (Odd(x.row) || Odd(x.col)) && (Interior(h, w, x) || x == q));
      }
    }
    assert Distinct(entered + sub) by {
      assert forall x :: x in entered ==> x in m && m[x] == Path && Odd(x.row) && Odd(x.col);
      assert forall x :: x in sub ==> mb[x] == Wall;
      assert forall x :: x in entered ==> x !in sub;
      DistinctConcat(entered, sub);
    }
    assert Entered(m0, m1, entered + sub) by {
      forall x | x in entered + sub
        ensures x in m0 && x in m1 && Odd(x.row) && Odd(x.col) && m0[x] == Wall && m1[x] == Path
      {
        if x in entered {
          assert m[x] == Path;
        } else {
          assert x in sub && mb[x] == Wall && x in m;
        }
      }
    }
    assert RoomsIn(m0, m1, entered + sub) by {
      forall x | x in m0 && x in m1 && Odd(x.row) && Odd(x.col) && m0[x] == Wall && m1[x] != Wall
        ensures x in entered + sub
      {
        if mb[x] != Wall {
          assert m[x] != Wall;
        }
      }
    }
  }

  /** The progress half of WalkRecurses: the rooms p's walk had finished stay
      finished, the first k + 1 jumps from p now land on open rooms (the
      k-th on q), and the passages tree grows by q's. */
  lemma RecurseTries(m: map<Pos, State>, m1: map<Pos, State>, h: int, w: int, p: Pos,
                     entered: seq<Pos>, tree: seq<Link>, dirs: seq<(int, int)>, k: nat,
                     sub: seq<Pos>, subTree: seq<Link>)
    requires k < |dirs| && dirs[k] in Jumps && entered != [] && entered[0] == p
    requires AllFinished(m, h, w, entered[1..]) && Tree(m, entered, tree)
    requires forall j :: 0 <= j < k && Interior(h, w, Jump(p, dirs[j])) ==>
      Jump(p, dirs[j]) in m && m[Jump(p, dirs[j])] != Wall
    requires forall x :: x in m && m[x] == Path ==> x in m1 && m1[x] == Path
    requires forall x :: x in m && m[x] != Wall ==> x in m1 && m1[x] != Wall
    requires Between(p, dirs[k]) in m1 && m1[Between(p, dirs[k])] == Path
    requires Tree(m1, sub, subTree) && sub != [] && sub[0] == Jump(p, dirs[k])
    requires sub[0] in m1 && m1[sub[0]] == Path && AllFinished(m1, h, w, sub)
    ensures AllFinished(m1, h, w, (entered + sub)[1..]) && Tree(m1, entered + sub, Graft(tree, subTree, dirs[k]))
    ensures forall j :: 0 <= j < k + 1 && Interior(h, w, Jump(p, dirs[j])) ==>
      Jump(p, dirs[j]) in m1 && m1[Jump(p, dirs[j])] != Wall
  {
    TreeGraft(m, m1, p, entered, tree, sub, subTree, dirs[k]);
    assert AllFinished(m1, h, w, (entered + sub)[1..]) by {
      assert (entered + sub)[1..] == entered[1..] + sub;
      forall x, d | x in entered[1..] && d in Jumps && Interior(h, w, Jump(x, d))
        ensures Jump(x, d) in m1 && m1[Jump(x, d)] != Wall
      {
        assert Finished(m, h, w, x);
      }
    }
  }

  /** The passages after a recursive walk: the walk's own tree, then the jump
      d from the first room to the sub-walk's first room, then the sub-walk's
      links renumbered past the rooms already entered. */
  ghost function Graft(t: seq<Link>, st: seq<Link>, d: (int, int)): (r: seq<Link>)
    requires st != []
    ensures |r| == |t| + |st|
  {
    t + [Link(0, d)] + seq(|st| - 1, i requires 0 <= i < |st| - 1 => Link(st[i + 1].up + |t|, st[i + 1].dir))
  }

  /** Passages that stay Path join the sub-walk's tree onto the walk's at the
      first room, through the opened cell between it and the sub-walk's
      first room. */
  lemma TreeGraft(m: map<Pos, State>, m1: map<Pos, State>, p: Pos, entered: seq<Pos>, tree: seq<Link>,
                  sub: seq<Pos>, subTree: seq<Link>, d: (int, int))
    requires Tree(m, entered, tree) && entered != [] && entered[0] == p
    requires forall x :: x in m && m[x] == Path ==> x in m1 && m1[x] == Path
    requires d in Jumps && Between(p, d) in m1 && m1[Between(p, d)] == Path
    requires Tree(m1, sub, subTree) && sub != [] && sub[0] == Jump(p, d)
    ensures Tree(m1, entered + sub, Graft(tree, subTree, d))
  {
    var s, t, n := entered + sub, Graft(tree, subTree, d), |entered|;
    forall i | 0 < i < |s|
      ensures t[i].up < i && t[i].dir in Jumps && s[i] == Jump(s[t[i].up], t[i].dir) &&
              Between(s[t[i].up], t[i].dir) in m1 && m1[Between(s[t[i].up], t[i].dir)] == Path
    {
      if i < n {
        assert t[i] == tree[i] && s[i] == entered[i] && s[tree[i].up] == entered[tree[i].up];
      } else if i == n {
        assert t[i] == Link(0, d) && s[i] == sub[0] && s[0] == p;
      } else {
        var j := i - n;
        assert t[i] == Link(subTree[j].up + n, subTree[j].dir);
        assert s[i] == sub[j] && s[subTree[j].up + n] == sub[subTree[j].up];
      }
    }
  }

  /** Once every jump of a shuffled order is tried, p is finished too. */
  lemma WalkEnds(m0: map<Pos, State>, m: map<Pos, State>, h: int, w: int, p: Pos,
                 entered: seq<Pos>, tree: seq<Link>, dirs: seq<(int, int)>)
    requires Walking(m0, m, h, w, p, entered, tree, dirs, |dirs|) && multiset(dirs) == multiset(Jumps)
    ensures Walked(m0, m, h, w, p, entered, tree)
  {
    forall d | d in Jumps && Interior(h, w, Jump(p, d)) ensures Jump(p, d) in m && m[Jump(p, d)] != Wall {
      assert d in multiset(dirs);
    }
    assert entered == [p] + entered[1..];
  }

  /** walk(r, c): opens p, then tries the jumps from p in the shuffled order
      (Carve). Returns the cells entered, in order: each is a room entered
      once, while it is a wall, and is finished when walk returns; every room
      walk opens is entered; every cell walk changes becomes Path, has an odd
      coordinate, and is interior or p itself. */
  method Walk(grid: array2<State>, p: Pos, shuffle: Pos -> seq<(int, int)>)
    returns (ghost entered: seq<Pos>, ghost tree: seq<Link>)
    requires Shuffles(shuffle)
    requires InBounds(grid, p) && Odd(p.row) && Odd(p.col) && At(grid, p) == Wall
    modifies grid
    decreases WallsOf(Snap(grid)), 0
    ensures Walked(old(Snap(grid)), Snap(grid), grid.Length0, grid.Length1, p, entered, tree)
  {
    ghost var m0 := Snap(grid);
    SnapAt(grid, p);
    var h, w := grid.Length0, grid.Length1;
    Put(grid, p, Path);
    entered, tree := [p], [Link(0, (0, 0))];
    var dirs := shuffle(p);
    WalkBegins(m0, h, w, p, dirs);
    var k := 0;
    while k < |dirs|
      invariant Walking(m0, Snap(grid), h, w, p, entered, tree, dirs, k)
    {
      assert dirs[k] in multiset(Jumps);
      WallsShrink(m0, Snap(grid), h, w, p);
      entered, tree := Carve(grid, p, dirs[k], shuffle, m0, entered, tree, dirs, k);
      k := k + 1;
    }
    WalkEnds(m0, Snap(grid), h, w, p, entered, tree, dirs);
  }

  /** One pass of walk's loop, the jump d = dirs[k] from p: if its target is
      interior and still a wall, opens the cell between, walks on from the
      target and records that passage in the tree (Descend); otherwise
      changes nothing. */
  method Carve(grid: array2<State>, p: Pos, d: (int, int), shuffle: Pos -> seq<(int, int)>,
               ghost m0: map<Pos, State>, ghost entered: seq<Pos>, ghost tree: seq<Link>,
               ghost dirs: seq<(int, int)>, ghost k: nat)
    returns (ghost entered': seq<Pos>, ghost tree': seq<Link>)
    requires Shuffles(shuffle)
    requires InBounds(grid, p) && Odd(p.row) && Odd(p.col) && p in m0 && m0[p] == Wall
    requires k < |dirs| && d == dirs[k] && d in Jumps
    requires Walking(m0, Snap(grid), grid.Length0, grid.Length1, p, entered, tree, dirs, k)
    modifies grid
    decreases WallsOf(Snap(grid)), 2
    ensures Walking(m0, Snap(grid), grid.Length0, grid.Length1, p, entered', tree', dirs, k + 1)
    ensures Interior(grid.Length0, grid.Length1, Jump(p, d)) && old(At(grid, Jump(p, d))) == Wall ==>
      |entered'| > |entered| && entered'[|entered|] == Jump(p, d) && tree'[|entered|] == Link(0, d) &&
      Between(p, d) in Snap(grid) && Snap(grid)[Between(p, d)] == Path
    ensures !(Interior(grid.Length0, grid.Length1, Jump(p, d)) && old(At(grid, Jump(p, d))) == Wall) ==>
      entered' == entered && tree' == tree && Snap(grid) == old(Snap(grid))
  {
    var h, w := grid.Length0, grid.Length1;
    var (dr, dc) := d;
    var q := Jump(p, (dr, dc));
    if 1 <= q.row < h - 1 && 1 <= q.col < w - 1 && grid[q.row, q.col] == Wall {
      entered', tree' := Descend(grid, p, d, shuffle, m0, entered, tree, dirs, k);
    } else {
      if 1 <= q.row < h - 1 && 1 <= q.col < w - 1 {
        SnapAt(grid, q);
      }
      WalkSkips(m0, Snap(grid), h, w, p, entered, tree, dirs, k);
      entered', tree' := entered, tree;
    }
  }

  /** The taken jump d = dirs[k] from p to an interior wall room q:
      grid[p + d/2] = PATH, then walk(q); q becomes the next entered room,
      reached from p through the opened cell. */
  method Descend(grid: array2<State>, p: Pos, d: (int, int), shuffle: Pos -> seq<(int, int)>,
                 ghost m0: map<Pos, State>, ghost entered: seq<Pos>, ghost tree: seq<Link>,
                 ghost dirs: seq<(int, int)>, ghost k: nat)
    returns (ghost entered': seq<Pos>, ghost tree': seq<Link>)
    requires Shuffles(shuffle)
    requires InBounds(grid, p) && Odd(p.row) && Odd(p.col) && p in m0 && m0[p] == Wall
    requires k < |dirs| && d == dirs[k] && d in Jumps
    requires Walking(m0, Snap(grid), grid.Length0, grid.Length1, p, entered, tree, dirs, k)
    requires Interior(grid.Length0, grid.Length1, Jump(p, d)) && At(grid, Jump(p, d)) == Wall
    modifies grid
    decreases WallsOf(Snap(grid)), 1
    ensures Walking(m0, Snap(grid), grid.Length0, grid.Length1, p, entered', tree', dirs, k + 1)
    ensures |entered'| > |entered| && entered'[|entered|] == Jump(p, d) && tree'[|entered|] == Link(0, d) &&
      Between(p, d) in Snap(grid) && Snap(grid)[Between(p, d)] == Path
  {
    var h, w := grid.Length0, grid.Length1;
    var q := Jump(p, d);
    ghost var m := Snap(grid);
    var mid := Between(p, d);
    assert mid in m && !(Odd(mid.row) && Odd(mid.col)) && Odd(q.row) && Odd(q.col) &&
           Opens(m0, m[mid := Path], h, w, p) && WallsOf(m[mid := Path]) <= WallsOf(m) by {
      OpenBetween(m0, m, h, w, p, d);
    }
    Put(grid, mid, Path);
    ghost var mb := Snap(grid);
    var sub, subTree := Walk(grid, q, shuffle);
    entered', tree' := entered + sub, Graft(tree, subTree, d);
    ghost var m1 := Snap(grid);
    assert Walking(m0, m1, h, w, p, entered', tree', dirs, k + 1) by {
      WalkRecurses(m0, m, mb, m1, h, w, p, entered, tree, dirs, k, sub, subTree);
    }
    assert entered'[|entered|] == q && tree'[|entered|] == Link(0, d) && mid in m1 && m1[mid] == Path by {
      assert Opens(mb, m1, h, w, q) && sub[0] == q;
    }
  }

  /** If the start room is open and every open room is finished, every
      interior room is open: each is one jump from the room west of it or,
      in column 1, from the room north of it. */
  lemma {:induction false} AllRoomsOpen(m: map<Pos, State>, h: int, w: int, r: Pos)
    requires 3 <= h && 3 <= w && Origin in m && m[Origin] != Wall
    requires forall q :: q in m && Odd(q.row) && Odd(q.col) && m[q] != Wall ==> Finished(m, h, w, q)
    requires Interior(h, w, r) && Odd(r.row) && Odd(r.col)
    ensures r in m && m[r] != Wall
    decreases r.row + r.col
  {
    if r.col >= 3 {
      var x := Pos(r.row, r.col - 2);
      AllRoomsOpen(m, h, w, x);
      assert Jump(x, (0, 2)) == r && (0, 2) in Jumps;
    } else if r.row >= 3 {
      var x := Pos(r.row - 2, r.col);
      AllRoomsOpen(m, h, w, x);
      assert Jump(x, (2, 0)) == r && (2, 0) in Jumps;
    }
  }

  /** The grid walk(1, 1) leaves in an h-by-w grid of walls: only Wall and
      Path cells, the outer ring walls except (1, 1), cells with two even
      coordinates walls, every interior room entered and open, and only
      rooms entered: interior ones, or (1, 1) itself. */
  ghost predicate Carved(m: map<Pos, State>, h: int, w: int, entered: seq<Pos>) {
    (forall q :: q in m ==> m[q] == Wall || m[q] == Path) &&
    (forall q :: q in m && (q.row == 0 || q.row == h - 1 || q.col == 0 || q.col == w - 1) && q != Origin ==>
       m[q] == Wall) &&
    (forall q :: q in m && !Odd(q.row) && !Odd(q.col) ==> m[q] == Wall) &&
    (forall q :: Interior(h, w, q) && Odd(q.row) && Odd(q.col) ==> q in entered && q in m && m[q] != Wall) &&
    entered != [] && entered[0] == Origin && Distinct(entered) &&
    (forall q :: q in entered ==>
      q in m && m[q] == Path && Odd(q.row) && Odd(q.col) && (Interior(h, w, q) || q == Origin))
  }

  lemma WalkCarves(m0: map<Pos, State>, m1: map<Pos, State>, h: int, w: int, entered: seq<Pos>, tree: seq<Link>)
    requires forall q :: q in m0 ==> m0[q] == Wall
    requires Walked(m0, m1, h, w, Origin, entered, tree)
    requires forall q :: q in m1 <==> 0 <= q.row < h && 0 <= q.col < w
    ensures Carved(m1, h, w, entered)
  {
    if 3 <= h && 3 <= w {
      forall r | Interior(h, w, r) && Odd(r.row) && Odd(r.col) ensures r in entered && r in m1 && m1[r] != Wall {
        AllRoomsOpen(m1, h, w, r);
      }
    }
  }

  /** Each jump of Jumps crosses its in-between cell in two unit steps. */
  lemma JumpSteps(p: Pos, d: (int, int))
    requires d in Jumps
    ensures Adjacent(p, Between(p, d)) && Adjacent(Between(p, d), Jump(p, d))
  {
    assert d == (0, 2) || d == (0, -2) || d == (2, 0) || d == (-2, 0);
  }

  /** c leads from `from` (excluded) to `to` in unit steps over cells of m
      that are not walls. */
  ghost predicate ChainIn(m: map<Pos, State>, from: Pos, to: Pos, c: seq<Pos>) {
    Steps(from, to, c) && forall i :: 0 <= i < |c| ==> c[i] in m && m[c[i]] != Wall
  }

  /** Following the passages tree back from the k-th entered room gives a
      chain of open cells to it from the first. */
  lemma {:induction false} TreeChain(m: map<Pos, State>, s: seq<Pos>, t: seq<Link>, k: nat) returns (c: seq<Pos>)
    requires Tree(m, s, t) && 0 < k < |s|
    requires forall q :: q in s ==> q in m && m[q] == Path
    ensures ChainIn(m, s[0], s[k], c)
    decreases k
  {
    var j, d := t[k].up, t[k].dir;
    var mid := Between(s[j], d);
    JumpSteps(s[j], d);
    if j == 0 {
      c := [mid, s[k]];
    } else {
      var c0 := TreeChain(m, s, t, j);
      c := c0 + [mid, s[k]];
      assert c[|c0| - 1] == s[j];
    }
  }

  /** A chain that comes back to its starting cell can be cut after its last
      return, so it never passes through that cell. */
  lemma {:induction false} StripStart(m: map<Pos, State>, from: Pos, to: Pos, c: seq<Pos>) returns (c': seq<Pos>)
    requires ChainIn(m, from, to, c) && to != from
    ensures ChainIn(m, from, to, c') && from !in c'
    decreases |c|
  {
    if from in c {
      var i :| 0 <= i < |c| && c[i] == from;
      assert i < |c| - 1;
      var rest := c[i + 1..];
      assert Adjacent(c[i], c[i + 1]);
      assert forall x :: 0 < x < |rest| ==> Adjacent(rest[x - 1], rest[x]) by {
        forall x | 0 < x < |rest| ensures Adjacent(rest[x - 1], rest[x]) {
          assert rest[x - 1] == c[i + x] && rest[x] == c[i + 1 + x];
        }
      }
      c' := StripStart(m, from, to, rest);
    } else {
      c' := c;
    }
  }

  /** c leads from `from` (excluded) to `to` in unit steps over cells of the
      maze that are not walls. */
  ghost predicate Passage(maze: array2<State>, from: Pos, to: Pos, c: seq<Pos>)
    reads maze
  {
    Steps(from, to, c) && forall i :: 0 <= i < |c| ==> InBounds(maze, c[i]) && At(maze, c[i]) != Wall
  }

  /** In the stamped maze every interior room other than (1, 1)
      is reached from (1, 1) through cells that are not walls and, when h and
      w are odd and the end is not the start, a route over Path and End cells
      leads from the start to the end. */
  lemma Connected(maze: array2<State>, m: map<Pos, State>, h: int, w: int, entered: seq<Pos>, tree: seq<Link>)
    requires 2 <= h && 2 <= w && maze.Length0 == h && maze.Length1 == w
    requires forall q :: q in m <==> 0 <= q.row < h && 0 <= q.col < w
    requires Carved(m, h, w, entered) && Tree(m, entered, tree)
    requires forall i, j :: 0 <= i < h && 0 <= j < w ==>
      Pos(i, j) in m && maze[i, j] == m[Origin := Start][Pos(h - 2, w - 2) := End][Pos(i, j)]
    ensures forall q :: Interior(h, w, q) && Odd(q.row) && Odd(q.col) && q != Origin ==>
      exists c :: Passage(maze, Origin, q, c)
    ensures Odd(h) && Odd(w) && Goal(maze) != Origin ==> exists r :: IsRoute(maze, Origin, Goal(maze), r)
  {
    RoomsReachable(maze, m, h, w, entered, tree);
    EndReachable(maze, m, h, w, entered, tree);
  }

  /** The connectivity half of Connected: each interior room is reached
      through cells that are not walls. */
  lemma RoomsReachable(maze: array2<State>, m: map<Pos, State>, h: int, w: int, entered: seq<Pos>, tree: seq<Link>)
    requires 2 <= h && 2 <= w && maze.Length0 == h && maze.Length1 == w
    requires forall q :: q in m <==> 0 <= q.row < h && 0 <= q.col < w
    requires Carved(m, h, w, entered) && Tree(m, entered, tree)
    requires forall i, j :: 0 <= i < h && 0 <= j < w ==>
      Pos(i, j) in m && maze[i, j] == m[Origin := Start][Pos(h - 2, w - 2) := End][Pos(i, j)]
    ensures forall q :: Interior(h, w, q) && Odd(q.row) && Odd(q.col) && q != Origin ==>
      exists c :: Passage(maze, Origin, q, c)
  {
    forall q | Interior(h, w, q) && Odd(q.row) && Odd(q.col) && q != Origin
      ensures exists c :: Passage(maze, Origin, q, c)
    {
      var c := RoomChain(m, h, w, entered, tree, q);
      assert Passage(maze, Origin, q, c) by {
        forall i | 0 <= i < |c| ensures InBounds(maze, c[i]) && At(maze, c[i]) != Wall {
          assert maze[c[i].row, c[i].col] == m[Origin := Start][Pos(h - 2, w - 2) := End][Pos(c[i].row, c[i].col)];
        }
      }
    }
  }

  /** The solvable half of Connected: with odd h and w the end is a room, and
      cutting the chain to it after its last visit to the start gives a
      route over Path and End cells. */
  lemma EndReachable(maze: array2<State>, m: map<Pos, State>, h: int, w: int, entered: seq<Pos>, tree: seq<Link>)
    requires 2 <= h && 2 <= w && maze.Length0 == h && maze.Length1 == w
    requires forall q :: q in m <==> 0 <= q.row < h && 0 <= q.col < w
    requires Carved(m, h, w, entered) && Tree(m, entered, tree)
    requires forall i, j :: 0 <= i < h && 0 <= j < w ==>
      Pos(i, j) in m && maze[i, j] == m[Origin := Start][Pos(h - 2, w - 2) := End][Pos(i, j)]
    ensures Odd(h) && Odd(w) && Goal(maze) != Origin ==> exists r :: IsRoute(maze, Origin, Goal(maze), r)
  {
    var g := Pos(h - 2, w - 2);
    if Odd(h) && Odd(w) && g != Origin {
      var c := RoomChain(m, h, w, entered, tree, g);
      var r := StripStart(m, Origin, g, c);
      assert IsRoute(maze, Origin, g, r) by {
        forall i | 0 <= i < |r| ensures InBounds(maze, r[i]) && Open(At(maze, r[i])) {
          assert maze[r[i].row, r[i].col] == m[Origin := Start][g := End][Pos(r[i].row, r[i].col)];
        }
      }
    }
  }

  /** Every interior room other than (1, 1) is reached from (1, 1) by a
      chain of open cells of the carved grid. */
  lemma RoomChain(m: map<Pos, State>, h: int, w: int, entered: seq<Pos>, tree: seq<Link>, q: Pos) returns (c: seq<Pos>)
    requires Carved(m, h, w, entered) && Tree(m, entered, tree)
    requires Interior(h, w, q) && Odd(q.row) && Odd(q.col) && q != Origin
    ensures ChainIn(m, Origin, q, c)
  {
    var k :| 0 <= k < |entered| && entered[k] == q;
    c := TreeChain(m, entered, tree, k);
  }

  /** The two rooms a jump joins flank its in-between cell, along a row when
      the cell's row is odd and along a column when its column is odd. */
  lemma Flanks(a: Pos, d: (int, int))
    requires Odd(a.row) && Odd(a.col) && d in Jumps
    ensures var c := Between(a, d);
      (Odd(c.row) && !Odd(c.col) && {a, Jump(a, d)} == {Pos(c.row, c.col - 1), Pos(c.row, c.col + 1)}) ||
      (Odd(c.col) && !Odd(c.row) && {a, Jump(a, d)} == {Pos(c.row - 1, c.col), Pos(c.row + 1, c.col)})
  {
    assert d == (0, 2) || d == (0, -2) || d == (2, 0) || d == (-2, 0);
  }

  /** Two links of a tree over distinct rooms open different cells: a cell
      between rooms determines the two rooms it joins, and a link joins its
      room to an earlier one. */
  lemma PassagesDistinct(s: seq<Pos>, t: seq<Link>, i: int, j: int)
    requires Distinct(s) && |t| == |s| && 0 < i < j < |s|
    requires forall q :: q in s ==> Odd(q.row) && Odd(q.col)
    requires t[i].up < i && t[i].dir in Jumps && s[i] == Jump(s[t[i].up], t[i].dir)
    requires t[j].up < j && t[j].dir in Jumps && s[j] == Jump(s[t[j].up], t[j].dir)
    ensures Between(s[t[i].up], t[i].dir) != Between(s[t[j].up], t[j].dir)
  {
    var a, b := s[t[i].up], s[t[j].up];
    Flanks(a, t[i].dir);
    Flanks(b, t[j].dir);
  }

  /** The passages of a generated maze form a spanning tree of the rooms
      walk entered: each room after the first hangs, by one jump, on an
      earlier room; distinct links open distinct cells; and the open cells
      that are not rooms are exactly those passages (bar the END stamp).
      So rooms and passages number n and n - 1. */
  ghost predicate Perfect(maze: array2<State>, h: int, w: int, entered: seq<Pos>, tree: seq<Link>)
    reads maze
  {
    maze.Length0 == h && maze.Length1 == w && |tree| == |entered| &&
    (forall i :: 0 < i < |entered| ==>
      tree[i].up < i && tree[i].dir in Jumps && entered[i] == Jump(entered[tree[i].up], tree[i].dir)) &&
    (forall i, j :: 0 < i < j < |entered| ==>
      Between(entered[tree[i].up], tree[i].dir) != Between(entered[tree[j].up], tree[j].dir)) &&
    (forall i, j :: 0 <= i < h && 0 <= j < w && !(Odd(i) && Odd(j)) && Pos(i, j) != Pos(h - 2, w - 2) ==>
      (maze[i, j] != Wall <==> IsPassage(entered, tree, Pos(i, j))))
  }

  /** The stamped grid of walk(1, 1) is a perfect maze. */
  lemma StampedPerfect(maze: array2<State>, m0: map<Pos, State>, m: map<Pos, State>, h: int, w: int,
                       entered: seq<Pos>, tree: seq<Link>)
    requires maze.Length0 == h && maze.Length1 == w
    requires forall q :: q in m0 ==> m0[q] == Wall
    requires m.Keys == m0.Keys && (forall q :: q in m <==> 0 <= q.row < h && 0 <= q.col < w)
    requires Carved(m, h, w, entered) && Tree(m, entered, tree) && OnlyPassages(m0, m, entered, tree)
    requires forall i, j :: 0 <= i < h && 0 <= j < w ==>
      Pos(i, j) in m && maze[i, j] == m[Origin := Start][Pos(h - 2, w - 2) := End][Pos(i, j)]
    ensures Perfect(maze, h, w, entered, tree)
  {
    forall i, j | 0 < i < j < |entered|
      ensures Between(entered[tree[i].up], tree[i].dir) != Between(entered[tree[j].up], tree[j].dir)
    {
      PassagesDistinct(entered, tree, i, j);
    }
    forall i, j | 0 <= i < h && 0 <= j < w && !(Odd(i) && Odd(j)) && Pos(i, j) != Pos(h - 2, w - 2)
      ensures maze[i, j] != Wall <==> IsPassage(entered, tree, Pos(i, j))
    {
      var q := Pos(i, j);
      assert maze[i, j] == m[q];
      if IsPassage(entered, tree, q) {
        var k :| 0 < k < |entered| && k < |tree| && tree[k].up < |entered| && q == Between(entered[tree[k].up], tree[k].dir);
      }
    }
  }

  /** The rooms walk(1, 1) entered in an h-by-w grid: (1, 1) first, no room
      twice, every interior room, and only rooms that are interior or (1, 1)
      itself. */
  ghost predicate WalkRooms(h: int, w: int, entered: seq<Pos>) {
    entered != [] && entered[0] == Origin && Distinct(entered) &&
    (forall q :: q in entered ==>
      0 <= q.row < h && 0 <= q.col < w && Odd(q.row) && Odd(q.col) && (Interior(h, w, q) || q == Origin)) &&
    (forall q :: Interior(h, w, q) && Odd(q.row) && Odd(q.col) ==> q in entered)
  }

  /** The carved grid's entered rooms are exactly the rooms walk(1, 1) may
      reach. */
  lemma CarvedRooms(m: map<Pos, State>, h: int, w: int, entered: seq<Pos>)
    requires forall q :: q in m <==> 0 <= q.row < h && 0 <= q.col < w
    requires Carved(m, h, w, entered)
    ensures WalkRooms(h, w, entered)
  {
  }

  /** The shape of a generated h-by-w maze: START exactly at (1, 1) unless
      that is the goal cell, END exactly at (h-2, w-2); every other cell Wall
      or Path; the outer ring and every cell with two even coordinates walls
      (bar those two stamps); every interior room open. */
  ghost predicate MazeShape(maze: array2<State>, h: int, w: int)
    reads maze
  {
    maze.Length0 == h && maze.Length1 == w &&
    (forall i, j :: 0 <= i < h && 0 <= j < w ==>
      (maze[i, j] == Start <==> Pos(i, j) == Origin && Pos(i, j) != Pos(h - 2, w - 2)) &&
      (maze[i, j] == End <==> Pos(i, j) == Pos(h - 2, w - 2)) &&
      (maze[i, j] == Wall || maze[i, j] == Path || maze[i, j] == Start || maze[i, j] == End)) &&
    (forall i, j ::
      (0 <= i < h && 0 <= j < w && (i == 0 || i == h - 1 || j == 0 || j == w - 1) &&
       Pos(i, j) != Origin && Pos(i, j) != Pos(h - 2, w - 2)) ==> maze[i, j] == Wall) &&
    (forall i, j ::
      (0 <= i < h && 0 <= j < w && !Odd(i) && !Odd(j) && Pos(i, j) != Pos(h - 2, w - 2)) ==> maze[i, j] == Wall) &&
    (forall i, j :: 1 <= i < h - 1 && 1 <= j < w - 1 && Odd(i) && Odd(j) ==> maze[i, j] != Wall)
  }

  /** Stamping START and END onto a carved grid gives the maze shape. */
  lemma StampedShape(maze: array2<State>, m: map<Pos, State>, h: int, w: int, entered: seq<Pos>)
    requires 2 <= h && 2 <= w && maze.Length0 == h && maze.Length1 == w
    requires forall q :: q in m <==> 0 <= q.row < h && 0 <= q.col < w
    requires Carved(m, h, w, entered)
    requires forall i, j :: 0 <= i < h && 0 <= j < w ==>
      Pos(i, j) in m && maze[i, j] == m[Origin := Start][Pos(h - 2, w - 2) := End][Pos(i, j)]
    ensures MazeShape(maze, h, w)
  {
  }

  /** Everything generate_maze promises of the grid walk(1, 1) carved, once
      START and END are stamped on it. */
  lemma StampedMaze(maze: array2<State>, m0: map<Pos, State>, m: map<Pos, State>, h: int, w: int,
                    entered: seq<Pos>, tree: seq<Link>)
    requires 2 <= h && 2 <= w && maze.Length0 == h && maze.Length1 == w
    requires forall q :: q in m0 ==> m0[q] == Wall
    requires m.Keys == m0.Keys && (forall q :: q in m <==> 0 <= q.row < h && 0 <= q.col < w)
    requires Carved(m, h, w, entered) && Tree(m, entered, tree) && OnlyPassages(m0, m, entered, tree)
    requires forall i, j :: 0 <= i < h && 0 <= j < w ==>
      Pos(i, j) in m && maze[i, j] == m[Origin := Start][Pos(h - 2, w - 2) := End][Pos(i, j)]
    ensures MazeShape(maze, h, w) && Perfect(maze, h, w, entered, tree) && WalkRooms(h, w, entered)
    ensures forall q :: Interior(h, w, q) && Odd(q.row) && Odd(q.col) && q != Origin ==>
      exists c :: Passage(maze, Origin, q, c)
    ensures Odd(h) && Odd(w) && Goal(maze) != Origin ==> exists r :: IsRoute(maze, Origin, Goal(maze), r)
  {
    CarvedRooms(m, h, w, entered);
    StampedShape(maze, m, h, w, entered);
    StampedPerfect(maze, m0, m, h, w, entered, tree);
    Connected(maze, m, h, w, entered, tree);
  }

  /** generate_maze(w, h): an h-by-w grid of walls, carved by walk from
      (1, 1), then START stamped at (1, 1) and END at (h-2, w-2) (END wins
      when the two coincide). Returns the maze and, as ghosts, the cells
      walk entered (every interior room, each once, and only rooms that are
      interior or (1, 1)) and the
      passages tree that makes it a perfect maze. */
  method GenerateMaze(w: int, h: int, shuffle: Pos -> seq<(int, int)>)
    returns (maze: array2<State>, ghost entered: seq<Pos>, ghost tree: seq<Link>)
    requires 2 <= w && 2 <= h && Shuffles(shuffle)
    ensures MazeShape(maze, h, w)
    ensures Perfect(maze, h, w, entered, tree)
    ensures forall q :: Interior(h, w, q) && Odd(q.row) && Odd(q.col) && q != Origin ==>
      exists c :: Passage(maze, Origin, q, c)
    ensures Odd(h) && Odd(w) && Goal(maze) != Origin ==> exists r :: IsRoute(maze, Origin, Goal(maze), r)
    ensures WalkRooms(h, w, entered)
  {
    var grid := new State[h, w]((i, j) => Wall);
    ghost var m0 := Snap(grid);
    forall q | q in m0 ensures m0[q] == Wall {
      SnapAt(grid, q);
    }
    entered, tree := Walk(grid, Origin, shuffle);
    ghost var m1 := Snap(grid);
    assert Carved(m1, h, w, entered) by {
      WalkCarves(m0, m1, h, w, entered, tree);
    }
    Put(grid, Origin, Start);
    Put(grid, Pos(h - 2, w - 2), End);
    ghost var m2 := Snap(grid);
    maze := CopyGrid(grid);
    forall i, j | 0 <= i < h && 0 <= j < w
      ensures Pos(i, j) in m1 && maze[i, j] == m2[Pos(i, j)]
    {
      SnapAt(grid, Pos(i, j));
    }
    StampedMaze(maze, m0, m1, h, w, entered, tree);
  }
}
