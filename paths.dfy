/** get_path: rebuilding a path from the predecessor links a search records. */
module Paths {
  import opened Grid

  /** depth ranks the parent links: every linked cell and its parent have a
      depth, and the parent's is smaller. Such a map exists exactly when
      following parent links can never cycle. */
  ghost predicate Ranked(parent: map<Pos, Pos>, depth: map<Pos, nat>) {
    forall k :: k in parent ==> k in depth && parent[k] in depth && depth[parent[k]] < depth[k]
  }

  /** s read back to front (Python's s[::-1]). */
  function Reversed<T>(s: seq<T>): (r: seq<T>)
    ensures |r| == |s|
    ensures forall i :: 0 <= i < |s| ==> r[i] == s[|s| - 1 - i]
  {
    if s == [] then [] else Reversed(s[1..]) + [s[0]]
  }

  /** get_path: follows parent links back from end until a cell without a
      parent entry, collecting every cell passed except that last one, and
      returns them in forward order. */
  method GetPath(parent: map<Pos, Pos>, end: Pos, ghost depth: map<Pos, nat>) returns (path: seq<Pos>)
    requires Ranked(parent, depth)
    ensures path == [] <==> end !in parent
    ensures forall i :: 0 <= i < |path| ==> path[i] in parent
    ensures forall i :: 0 < i < |path| ==> parent[path[i]] == path[i - 1]
    ensures path != [] ==> path[|path| - 1] == end && parent[path[0]] !in parent
    ensures Distinct(path)
  {
    var rev: seq<Pos> := [];
    var curr := end;
    while curr in parent
      invariant forall i :: 0 <= i < |rev| ==> rev[i] in parent
      invariant rev == [] ==> curr == end
      invariant rev != [] ==> rev[0] == end && curr == parent[rev[|rev| - 1]]
      invariant forall i :: 0 < i < |rev| ==> rev[i] == parent[rev[i - 1]]
      invariant forall i, j :: 0 <= i < j < |rev| ==> depth[rev[j]] < depth[rev[i]]
      invariant rev != [] ==> curr in depth && forall i :: 0 <= i < |rev| ==> depth[curr] < depth[rev[i]]
      decreases if curr in parent then depth[curr] else 0
    {
      rev := rev + [curr];
      curr := parent[curr];
    }
    path := Reversed(rev);
    forall i, j | 0 <= i < j < |path| ensures path[i] != path[j] {
      assert depth[path[i]] < depth[path[j]];
    }
  }
}
