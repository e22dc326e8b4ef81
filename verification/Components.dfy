/**
 Connected components of the project graph by union-find with path compression
 (`findConnectedComponents`).

 The parent map is a forest: a ghost rank strictly decreases along every parent
 link.  There is no union by rank in the program, so the rank is pure proof
 state; it is what makes `find` terminate.
 */
module Components {

  datatype Edge = Edge(from: string, to: string)

  /** The program's `map.get(key)` on a key that is there. */
  function Get(m: map<string, string>, key: string): string
    requires key in m
  {
    m[key]
  }

  // ------------------------------------------------------------------
  // Forests
  // ------------------------------------------------------------------

  /**
   `parent` is an acyclic forest and `root` says in which tree each node is.  The
   rank strictly decreases along parent links; a node is a root exactly when it is
   its own parent.
   */
  ghost predicate Forest(parent: map<string, string>, rank: map<string, nat>, root: map<string, string>) {
    && rank.Keys == parent.Keys == root.Keys
    && (forall x {:trigger Get(parent, x)} | x in parent :: HangsFrom(rank, root, x, Get(parent, x)))
    && (forall x {:trigger Get(root, x)} | x in root :: IsTop(parent, Get(root, x)))
  }

  /** `up` may be the parent of `x`: it is in the same tree, and nearer to the root unless `x` is the root. */
  ghost predicate HangsFrom(rank: map<string, nat>, root: map<string, string>, x: string, up: string)
    requires rank.Keys == root.Keys && x in rank
  {
    && up in rank
    && Get(root, up) == Get(root, x)
    && (if up == x then Get(root, x) == x else rank[up] < rank[x])
  }

  predicate IsTop(parent: map<string, string>, x: string) {
    x in parent && Get(parent, x) == x
  }

  /** Following `n` parent links from `x`. */
  function Follow(parent: map<string, string>, x: string, n: nat): (y: string)
    decreases n
  {
    if n == 0 then x
    else if x !in parent then x
    else Follow(parent, Get(parent, x), n - 1)
  }

  /** Following parent links long enough always ends in the root: there are no cycles. */
  lemma {:induction false} FollowReachesRoot(parent: map<string, string>, rank: map<string, nat>,
                                             root: map<string, string>, x: string, n: nat)
    requires Forest(parent, rank, root) && x in parent && rank[x] <= n
    ensures Follow(parent, x, n) == Get(root, x)
    decreases n
  {
    if n == 0 {
      assert Get(parent, x) == x;
    } else if Get(parent, x) == x {
      FollowRootStays(parent, x, n);
    } else {
      FollowReachesRoot(parent, rank, root, Get(parent, x), n - 1);
    }
  }

  lemma {:induction false} FollowRootStays(parent: map<string, string>, x: string, n: nat)
    requires x in parent && Get(parent, x) == x
    ensures Follow(parent, x, n) == x
  {
    if n > 0 {
      FollowRootStays(parent, x, n - 1);
    }
  }

  /** The roots are determined by the parent links alone, whatever rank witnesses acyclicity. */
  lemma RootIsUnique(parent: map<string, string>, rank: map<string, nat>, root: map<string, string>,
                     rank': map<string, nat>, root': map<string, string>, x: string)
    requires Forest(parent, rank, root) && Forest(parent, rank', root') && x in parent
    ensures Get(root, x) == Get(root', x)
  {
    var n := rank[x] + rank'[x];
    FollowReachesRoot(parent, rank, root, x, n);
    FollowReachesRoot(parent, rank', root', x, n);
  }

  /** Path compression: pointing a node straight at its root keeps the forest and every node's root. */
  lemma CompressKeepsRoots(parent: map<string, string>, rank: map<string, nat>, root: map<string, string>, x: string)
    requires Forest(parent, rank, root) && x in parent && Get(parent, x) != Get(root, x)
    ensures Forest(parent[x := Get(root, x)], rank, root)
  {
    RootRanksBelow(parent, rank, root, x);
    var compressed := parent[x := Get(root, x)];
    assert Get(root, Get(root, x)) == Get(root, x) by { assert Get(parent, Get(root, x)) == Get(root, x); }
    forall y {:trigger Get(compressed, y)} | y in parent
      ensures Get(compressed, y) == if y == x then Get(root, x) else Get(parent, y)
    {
    }
  }

  lemma {:induction false} RootRanksBelow(parent: map<string, string>, rank: map<string, nat>,
                                          root: map<string, string>, x: string)
    requires Forest(parent, rank, root) && x in parent
    ensures Get(root, x) == x || rank[Get(root, x)] < rank[x]
    decreases rank[x]
  {
    if Get(parent, x) != x {
      RootRanksBelow(parent, rank, root, Get(parent, x));
    }
  }

  /** `after` is the root map once the trees rooted at `a` and `b` have become one: exactly a's tree moves to b. */
  ghost predicate Merges(root: map<string, string>, a: string, b: string, after: map<string, string>) {
    && after.Keys == root.Keys
    && forall x {:trigger Get(after, x)} | x in root :: Get(after, x) == if Get(root, x) == a then b else Get(root, x)
  }

  /** The parent map after the assignment `parent.set(a, b)`. */
  ghost predicate Links(parent: map<string, string>, a: string, b: string, after: map<string, string>) {
    && after.Keys == parent.Keys
    && forall x {:trigger Get(after, x)} | x in parent :: Get(after, x) == if x == a then b else Get(parent, x)
  }

  /** A rank under which linking root `a` below root `b` is still acyclic. */
  ghost predicate Lifts(rank: map<string, nat>, root: map<string, string>, a: string, b: string,
                        after: map<string, nat>)
    requires rank.Keys == root.Keys && b in rank
  {
    && after.Keys == rank.Keys
    && forall x {:trigger after[x]} | x in rank ::
        after[x] == if Get(root, x) == a then rank[x] + rank[b] + 1 else rank[x]
  }

  /** Union: linking merges exactly the two trees and leaves every other root alone. */
  lemma LinkMerges(parent: map<string, string>, rank: map<string, nat>, root: map<string, string>, a: string, b: string,
                   linked: map<string, string>, lifted: map<string, nat>, merged: map<string, string>)
    requires Forest(parent, rank, root) && a in parent && b in parent
    requires Get(parent, a) == a && Get(parent, b) == b && a != b
    requires Links(parent, a, b, linked) && Lifts(rank, root, a, b, lifted) && Merges(root, a, b, merged)
    ensures Forest(linked, lifted, merged)
  {
    assert Get(root, a) == a && Get(root, b) == b;
    forall y {:trigger Get(linked, y)} | y in parent
      ensures HangsFrom(lifted, merged, y, Get(linked, y))
    {
      assert Get(linked, y) == if y == a then b else Get(parent, y);
    }
    forall y {:trigger Get(merged, y)} | y in parent
      ensures IsTop(linked, Get(merged, y))
    {
      assert Get(merged, y) == if Get(root, y) == a then b else Get(root, y);
    }
  }

  /** The rank and the roots after `parent.set(a, b)`. */
  lemma LinkRoots(parent: map<string, string>, rank: map<string, nat>, root: map<string, string>, a: string, b: string)
    returns (lifted: map<string, nat>, merged: map<string, string>)
    requires Forest(parent, rank, root) && a in parent && b in parent
    requires Get(parent, a) == a && Get(parent, b) == b && a != b
    ensures Forest(parent[a := b], lifted, merged) && Merges(root, a, b, merged)
  {
    lifted := map x | x in rank :: if Get(root, x) == a then rank[x] + rank[b] + 1 else rank[x];
    merged := map x | x in root :: if Get(root, x) == a then b else Get(root, x);
    LinkMerges(parent, rank, root, a, b, parent[a := b], lifted, merged);
  }

  // ------------------------------------------------------------------
  // Path compression
  // ------------------------------------------------------------------

  /** One of the first `n` nodes on the way from `start` to its root. */
  ghost predicate Passed(parent: map<string, string>, start: string, n: nat, x: string) {
    exists m: nat :: m < n && Follow(parent, start, m) == x
  }

  ghost predicate OnPath(parent: map<string, string>, start: string, x: string) {
    exists m: nat :: Follow(parent, start, m) == x
  }

  /** Every node on the way from `start` points straight to `r`, and no other node is touched. */
  ghost predicate Compressed(before: map<string, string>, start: string, r: string, after: map<string, string>) {
    && after.Keys == before.Keys
    && forall x {:trigger Get(after, x)} | x in before ::
        Get(after, x) == if OnPath(before, start, x) then r else Get(before, x)
  }

  /** The same for the first `n` nodes, when the way has led to `id`. */
  ghost predicate PartlyCompressed(before: map<string, string>, rank: map<string, nat>, start: string, n: nat,
                                   id: string, r: string, after: map<string, string>) {
    && after.Keys == before.Keys == rank.Keys
    && Follow(before, start, n) == id && id in before
    && (forall x {:trigger Passed(before, start, n, x)} | x in before && Passed(before, start, n, x) ::
        rank[id] < rank[x])
    && forall x {:trigger Get(after, x)} | x in before ::
         Get(after, x) == if Passed(before, start, n, x) then r else Get(before, x)
  }

  lemma {:induction false} FollowOneMore(parent: map<string, string>, x: string, n: nat)
    requires Follow(parent, x, n) in parent
    ensures Follow(parent, x, n + 1) == Get(parent, Follow(parent, x, n))
    decreases n
  {
    if n > 0 && x in parent { FollowOneMore(parent, Get(parent, x), n - 1); }
  }

  lemma CompressOne(before: map<string, string>, rank: map<string, nat>, start: string, n: nat, id: string,
                    r: string, after: map<string, string>)
    requires PartlyCompressed(before, rank, start, n, id, r, after) && id in after
    requires Get(after, id) in rank && rank[Get(after, id)] < rank[id]
    ensures PartlyCompressed(before, rank, start, n + 1, Get(after, id), r, after[id := r])
  {
    assert !Passed(before, start, n, id);
    assert Get(after, id) == Get(before, id);
    FollowOneMore(before, start, n);
    forall x | x in before
      ensures Passed(before, start, n + 1, x) <==> Passed(before, start, n, x) || x == id
    {
    }
    var next := after[id := r];
    forall x {:trigger Get(next, x)} | x in before
      ensures Get(next, x) == if x == id then r else Get(after, x)
    {
    }
  }

  /** Behind a node that points to the root the way only goes to the root. */
  lemma {:induction false} FollowPastTop(parent: map<string, string>, start: string, n: nat, m: nat, r: string)
    requires n < m && Follow(parent, start, n) in parent && Get(parent, Follow(parent, start, n)) == r
             && IsTop(parent, r)
    ensures Follow(parent, start, m) == r
  {
    if m == n + 1 {
      FollowOneMore(parent, start, n);
    } else {
      FollowPastTop(parent, start, n, m - 1, r);
      FollowOneMore(parent, start, m - 1);
    }
  }

  lemma CompressedAll(before: map<string, string>, rank: map<string, nat>, start: string, n: nat, id: string,
                      r: string, after: map<string, string>)
    requires PartlyCompressed(before, rank, start, n, id, r, after) && IsTop(before, r) && id in after
             && Get(after, id) == r
    ensures Compressed(before, start, r, after)
  {
    assert !Passed(before, start, n, id);
    forall x | x in before
      ensures OnPath(before, start, x) ==> Passed(before, start, n, x) || Get(before, x) == r
      ensures Passed(before, start, n, x) ==> OnPath(before, start, x)
    {
      if OnPath(before, start, x) {
        var m: nat :| Follow(before, start, m) == x;
        if m > n { FollowPastTop(before, start, n, m, r); }
      }
    }
  }

  /** The mutable parent map with the `find` and the edge step of the program. */
  class UnionFind {
    var parent: map<string, string>
    ghost var rank: map<string, nat>
    ghost var root: map<string, string>

    ghost predicate Valid()
      reads this
    {
      Forest(parent, rank, root)
    }

    constructor (ids: seq<string>)
      ensures Valid() && root == map id | id in ids :: id
    {
      parent := map id | id in ids :: id;
      rank := map id | id in ids :: 0;
      root := map id | id in ids :: id;
    }

    /** Returns the root of `start` and points its whole path there; this moves no node to another tree. */
    method Find(start: string) returns (r: string)
      requires Valid() && start in parent
      modifies `parent
      ensures Valid()
      ensures r == Get(root, start) && Get(parent, r) == r
      ensures Compressed(old(parent), start, r, parent)
    {
      r := start;
      while Get(parent, r) != r
        invariant r in parent && Get(root, r) == Get(root, start)
        decreases rank[r]
      {
        r := Get(parent, r);
      }
      var id := start;
      ghost var steps := 0;
      while Get(parent, id) != r
        invariant Valid() && id in parent && Get(root, id) == r && Get(parent, r) == r
        invariant PartlyCompressed(old(parent), rank, start, steps, id, r, parent)
        decreases rank[id]
      {
        var next := Get(parent, id);
        CompressKeepsRoots(parent, rank, root, id);
        CompressOne(old(parent), rank, start, steps, id, r, parent);
        parent := parent[id := r];
        id := next;
        steps := steps + 1;
      }
      CompressedAll(old(parent), rank, start, steps, id, r, parent);
    }

    /** The body of the edge loop: an edge with an unknown endpoint is skipped. */
    method Union(edge: Edge)
      requires Valid()
      modifies this
      ensures Valid()
      ensures old(edge.from !in root || edge.to !in root) ==> root == old(root)
      ensures old(edge.from in root && edge.to in root) ==>
                Merges(old(root), old(Get(root, edge.from)), old(Get(root, edge.to)), root)
    {
      if edge.from !in parent || edge.to !in parent { return; }
      var a := Find(edge.from);
      var b := Find(edge.to);
      if a != b {
        ghost var lifted, merged := LinkRoots(parent, rank, root, a, b);
        parent, rank, root := parent[a := b], lifted, merged;
      }
    }
  }

  // ------------------------------------------------------------------
  // Reachability
  // ------------------------------------------------------------------

  predicate Linked(edges: seq<Edge>, x: string, y: string) {
    Edge(x, y) in edges || Edge(y, x) in edges
  }

  /** A chain of edges between known nodes, each taken in either direction. */
  ghost predicate Chain(ids: seq<string>, edges: seq<Edge>, path: seq<string>) {
    && |path| > 0
    && (forall i | 0 <= i < |path| :: path[i] in ids)
    && (forall i | 0 < i < |path| :: Linked(edges, path[i - 1], path[i]))
  }

  ghost predicate Connected(ids: seq<string>, edges: seq<Edge>, x: string, y: string) {
    exists path :: Chain(ids, edges, path) && path[0] == x && path[|path| - 1] == y
  }

  function Reversed(path: seq<string>): (r: seq<string>) {
    seq(|path|, i requires 0 <= i < |path| => path[|path| - 1 - i])
  }

  lemma ConnectedSelf(ids: seq<string>, edges: seq<Edge>, x: string)
    requires x in ids
    ensures Connected(ids, edges, x, x)
  {
    assert Chain(ids, edges, [x]);
  }

  lemma ConnectedSymmetric(ids: seq<string>, edges: seq<Edge>, x: string, y: string)
    requires Connected(ids, edges, x, y)
    ensures Connected(ids, edges, y, x)
  {
    var path :| Chain(ids, edges, path) && path[0] == x && path[|path| - 1] == y;
    var back := Reversed(path);
    forall i | 0 < i < |back|
      ensures Linked(edges, back[i - 1], back[i])
    {
      assert Linked(edges, path[|path| - 1 - i], path[|path| - i]);
    }
    assert Chain(ids, edges, back);
  }

  lemma ConnectedTransitive(ids: seq<string>, edges: seq<Edge>, x: string, y: string, z: string)
    requires Connected(ids, edges, x, y) && Connected(ids, edges, y, z)
    ensures Connected(ids, edges, x, z)
  {
    var p :| Chain(ids, edges, p) && p[0] == x && p[|p| - 1] == y;
    var q :| Chain(ids, edges, q) && q[0] == y && q[|q| - 1] == z;
    var joined := p + q[1..];
    forall i | 0 < i < |joined|
      ensures Linked(edges, joined[i - 1], joined[i])
    {
      if i >= |p| {
        assert Linked(edges, q[i - |p|], q[i - |p| + 1]);
      }
    }
    assert Chain(ids, edges, joined);
  }

  lemma ConnectedGrows(ids: seq<string>, edges: seq<Edge>, edge: Edge, x: string, y: string)
    requires Connected(ids, edges, x, y)
    ensures Connected(ids, edges + [edge], x, y)
  {
    var path :| Chain(ids, edges, path) && path[0] == x && path[|path| - 1] == y;
    assert Chain(ids, edges + [edge], path);
  }

  lemma ConnectedByEdge(ids: seq<string>, edges: seq<Edge>, edge: Edge)
    requires edge in edges && edge.from in ids && edge.to in ids
    ensures Connected(ids, edges, edge.from, edge.to)
  {
    assert Chain(ids, edges, [edge.from, edge.to]);
  }

  /** `root` maps every id to a representative of its component, no more and no less. */
  ghost predicate Represents(root: map<string, string>, ids: seq<string>, edges: seq<Edge>) {
    && (forall id <- ids :: id in root)
    && (forall x, y | x in ids && y in ids && Get(root, x) == Get(root, y) :: Connected(ids, edges, x, y))
    && (forall e <- edges | e.from in ids && e.to in ids :: Get(root, e.from) == Get(root, e.to))
  }

  lemma {:induction false} ChainKeepsRoot(root: map<string, string>, ids: seq<string>, edges: seq<Edge>,
                                          path: seq<string>)
    requires Represents(root, ids, edges) && Chain(ids, edges, path)
    ensures Get(root, path[0]) == Get(root, path[|path| - 1])
    decreases |path|
  {
    if |path| > 1 {
      var init := path[..|path| - 1];
      assert Chain(ids, edges, init);
      ChainKeepsRoot(root, ids, edges, init);
      assert Linked(edges, path[|path| - 2], path[|path| - 1]);
      assert path[|path| - 2] in ids && path[|path| - 1] in ids;
    }
  }

  /** Equal representatives if and only if a chain of edges connects the two nodes. */
  lemma RootsEqualIffConnected(root: map<string, string>, ids: seq<string>, edges: seq<Edge>, x: string, y: string)
    requires Represents(root, ids, edges) && x in ids && y in ids
    ensures Get(root, x) == Get(root, y) <==> Connected(ids, edges, x, y)
  {
    if Connected(ids, edges, x, y) {
      var path :| Chain(ids, edges, path) && path[0] == x && path[|path| - 1] == y;
      ChainKeepsRoot(root, ids, edges, path);
    }
  }

  /** One union step carries the representatives of a prefix of the edges to the next prefix. */
  lemma RepresentsAfterUnion(before: map<string, string>, after: map<string, string>, ids: seq<string>,
                             edges: seq<Edge>, edge: Edge)
    requires Represents(before, ids, edges)
    requires edge.from in ids && edge.to in ids
    requires Merges(before, Get(before, edge.from), Get(before, edge.to), after)
    ensures Represents(after, ids, edges + [edge])
  {
    var more := edges + [edge];
    ConnectedByEdge(ids, more, edge);
    ConnectedSymmetric(ids, more, edge.from, edge.to);
    forall x, y | x in ids && y in ids && Get(before, x) == Get(before, y)
      ensures Connected(ids, more, x, y)
    {
      ConnectedGrows(ids, edges, edge, x, y);
    }
    forall x, y | x in ids && y in ids && Get(after, x) == Get(after, y)
      ensures Connected(ids, more, x, y)
    {
      if Get(before, x) != Get(before, y) {
        if Get(before, x) == Get(before, edge.from) {
          ConnectedTransitive(ids, more, x, edge.from, edge.to);
          ConnectedTransitive(ids, more, x, edge.to, y);
        } else {
          ConnectedTransitive(ids, more, x, edge.to, edge.from);
          ConnectedTransitive(ids, more, x, edge.from, y);
        }
      }
    }
  }

  /** An edge with an unknown endpoint changes nothing. */
  lemma RepresentsAfterSkip(root: map<string, string>, ids: seq<string>, edges: seq<Edge>, edge: Edge)
    requires Represents(root, ids, edges)
    requires edge.from !in ids || edge.to !in ids
    ensures Represents(root, ids, edges + [edge])
  {
    forall x, y | x in ids && y in ids && Get(root, x) == Get(root, y)
      ensures Connected(ids, edges + [edge], x, y)
    {
      ConnectedGrows(ids, edges, edge, x, y);
    }
  }

  lemma DiscreteRepresents(ids: seq<string>)
    ensures Represents(map id | id in ids :: id, ids, [])
  {
    forall x | x in ids
      ensures Connected(ids, [], x, x)
    {
      ConnectedSelf(ids, [], x);
    }
  }

  // ------------------------------------------------------------------
  // Grouping
  // ------------------------------------------------------------------

  /** The ids whose representative is `r`, in their original order. */
  function Members(ids: seq<string>, root: map<string, string>, r: string): (members: seq<string>)
    requires forall id <- ids :: id in root
    ensures forall id :: id in members <==> id in ids && Get(root, id) == r
  {
    if ids == [] then []
    else
      var front := Members(ids[..|ids| - 1], root, r);
      var last := ids[|ids| - 1];
      if Get(root, last) == r then front + [last] else front
  }

  function Flatten(groups: seq<seq<string>>): (all: seq<string>) {
    if groups == [] then [] else Flatten(groups[..|groups| - 1]) + groups[|groups| - 1]
  }

  /** Adding an id to one group puts it somewhere among all ids. */
  lemma {:induction false} FlattenGrowsAt(groups: seq<seq<string>>, k: nat, id: string)
    returns (a: seq<string>, b: seq<string>)
    requires k < |groups|
    ensures Flatten(groups) == a + b && Flatten(groups[k := groups[k] + [id]]) == a + [id] + b
  {
    var last := |groups| - 1;
    var front := groups[..last];
    if k == last {
      assert groups[k := groups[k] + [id]] == front + [groups[k] + [id]];
      return Flatten(groups), [];
    } else {
      var grown := front[k := groups[k] + [id]];
      a, b := FlattenGrowsAt(front, k, id);
      assert groups[k := groups[k] + [id]] == grown + [groups[last]];
      b := b + groups[last];
    }
  }

  lemma FlattenGrows(groups: seq<seq<string>>, k: nat, id: string)
    requires k < |groups|
    ensures multiset(Flatten(groups[k := groups[k] + [id]])) == multiset(Flatten(groups)) + multiset{id}
  {
    var a, b := FlattenGrowsAt(groups, k, id);
  }

  lemma {:induction false} FlattenHolds(groups: seq<seq<string>>, g: seq<string>, x: string)
    requires g in groups && x in g
    ensures x in Flatten(groups)
  {
    var last := |groups| - 1;
    if g != groups[last] {
      assert g in groups[..last];
      FlattenHolds(groups[..last], g, x);
    }
  }

  ghost predicate SameGroup(groups: seq<seq<string>>, x: string, y: string) {
    exists g <- groups :: x in g && y in g
  }

  /**
   What the program promises: the groups partition the ids, each occurrence of an
   id exactly once, and two ids share a group if and only if a chain of edges
   between known nodes connects them.
   */
  ghost predicate AreComponents(groups: seq<seq<string>>, ids: seq<string>, edges: seq<Edge>) {
    && (forall g <- groups :: g != [])
    && Exhausts(groups, ids)
    && (forall x, y | x in ids && y in ids :: SameGroup(groups, x, y) <==> Connected(ids, edges, x, y))
    && (forall i, j, x | 0 <= i < |groups| && 0 <= j < |groups| && x in groups[i] && x in groups[j] :: i == j)
  }

  /** The index of the first `x`, or the length when there is none. */
  function IndexOf(ids: seq<string>, x: string): (k: nat)
    ensures k <= |ids| && (k < |ids| ==> ids[k] == x) && (k == |ids| <==> x !in ids)
  {
    if ids == [] then 0 else if ids[0] == x then 0 else 1 + IndexOf(ids[1..], x)
  }

  lemma {:induction false} IndexOfSnoc(ids: seq<string>, last: string, x: string)
    ensures IndexOf(ids + [last], x) == if x in ids then IndexOf(ids, x) else if x == last then |ids| else |ids| + 1
  {
    if ids == [] {
      assert ids + [last] == [last] && [last][1..] == [];
    } else {
      assert (ids + [last])[1..] == ids[1..] + [last];
      IndexOfSnoc(ids[1..], last, x);
    }
  }

  /** The state of the grouping loop after the ids in `seen`: one group per root met so far. */
  ghost predicate GroupedBy(groups: seq<seq<string>>, roots: seq<string>, seen: seq<string>,
                            root: map<string, string>) {
    && Covers(roots, seen, root)
    && (forall i, j | 0 <= i < j < |roots| :: roots[i] != roots[j])
    && AreMembers(groups, roots, seen, root)
    && Exhausts(groups, seen)
  }

  ghost predicate Covers(roots: seq<string>, seen: seq<string>, root: map<string, string>) {
    forall id <- seen :: id in root && Get(root, id) in roots
  }

  ghost predicate AreMembers(groups: seq<seq<string>>, roots: seq<string>, seen: seq<string>, root: map<string, string>)
    requires Covers(roots, seen, root)
  {
    && |groups| == |roots|
    && (forall i | 0 <= i < |roots| :: groups[i] != [] && groups[i] == Members(seen, root, roots[i]))
  }

  /** Each occurrence of an id is in exactly one place of one group. */
  ghost predicate Exhausts(groups: seq<seq<string>>, ids: seq<string>) {
    multiset(Flatten(groups)) == multiset(ids)
  }

  lemma MembersSnoc(seen: seq<string>, root: map<string, string>, id: string, r: string)
    requires id in root && forall x <- seen :: x in root
    ensures Members(seen + [id], root, r)
            == if Get(root, id) == r then Members(seen, root, r) + [id] else Members(seen, root, r)
  {
    assert (seen + [id])[..|seen|] == seen;
  }

  lemma GroupedByKnownRoot(groups: seq<seq<string>>, roots: seq<string>, seen: seq<string>, root: map<string, string>,
                           id: string, k: nat)
    requires GroupedBy(groups, roots, seen, root) && id in root
    requires k < |roots| && roots[k] == Get(root, id)
    ensures GroupedBy(groups[k := groups[k] + [id]], roots, seen + [id], root)
  {
    FlattenGrows(groups, k, id);
    forall i | 0 <= i < |roots|
      ensures groups[k := groups[k] + [id]][i] == Members(seen + [id], root, roots[i])
    {
      MembersSnoc(seen, root, id, roots[i]);
    }
  }

  lemma NewRootHasNoMembers(roots: seq<string>, seen: seq<string>, root: map<string, string>, r: string)
    requires Covers(roots, seen, root) && r !in roots
    ensures Members(seen, root, r) == []
  {
    assert forall x <- Members(seen, root, r) :: false;
  }

  lemma AreMembersNewRoot(groups: seq<seq<string>>, roots: seq<string>, seen: seq<string>, root: map<string, string>,
                          id: string)
    requires Covers(roots, seen, root) && AreMembers(groups, roots, seen, root)
    requires id in root && Get(root, id) !in roots
    requires Covers(roots + [Get(root, id)], seen + [id], root)
    ensures AreMembers(groups + [[id]], roots + [Get(root, id)], seen + [id], root)
  {
    NewRootHasNoMembers(roots, seen, root, Get(root, id));
    MembersSnoc(seen, root, id, Get(root, id));
    forall i | 0 <= i < |roots|
      ensures groups[i] == Members(seen + [id], root, roots[i])
    {
      MembersSnoc(seen, root, id, roots[i]);
      assert roots[i] in roots;
    }
  }

  lemma GroupedByNewRoot(groups: seq<seq<string>>, roots: seq<string>, seen: seq<string>, root: map<string, string>,
                         id: string)
    requires GroupedBy(groups, roots, seen, root) && id in root && Get(root, id) !in roots
    ensures GroupedBy(groups + [[id]], roots + [Get(root, id)], seen + [id], root)
  {
    AreMembersNewRoot(groups, roots, seen, root, id);
  }

  lemma GroupedAreComponents(groups: seq<seq<string>>, roots: seq<string>, root: map<string, string>,
                             ids: seq<string>, edges: seq<Edge>)
    requires GroupedBy(groups, roots, ids, root) && Represents(root, ids, edges)
    ensures AreComponents(groups, ids, edges)
  {
    forall x, y | x in ids && y in ids
      ensures SameGroup(groups, x, y) <==> Connected(ids, edges, x, y)
    {
      RootsEqualIffConnected(root, ids, edges, x, y);
      var k := IndexOf(roots, Get(root, x));
      assert x in groups[k];
    }
  }

  /** The representatives in the order in which the ids meet them. */
  function RootsOf(ids: seq<string>, root: map<string, string>): (roots: seq<string>)
    requires forall id <- ids :: id in root
  {
    if ids == [] then []
    else
      var front, r := RootsOf(ids[..|ids| - 1], root), Get(root, ids[|ids| - 1]);
      if r in front then front else front + [r]
  }

  /** The groups after the ids: each id joins the group of its root, or opens a new one. */
  function Grouped(ids: seq<string>, root: map<string, string>): (groups: seq<seq<string>>)
    requires forall id <- ids :: id in root
    ensures |groups| == |RootsOf(ids, root)|
  {
    if ids == [] then []
    else
      var front, last := ids[..|ids| - 1], ids[|ids| - 1];
      var groups, at := Grouped(front, root), IndexOf(RootsOf(front, root), Get(root, last));
      if at < |groups| then groups[at := groups[at] + [last]] else groups + [[last]]
  }

  lemma {:induction false} GroupedIsGroupedBy(ids: seq<string>, root: map<string, string>)
    requires forall id <- ids :: id in root
    ensures GroupedBy(Grouped(ids, root), RootsOf(ids, root), ids, root)
  {
    if ids != [] {
      GroupedIsGroupedBy(ids[..|ids| - 1], root);
      FrontAndLast(ids);
      GroupedOneMore(ids, ids[..|ids| - 1], ids[|ids| - 1], root);
    }
  }

  lemma FrontAndLast(ids: seq<string>)
    requires ids != []
    ensures ids == ids[..|ids| - 1] + [ids[|ids| - 1]]
  {
  }

  lemma GroupedOneMore(ids: seq<string>, front: seq<string>, last: string, root: map<string, string>)
    requires (forall id <- ids :: id in root) && ids == front + [last] && front == ids[..|ids| - 1]
    requires forall id <- front :: id in root
    requires GroupedBy(Grouped(front, root), RootsOf(front, root), front, root)
    ensures GroupedBy(Grouped(ids, root), RootsOf(ids, root), ids, root)
  {
    var groups, roots := Grouped(front, root), RootsOf(front, root);
    var at := IndexOf(roots, Get(root, last));
    if at < |roots| {
      GroupedByKnownRoot(groups, roots, front, root, last, at);
    } else {
      GroupedByNewRoot(groups, roots, front, root, last);
    }
  }

  // ------------------------------------------------------------------
  // The order of the groups
  // ------------------------------------------------------------------

  /** The ids of the group as the input lists them. */
  function Only(ids: seq<string>, group: seq<string>): (listed: seq<string>) {
    if ids == [] then []
    else
      var front, last := Only(ids[..|ids| - 1], group), ids[|ids| - 1];
      if last in group then front + [last] else front
  }

  /** Where the first id of the group stands. */
  function Place(ids: seq<string>, group: seq<string>): (k: nat) {
    if group == [] then |ids| else IndexOf(ids, group[0])
  }

  /**
   The input's order is kept, inside the groups and, by first ids, among them.
   Together with `AreComponents` this leaves only one possible answer (`AnswerIsUnique`).
   */
  ghost predicate InOrder(groups: seq<seq<string>>, ids: seq<string>) {
    && (forall i | 0 <= i < |groups| :: groups[i] == Only(ids, groups[i]))
    && (forall i, j {:trigger Place(ids, groups[i]), Place(ids, groups[j])} | 0 <= i < j < |groups| ::
          Place(ids, groups[i]) < Place(ids, groups[j]))
  }

  lemma {:induction false} RootsAreMet(ids: seq<string>, root: map<string, string>, id: string)
    requires (forall id <- ids :: id in root) && id in ids
    ensures Get(root, id) in RootsOf(ids, root)
  {
    if id != ids[|ids| - 1] { RootsAreMet(ids[..|ids| - 1], root, id); }
  }

  function FirstOf(ids: seq<string>, root: map<string, string>, r: string): (k: nat)
    requires forall id <- ids :: id in root
  {
    Place(ids, Members(ids, root, r))
  }

  lemma FirstOfStays(front: seq<string>, last: string, root: map<string, string>, r: string)
    requires last in root && (forall id <- front :: id in root) && FirstOf(front, root, r) < |front|
    ensures FirstOf(front + [last], root, r) == FirstOf(front, root, r)
  {
    MembersSnoc(front, root, last, r);
    IndexOfSnoc(front, last, Members(front, root, r)[0]);
  }

  lemma FirstOfNew(front: seq<string>, last: string, root: map<string, string>)
    requires last in root && (forall id <- front :: id in root && Get(root, id) != Get(root, last))
    ensures FirstOf(front + [last], root, Get(root, last)) == |front|
  {
    var r := Get(root, last);
    MembersSnoc(front, root, last, r);
    assert forall x <- Members(front, root, r) :: false;
    IndexOfSnoc(front, last, last);
  }

  ghost predicate FirstsAscend(ids: seq<string>, root: map<string, string>, roots: seq<string>)
    requires forall id <- ids :: id in root
  {
    && (forall i | 0 <= i < |roots| :: FirstOf(ids, root, roots[i]) < |ids|)
    && (forall i, j | 0 <= i < j < |roots| :: FirstOf(ids, root, roots[i]) < FirstOf(ids, root, roots[j]))
  }

  lemma {:induction false} RootsAscend(ids: seq<string>, root: map<string, string>)
    requires forall id <- ids :: id in root
    ensures FirstsAscend(ids, root, RootsOf(ids, root))
  {
    if ids != [] {
      var front, last := ids[..|ids| - 1], ids[|ids| - 1];
      var known, roots := RootsOf(front, root), RootsOf(ids, root);
      FrontAndLast(ids);
      RootsAscend(front, root);
      forall i | 0 <= i < |known|
        ensures FirstOf(ids, root, roots[i]) == FirstOf(front, root, known[i])
      {
        FirstOfStays(front, last, root, known[i]);
      }
      if Get(root, last) !in known {
        forall id | id in front
          ensures Get(root, id) != Get(root, last)
        {
          RootsAreMet(front, root, id);
        }
        FirstOfNew(front, last, root);
      }
    }
  }

  lemma {:induction false} OnlyMembers(ids: seq<string>, root: map<string, string>, r: string, group: seq<string>)
    requires forall id <- ids :: id in root && (id in group <==> Get(root, id) == r)
    ensures Only(ids, group) == Members(ids, root, r)
  {
    if ids != [] {
      assert ids[|ids| - 1] in ids;
      OnlyMembers(ids[..|ids| - 1], root, r, group);
    }
  }

  lemma {:induction false} GroupedInOrder(groups: seq<seq<string>>, roots: seq<string>, ids: seq<string>,
                                          root: map<string, string>)
    requires GroupedBy(groups, roots, ids, root) && roots == RootsOf(ids, root)
    ensures InOrder(groups, ids)
  {
    RootsAscend(ids, root);
    forall i | 0 <= i < |groups|
      ensures groups[i] == Only(ids, groups[i])
    {
      OnlyMembers(ids, root, roots[i], groups[i]);
    }
    forall i, j | 0 <= i < j < |groups|
      ensures Place(ids, groups[i]) < Place(ids, groups[j])
    {
      assert FirstOf(ids, root, roots[i]) < FirstOf(ids, root, roots[j]);
    }
  }

  // ------------------------------------------------------------------
  // There is only one answer
  // ------------------------------------------------------------------

  lemma MembersAreIds(groups: seq<seq<string>>, ids: seq<string>, edges: seq<Edge>, i: nat, x: string)
    requires AreComponents(groups, ids, edges) && i < |groups| && x in groups[i]
    ensures x in ids
  {
    FlattenHolds(groups, groups[i], x);
    assert x in multiset(Flatten(groups));
    assert x in multiset(ids);
  }

  lemma SameOnly(ids: seq<string>, g: seq<string>, h: seq<string>)
    requires forall x <- ids :: x in g <==> x in h
    ensures Only(ids, g) == Only(ids, h)
  {
    if ids != [] {
      assert ids[|ids| - 1] in ids;
      SameOnly(ids[..|ids| - 1], g, h);
    }
  }

  /** An id is in the group of `x` exactly when it is connected with it. */
  lemma GroupIsClass(groups: seq<seq<string>>, ids: seq<string>, edges: seq<Edge>, i: nat, x: string, y: string)
    requires AreComponents(groups, ids, edges) && i < |groups| && x in groups[i] && x in ids && y in ids
    ensures y in groups[i] <==> Connected(ids, edges, x, y)
  {
    assert groups[i] in groups;
    if SameGroup(groups, x, y) {
      var g :| g in groups && x in g && y in g;
      var j :| 0 <= j < |groups| && groups[j] == g;
      assert x in groups[j];
    }
  }

  /** Every group of one answer is a group of the other. */
  lemma GroupIsInOther(g: seq<seq<string>>, h: seq<seq<string>>, ids: seq<string>, edges: seq<Edge>, i: nat)
    returns (j: nat)
    requires AreComponents(g, ids, edges) && InOrder(g, ids) && AreComponents(h, ids, edges) && InOrder(h, ids)
    requires i < |g|
    ensures j < |h| && g[i] == h[j]
  {
    assert g[i] in g;
    var x := g[i][0];
    MembersAreIds(g, ids, edges, i, x);
    ConnectedSelf(ids, edges, x);
    assert SameGroup(h, x, x);
    var group :| group in h && x in group;
    j :| 0 <= j < |h| && h[j] == group;
    forall y | y in ids
      ensures y in g[i] <==> y in h[j]
    {
      GroupIsClass(g, ids, edges, i, x, y);
      GroupIsClass(h, ids, edges, j, x, y);
    }
    SameOnly(ids, g[i], h[j]);
  }

  lemma {:induction false} AnswersAgreeAt(g: seq<seq<string>>, h: seq<seq<string>>, ids: seq<string>,
                                          edges: seq<Edge>, k: nat)
    requires AreComponents(g, ids, edges) && InOrder(g, ids) && AreComponents(h, ids, edges) && InOrder(h, ids)
    requires k < |g|
    ensures k < |h| && g[k] == h[k]
    decreases k
  {
    forall i | 0 <= i < k
      ensures i < |h| && g[i] == h[i]
    {
      AnswersAgreeAt(g, h, ids, edges, i);
    }
    var j := GroupIsInOther(g, h, ids, edges, k);
    OrderByPlace(g, ids, j, k);
    if j >= k {
      var i := GroupIsInOther(h, g, ids, edges, k);
      PlacesMatch(g, h, ids, k, j, i);
    }
  }

  lemma OrderByPlace(groups: seq<seq<string>>, ids: seq<string>, i: nat, j: nat)
    requires InOrder(groups, ids) && j < |groups|
    ensures i < j ==> Place(ids, groups[i]) < Place(ids, groups[j])
  {
  }

  lemma PlacesMatch(g: seq<seq<string>>, h: seq<seq<string>>, ids: seq<string>, k: nat, j: nat, i: nat)
    requires InOrder(g, ids) && InOrder(h, ids)
    requires k < |g| && k <= j < |h| && i < |g| && g[k] == h[j] && h[k] == g[i]
    requires forall i | 0 <= i < k :: i < |h| && g[i] == h[i]
    ensures g[k] == h[k]
  {
    OrderByPlace(h, ids, i, k);
    OrderByPlace(h, ids, k, j);
    OrderByPlace(g, ids, k, i);
  }

  /** Connectivity and the order of the input leave only one answer. */
  lemma AnswerIsUnique(g: seq<seq<string>>, h: seq<seq<string>>, ids: seq<string>, edges: seq<Edge>)
    requires AreComponents(g, ids, edges) && InOrder(g, ids) && AreComponents(h, ids, edges) && InOrder(h, ids)
    ensures g == h
  {
    forall k | 0 <= k < |g|
      ensures k < |h| && g[k] == h[k]
    {
      AnswersAgreeAt(g, h, ids, edges, k);
    }
    if |g| < |h| { AnswersAgreeAt(h, g, ids, edges, |g|); }
  }

  // ------------------------------------------------------------------
  // The code
  // ------------------------------------------------------------------

  /** The edge loop: afterwards the union-find represents exactly the connectivity of the edges. */
  method UnionAll(ids: seq<string>, edges: seq<Edge>) returns (uf: UnionFind)
    ensures fresh(uf) && uf.Valid() && Represents(uf.root, ids, edges)
  {
    uf := new UnionFind(ids);
    DiscreteRepresents(ids);
    assert edges[..0] == [];
    for k := 0 to |edges|
      invariant uf.Valid() && uf.root.Keys == set id | id in ids
      invariant Represents(uf.root, ids, edges[..k])
    {
      assert edges[..k + 1] == edges[..k] + [edges[k]];
      ghost var before := uf.root;
      uf.Union(edges[k]);
      if edges[k].from in ids && edges[k].to in ids {
        RepresentsAfterUnion(before, uf.root, ids, edges[..k], edges[k]);
      } else {
        RepresentsAfterSkip(uf.root, ids, edges[..k], edges[k]);
      }
    }
    assert edges[..|edges|] == edges;
  }

  method FindConnectedComponents(ids: seq<string>, edges: seq<Edge>) returns (groups: seq<seq<string>>)
    ensures AreComponents(groups, ids, edges) && InOrder(groups, ids)
  {
    var uf := UnionAll(ids, edges);
    ghost var root := uf.root;
    var roots;
    groups, roots := GroupByRoot(ids, uf);
    GroupedIsGroupedBy(ids, root);
    GroupedAreComponents(groups, roots, root, ids, edges);
    GroupedInOrder(groups, roots, ids, root);
  }

  /** The grouping loop: each id joins the group of its root, or opens a new one. */
  method GroupByRoot(ids: seq<string>, uf: UnionFind) returns (groups: seq<seq<string>>, roots: seq<string>)
    requires uf.Valid() && forall id <- ids :: id in uf.root
    modifies uf
    ensures groups == Grouped(ids, old(uf.root)) && roots == RootsOf(ids, old(uf.root))
  {
    ghost var root := uf.root;
    groups, roots := [], [];
    for k := 0 to |ids|
      invariant uf.Valid() && uf.root == root
      invariant groups == Grouped(ids[..k], root) && roots == RootsOf(ids[..k], root)
    {
      assert ids[..k + 1][..k] == ids[..k];
      var r := uf.Find(ids[k]);
      var at := IndexOf(roots, r);
      if at < |roots| {
        groups := groups[at := groups[at] + [ids[k]]];
      } else {
        groups, roots := groups + [[ids[k]]], roots + [r];
      }
    }
    assert ids[..|ids|] == ids;
  }
}
