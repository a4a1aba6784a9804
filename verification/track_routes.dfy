/** The longest route through a track network (src/logic/TrackNetwork.ts):
    every route from every node that never reuses a link, its length the sum
    of the links' lengths plus one, and the nodes whose every route is closed
    dropped from the network afterwards. */
module TrackRoutes {
  import opened Wrappers
  import opened Types
  import opened Grids
  import opened TrackNetworks

  /** The links already taken, in the order taken, with their lengths. */
  type Visited = seq<(LinkKey, nat)>

  /** What following every route from a node finds: the longest length and
      whether no route reaches an open side. */
  datatype Paths = Paths(longestRoute: nat, closed: bool)

  function Max(a: nat, b: nat): nat {
    if a < b then b else a
  }

  function VisitedKeys(v: Visited): set<LinkKey> {
    set e | e in v :: e.0
  }

  /** The total length of the links taken. */
  function SumD(v: Visited): nat {
    if |v| == 0 then 0 else SumD(v[..|v| - 1]) + v[|v| - 1].1
  }

  /** Every link key written anywhere in the grid. */
  ghost function LinkKeys(grid: Grid<Node>): set<LinkKey> {
    set i, r | i in grid && 0 <= r < |grid[i]| && grid[i][r].Link? :: grid[i][r].k
  }

  /** A link whose key has not been taken yet. */
  function Fresh(visited: Visited): Connection -> bool {
    (c: Connection) => c.Link? && c.k !in VisitedKeys(visited)
  }

  /** Taking a link adds its key and its length. */
  lemma Take(visited: Visited, c: Connection)
    requires c.Link?
    ensures VisitedKeys(visited + [(c.k, c.d)]) == VisitedKeys(visited) + {c.k}
    ensures SumD(visited + [(c.k, c.d)]) == SumD(visited) + c.d
  {
    var v := visited + [(c.k, c.d)];
    assert v[..|v| - 1] == visited;
  }

  /** Taking a fresh link of the grid leaves fewer keys to take. */
  lemma TakeShrinks(grid: Grid<Node>, p: Pos, node: Node, r: nat, visited: Visited)
    requires Grids.Get(grid, p) == Some(node) && r < |node| && Fresh(visited)(node[r])
    ensures |LinkKeys(grid) - VisitedKeys(visited + [(node[r].k, node[r].d)])| < |LinkKeys(grid) - VisitedKeys(visited)|
  {
    var k := node[r].k;
    Take(visited, node[r]);
    assert grid[Index(p)] == node;
    assert k in LinkKeys(grid);
    assert LinkKeys(grid) - (VisitedKeys(visited) + {k}) == (LinkKeys(grid) - VisitedKeys(visited)) - {k};
  }

  /** Follows every route from `p` that takes no visited link. A node with
      no fresh link ends a route of one plus the lengths taken, closed when
      the node has no open side; otherwise the longest of the routes through
      its fresh links, closed when the node and every one of them is. A
      missing node fails, as reading one does in the source. */
  function FollowAll(grid: Grid<Node>, p: Pos, visited: Visited): (res: Result<Paths>)
    decreases |LinkKeys(grid) - VisitedKeys(visited)|, 1, 0
    ensures res.Ok? ==> Grids.Get(grid, p).Some?
  {
    match Grids.Get(grid, p)
    case None => Err(MissingNode)
    case Some(node) =>
      if CountIf(node, Fresh(visited)) == 0 then
        Ok(Paths(1 + SumD(visited), !HasOpen(node)))
      else
        var each :- FollowEach(grid, p, node, visited, 0);
        Ok(Paths(each.longestRoute, !HasOpen(node) && each.closed))
  }

  /** The routes through the fresh links on sides `r..` of the node at `p`:
      the longest of them (0 when there is none) and whether all are closed. */
  function FollowEach(grid: Grid<Node>, p: Pos, node: Node, visited: Visited, r: nat): (res: Result<Paths>)
    requires Grids.Get(grid, p) == Some(node) && r <= |node|
    decreases |LinkKeys(grid) - VisitedKeys(visited)|, 0, |node| - r
  {
    if r == |node| then Ok(Paths(0, true))
    else if Fresh(visited)(node[r]) then
      TakeShrinks(grid, p, node, r, visited);
      var here :- FollowAll(grid, node[r].p, visited + [(node[r].k, node[r].d)]);
      var rest :- FollowEach(grid, p, node, visited, r + 1);
      Ok(Paths(Max(here.longestRoute, rest.longestRoute), here.closed && rest.closed))
    else FollowEach(grid, p, node, visited, r + 1)
  }

  /** Without fresh links on sides `r..` there is nothing to follow. */
  lemma {:induction false} FollowEachNone(grid: Grid<Node>, p: Pos, node: Node, visited: Visited, r: nat)
    requires Grids.Get(grid, p) == Some(node) && r <= |node|
    requires CountIf(node, Fresh(visited)) == 0
    decreases |node| - r
    ensures FollowEach(grid, p, node, visited, r) == Ok(Paths(0, true))
  {
    CountIfZero(node, Fresh(visited));
    if r < |node| {
      FollowEachNone(grid, p, node, visited, r + 1);
    }
  }

  // ----- Routes -----

  /** `w` is a route from `p`: each link is a side of the node the route has
      reached, and no link key is taken twice or was taken before. */
  ghost predicate Route(grid: Grid<Node>, p: Pos, visited: Visited, w: seq<Connection>)
    decreases |w|
  {
    |w| == 0 ||
      (&& Grids.Get(grid, p).Some?
       && w[0] in Grids.Get(grid, p).value
       && Fresh(visited)(w[0])
       && Route(grid, w[0].p, visited + [(w[0].k, w[0].d)], w[1..]))
  }

  /** The total length of a route's links. */
  function RouteLength(w: seq<Connection>): nat {
    if |w| == 0 then 0 else (if w[0].Link? then w[0].d else 0) + RouteLength(w[1..])
  }

  /** The cell a route ends at. */
  function RouteEnd(p: Pos, w: seq<Connection>): Pos
    decreases |w|
  {
    if |w| == 0 || !w[0].Link? then p else RouteEnd(w[0].p, w[1..])
  }

  /** One step of following: a node without fresh links ends the route,
      otherwise the result is that of its fresh links. */
  lemma FollowAllStep(grid: Grid<Node>, p: Pos, visited: Visited)
    requires FollowAll(grid, p, visited).Ok?
    ensures Grids.Get(grid, p).Some?
    ensures var node := Grids.Get(grid, p).value;
      CountIf(node, Fresh(visited)) == 0 ==> FollowAll(grid, p, visited).value == Paths(1 + SumD(visited), !HasOpen(node))
    ensures var node := Grids.Get(grid, p).value;
      CountIf(node, Fresh(visited)) > 0 ==>
        && FollowEach(grid, p, node, visited, 0).Ok?
        && FollowAll(grid, p, visited).value == Paths(FollowEach(grid, p, node, visited, 0).value.longestRoute, !HasOpen(node) && FollowEach(grid, p, node, visited, 0).value.closed)
  {
  }

  /** A route from a node continues any route from a neighbour reached by a
      fresh link of the node. */
  lemma RouteCons(grid: Grid<Node>, p: Pos, visited: Visited, c: Connection, w: seq<Connection>)
    requires Grids.Get(grid, p).Some? && c in Grids.Get(grid, p).value && Fresh(visited)(c)
    requires Route(grid, c.p, visited + [(c.k, c.d)], w)
    ensures Route(grid, p, visited, [c] + w)
    ensures RouteLength([c] + w) == c.d + RouteLength(w)
    ensures RouteEnd(p, [c] + w) == RouteEnd(c.p, w)
  {
    assert ([c] + w)[1..] == w;
  }

  /** Following all routes yields at least one plus the lengths taken. */
  lemma {:induction false} FollowAllAtLeast(grid: Grid<Node>, p: Pos, visited: Visited)
    requires FollowAll(grid, p, visited).Ok?
    decreases |LinkKeys(grid) - VisitedKeys(visited)|
    ensures FollowAll(grid, p, visited).value.longestRoute >= 1 + SumD(visited)
  {
    var node := Grids.Get(grid, p).value;
    if CountIf(node, Fresh(visited)) > 0 {
      CountIfZero(node, Fresh(visited));
      var i :| 0 <= i < |node| && Fresh(visited)(node[i]);
      FollowEachCovers(grid, p, node, visited, 0, i);
      TakeShrinks(grid, p, node, i, visited);
      Take(visited, node[i]);
      FollowAllAtLeast(grid, node[i].p, visited + [(node[i].k, node[i].d)]);
    }
  }

  /** The routes through sides `r..` include the one through each fresh
      link among them, and are closed only when that one is. */
  lemma {:induction false} FollowEachCovers(grid: Grid<Node>, p: Pos, node: Node, visited: Visited, r: nat, i: nat)
    requires Grids.Get(grid, p) == Some(node) && r <= i < |node|
    requires Fresh(visited)(node[i]) && FollowEach(grid, p, node, visited, r).Ok?
    decreases |node| - r
    ensures (&& FollowAll(grid, node[i].p, visited + [(node[i].k, node[i].d)]).Ok?
       && FollowEach(grid, p, node, visited, r).value.longestRoute >= FollowAll(grid, node[i].p, visited + [(node[i].k, node[i].d)]).value.longestRoute
       && (FollowEach(grid, p, node, visited, r).value.closed ==> FollowAll(grid, node[i].p, visited + [(node[i].k, node[i].d)]).value.closed))
  {
    if r < i {
      FollowEachCovers(grid, p, node, visited, r + 1, i);
    }
  }

  /** The longest route through sides `r..` is the one through some fresh
      link among them, or 0 when there is none; they are all closed unless
      the one through some fresh link is not. */
  lemma {:induction false} FollowEachPicks(grid: Grid<Node>, p: Pos, node: Node, visited: Visited, r: nat)
    requires Grids.Get(grid, p) == Some(node) && r <= |node|
    requires FollowEach(grid, p, node, visited, r).Ok?
    decreases |node| - r
    ensures var res := FollowEach(grid, p, node, visited, r).value;
      || (res == Paths(0, true) && forall j :: r <= j < |node| ==> !Fresh(visited)(node[j]))
      || (exists i :: r <= i < |node| && Fresh(visited)(node[i]) &&
            FollowAll(grid, node[i].p, visited + [(node[i].k, node[i].d)]).Ok? &&
            FollowAll(grid, node[i].p, visited + [(node[i].k, node[i].d)]).value.longestRoute == res.longestRoute)
    ensures var res := FollowEach(grid, p, node, visited, r).value;
      !res.closed ==>
        exists i :: r <= i < |node| && Fresh(visited)(node[i]) &&
          FollowAll(grid, node[i].p, visited + [(node[i].k, node[i].d)]).Ok? &&
          !FollowAll(grid, node[i].p, visited + [(node[i].k, node[i].d)]).value.closed
  {
    if r < |node| {
      FollowEachPicks(grid, p, node, visited, r + 1);
    }
  }

  /** Every route from `p` is at most as long as the longest one found. */
  lemma {:induction false} FollowAllComplete(grid: Grid<Node>, p: Pos, visited: Visited, w: seq<Connection>)
    requires FollowAll(grid, p, visited).Ok?
    requires Route(grid, p, visited, w)
    decreases |w|
    ensures FollowAll(grid, p, visited).value.longestRoute >= 1 + SumD(visited) + RouteLength(w)
  {
    if |w| == 0 {
      FollowAllAtLeast(grid, p, visited);
    } else {
      var node := Grids.Get(grid, p).value;
      var i :| 0 <= i < |node| && node[i] == w[0];
      CountIfZero(node, Fresh(visited));
      FollowEachCovers(grid, p, node, visited, 0, i);
      TakeShrinks(grid, p, node, i, visited);
      Take(visited, w[0]);
      FollowAllComplete(grid, w[0].p, visited + [(w[0].k, w[0].d)], w[1..]);
    }
  }

  /** The route the longest length found belongs to. */
  lemma {:induction false} LongestRouteOf(grid: Grid<Node>, p: Pos, visited: Visited) returns (w: seq<Connection>)
    requires FollowAll(grid, p, visited).Ok?
    decreases |LinkKeys(grid) - VisitedKeys(visited)|
    ensures Route(grid, p, visited, w)
    ensures FollowAll(grid, p, visited).value.longestRoute == 1 + SumD(visited) + RouteLength(w)
  {
    FollowAllStep(grid, p, visited);
    var node := Grids.Get(grid, p).value;
    if CountIf(node, Fresh(visited)) == 0 {
      w := [];
    } else {
      FollowEachPicks(grid, p, node, visited, 0);
      CountIfZero(node, Fresh(visited));
      var i :| 0 <= i < |node| && Fresh(visited)(node[i]) &&
        FollowAll(grid, node[i].p, visited + [(node[i].k, node[i].d)]).Ok?
        && FollowAll(grid, node[i].p, visited + [(node[i].k, node[i].d)]).value.longestRoute == FollowAll(grid, p, visited).value.longestRoute;
      var v2 := visited + [(node[i].k, node[i].d)];
      TakeShrinks(grid, p, node, i, visited);
      var rest := LongestRouteOf(grid, node[i].p, v2);
      Take(visited, node[i]);
      RouteCons(grid, p, visited, node[i], rest);
      w := [node[i]] + rest;
    }
  }

  /** The longest route found is the length of some route from `p`. */
  lemma FollowAllSound(grid: Grid<Node>, p: Pos, visited: Visited)
    requires FollowAll(grid, p, visited).Ok?
    ensures exists w :: Route(grid, p, visited, w) && FollowAll(grid, p, visited).value.longestRoute == 1 + SumD(visited) + RouteLength(w)
  {
    var w := LongestRouteOf(grid, p, visited);
  }

  /** A route to an open side, when the routes are not all closed. */
  lemma {:induction false} RouteToOpen(grid: Grid<Node>, p: Pos, visited: Visited) returns (w: seq<Connection>)
    requires FollowAll(grid, p, visited).Ok? && !FollowAll(grid, p, visited).value.closed
    decreases |LinkKeys(grid) - VisitedKeys(visited)|
    ensures Route(grid, p, visited, w)
    ensures Grids.Get(grid, RouteEnd(p, w)).Some? && HasOpen(Grids.Get(grid, RouteEnd(p, w)).value)
  {
    FollowAllStep(grid, p, visited);
    var node := Grids.Get(grid, p).value;
    if HasOpen(node) {
      w := [];
    } else {
      CountIfZero(node, Fresh(visited));
      FollowEachPicks(grid, p, node, visited, 0);
      var i :| 0 <= i < |node| && Fresh(visited)(node[i]) &&
        FollowAll(grid, node[i].p, visited + [(node[i].k, node[i].d)]).Ok? && !FollowAll(grid, node[i].p, visited + [(node[i].k, node[i].d)]).value.closed;
      var v2 := visited + [(node[i].k, node[i].d)];
      TakeShrinks(grid, p, node, i, visited);
      var rest := RouteToOpen(grid, node[i].p, v2);
      RouteCons(grid, p, visited, node[i], rest);
      w := [node[i]] + rest;
    }
  }

  /** When the routes are all closed, no route ends at an open side. */
  lemma {:induction false} ClosedRoutesAvoidOpen(grid: Grid<Node>, p: Pos, visited: Visited, w: seq<Connection>)
    requires FollowAll(grid, p, visited).Ok? && FollowAll(grid, p, visited).value.closed
    requires Route(grid, p, visited, w)
    decreases |w|
    ensures !(Grids.Get(grid, RouteEnd(p, w)).Some? && HasOpen(Grids.Get(grid, RouteEnd(p, w)).value))
  {
    FollowAllStep(grid, p, visited);
    var node := Grids.Get(grid, p).value;
    if |w| > 0 {
      var i :| 0 <= i < |node| && node[i] == w[0];
      CountIfZero(node, Fresh(visited));
      FollowEachCovers(grid, p, node, visited, 0, i);
      ClosedRoutesAvoidOpen(grid, w[0].p, visited + [(w[0].k, w[0].d)], w[1..]);
    }
  }

  /** The routes from `p` are all closed exactly when no route ends at a
      node with an open side. */
  lemma FollowAllClosed(grid: Grid<Node>, p: Pos, visited: Visited)
    requires FollowAll(grid, p, visited).Ok?
    ensures !FollowAll(grid, p, visited).value.closed <==>
      exists w :: Route(grid, p, visited, w) && Grids.Get(grid, RouteEnd(p, w)).Some? && HasOpen(Grids.Get(grid, RouteEnd(p, w)).value)
  {
    if !FollowAll(grid, p, visited).value.closed {
      var w := RouteToOpen(grid, p, visited);
    } else {
      forall w: seq<Connection> | Route(grid, p, visited, w)
        ensures !(Grids.Get(grid, RouteEnd(p, w)).Some? && HasOpen(Grids.Get(grid, RouteEnd(p, w)).value))
      {
        ClosedRoutesAvoidOpen(grid, p, visited, w);
      }
    }
  }

  // ----- The longest route of the network -----

  /** Follows all routes from each position in turn. */
  function FollowFrom(grid: Grid<Node>, ps: seq<Pos>): (res: Result<seq<Paths>>)
    ensures res.Ok? <==> forall k :: 0 <= k < |ps| ==> FollowAll(grid, ps[k], []).Ok?
    ensures res.Ok? ==> |res.value| == |ps| && forall k :: 0 <= k < |ps| ==> FollowAll(grid, ps[k], []) == Ok(res.value[k])
  {
    if |ps| == 0 then Ok([])
    else
      var here :- FollowAll(grid, ps[0], []);
      var rest :- FollowFrom(grid, ps[1..]);
      assert forall k :: 1 <= k < |ps| ==> ps[1..][k - 1] == ps[k];
      Ok([here] + rest)
  }

  /** The longest of the routes found, or 0. */
  function MaxRoute(paths: seq<Paths>): (m: nat)
    ensures forall k :: 0 <= k < |paths| ==> paths[k].longestRoute <= m
    ensures |paths| > 0 ==> exists k :: 0 <= k < |paths| && paths[k].longestRoute == m
  {
    if |paths| == 0 then 0
    else
      var m := MaxRoute(paths[1..]);
      assert forall k :: 1 <= k < |paths| ==> paths[1..][k - 1] == paths[k];
      Max(paths[0].longestRoute, m)
  }

  /** The grid without the positions whose routes are all closed. */
  function DeleteClosed(grid: Grid<Node>, ps: seq<Pos>, paths: seq<Paths>): (res: Grid<Node>)
    requires |paths| == |ps|
    ensures forall q :: (exists k :: 0 <= k < |ps| && paths[k].closed && Index(ps[k]) == Index(q)) ==> Grids.Get(res, q).None?
    ensures forall q :: (forall k :: 0 <= k < |ps| && paths[k].closed ==> Index(ps[k]) != Index(q)) ==> Grids.Get(res, q) == Grids.Get(grid, q)
  {
    if |ps| == 0 then grid
    else
      var rest := DeleteClosed(grid, ps[1..], paths[1..]);
      assert forall k :: 1 <= k < |ps| ==> ps[1..][k - 1] == ps[k] && paths[1..][k - 1] == paths[k];
      if paths[0].closed then Grids.Delete(rest, ps[0]) else rest
  }

  /** The longest route so far after looking at every node: the previous
      best when the network is empty, otherwise the larger of it and the
      longest route from any node; the network keeps that best and loses
      every node all of whose routes are closed. */
  function GetLongestRoute(net: TrackNetwork): (res: Result<(nat, TrackNetwork)>)
    ensures res.Ok? ==> res.value.0 >= net.longestRouteSoFar && res.value.1.longestRouteSoFar == res.value.0
    ensures res.Ok? ==> res.value.1.trackType == net.trackType
    ensures |Grids.Keys(net.grid)| == 0 ==> res == Ok((net.longestRouteSoFar, net))
  {
    var ps := Grids.Keys(net.grid);
    if |ps| == 0 then Ok((net.longestRouteSoFar, net))
    else
      var paths :- FollowFrom(net.grid, ps);
      var best := Max(net.longestRouteSoFar, MaxRoute(paths));
      Ok((best, TrackNetwork(net.trackType, DeleteClosed(net.grid, ps, paths), best)))
  }

  /** The new best is the old one or the longest route from some node, and
      no route from any node is longer. */
  lemma GetLongestRouteBest(net: TrackNetwork, q: Pos)
    requires GetLongestRoute(net).Ok?
    requires InBounds(q) && Grids.Get(net.grid, q).Some?
    ensures FollowAll(net.grid, q, []).Ok?
    ensures FollowAll(net.grid, q, []).value.longestRoute <= GetLongestRoute(net).value.0
    ensures var best := GetLongestRoute(net).value.0;
      best == net.longestRouteSoFar || exists k :: 0 <= k < |Grids.Keys(net.grid)| && FollowAll(net.grid, Grids.Keys(net.grid)[k], []).value.longestRoute == best
  {
    KeysExactlyDefined(net.grid, q);
  }

  /** A node leaves the network exactly when all routes from it are closed;
      every other cell is kept. */
  lemma GetLongestRouteDropsClosed(net: TrackNetwork, q: Pos)
    requires GetLongestRoute(net).Ok? && InBounds(q) && Grids.Get(net.grid, q).Some?
    ensures FollowAll(net.grid, q, []).Ok?
    ensures var g := GetLongestRoute(net).value.1.grid;
      Grids.Get(g, q) == if FollowAll(net.grid, q, []).value.closed then None else Grids.Get(net.grid, q)
  {
    var ps := Grids.Keys(net.grid);
    KeysExactlyDefined(net.grid, q);
    var k :| 0 <= k < |ps| && ps[k] == q;
    var paths := FollowFrom(net.grid, ps).value;
    assert GetLongestRoute(net).value.1.grid == DeleteClosed(net.grid, ps, paths);
    KeysApart(net.grid, k);
    DeleteClosedAt(net.grid, ps, paths, k);
  }

  /** Cells off the network stay off it. */
  lemma GetLongestRouteKeepsEmpty(net: TrackNetwork, q: Pos)
    requires GetLongestRoute(net).Ok? && InBounds(q) && Grids.Get(net.grid, q).None?
    ensures Grids.Get(GetLongestRoute(net).value.1.grid, q).None?
  {
    if |Grids.Keys(net.grid)| > 0 {
      DeletionKeepsEmpty(net, q);
    }
  }

  lemma DeletionKeepsEmpty(net: TrackNetwork, q: Pos)
    requires GetLongestRoute(net).Ok? && InBounds(q) && Grids.Get(net.grid, q).None?
    requires |Grids.Keys(net.grid)| > 0
    ensures Grids.Get(GetLongestRoute(net).value.1.grid, q).None?
  {
    var ps := Grids.Keys(net.grid);
    var paths := FollowFrom(net.grid, ps).value;
    assert GetLongestRoute(net).value.1.grid == DeleteClosed(net.grid, ps, paths);
    KeysDefined(net.grid);
    DeleteClosedKeepsEmpty(net.grid, ps, paths, q);
  }

  /** Every node position holds a node. */
  lemma KeysDefined(grid: Grid<Node>)
    ensures forall j :: 0 <= j < |Grids.Keys(grid)| ==> Grids.Get(grid, Grids.Keys(grid)[j]).Some?
  {
    var es := Entries(grid);
    assert forall j :: 0 <= j < |Grids.Keys(grid)| ==> Grids.Keys(grid)[j] == es[j].0;
  }

  /** The node positions have distinct indexes. */
  lemma KeysApart(grid: Grid<Node>, k: nat)
    requires k < |Grids.Keys(grid)|
    ensures forall j :: 0 <= j < |Grids.Keys(grid)| && j != k ==> Index(Grids.Keys(grid)[j]) != Index(Grids.Keys(grid)[k])
  {
    var es := Entries(grid);
    forall j | 0 <= j < |Grids.Keys(grid)| && j != k
      ensures Index(Grids.Keys(grid)[j]) != Index(Grids.Keys(grid)[k])
    {
      if j < k {
        assert Index(es[j].0) < Index(es[k].0);
      } else {
        assert Index(es[k].0) < Index(es[j].0);
      }
    }
  }

  /** Deleting node positions leaves an empty cell empty. */
  lemma DeleteClosedKeepsEmpty(grid: Grid<Node>, ps: seq<Pos>, paths: seq<Paths>, q: Pos)
    requires |paths| == |ps| && Grids.Get(grid, q).None?
    requires forall j :: 0 <= j < |ps| ==> Grids.Get(grid, ps[j]).Some?
    ensures Grids.Get(DeleteClosed(grid, ps, paths), q).None?
  {
    forall j | 0 <= j < |ps| && paths[j].closed
      ensures Index(ps[j]) != Index(q)
    {
      assert Grids.Get(grid, ps[j]).Some?;
    }
  }

  /** The cell of position `k` is deleted exactly when its routes are closed,
      provided no other position shares its index. */
  lemma DeleteClosedAt(grid: Grid<Node>, ps: seq<Pos>, paths: seq<Paths>, k: nat)
    requires |paths| == |ps| && k < |ps|
    requires forall j :: 0 <= j < |ps| && j != k ==> Index(ps[j]) != Index(ps[k])
    ensures Grids.Get(DeleteClosed(grid, ps, paths), ps[k]) == if paths[k].closed then None else Grids.Get(grid, ps[k])
  {
  }
}
