/** The incremental longest-route graph of one track type
    (src/logic/TrackNetwork.ts): a node per tile carrying the type, one
    connection per side, with chains of two-link nodes contracted into a
    single link whose length is the sum, and dead-end leaves pruned. */
module TrackNetworks {
  import opened Wrappers
  import opened Types
  import opened Helpers
  import opened Grids

  /** The key of a link: the cell and side it was first laid from. The
      source writes it as the digits of y, x and r, which tells keys of
      on-board cells apart. */
  datatype LinkKey = LinkKey(y: int, x: int, r: Rotation)

  /** A node side: no track (`null`), track towards an empty cell, or a link
      of length `d` to the node at `p`. */
  datatype Connection = Dead | Open | Link(p: Pos, k: LinkKey, d: nat)

  type Node = seq<Connection>

  datatype TrackNetwork = TrackNetwork(trackType: TrackType, grid: Grid<Node>, longestRouteSoFar: nat)

  /** The network a game starts with: no nodes, no route yet. */
  function NewNetwork(t: TrackType): (net: TrackNetwork)
    ensures net.trackType == t && net.longestRouteSoFar == 0
    ensures forall q :: Grids.Get(net.grid, q).None?
  {
    TrackNetwork(t, Empty(), 0)
  }

  // ----- Nodes -----

  /** `Array.prototype.slice(start, end)`: negative bounds count from the
      end, and every bound is clamped to the sequence. */
  function Slice(s: Node, start: int, end: int): (res: Node)
    ensures 0 <= start <= end <= |s| ==> res == s[start..end]
  {
    var a := if start < 0 then (if |s| + start < 0 then 0 else |s| + start) else (if start > |s| then |s| else start);
    var b := if end < 0 then (if |s| + end < 0 then 0 else |s| + end) else (if end > |s| then |s| else end);
    if a < b then s[a..b] else []
  }

  /** The node with side `r` replaced by `value`, built from two slices as
      the source does. */
  function UpdateNode(node: Node, r: int, value: Connection): (res: Node)
    ensures 0 <= r < |node| ==> |res| == |node| && res[r] == value
    ensures 0 <= r < |node| ==> forall i :: 0 <= i < |node| && i != r ==> res[i] == node[i]
  {
    Slice(node, 0, r) + [value] + Slice(node, r + 1, |node|)
  }

  /** A side index of -1, the result of a failed `findIndex`, makes the
      slices keep all but the last side and then the whole node again. */
  lemma UpdateNodeMinusOne(node: Node, value: Connection)
    requires |node| > 0
    ensures UpdateNode(node, -1, value) == node[..|node| - 1] + [value] + node
    ensures |UpdateNode(node, -1, value)| == 2 * |node|
  {
  }

  /** Replaces side `r` of the node at `p`; fails when there is no node. */
  function ModifyNode(grid: Grid<Node>, p: Pos, r: int, c: Connection): (res: Result<Grid<Node>>)
    ensures res.Ok? <==> Grids.Get(grid, p).Some?
    ensures res.Err? ==> res.error == MissingNode
    ensures res.Ok? ==> Grids.Get(res.value, p) == Some(UpdateNode(Grids.Get(grid, p).value, r, c))
    ensures res.Ok? ==> forall q :: Index(q) != Index(p) ==> Grids.Get(res.value, q) == Grids.Get(grid, q)
    ensures res.Ok? ==> res.value.Keys == grid.Keys
  {
    match Grids.Get(grid, p)
    case None => Err(MissingNode)
    case Some(node) => Ok(Grids.Set(grid, p, UpdateNode(node, r, c)))
  }

  predicate IsLink(c: Connection) {
    c.Link?
  }

  predicate IsLive(c: Connection) {
    c != Dead
  }

  /** The number of sides satisfying `f`. */
  function CountIf(node: Node, f: Connection -> bool): (n: nat)
    ensures n <= |node|
  {
    if |node| == 0 then 0 else (if f(node[0]) then 1 else 0) + CountIf(node[1..], f)
  }

  /** Exactly one side satisfies `f`. */
  ghost predicate ExactlyOne(node: Node, f: Connection -> bool) {
    exists i :: 0 <= i < |node| && f(node[i]) && forall j :: 0 <= j < |node| && j != i ==> !f(node[j])
  }

  /** No side satisfies `f` exactly when the count is 0. */
  lemma {:induction false} CountIfZero(node: Node, f: Connection -> bool)
    ensures CountIf(node, f) == 0 <==> forall i :: 0 <= i < |node| ==> !f(node[i])
  {
    if |node| > 0 {
      CountIfZero(node[1..], f);
      assert forall i :: 1 <= i < |node| ==> node[1..][i - 1] == node[i];
    }
  }

  /** The count is 1 exactly when one side, and only that one, satisfies `f`. */
  lemma {:induction false} CountIfOne(node: Node, f: Connection -> bool)
    ensures CountIf(node, f) == 1 <==> ExactlyOne(node, f)
  {
    if |node| > 0 {
      var rest := node[1..];
      CountIfOne(rest, f);
      CountIfZero(rest, f);
      assert forall i :: 1 <= i < |node| ==> rest[i - 1] == node[i];
      if CountIf(node, f) == 1 {
        if f(node[0]) {
          assert forall j :: 0 <= j < |node| && j != 0 ==> !f(node[j]);
        } else {
          var i :| 0 <= i < |rest| && f(rest[i]) && forall j :: 0 <= j < |rest| && j != i ==> !f(rest[j]);
          assert f(node[i + 1]);
          assert forall j :: 0 <= j < |node| && j != i + 1 ==> !f(node[j]) by {
            forall j | 0 <= j < |node| && j != i + 1
              ensures !f(node[j])
            {
              if j > 0 {
                assert rest[j - 1] == node[j];
              }
            }
          }
        }
      }
      if ExactlyOne(node, f) {
        var i :| 0 <= i < |node| && f(node[i]) && forall j :: 0 <= j < |node| && j != i ==> !f(node[j]);
        if i == 0 {
          assert CountIf(rest, f) == 0;
        } else {
          assert !f(node[0]);
          assert rest[i - 1] == node[i];
          assert forall j :: 0 <= j < |rest| && j != i - 1 ==> !f(rest[j]) by {
            forall j | 0 <= j < |rest| && j != i - 1
              ensures !f(rest[j])
            {
              assert rest[j] == node[j + 1];
            }
          }
        }
      }
    }
  }

  function CountLinks(node: Node): nat {
    CountIf(node, IsLink)
  }

  /** A leaf has exactly one side that is not `null`. */
  predicate IsLeafNode(node: Node) {
    CountIf(node, IsLive) == 1
  }

  /** A node is a leaf exactly when one side carries a connection and every
      other side is `null`. */
  lemma IsLeafNodeIff(node: Node)
    ensures IsLeafNode(node) <==> ExactlyOne(node, IsLive)
  {
    CountIfOne(node, IsLive);
  }

  predicate HasOpen(node: Node) {
    exists i :: 0 <= i < |node| && node[i].Open?
  }

  /** `findIndex` from side `i` on: the first side satisfying `f`, or -1. */
  function FindFirst(node: Node, f: Connection -> bool, i: nat): (res: int)
    requires i <= |node|
    decreases |node| - i
    ensures res == -1 || (i <= res < |node| && f(node[res]))
    ensures res == -1 <==> forall j :: i <= j < |node| ==> !f(node[j])
    ensures res >= 0 ==> forall j :: i <= j < res ==> !f(node[j])
  {
    if i == |node| then -1
    else if f(node[i]) then i
    else FindFirst(node, f, i + 1)
  }

  /** `findLast`/`findLastIndex` below side `n`: the last side satisfying `f`, or -1. */
  function FindLast(node: Node, f: Connection -> bool, n: nat): (res: int)
    requires n <= |node|
    ensures res == -1 || (0 <= res < n && f(node[res]))
    ensures res == -1 <==> forall j :: 0 <= j < n ==> !f(node[j])
    ensures res >= 0 ==> forall j :: res < j < n ==> !f(node[j])
  {
    if n == 0 then -1
    else if f(node[n - 1]) then n - 1
    else FindLast(node, f, n - 1)
  }

  /** The side test "a link to `q`". */
  function LinkTo(q: Pos): Connection -> bool {
    (c: Connection) => c.Link? && c.p == q
  }

  /** The node at `p`, failing like the source's non-null assertion does
      when there is none. */
  function NodeAt(grid: Grid<Node>, p: Pos): (res: Result<Node>)
    ensures res.Ok? <==> Grids.Get(grid, p).Some?
    ensures res.Ok? ==> res.value == Grids.Get(grid, p).value
  {
    match Grids.Get(grid, p)
    case None => Err(MissingNode)
    case Some(node) => Ok(node)
  }

  // ----- Contracting two-link nodes -----

  /** The node at `cpp` is a passthrough: present, with no open side,
      exactly two links, and not the last node of a closed loop (its first
      link does not point back at itself). */
  predicate IsPassthrough(grid: Grid<Node>, cpp: Pos) {
    && Grids.Get(grid, cpp).Some?
    && var cpn := Grids.Get(grid, cpp).value;
    && !HasOpen(cpn)
    && CountLinks(cpn) == 2
    && FindFirst(cpn, IsLink, 0) >= 0
    && cpn[FindFirst(cpn, IsLink, 0)].p != cpp
  }

  /** Contracts the node at `cpp` when it is a passthrough: its first
      neighbour's link back to it now leads to its last neighbour, and the
      reverse, both with the first link's key and the summed length; the
      node is then deleted. Anything else leaves the grid as it is. */
  function PrunePassthrough(grid: Grid<Node>, cpp: Pos): (res: Result<Grid<Node>>)
    ensures res.Ok? ==> res.value.Keys <= grid.Keys
    ensures !IsPassthrough(grid, cpp) ==> res == Ok(grid)
  {
    if !IsPassthrough(grid, cpp) then Ok(grid)
    else
      var cpn := Grids.Get(grid, cpp).value;
      CountIfZero(cpn, IsLink);
      var left := cpn[FindFirst(cpn, IsLink, 0)];
      var right := cpn[FindLast(cpn, IsLink, |cpn|)];
      var d := left.d + right.d;
      match Grids.Get(grid, left.p)
      case None => Err(MissingNode)
      case Some(leftNode) =>
        var g1 := Grids.Set(grid, left.p, UpdateNode(leftNode, FindFirst(leftNode, LinkTo(cpp), 0), Link(right.p, left.k, d)));
        match Grids.Get(g1, right.p)
        case None => Err(MissingNode)
        case Some(rightNode) =>
          var g2 := Grids.Set(g1, right.p, UpdateNode(rightNode, FindFirst(rightNode, LinkTo(cpp), 0), Link(left.p, left.k, d)));
          Ok(Grids.Delete(g2, cpp))
  }

  /** On a passthrough whose two neighbours are distinct cells that each
      link back to it, the contraction succeeds, removes the node, relinks
      the neighbours to each other with the summed length and changes no
      other cell. */
  lemma PrunePassthroughRelinks(grid: Grid<Node>, cpp: Pos, a: Pos, b: Pos, ra: int, rb: int)
    requires IsPassthrough(grid, cpp)
    requires var cpn := Grids.Get(grid, cpp).value;
      a == cpn[FindFirst(cpn, IsLink, 0)].p && b == cpn[FindLast(cpn, IsLink, |cpn|)].p
    requires Index(a) != Index(b) && Index(a) != Index(cpp) && Index(b) != Index(cpp)
    requires Grids.Get(grid, a).Some? && ra == FindFirst(Grids.Get(grid, a).value, LinkTo(cpp), 0)
    requires Grids.Get(grid, b).Some? && rb == FindFirst(Grids.Get(grid, b).value, LinkTo(cpp), 0)
    ensures PrunePassthrough(grid, cpp).Ok?
    ensures var cpn := Grids.Get(grid, cpp).value;
      var left := cpn[FindFirst(cpn, IsLink, 0)];
      var right := cpn[FindLast(cpn, IsLink, |cpn|)];
      var g := PrunePassthrough(grid, cpp).value;
      && Grids.Get(g, cpp).None?
      && Grids.Get(g, a) == Some(UpdateNode(Grids.Get(grid, a).value, ra, Link(b, left.k, left.d + right.d)))
      && Grids.Get(g, b) == Some(UpdateNode(Grids.Get(grid, b).value, rb, Link(a, left.k, left.d + right.d)))
      && forall q :: Index(q) != Index(cpp) && Index(q) != Index(a) && Index(q) != Index(b) ==> Grids.Get(g, q) == Grids.Get(grid, q)
  {
    var cpn := Grids.Get(grid, cpp).value;
    CountIfZero(cpn, IsLink);
  }

  /** Contracts each candidate in turn, each seeing the previous ones' work. */
  function PrunePassthroughs(grid: Grid<Node>, cands: seq<Pos>): (res: Result<Grid<Node>>)
    ensures res.Ok? ==> res.value.Keys <= grid.Keys
  {
    if |cands| == 0 then Ok(grid)
    else
      var g1 :- PrunePassthrough(grid, cands[0]);
      PrunePassthroughs(g1, cands[1..])
  }

  // ----- Pruning leaves -----

  /** Every link of the node leads to a node of the grid. */
  predicate TargetsPresent(grid: Grid<Node>, node: Node) {
    forall i :: 0 <= i < |node| && node[i].Link? ==> Grids.Get(grid, node[i].p).Some?
  }

  /** Open, or a link to a node that is not a leaf. */
  function OpenOrNonLeaf(grid: Grid<Node>): Connection -> bool {
    (c: Connection) => c.Open? || (c.Link? && Grids.Get(grid, c.p).Some? && !IsLeafNode(Grids.Get(grid, c.p).value))
  }

  /** The shortest length among the node's links. */
  function MinLinkD(node: Node): (m: nat)
    requires CountLinks(node) > 0
    ensures exists i :: 0 <= i < |node| && node[i].Link? && node[i].d == m
    ensures forall i :: 0 <= i < |node| && node[i].Link? ==> m <= node[i].d
  {
    if node[0].Link? && CountLinks(node[1..]) == 0 then
      CountIfZero(node[1..], IsLink);
      assert forall i :: 1 <= i < |node| ==> node[1..][i - 1] == node[i];
      node[0].d
    else if !node[0].Link? then
      var m := MinLinkD(node[1..]);
      var i :| 0 <= i < |node[1..]| && node[1..][i].Link? && node[1..][i].d == m;
      assert node[i + 1] == node[1..][i];
      assert forall i :: 1 <= i < |node| ==> node[1..][i - 1] == node[i];
      m
    else
      var m := MinLinkD(node[1..]);
      var i :| 0 <= i < |node[1..]| && node[1..][i].Link? && node[1..][i].d == m;
      assert node[i + 1] == node[1..][i];
      assert forall i :: 1 <= i < |node| ==> node[1..][i - 1] == node[i];
      if node[0].d < m then node[0].d else m
  }

  /** A link of length `m` to a leaf. */
  function ShortLeaf(grid: Grid<Node>, m: nat): Connection -> bool {
    (c: Connection) => c.Link? && c.d == m && Grids.Get(grid, c.p).Some? && IsLeafNode(Grids.Get(grid, c.p).value)
  }

  /** A link of length `m`. */
  function ShortLink(m: nat): Connection -> bool {
    (c: Connection) => c.Link? && c.d == m
  }

  /** The side of the link the source's sort puts first: the comparator
      orders links by length and puts a leaf link ahead of a link of equal
      length, which on a node's three or four links leaves the last
      shortest link to a leaf first, or the first shortest link when none
      leads to a leaf. */
  function Shortest(grid: Grid<Node>, node: Node): (r: nat)
    requires CountLinks(node) > 0
    ensures r < |node| && node[r].Link? && node[r].d == MinLinkD(node)
    ensures (exists i :: 0 <= i < |node| && ShortLeaf(grid, MinLinkD(node))(node[i])) ==>
      ShortLeaf(grid, MinLinkD(node))(node[r])
  {
    var m := MinLinkD(node);
    var l := FindLast(node, ShortLeaf(grid, m), |node|);
    if l >= 0 then l
    else
      var f := FindFirst(node, ShortLink(m), 0);
      assert f >= 0 by {
        var i :| 0 <= i < |node| && node[i].Link? && node[i].d == m;
        assert ShortLink(m)(node[i]);
      }
      f
  }

  /** One visit of the leaf pruning at the node `node` at `p`: a node with
      three or more links, at most one of them open or leading to a
      non-leaf, loses its shortest link when that link leads to a leaf; the
      leaf is deleted and the node contracted if it became a passthrough.
      The second component tells whether anything was pruned. */
  function PruneAt(grid: Grid<Node>, p: Pos, node: Node): (res: Result<(Grid<Node>, bool)>)
    requires Grids.Get(grid, p) == Some(node)
    ensures res.Ok? ==> res.value.0.Keys <= grid.Keys
    ensures res.Ok? && res.value.1 ==> |res.value.0.Keys| < |grid.Keys|
    ensures res.Ok? && !res.value.1 ==> res.value.0 == grid
  {
    if CountLinks(node) < 3 then Ok((grid, false))
    else if !TargetsPresent(grid, node) then Err(MissingNode)
    else if CountIf(node, OpenOrNonLeaf(grid)) > 1 then Ok((grid, false))
    else
      var r := Shortest(grid, node);
      var leaf := node[r].p;
      if !IsLeafNode(Grids.Get(grid, leaf).value) then Ok((grid, false))
      else
        CountIfImplies(node, IsLink, IsLive);
        assert Index(leaf) != Index(p);
        var g1 := Grids.Delete(grid, leaf);
        var g2 := Grids.Set(g1, p, UpdateNode(node, r, Dead));
        assert g2.Keys == grid.Keys - {Index(leaf)};
        DropCard(g2.Keys, grid.Keys, Index(leaf));
        var g3 :- PrunePassthroughs(g2, [p]);
        SubCard(g3.Keys, g2.Keys);
        Ok((g3, true))
  }

  /** A test implied by another is met by no more sides. */
  lemma {:induction false} CountIfImplies(node: Node, f: Connection -> bool, g: Connection -> bool)
    requires forall c :: f(c) ==> g(c)
    ensures CountIf(node, f) <= CountIf(node, g)
  {
    if |node| > 0 {
      CountIfImplies(node[1..], f, g);
    }
  }

  /** One pass over the cells from flat index `i` on, in row-major order,
      each read as it is when the pass reaches it. */
  function PrunePass(grid: Grid<Node>, i: nat, changed: bool): (res: Result<(Grid<Node>, bool)>)
    requires i <= Size * Size
    decreases Size * Size - i
    ensures res.Ok? ==> res.value.0.Keys <= grid.Keys
    ensures res.Ok? && res.value.1 && !changed ==> |res.value.0.Keys| < |grid.Keys|
    ensures res.Ok? && !res.value.1 ==> res.value.0 == grid && !changed
  {
    if i == Size * Size then Ok((grid, changed))
    else
      match Grids.Get(grid, PosOf(i))
      case None => PrunePass(grid, i + 1, changed)
      case Some(node) =>
        var step :- PruneAt(grid, PosOf(i), node);
        var rest :- PrunePass(step.0, i + 1, changed || step.1);
        SubCard(rest.0.Keys, step.0.Keys);
        Ok(rest)
  }

  /** Passes until one prunes nothing; every pruning pass deletes a node, so
      the passes stop. */
  function PruneLeaves(grid: Grid<Node>): (res: Result<Grid<Node>>)
    decreases |grid.Keys|
    ensures res.Ok? ==> res.value.Keys <= grid.Keys
  {
    var pass :- PrunePass(grid, 0, false);
    if pass.1 then PruneLeaves(pass.0) else Ok(pass.0)
  }

  /** Splits the size of a set by a subset of it. */
  lemma SubCard(a: set<int>, b: set<int>)
    requires a <= b
    ensures |b| == |a| + |b - a|
  {
    assert b == a + (b - a);
    assert a * (b - a) == {};
  }

  /** Taking out a member makes a set smaller. */
  lemma DropCard(a: set<int>, b: set<int>, x: int)
    requires a <= b && x in b && x !in a
    ensures |a| < |b|
  {
    SubCard(a, b);
    assert x in b - a;
  }

  /** A pruned grid is one no pass changes any more. */
  lemma {:induction false} PruneLeavesSettles(grid: Grid<Node>)
    decreases |grid.Keys|
    requires PruneLeaves(grid).Ok?
    ensures PrunePass(PruneLeaves(grid).value, 0, false) == Ok((PruneLeaves(grid).value, false))
  {
    var pass := PrunePass(grid, 0, false).value;
    if pass.1 {
      PruneLeavesSettles(pass.0);
    }
  }

  // ----- Laying a tile -----

  /** The key of the link laid from side `r` of `p`. */
  function KeyOf(p: Pos, r: Rotation): LinkKey {
    LinkKey(p.y, p.x, r)
  }

  /** The grid and the modified positions after the sides `r..3` of `tile`
      without track cut the facing side of any neighbouring node. */
  function CutDeadSides(grid: Grid<Node>, p: Pos, tile: TileString, r: nat, modified: seq<Pos>): (res: (Grid<Node>, seq<Pos>))
    requires r <= 4
    decreases 4 - r
    ensures res.0.Keys == grid.Keys
  {
    if r == 4 then (grid, modified)
    else if tile.sides[r] == NoTrack && Step(p, r).Some? && Grids.Get(grid, Step(p, r).value).Some? then
      var q := Step(p, r).value;
      var g1 := Grids.Set(grid, q, UpdateNode(Grids.Get(grid, q).value, FlipRotation(r), Dead));
      CutDeadSides(g1, p, tile, r + 1, modified + [q])
    else CutDeadSides(grid, p, tile, r + 1, modified)
  }

  /** What side `r` of a node laid at `p` holds, read off the tiles alone:
      `null` without track of the type or off the board, open towards an
      empty cell, `null` when the neighbouring tile has no track on the
      facing side, and otherwise a link of length 1 keyed by this side. */
  function SideConnection(p: Pos, tile: TileString, t: TrackType, tiles: Grid<TileString>, r: Rotation): (c: Connection)
    ensures c.Link? <==> (tile.sides[r] == t && Step(p, r).Some? && Grids.Get(tiles, Step(p, r).value).Some?
      && Grids.Get(tiles, Step(p, r).value).value.sides[FlipRotation(r)] != NoTrack)
    ensures c.Link? ==> c == Link(Step(p, r).value, KeyOf(p, r), 1)
    ensures c.Open? <==> tile.sides[r] == t && Step(p, r).Some? && Grids.Get(tiles, Step(p, r).value).None?
  {
    if tile.sides[r] != t then Dead
    else match Step(p, r)
      case None => Dead
      case Some(q) =>
        match Grids.Get(tiles, q)
        case None => Open
        case Some(stepTile) =>
          if stepTile.sides[FlipRotation(r)] == NoTrack then Dead else Link(q, KeyOf(p, r), 1)
  }

  /** Lays side `r`: a link is also written, with the same key, on the
      neighbour's facing side, which fails when the neighbour has no node. */
  function LaySide(grid: Grid<Node>, p: Pos, tile: TileString, t: TrackType, tiles: Grid<TileString>, r: Rotation): (res: Result<(Grid<Node>, Connection, seq<Pos>)>)
    ensures res.Ok? ==> res.value.1 == SideConnection(p, tile, t, tiles, r) && res.value.0.Keys == grid.Keys
    ensures res.Ok? && res.value.1.Link? ==>
      && Grids.Get(grid, res.value.1.p).Some?
      && Grids.Get(res.value.0, res.value.1.p) == Some(UpdateNode(Grids.Get(grid, res.value.1.p).value, FlipRotation(r), Link(p, KeyOf(p, r), 1)))
      && forall q :: Index(q) != Index(res.value.1.p) ==> Grids.Get(res.value.0, q) == Grids.Get(grid, q)
    ensures res.Ok? && !res.value.1.Link? ==> res.value.0 == grid && res.value.2 == []
    ensures res.Err? <==> SideConnection(p, tile, t, tiles, r).Link? && Grids.Get(grid, SideConnection(p, tile, t, tiles, r).p).None?
  {
    var c := SideConnection(p, tile, t, tiles, r);
    if c.Link? then
      var g1 :- ModifyNode(grid, c.p, FlipRotation(r), Link(p, c.k, 1));
      Ok((g1, c, [c.p]))
    else Ok((grid, c, []))
  }

  /** Lays sides `r..3` in order, each seeing the neighbours the earlier
      ones linked. */
  function LaySides(grid: Grid<Node>, p: Pos, tile: TileString, t: TrackType, tiles: Grid<TileString>, r: nat): (res: Result<(Grid<Node>, Node, seq<Pos>)>)
    requires r <= 4
    decreases 4 - r
    ensures res.Ok? ==> |res.value.1| == 4 - r && res.value.0.Keys == grid.Keys
    ensures res.Ok? ==> forall j :: r <= j < 4 ==> res.value.1[j - r] == SideConnection(p, tile, t, tiles, j)
  {
    if r == 4 then Ok((grid, [], []))
    else
      var here :- LaySide(grid, p, tile, t, tiles, r);
      var rest :- LaySides(here.0, p, tile, t, tiles, r + 1);
      Ok((rest.0, [here.1] + rest.1, here.2 + rest.2))
  }

  /** The grid before pruning and the positions to reconsider: dead sides
      cut first, then, when the tile carries the network's type, the new
      node laid at `p` with its links. */
  function Lay(net: TrackNetwork, p: Pos, tile: TileString, tiles: Grid<TileString>): (res: Result<(Grid<Node>, seq<Pos>)>)
  {
    var cut := CutDeadSides(net.grid, p, tile, 0, []);
    if HasTrackType(tile, net.trackType) then
      var laid :- LaySides(cut.0, p, tile, net.trackType, tiles, 0);
      Ok((Grids.Set(laid.0, p, laid.1), cut.1 + [p] + laid.2))
    else Ok((cut.0, cut.1))
  }

  /** Places `tile` at `p` (with `tiles` the board's tiles): the receiver
      itself when nothing was touched, otherwise a new network over the
      laid, contracted and pruned grid with the same best route. */
  function Update(net: TrackNetwork, p: Pos, tile: TileString, tiles: Grid<TileString>): (res: Result<TrackNetwork>)
    ensures res.Ok? ==> res.value.trackType == net.trackType && res.value.longestRouteSoFar == net.longestRouteSoFar
  {
    var laid :- Lay(net, p, tile, tiles);
    if |laid.1| == 0 then Ok(net)
    else
      var g1 :- PrunePassthroughs(laid.0, laid.1);
      var g2 :- PruneLeaves(g1);
      Ok(TrackNetwork(net.trackType, g2, net.longestRouteSoFar))
  }

  /** Every node of the grid has one connection per side. */
  ghost predicate WellFormed(grid: Grid<Node>) {
    forall i :: i in grid ==> |grid[i]| == 4
  }

  /** Replacing one side of a node keeps every node four sides long. */
  lemma ModifyKeepsWellFormed(grid: Grid<Node>, q: Pos, r: Rotation, c: Connection)
    requires WellFormed(grid) && Grids.Get(grid, q).Some?
    ensures WellFormed(ModifyNode(grid, q, r, c).value)
  {
    var g1 := ModifyNode(grid, q, r, c).value;
    assert g1 == grid[Index(q) := UpdateNode(grid[Index(q)], r, c)];
  }

  /** Distinct sides of a board cell lead to cells with distinct indexes. */
  lemma NeighboursApart(p: Pos, r1: Rotation, r2: Rotation)
    requires Step(p, r1).Some? && Step(p, r2).Some? && r1 != r2
    ensures Index(Step(p, r1).value) != Index(Step(p, r2).value)
  {
    StepInjective(p, r1, r2);
    StepSound(p, r1);
    StepSound(p, r2);
    IndexInjective(Step(p, r1).value, Step(p, r2).value);
  }

  /** A neighbour is a different cell from a board cell. */
  lemma NeighbourApart(p: Pos, r: Rotation)
    requires InBounds(p) && Step(p, r).Some?
    ensures Index(Step(p, r).value) != Index(p)
  {
    StepSound(p, r);
    IndexInjective(Step(p, r).value, p);
  }

  /** Cutting dead sides keeps every node four sides long. */
  lemma {:induction false} CutDeadSidesWellFormed(grid: Grid<Node>, p: Pos, tile: TileString, r: nat, modified: seq<Pos>)
    requires r <= 4 && WellFormed(grid)
    decreases 4 - r
    ensures WellFormed(CutDeadSides(grid, p, tile, r, modified).0)
  {
    if r < 4 && tile.sides[r] == NoTrack && Step(p, r).Some? && Grids.Get(grid, Step(p, r).value).Some? {
      var q := Step(p, r).value;
      var g1 := Grids.Set(grid, q, UpdateNode(Grids.Get(grid, q).value, FlipRotation(r), Dead));
      ModifyKeepsWellFormed(grid, q, FlipRotation(r), Dead);
      CutDeadSidesWellFormed(g1, p, tile, r + 1, modified + [q]);
    } else if r < 4 {
      CutDeadSidesWellFormed(grid, p, tile, r + 1, modified);
    }
  }

  /** Cutting sides `s..3` leaves every cell no cut side faces as it was. */
  lemma {:induction false} CutDeadSidesKeep(grid: Grid<Node>, p: Pos, tile: TileString, s: nat, modified: seq<Pos>, r: Rotation)
    requires s <= 4 && r < s && Step(p, r).Some?
    decreases 4 - s
    ensures Grids.Get(CutDeadSides(grid, p, tile, s, modified).0, Step(p, r).value) == Grids.Get(grid, Step(p, r).value)
  {
    if s < 4 && tile.sides[s] == NoTrack && Step(p, s).Some? && Grids.Get(grid, Step(p, s).value).Some? {
      var q := Step(p, s).value;
      NeighboursApart(p, r, s);
      CutDeadSidesKeep(Grids.Set(grid, q, UpdateNode(Grids.Get(grid, q).value, FlipRotation(s), Dead)), p, tile, s + 1, modified + [q], r);
    } else if s < 4 {
      CutDeadSidesKeep(grid, p, tile, s + 1, modified, r);
    }
  }

  /** A side without track cuts the facing side of the neighbouring node. */
  lemma {:induction false} CutDeadSidesCuts(grid: Grid<Node>, p: Pos, tile: TileString, s: nat, modified: seq<Pos>, r: Rotation)
    requires s <= r && WellFormed(grid)
    requires tile.sides[r] == NoTrack && Step(p, r).Some? && Grids.Get(grid, Step(p, r).value).Some?
    decreases 4 - s
    ensures var g := CutDeadSides(grid, p, tile, s, modified).0;
      && Grids.Get(g, Step(p, r).value).Some? && |Grids.Get(g, Step(p, r).value).value| == 4
      && Grids.Get(g, Step(p, r).value).value[FlipRotation(r)] == Dead
  {
    var q := Step(p, r).value;
    if s == r {
      var g1 := Grids.Set(grid, q, UpdateNode(Grids.Get(grid, q).value, FlipRotation(r), Dead));
      CutDeadSidesKeep(g1, p, tile, s + 1, modified + [q], r);
    } else if tile.sides[s] == NoTrack && Step(p, s).Some? && Grids.Get(grid, Step(p, s).value).Some? {
      var q1 := Step(p, s).value;
      var g1 := Grids.Set(grid, q1, UpdateNode(Grids.Get(grid, q1).value, FlipRotation(s), Dead));
      NeighboursApart(p, r, s);
      ModifyKeepsWellFormed(grid, q1, FlipRotation(s), Dead);
      CutDeadSidesCuts(g1, p, tile, s + 1, modified + [q1], r);
    } else {
      CutDeadSidesCuts(grid, p, tile, s + 1, modified, r);
    }
  }

  /** Laying sides `s..3` leaves every cell none of them links to as it was. */
  lemma {:induction false} LaySidesKeep(grid: Grid<Node>, p: Pos, tile: TileString, t: TrackType, tiles: Grid<TileString>, s: nat, q: Pos)
    requires s <= 4 && LaySides(grid, p, tile, t, tiles, s).Ok?
    requires forall j :: s <= j < 4 && SideConnection(p, tile, t, tiles, j).Link? ==> Index(SideConnection(p, tile, t, tiles, j).p) != Index(q)
    decreases 4 - s
    ensures Grids.Get(LaySides(grid, p, tile, t, tiles, s).value.0, q) == Grids.Get(grid, q)
  {
    if s < 4 {
      var here := LaySide(grid, p, tile, t, tiles, s).value;
      LaySidesKeep(here.0, p, tile, t, tiles, s + 1, q);
    }
  }

  /** A link laid from side `r` is written on the neighbour's facing side
      with the same key and length 1, and no later side undoes it. */
  lemma {:induction false} LaySidesLink(grid: Grid<Node>, p: Pos, tile: TileString, t: TrackType, tiles: Grid<TileString>, s: nat, r: Rotation)
    requires s <= r && LaySides(grid, p, tile, t, tiles, s).Ok?
    requires SideConnection(p, tile, t, tiles, r).Link?
    requires var q := SideConnection(p, tile, t, tiles, r).p;
      Grids.Get(grid, q).Some? ==> |Grids.Get(grid, q).value| == 4
    decreases 4 - s
    ensures var q := SideConnection(p, tile, t, tiles, r).p;
      var g := LaySides(grid, p, tile, t, tiles, s).value.0;
      Grids.Get(g, q).Some? && |Grids.Get(g, q).value| == 4
      && Grids.Get(g, q).value[FlipRotation(r)] == Link(p, KeyOf(p, r), 1)
  {
    var q := SideConnection(p, tile, t, tiles, r).p;
    var here := LaySide(grid, p, tile, t, tiles, s).value;
    if s == r {
      forall j | s + 1 <= j < 4 && SideConnection(p, tile, t, tiles, j).Link?
        ensures Index(SideConnection(p, tile, t, tiles, j).p) != Index(q)
      {
        NeighboursApart(p, r, j);
      }
      LaySidesKeep(here.0, p, tile, t, tiles, s + 1, q);
    } else {
      if here.1.Link? {
        NeighboursApart(p, r, s);
      }
      LaySidesLink(here.0, p, tile, t, tiles, s + 1, r);
    }
  }

  /** After laying a tile that carries the network's type on a board cell,
      the new node holds what the tiles say on each side, and each of its
      links is matched on the neighbour's facing side by a link back with
      the same key and length 1. */
  lemma LayLinksBothEnds(net: TrackNetwork, p: Pos, tile: TileString, tiles: Grid<TileString>, r: Rotation)
    requires InBounds(p) && WellFormed(net.grid) && HasTrackType(tile, net.trackType)
    requires Lay(net, p, tile, tiles).Ok?
    ensures var g := Lay(net, p, tile, tiles).value.0;
      var c := SideConnection(p, tile, net.trackType, tiles, r);
      && Grids.Get(g, p).Some? && |Grids.Get(g, p).value| == 4 && Grids.Get(g, p).value[r] == c
      && (c.Link? ==>
            (Grids.Get(g, c.p).Some? && |Grids.Get(g, c.p).value| == 4
             && Grids.Get(g, c.p).value[FlipRotation(r)] == Link(p, c.k, 1)))
  {
    var t := net.trackType;
    var cut := CutDeadSides(net.grid, p, tile, 0, []);
    var laid := LaySides(cut.0, p, tile, t, tiles, 0).value;
    var g := Grids.Set(laid.0, p, laid.1);
    assert Lay(net, p, tile, tiles).value.0 == g;
    assert laid.1[r] == SideConnection(p, tile, t, tiles, r);
    var c := SideConnection(p, tile, t, tiles, r);
    if c.Link? {
      CutDeadSidesWellFormed(net.grid, p, tile, 0, []);
      LaySidesLink(cut.0, p, tile, t, tiles, 0, r);
      NeighbourApart(p, r);
      assert Grids.Get(g, c.p) == Grids.Get(laid.0, c.p);
    }
  }

  /** After laying a tile on a board cell, a side without track has cut the
      facing side of the neighbouring node, whatever else was laid. */
  lemma LayCutsDeadSides(net: TrackNetwork, p: Pos, tile: TileString, tiles: Grid<TileString>, r: Rotation)
    requires InBounds(p) && WellFormed(net.grid) && Lay(net, p, tile, tiles).Ok?
    requires tile.sides[r] == NoTrack && Step(p, r).Some? && Grids.Get(net.grid, Step(p, r).value).Some?
    ensures var g := Lay(net, p, tile, tiles).value.0;
      && Grids.Get(g, Step(p, r).value).Some? && |Grids.Get(g, Step(p, r).value).value| == 4
      && Grids.Get(g, Step(p, r).value).value[FlipRotation(r)] == Dead
  {
    var t := net.trackType;
    var q := Step(p, r).value;
    var cut := CutDeadSides(net.grid, p, tile, 0, []);
    CutDeadSidesCuts(net.grid, p, tile, 0, [], r);
    if HasTrackType(tile, t) {
      var laid := LaySides(cut.0, p, tile, t, tiles, 0).value;
      assert Lay(net, p, tile, tiles).value.0 == Grids.Set(laid.0, p, laid.1);
      forall j | 0 <= j < 4 && SideConnection(p, tile, t, tiles, j).Link?
        ensures Index(SideConnection(p, tile, t, tiles, j).p) != Index(q)
      {
        NeighboursApart(p, r, j);
      }
      LaySidesKeep(cut.0, p, tile, t, tiles, 0, q);
      NeighbourApart(p, r);
    } else {
      assert Lay(net, p, tile, tiles).value.0 == cut.0;
    }
  }

  /** Cutting sides `s..3` records nothing when no side without track faces
      a node. */
  lemma {:induction false} CutDeadSidesUntouched(grid: Grid<Node>, p: Pos, tile: TileString, s: nat, modified: seq<Pos>)
    requires s <= 4
    requires forall r: Rotation :: s <= r && tile.sides[r] == NoTrack && Step(p, r).Some? ==> Grids.Get(grid, Step(p, r).value).None?
    decreases 4 - s
    ensures CutDeadSides(grid, p, tile, s, modified) == (grid, modified)
  {
    if s < 4 {
      CutDeadSidesUntouched(grid, p, tile, s + 1, modified);
    }
  }

  /** A tile without the network's type whose trackless sides face no node
      leaves the network itself in place. */
  lemma UpdateUntouched(net: TrackNetwork, p: Pos, tile: TileString, tiles: Grid<TileString>)
    requires !HasTrackType(tile, net.trackType)
    requires forall r: Rotation :: tile.sides[r] == NoTrack && Step(p, r).Some? ==> Grids.Get(net.grid, Step(p, r).value).None?
    ensures Update(net, p, tile, tiles) == Ok(net)
  {
    CutDeadSidesUntouched(net.grid, p, tile, 0, []);
  }
}
