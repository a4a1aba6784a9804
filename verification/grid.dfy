/** The sparse 7×7 grid (src/logic/Grid.ts). The source stores cells in a plain
    array at index `y * 7 + x`; the model keeps that flat index as the map key,
    so positions outside the board alias cells exactly as the array does. */
module Grids {
  import opened Wrappers
  import opened Types

  type Grid<T> = map<int, T>

  /** The array index of a position. */
  function Index(p: Pos): int {
    p.y * Size + p.x
  }

  /** The on-board position stored at flat index `i`. */
  function PosOf(i: nat): (p: Pos)
    requires i < Size * Size
    ensures InBounds(p) && Index(p) == i
  {
    Pos(i / Size, i % Size)
  }

  /** Distinct on-board positions have distinct indexes. */
  lemma IndexInjective(p: Pos, q: Pos)
    requires InBounds(p) && InBounds(q)
    ensures Index(p) == Index(q) <==> p == q
  {
  }

  lemma PosOfIndex(p: Pos)
    requires InBounds(p)
    ensures 0 <= Index(p) < Size * Size && PosOf(Index(p)) == p
  {
  }

  function Empty<T>(): Grid<T> {
    map[]
  }

  function Get<T>(g: Grid<T>, p: Pos): Option<T> {
    if Index(p) in g then Some(g[Index(p)]) else None
  }

  /** Writes `v` at `p`; every cell with another index keeps its value. */
  function Set<T>(g: Grid<T>, p: Pos, v: T): (res: Grid<T>)
    ensures Get(res, p) == Some(v)
    ensures forall q :: Index(q) != Index(p) ==> Get(res, q) == Get(g, q)
  {
    g[Index(p) := v]
  }

  /** Clears the cell at `p`; every cell with another index keeps its value. */
  function Delete<T>(g: Grid<T>, p: Pos): (res: Grid<T>)
    ensures Get(res, p) == None
    ensures forall q :: Index(q) != Index(p) ==> Get(res, q) == Get(g, q)
  {
    g - {Index(p)}
  }

  /** Copies a grid; the copy is a separate value, so writing to it leaves the
      original as it was. */
  function Clone<T>(g: Grid<T>): (res: Grid<T>)
    ensures forall q :: Get(res, q) == Get(g, q)
  {
    g
  }

  /** Writing to a clone does not change the grid it was cloned from. */
  lemma CloneIndependent<T>(g: Grid<T>, p: Pos, v: T, q: Pos)
    ensures Get(Set(Clone(g), p, v), p) == Some(v)
    ensures Get(g, q) == Get(Clone(g), q)
  {
  }

  /** Builds a grid by writing the entries in list order. */
  function FromList<T>(list: seq<(Pos, T)>): Grid<T>
    decreases |list|
  {
    if |list| == 0 then Empty() else Set(FromList(list[..|list| - 1]), list[|list| - 1].0, list[|list| - 1].1)
  }

  /** When several entries share a cell, the last one wins. */
  lemma {:induction false} FromListLastWins<T>(list: seq<(Pos, T)>, j: nat, p: Pos)
    requires j < |list| && Index(list[j].0) == Index(p)
    requires forall k :: j < k < |list| ==> Index(list[k].0) != Index(p)
    ensures Get(FromList(list), p) == Some(list[j].1)
    decreases |list|
  {
    if j < |list| - 1 {
      FromListLastWins(list[..|list| - 1], j, p);
    }
  }

  /** A cell that no entry mentions stays empty. */
  lemma {:induction false} FromListUntouched<T>(list: seq<(Pos, T)>, p: Pos)
    requires forall k :: 0 <= k < |list| ==> Index(list[k].0) != Index(p)
    ensures Get(FromList(list), p) == None
    decreases |list|
  {
    if |list| > 0 {
      FromListUntouched(list[..|list| - 1], p);
    }
  }

  /** The defined cells with flat index `i` or more, in index order. */
  function EntriesFrom<T>(g: Grid<T>, i: nat): (es: seq<(Pos, T)>)
    requires i <= Size * Size
    decreases Size * Size - i
    ensures forall k :: 0 <= k < |es| ==> InBounds(es[k].0) && i <= Index(es[k].0) && Get(g, es[k].0) == Some(es[k].1)
    ensures forall k, l :: 0 <= k < l < |es| ==> Index(es[k].0) < Index(es[l].0)
    ensures forall j :: i <= j < Size * Size && j in g ==> (PosOf(j), g[j]) in es
  {
    if i == Size * Size then []
    else
      var rest := EntriesFrom(g, i + 1);
      if i in g then [(PosOf(i), g[i])] + rest else rest
  }

  /** An empty grid has no entries. */
  lemma {:induction false} EntriesEmpty<T>(i: nat)
    requires i <= Size * Size
    ensures EntriesFrom(Empty<T>(), i) == []
    decreases Size * Size - i
  {
    if i < Size * Size {
      EntriesEmpty<T>(i + 1);
    }
  }

  /** The defined on-board cells in row-major order, each with its value. */
  function Entries<T>(g: Grid<T>): (es: seq<(Pos, T)>)
    ensures forall k :: 0 <= k < |es| ==> InBounds(es[k].0) && Get(g, es[k].0) == Some(es[k].1)
    ensures forall k, l :: 0 <= k < l < |es| ==> Index(es[k].0) < Index(es[l].0)
    ensures forall p :: InBounds(p) && Get(g, p).Some? ==> (p, Get(g, p).value) in es
  {
    var es := EntriesFrom(g, 0);
    forall p | InBounds(p) && Get(g, p).Some?
      ensures (p, Get(g, p).value) in es
    {
      PosOfIndex(p);
    }
    es
  }

  /** The positions `Entries` yields, in the same order. */
  function Keys<T>(g: Grid<T>): (ks: seq<Pos>)
    ensures |ks| == |Entries(g)|
    ensures forall k :: 0 <= k < |ks| ==> ks[k] == Entries(g)[k].0
  {
    seq(|Entries(g)|, k requires 0 <= k < |Entries(g)| => Entries(g)[k].0)
  }

  /** A position is among the keys exactly when it is on the board and defined. */
  lemma KeysExactlyDefined<T>(g: Grid<T>, p: Pos)
    ensures p in Keys(g) <==> InBounds(p) && Get(g, p).Some?
  {
    var es := Entries(g);
    if InBounds(p) && Get(g, p).Some? {
      var k :| 0 <= k < |es| && es[k] == (p, Get(g, p).value);
      assert Keys(g)[k] == p;
    }
  }
}
