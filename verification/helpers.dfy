/** Tile geometry: stepping between cells, rotation arithmetic, tile
    transforms and the slot test (src/logic/helpers.ts). */
module Helpers {
  import opened Wrappers
  import opened Types

  /** Row offset of a step towards side `r`. */
  function DY(r: Rotation): int {
    if r == 0 then -1 else if r == 2 then 1 else 0
  }

  /** Column offset of a step towards side `r`. */
  function DX(r: Rotation): int {
    if r == 1 then 1 else if r == 3 then -1 else 0
  }

  /** True when `q` is the cell next to `p` across side `r`. */
  predicate Adjacent(p: Pos, r: Rotation, q: Pos) {
    if r == 0 then q == Pos(p.y - 1, p.x)
    else if r == 1 then q == Pos(p.y, p.x + 1)
    else if r == 2 then q == Pos(p.y + 1, p.x)
    else q == Pos(p.y, p.x - 1)
  }

  /** True when `p` is on the board edge that side `r` faces. */
  predicate FacesEdge(p: Pos, r: Rotation) {
    (r == 0 && p.y == 0) || (r == 1 && p.x == Size - 1) || (r == 2 && p.y == Size - 1) || (r == 3 && p.x == 0)
  }

  /** The neighbouring cell across side `r`, or nothing when it is off the board. */
  function Step(p: Pos, r: Rotation): Option<Pos> {
    var p2 := Pos(p.y + DY(r), p.x + DX(r));
    if p2.y < 0 || p2.x < 0 || p2.y >= Size || p2.x >= Size then None else Some(p2)
  }

  /** A step lands on the board next to the cell, and from a board cell it
      fails exactly when the side faces the board edge. */
  lemma StepSound(p: Pos, r: Rotation)
    ensures Step(p, r).Some? ==> InBounds(Step(p, r).value) && Adjacent(p, r, Step(p, r).value)
    ensures InBounds(p) ==> (Step(p, r).None? <==> FacesEdge(p, r))
  {
  }

  /** Adds (or, counter-clockwise, subtracts) two rotations modulo 4. */
  function AddRotation(r1: Rotation, r2: Rotation, clockwise: bool := true): (r: Rotation)
    ensures clockwise ==> r == if r1 + r2 < 4 then r1 + r2 else r1 + r2 - 4
    ensures !clockwise ==> r == if r1 >= r2 then r1 - r2 else r1 - r2 + 4
  {
    (if clockwise then r1 + r2 else 4 + r1 - r2) % 4
  }

  /** The opposite side. */
  function FlipRotation(r: Rotation): (f: Rotation)
    ensures f == if r < 2 then r + 2 else r - 2
  {
    AddRotation(r, 2)
  }

  /** Subtracting a rotation undoes adding it. */
  lemma AddRotationInverse(r1: Rotation, r2: Rotation)
    ensures AddRotation(AddRotation(r1, r2), r2, false) == r1
    ensures AddRotation(AddRotation(r1, r2, false), r2) == r1
  {
  }

  /** Taking the opposite side twice gives back the side, and never the side itself. */
  lemma FlipRotationInvolution(r: Rotation)
    ensures FlipRotation(FlipRotation(r)) == r
    ensures FlipRotation(r) != r
  {
  }

  /** Stepping back across the opposite side returns to the starting cell. */
  lemma StepBack(p: Pos, r: Rotation, q: Pos)
    requires InBounds(p)
    requires Step(p, r) == Some(q)
    ensures Step(q, FlipRotation(r)) == Some(p)
  {
  }


  /** Two different sides of one cell lead to different cells. */
  lemma StepInjective(p: Pos, r1: Rotation, r2: Rotation)
    requires Step(p, r1).Some? && Step(p, r2).Some?
    requires r1 != r2
    ensures Step(p, r1).value != Step(p, r2).value
  {
  }

  predicate HasOverpass(t: TileString) {
    t.overpass
  }

  /** True when some side of the tile carries track type `tt`. */
  function HasTrackType(t: TileString, tt: TrackType): (b: bool)
    ensures b <==> exists r :: 0 <= r < 4 && t.sides[r] == tt
  {
    t.sides[0] == tt || t.sides[1] == tt || t.sides[2] == tt || t.sides[3] == tt
  }

  /** Rotates a tile clockwise by `r` quarter turns: side `i` of the result is
      side `i - r` of the input. */
  function RotateTile(t: TileString, r: Rotation := 1): (res: TileString)
    ensures res.overpass == t.overpass
    ensures res.sides == SidesOf(t.sides, 2 * r)
  {
    Tile([t.sides[AddRotation(0, r, false)], t.sides[AddRotation(1, r, false)],
          t.sides[AddRotation(2, r, false)], t.sides[AddRotation(3, r, false)]], t.overpass)
  }

  /** Mirrors a tile: north and south stay, east and west swap. */
  function FlipTile(t: TileString): (res: TileString)
    ensures res.overpass == t.overpass
    ensures res.sides[0] == t.sides[0] && res.sides[2] == t.sides[2]
    ensures res.sides[1] == t.sides[3] && res.sides[3] == t.sides[1]
  {
    Tile([t.sides[0], t.sides[3], t.sides[2], t.sides[1]], t.overpass)
  }

  /** A rotation optionally followed by a flip. */
  datatype Transform = Transform(flip: bool, rotation: Rotation)

  function TransformTile(t: TileString, tr: Transform): TileString {
    var rotated := RotateTile(t, tr.rotation);
    if tr.flip then FlipTile(rotated) else rotated
  }

  /** The eight transforms in the order the source enumerates them: each
      rotation unflipped, then flipped. */
  const AllTransforms: seq<Transform> := [
    Transform(false, 0), Transform(true, 0), Transform(false, 1), Transform(true, 1),
    Transform(false, 2), Transform(true, 2), Transform(false, 3), Transform(true, 3)
  ]

  /** How many of the four sides carry `c`. */
  function CountSides(s: seq<Side>, c: Side): nat
    requires |s| == 4
  {
    (if s[0] == c then 1 else 0) + (if s[1] == c then 1 else 0)
      + (if s[2] == c then 1 else 0) + (if s[3] == c then 1 else 0)
  }

  /** True when `u` has the sides of `t` in some order and the same overpass flag. */
  predicate IsSidePermutation(t: TileString, u: TileString) {
    (forall c: Side :: CountSides(u.sides, c) == CountSides(t.sides, c)) && u.overpass == t.overpass
  }

  function AllTransformedTiles(t: TileString): (res: seq<TileString>)
    ensures |res| == 8
    ensures res[0] == t
    ensures forall k :: 0 <= k < 8 ==> res[k] == TransformTile(t, AllTransforms[k])
    ensures forall k :: 0 <= k < 8 ==> res[k].sides == SidesOf(t.sides, k) && res[k].overpass == t.overpass
  {
    seq(8, i requires 0 <= i < 8 => TransformTile(t, AllTransforms[i]))
  }

  /** Rotating by zero changes nothing. */
  lemma RotateZero(t: TileString)
    ensures RotateTile(t, 0) == t
  {
    assert RotateTile(t, 0).sides == t.sides;
  }

  /** Rotating by `a` and then by `b` is rotating by `a + b` modulo 4. */
  lemma RotateCompose(t: TileString, a: Rotation, b: Rotation)
    ensures RotateTile(RotateTile(t, a), b) == RotateTile(t, AddRotation(a, b))
  {
    var lhs := RotateTile(RotateTile(t, a), b);
    var rhs := RotateTile(t, AddRotation(a, b));
    assert lhs.sides == rhs.sides;
  }

  /** Four single rotations give back the original tile. */
  lemma RotateFourTimes(t: TileString)
    ensures RotateTile(RotateTile(RotateTile(RotateTile(t)))) == t
  {
    RotateCompose(t, 1, 1);
    RotateCompose(RotateTile(t, 2), 1, 1);
    RotateCompose(t, 2, 2);
    RotateZero(t);
  }

  /** Flipping twice gives back the original tile. */
  lemma FlipInvolution(t: TileString)
    ensures FlipTile(FlipTile(t)) == t
  {
    assert FlipTile(FlipTile(t)).sides == t.sides;
  }

  /** The side list of the `k`-th of the eight transforms of a tile with sides `s`. */
  function SidesOf(s: seq<Side>, k: nat): (res: seq<Side>)
    requires |s| == 4 && k < 8
    ensures |res| == 4
  {
    match k
    case 0 => [s[0], s[1], s[2], s[3]]
    case 1 => [s[0], s[3], s[2], s[1]]
    case 2 => [s[3], s[0], s[1], s[2]]
    case 3 => [s[3], s[2], s[1], s[0]]
    case 4 => [s[2], s[3], s[0], s[1]]
    case 5 => [s[2], s[1], s[0], s[3]]
    case 6 => [s[1], s[2], s[3], s[0]]
    case 7 => [s[1], s[0], s[3], s[2]]
  }

  /** Position in the transform list of transform `j` applied after transform `i`. */
  const OrbitTable: seq<seq<nat>> := [
    [0, 1, 2, 3, 4, 5, 6, 7], [1, 0, 7, 6, 5, 4, 3, 2], [2, 3, 4, 5, 6, 7, 0, 1], [3, 2, 1, 0, 7, 6, 5, 4],
    [4, 5, 6, 7, 0, 1, 2, 3], [5, 4, 3, 2, 1, 0, 7, 6], [6, 7, 0, 1, 2, 3, 4, 5], [7, 6, 5, 4, 3, 2, 1, 0]
  ]

  lemma SidesOfCompose(s: seq<Side>, i: nat, j: nat)
    requires |s| == 4 && i < 8 && j < 8
    ensures OrbitTable[i][j] < 8
    ensures SidesOf(SidesOf(s, i), j) == SidesOf(s, OrbitTable[i][j])
  {
    match i
    case 0 => {} case 1 => {} case 2 => {} case 3 => {}
    case 4 => {} case 5 => {} case 6 => {} case 7 => {}
  }

  lemma SidesOfPermutes(s: seq<Side>, k: nat)
    requires |s| == 4 && k < 8
    ensures forall c: Side :: CountSides(SidesOf(s, k), c) == CountSides(s, c)
  {
  }

  /** Every transform only reorders the sides and keeps the overpass flag. */
  lemma AllTransformedTilesArePermutations(t: TileString)
    ensures forall u :: u in AllTransformedTiles(t) ==> IsSidePermutation(t, u)
  {
    var all := AllTransformedTiles(t);
    forall u | u in all
      ensures IsSidePermutation(t, u)
    {
      var k :| 0 <= k < 8 && all[k] == u;
      SidesOfPermutes(t.sides, k);
    }
  }

  /** The eight transforms form a closed orbit: transforming any transform of
      `t` again yields a transform of `t`. */
  lemma TransformOrbitClosed(t: TileString, i: nat, j: nat)
    requires i < 8 && j < 8
    ensures TransformTile(AllTransformedTiles(t)[i], AllTransforms[j]) in AllTransformedTiles(t)
  {
    var all := AllTransformedTiles(t);
    var u := all[i];
    var v := AllTransformedTiles(u)[j];
    SidesOfCompose(t.sides, i, j);
    var k := OrbitTable[i][j];
    assert v == all[k];
  }

  /** The position in the transform list of the transform undoing transform `k`. */
  function Inverse(k: nat): (j: nat)
    requires k < 8
    ensures j < 8 && OrbitTable[k][j] == 0
  {
    [0, 1, 6, 3, 4, 5, 2, 7][k]
  }

  lemma SidesOfInverse(s: seq<Side>, k: nat)
    requires |s| == 4 && k < 8
    ensures SidesOf(SidesOf(s, k), Inverse(k)) == s
  {
    SidesOfCompose(s, k, Inverse(k));
  }

  /** Being a transform of each other is symmetric: every transform has an
      inverse among the eight. */
  lemma TransformSymmetric(t: TileString, u: TileString)
    requires u in AllTransformedTiles(t)
    ensures t in AllTransformedTiles(u)
  {
    var all := AllTransformedTiles(t);
    var k :| 0 <= k < 8 && all[k] == u;
    var j := Inverse(k);
    SidesOfInverse(t.sides, k);
    var back := AllTransformedTiles(u)[j];
    assert back.sides == SidesOf(u.sides, j);
    assert back == t;
  }


  predicate IsCenterSquare(p: Pos) {
    p.y >= 2 && p.y <= 4 && p.x >= 2 && p.x <= 4
  }

  predicate PEqual(p1: Pos, p2: Pos) {
    p1.y == p2.y && p1.x == p2.x
  }

  /** A side where both the tile and the slot say something other than "_". */
  predicate Constrained(t: TileString, slot: OpenSlot, r: Rotation) {
    t.sides[r] != NoTrack && slot[r] != NoTrack
  }

  /** Scans sides `r..3`: fails on a constrained side that disagrees, otherwise
      counts the constrained sides that agree. */
  function FitsFrom(t: TileString, slot: OpenSlot, r: nat, numMatches: nat): (b: bool)
    requires r <= 4
    decreases 4 - r
    ensures b <==> (forall i :: r <= i < 4 && Constrained(t, slot, i) ==> t.sides[i] == slot[i])
                   && (numMatches >= 1 || exists i :: r <= i < 4 && Constrained(t, slot, i) && t.sides[i] == slot[i])
  {
    if r == 4 then numMatches >= 1
    else if t.sides[r] == NoTrack || slot[r] == NoTrack then FitsFrom(t, slot, r + 1, numMatches)
    else if t.sides[r] != slot[r] then false
    else
      assert Constrained(t, slot, r) && t.sides[r] == slot[r];
      FitsFrom(t, slot, r + 1, numMatches + 1)
  }

  /** A tile fits a slot when no side where both say something disagrees and at
      least one such side agrees; "_" on either side is no constraint. */
  function TileFitsInSlot(t: TileString, slot: OpenSlot): (b: bool)
    ensures b <==> (forall i :: 0 <= i < 4 && Constrained(t, slot, i) ==> t.sides[i] == slot[i])
                   && (exists i :: 0 <= i < 4 && Constrained(t, slot, i) && t.sides[i] == slot[i])
  {
    FitsFrom(t, slot, 0, 0)
  }

  /** Replaces side `r` of the slot with track type `t`. */
  function UpdateSlot(r: Rotation, t: TrackType, slot: OpenSlot): (res: OpenSlot)
    ensures res[r] == t
    ensures forall i :: 0 <= i < 4 && i != r ==> res[i] == slot[i]
  {
    slot[..r] + [t] + slot[r + 1..]
  }
}
