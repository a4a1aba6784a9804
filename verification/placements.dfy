/** Orientation pruning (src/logic/getMeaningfulPlacements.ts): of the eight
    transforms of a tile, keep those that connect to the slot without a
    conflict and that no other transform beats on (matches, errors). */
module MeaningfulPlacements {
  import opened Wrappers
  import opened Types
  import opened Helpers
  import opened Seqs

  /** One assessed transform: the tile, whether all its sides are filled in,
      and its match and error counts against the slot. */
  datatype Placement = Placement(tile: TileString, surrounded: bool, matches: nat, errors: nat)

  /** Side `r` carries the same track as the slot demands. */
  predicate IsMatch(t: TileString, slot: OpenSlot, r: Rotation) {
    t.sides[r] != NoTrack && IsTrack(slot[r]) && slot[r] == t.sides[r]
  }

  /** Side `r` carries track of the other type than the slot demands. */
  predicate IsConflict(t: TileString, slot: OpenSlot, r: Rotation) {
    t.sides[r] != NoTrack && IsTrack(slot[r]) && slot[r] != t.sides[r]
  }

  /** Side `r` leaves a lasting error: no track where the slot demands track,
      or track where the neighbour shows none. Edge and unfilled slot sides
      never count. */
  predicate IsError(t: TileString, slot: OpenSlot, r: Rotation) {
    || (t.sides[r] == NoTrack && IsTrack(slot[r]))
    || (t.sides[r] != NoTrack && slot[r] == NoTrack)
  }

  function MatchSides(t: TileString, slot: OpenSlot, r: nat): set<Rotation> {
    set i: Rotation | r <= i && IsMatch(t, slot, i)
  }

  function ErrorSides(t: TileString, slot: OpenSlot, r: nat): set<Rotation> {
    set i: Rotation | r <= i && IsError(t, slot, i)
  }

  /** The number of matching sides among sides `r..3`. */
  function MatchCount(t: TileString, slot: OpenSlot, r: nat): nat
    requires r <= 4
    decreases 4 - r
  {
    if r == 4 then 0 else (if IsMatch(t, slot, r) then 1 else 0) + MatchCount(t, slot, r + 1)
  }

  /** The number of error sides among sides `r..3`. */
  function ErrorCount(t: TileString, slot: OpenSlot, r: nat): nat
    requires r <= 4
    decreases 4 - r
  {
    if r == 4 then 0 else (if IsError(t, slot, r) then 1 else 0) + ErrorCount(t, slot, r + 1)
  }

  /** The match count is the size of the set of matching sides. */
  lemma {:induction false} MatchCountIsSize(t: TileString, slot: OpenSlot, r: nat)
    requires r <= 4
    ensures MatchCount(t, slot, r) == |MatchSides(t, slot, r)|
    decreases 4 - r
  {
    if r == 4 {
      assert MatchSides(t, slot, r) == {};
    } else {
      MatchCountIsSize(t, slot, r + 1);
      var rest := MatchSides(t, slot, r + 1);
      assert r !in rest;
      if IsMatch(t, slot, r) {
        assert MatchSides(t, slot, r) == rest + {r};
      } else {
        assert MatchSides(t, slot, r) == rest;
      }
    }
  }

  /** The error count is the size of the set of error sides. */
  lemma {:induction false} ErrorCountIsSize(t: TileString, slot: OpenSlot, r: nat)
    requires r <= 4
    ensures ErrorCount(t, slot, r) == |ErrorSides(t, slot, r)|
    decreases 4 - r
  {
    if r == 4 {
      assert ErrorSides(t, slot, r) == {};
    } else {
      ErrorCountIsSize(t, slot, r + 1);
      var rest := ErrorSides(t, slot, r + 1);
      assert r !in rest;
      if IsError(t, slot, r) {
        assert ErrorSides(t, slot, r) == rest + {r};
      } else {
        assert ErrorSides(t, slot, r) == rest;
      }
    }
  }

  /** Some side among sides `r..3` conflicts with the slot. */
  predicate ConflictFrom(t: TileString, slot: OpenSlot, r: nat)
    requires r <= 4
    decreases 4 - r
  {
    r < 4 && (IsConflict(t, slot, r) || ConflictFrom(t, slot, r + 1))
  }

  /** The scan for a conflict finds one exactly when some side conflicts. */
  lemma {:induction false} ConflictFromExists(t: TileString, slot: OpenSlot, r: nat)
    requires r <= 4
    ensures ConflictFrom(t, slot, r) <==> exists i: Rotation :: r <= i && IsConflict(t, slot, i)
    decreases 4 - r
  {
    if r < 4 {
      ConflictFromExists(t, slot, r + 1);
      if IsConflict(t, slot, r) {
        assert exists i: Rotation :: r <= i && IsConflict(t, slot, i);
      } else {
        assert forall i: Rotation :: r <= i && IsConflict(t, slot, i) ==> r + 1 <= i;
      }
    }
  }

  /** Walks sides `r..3` counting matches onto `m` and errors onto `e`; gives
      up at the first side whose track differs from the slot's track. */
  function AssessFrom(t: TileString, slot: OpenSlot, r: nat, m: nat, e: nat): (res: Option<(nat, nat)>)
    requires r <= 4
    decreases 4 - r
    ensures res.None? <==> ConflictFrom(t, slot, r)
    ensures res.Some? ==> res.value == (m + MatchCount(t, slot, r), e + ErrorCount(t, slot, r))
  {
    if r == 4 then Some((m, e))
    else
      var tc := t.sides[r];
      var sc := slot[r];
      if tc == NoTrack then
        assert !IsMatch(t, slot, r) && (IsError(t, slot, r) <==> sc == Road || sc == Rail);
        AssessFrom(t, slot, r + 1, m, if sc == Road || sc == Rail then e + 1 else e)
      else if sc == Road || sc == Rail then
        if sc == tc then
          assert IsMatch(t, slot, r) && !IsError(t, slot, r);
          AssessFrom(t, slot, r + 1, m + 1, e)
        else
          assert IsConflict(t, slot, r);
          None
      else if sc == NoTrack then
        assert !IsMatch(t, slot, r) && IsError(t, slot, r);
        AssessFrom(t, slot, r + 1, m, e + 1)
      else
        assert !IsMatch(t, slot, r) && !IsError(t, slot, r);
        AssessFrom(t, slot, r + 1, m, e)
  }

  /** No side of the tile is unfilled. */
  predicate IsSurrounded(t: TileString) {
    forall r :: 0 <= r < 4 ==> t.sides[r] != Unfilled
  }

  /** Assesses one transform: none when a side conflicts with the slot or no
      side matches; otherwise its match and error counts. */
  function Assess(t: TileString, slot: OpenSlot): (res: Option<Placement>)
    ensures res.None? <==> (exists r: Rotation :: IsConflict(t, slot, r)) || |MatchSides(t, slot, 0)| == 0
    ensures res.Some? ==> res.value == Placement(t, true, |MatchSides(t, slot, 0)|, |ErrorSides(t, slot, 0)|)
  {
    MatchCountIsSize(t, slot, 0);
    ErrorCountIsSize(t, slot, 0);
    ConflictFromExists(t, slot, 0);
    match AssessFrom(t, slot, 0, 0, 0)
    case None => None
    case Some((m, e)) => if m == 0 then None else Some(Placement(t, IsSurrounded(t), m, e))
  }

  /** The tiles of a list of placements, in order. */
  function Tiles(ps: seq<Placement>): (ts: seq<TileString>)
    ensures |ts| == |ps|
    ensures forall i :: 0 <= i < |ps| ==> ts[i] == ps[i].tile
  {
    if |ps| == 0 then [] else [ps[0].tile] + Tiles(ps[1..])
  }

  /** The placements of the transforms that survive assessment, in order. */
  function Candidates(ts: seq<TileString>, slot: OpenSlot): seq<Placement> {
    if |ts| == 0 then []
    else
      match Assess(ts[0], slot)
      case None => Candidates(ts[1..], slot)
      case Some(c) => [c] + Candidates(ts[1..], slot)
  }

  /** The candidates are exactly the assessments that survive, taken from the
      transforms in order. */
  lemma {:induction false} CandidatesExact(ts: seq<TileString>, slot: OpenSlot)
    ensures forall c :: c in Candidates(ts, slot) ==> c.tile in ts && Assess(c.tile, slot) == Some(c)
    ensures forall u :: u in ts && Assess(u, slot).Some? ==> Assess(u, slot).value in Candidates(ts, slot)
    ensures IsSubsequence(Tiles(Candidates(ts, slot)), ts)
  {
    if |ts| > 0 {
      var rest := Candidates(ts[1..], slot);
      CandidatesExact(ts[1..], slot);
      assert forall u :: u in ts <==> u == ts[0] || u in ts[1..];
      match Assess(ts[0], slot)
      case None =>
      case Some(c) =>
        assert Tiles([c] + rest)[1..] == Tiles(rest);
    }
  }

  /** `a` beats `b`: more matches, or as many matches and fewer errors. */
  predicate Better(a: Placement, b: Placement) {
    a.matches > b.matches || (a.matches == b.matches && a.errors < b.errors)
  }

  /** Some placement at index `j` or later, other than `i`, beats placement `i`. */
  function HasBetterFrom(cs: seq<Placement>, i: nat, j: nat): (b: bool)
    requires i < |cs| && j <= |cs|
    decreases |cs| - j
    ensures b <==> exists k :: j <= k < |cs| && k != i && Better(cs[k], cs[i])
  {
    if j == |cs| then false
    else (j != i && Better(cs[j], cs[i])) || HasBetterFrom(cs, i, j + 1)
  }

  /** Placement `i` survives the dominance filter. */
  predicate Kept(cs: seq<Placement>, i: nat)
    requires i < |cs|
  {
    !cs[i].surrounded || !HasBetterFrom(cs, i, 0)
  }

  /** The tiles of the surviving placements from index `i` on, in order. */
  function KeptFrom(cs: seq<Placement>, i: nat): (res: seq<TileString>)
    requires i <= |cs|
    decreases |cs| - i
    ensures forall u :: u in res <==> exists k :: i <= k < |cs| && Kept(cs, k) && cs[k].tile == u
    ensures IsSubsequence(res, Tiles(cs)[i..])
  {
    if i == |cs| then []
    else
      var rest := KeptFrom(cs, i + 1);
      assert Tiles(cs)[i..][1..] == Tiles(cs)[i + 1..];
      if Kept(cs, i) then
        assert ([cs[i].tile] + rest)[1..] == rest;
        [cs[i].tile] + rest
      else rest
  }

  /** The pruned orientations exactly as the source computes them: duplicate
      transforms of a symmetric tile appear once per transform. */
  function GetMeaningfulPlacementsAsWritten(tile: TileString, slot: OpenSlot): (res: seq<TileString>)
    ensures IsSubsequence(res, AllTransformedTiles(tile))
  {
    var cs := Candidates(AllTransformedTiles(tile), slot);
    CandidatesExact(AllTransformedTiles(tile), slot);
    SubsequenceTransitive(KeptFrom(cs, 0), Tiles(cs), AllTransformedTiles(tile));
    KeptFrom(cs, 0)
  }

  /** The pruned orientations, each tile once, in transform order. */
  function GetMeaningfulPlacements(tile: TileString, slot: OpenSlot): (res: seq<TileString>)
    ensures forall i, j :: 0 <= i < j < |res| ==> res[i] != res[j]
    ensures forall u :: u in res <==> u in GetMeaningfulPlacementsAsWritten(tile, slot)
    ensures IsSubsequence(res, AllTransformedTiles(tile))
  {
    var written := GetMeaningfulPlacementsAsWritten(tile, slot);
    SubsequenceTransitive(Dedupe(written, {}), written, AllTransformedTiles(tile));
    Dedupe(written, {})
  }

  /** The candidates of all transforms of `tile`. */
  function CandidatesOf(tile: TileString, slot: OpenSlot): seq<Placement> {
    Candidates(AllTransformedTiles(tile), slot)
  }

  /** No other candidate beats candidate `k`. */
  predicate Undominated(cs: seq<Placement>, k: nat)
    requires k < |cs|
  {
    forall j :: 0 <= j < |cs| && j != k ==> !Better(cs[j], cs[k])
  }

  /** For a surrounded placement the dominance filter keeps exactly the
      placements that no other candidate beats. */
  lemma KeptIffUndominated(cs: seq<Placement>, k: nat)
    requires k < |cs| && cs[k].surrounded
    ensures Kept(cs, k) <==> Undominated(cs, k)
  {
    assert HasBetterFrom(cs, k, 0) <==> exists j :: 0 <= j < |cs| && j != k && Better(cs[j], cs[k]);
  }

  /** Every candidate is surrounded. */
  lemma CandidatesSurrounded(tile: TileString, slot: OpenSlot, k: nat)
    requires k < |CandidatesOf(tile, slot)|
    ensures CandidatesOf(tile, slot)[k].surrounded
    ensures Assess(CandidatesOf(tile, slot)[k].tile, slot) == Some(CandidatesOf(tile, slot)[k])
  {
    var cs := CandidatesOf(tile, slot);
    CandidatesExact(AllTransformedTiles(tile), slot);
    assert cs[k] in cs;
  }

  /** Every returned tile is a candidate that no other candidate beats, and
      every such candidate is returned. */
  lemma PlacementsAreUndominated(tile: TileString, slot: OpenSlot, u: TileString)
    ensures u in GetMeaningfulPlacements(tile, slot) <==>
      exists k :: 0 <= k < |CandidatesOf(tile, slot)| && CandidatesOf(tile, slot)[k].tile == u && Undominated(CandidatesOf(tile, slot), k)
  {
    var cs := CandidatesOf(tile, slot);
    if u in GetMeaningfulPlacements(tile, slot) {
      var k :| 0 <= k < |cs| && Kept(cs, k) && cs[k].tile == u;
      CandidatesSurrounded(tile, slot, k);
      KeptIffUndominated(cs, k);
    }
    if exists k :: 0 <= k < |cs| && cs[k].tile == u && Undominated(cs, k) {
      var k :| 0 <= k < |cs| && cs[k].tile == u && Undominated(cs, k);
      CandidatesSurrounded(tile, slot, k);
      KeptIffUndominated(cs, k);
    }
  }

  /** Every returned tile is a transform of the input tile with no side that
      conflicts with the slot and at least one side that matches it. */
  lemma PlacementsConnectWithoutConflict(tile: TileString, slot: OpenSlot, u: TileString)
    requires u in GetMeaningfulPlacements(tile, slot)
    ensures u in AllTransformedTiles(tile)
    ensures forall r: Rotation :: !IsConflict(u, slot, r)
    ensures |MatchSides(u, slot, 0)| > 0
  {
    var cs := CandidatesOf(tile, slot);
    var k :| 0 <= k < |cs| && Kept(cs, k) && cs[k].tile == u;
    CandidatesSurrounded(tile, slot, k);
    CandidatesExact(AllTransformedTiles(tile), slot);
    assert cs[k] in cs;
  }

  /** All returned orientations tie: they have the most matches among the
      candidates and, among those, the fewest errors. */
  lemma {:induction false} ReturnedPlacementsTie(tile: TileString, slot: OpenSlot, u: TileString, v: TileString)
    requires u in GetMeaningfulPlacements(tile, slot) && v in GetMeaningfulPlacements(tile, slot)
    ensures Assess(u, slot).Some? && Assess(v, slot).Some?
    ensures Assess(u, slot).value.matches == Assess(v, slot).value.matches
    ensures Assess(u, slot).value.errors == Assess(v, slot).value.errors
  {
    var cs := Candidates(AllTransformedTiles(tile), slot);
    var k :| 0 <= k < |cs| && Kept(cs, k) && cs[k].tile == u;
    var l :| 0 <= l < |cs| && Kept(cs, l) && cs[l].tile == v;
    CandidatesSurrounded(tile, slot, k);
    CandidatesSurrounded(tile, slot, l);
    if k != l {
      assert !Better(cs[k], cs[l]) && !Better(cs[l], cs[k]);
    }
  }

  /** Every tile has all four sides filled in, so the surrounded flag never
      exempts a placement from the dominance filter. */
  lemma AlwaysSurrounded(t: TileString)
    ensures IsSurrounded(t)
  {
  }

  /** No placement of `cs` beats `p`. */
  predicate NoneBetter(cs: seq<Placement>, p: Placement) {
    forall c :: c in cs ==> !Better(c, p)
  }

  /** A surrounded placement survives the filter exactly when no placement
      of the list beats it; a copy of itself never does. */
  lemma KeptIffNoneBetter(cs: seq<Placement>, k: nat)
    requires k < |cs| && cs[k].surrounded
    ensures Kept(cs, k) <==> NoneBetter(cs, cs[k])
  {
    KeptIffUndominated(cs, k);
    if Undominated(cs, k) {
      forall c | c in cs ensures !Better(c, cs[k]) {
        var j :| 0 <= j < |cs| && cs[j] == c;
      }
    }
  }

  /** When every placement with tile `u` is the same surrounded placement `p`,
      the filter keeps all copies of `u` or none of them. */
  lemma {:induction false} KeptFromCount(cs: seq<Placement>, i: nat, u: TileString, p: Placement)
    requires i <= |cs| && p.surrounded
    requires forall k :: 0 <= k < |cs| && cs[k].tile == u ==> cs[k] == p
    ensures Count(KeptFrom(cs, i), u) == if NoneBetter(cs, p) then Count(Tiles(cs)[i..], u) else 0
    decreases |cs| - i
  {
    if i < |cs| {
      KeptFromCount(cs, i + 1, u, p);
      assert Tiles(cs)[i..][1..] == Tiles(cs)[i + 1..];
      var rest := KeptFrom(cs, i + 1);
      if Kept(cs, i) {
        assert ([cs[i].tile] + rest)[1..] == rest;
      }
      if cs[i].tile == u {
        KeptIffNoneBetter(cs, i);
      }
    }
  }

  /** Each transform that survives assessment contributes one candidate. */
  lemma {:induction false} CandidatesCount(ts: seq<TileString>, slot: OpenSlot, u: TileString)
    ensures Count(Tiles(Candidates(ts, slot)), u) == if Assess(u, slot).Some? then Count(ts, u) else 0
  {
    if |ts| > 0 {
      CandidatesCount(ts[1..], slot, u);
      match Assess(ts[0], slot)
      case None =>
      case Some(c) =>
        assert Tiles([c] + Candidates(ts[1..], slot))[1..] == Tiles(Candidates(ts[1..], slot));
    }
  }

  /** The source's output holds tile `u` once for every transform that
      produces it when `u` connects without conflict and no candidate beats
      it, and not at all otherwise: a symmetric tile is returned repeatedly. */
  lemma AsWrittenCount(tile: TileString, slot: OpenSlot, u: TileString)
    ensures Count(GetMeaningfulPlacementsAsWritten(tile, slot), u) ==
      if Assess(u, slot).Some? && NoneBetter(CandidatesOf(tile, slot), Assess(u, slot).value)
      then Count(AllTransformedTiles(tile), u) else 0
  {
    var ts := AllTransformedTiles(tile);
    var cs := CandidatesOf(tile, slot);
    CandidatesExact(ts, slot);
    CandidatesCount(ts, slot, u);
    if Assess(u, slot).Some? {
      var p := Assess(u, slot).value;
      forall k | 0 <= k < |cs| && cs[k].tile == u ensures cs[k] == p {
        assert cs[k] in cs;
      }
      KeptFromCount(cs, 0, u, p);
    } else {
      assert u !in Tiles(cs);
    }
  }

  /** The corrected output holds each tile at most once. */
  lemma PlacementsOnce(tile: TileString, slot: OpenSlot, u: TileString)
    ensures Count(GetMeaningfulPlacements(tile, slot), u) <= 1
  {
    DistinctCount(GetMeaningfulPlacements(tile, slot), u);
  }
}
