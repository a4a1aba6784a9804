/** The twelve fixed board exits shared by every board revision
    (src/logic/Board.ts, src/logic/board.ts, src/board.ts). */
module BoardExits {
  import opened Types
  import opened Helpers

  /** An exit: a boundary cell, the side facing off the board and the track
      type the exit carries. */
  datatype Exit = Exit(y: int, x: int, r: Rotation, t: TrackType) {
    function Position(): Pos {
      Pos(y, x)
    }
  }

  const Exits: seq<Exit> := [
    Exit(0, 1, 0, Road), Exit(0, 3, 0, Rail), Exit(0, 5, 0, Road),
    Exit(1, 6, 1, Rail), Exit(3, 6, 1, Road), Exit(5, 6, 1, Rail),
    Exit(6, 5, 2, Road), Exit(6, 3, 2, Rail), Exit(6, 1, 2, Road),
    Exit(5, 0, 3, Rail), Exit(3, 0, 3, Road), Exit(1, 0, 3, Rail)
  ]

  /** Every exit sits on the board, on the edge its side faces; no two exits
      share a cell, so a cell hosts at most one exit. */
  lemma ExitsOnBoundary()
    ensures |Exits| == 12
    ensures forall i :: 0 <= i < 12 ==> InBounds(Exits[i].Position()) && FacesEdge(Exits[i].Position(), Exits[i].r)
    ensures forall i, j :: 0 <= i < j < 12 ==> Exits[i].Position() != Exits[j].Position()
  {
  }

  /** True when `p` hosts an exit. */
  predicate IsExitCell(p: Pos) {
    exists i :: 0 <= i < |Exits| && Exits[i].Position() == p
  }
}
