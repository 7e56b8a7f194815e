/**
 * Block faces and integer cell positions: the geometry the ladder block relies on.
 * Faces are declared in the order of their numeric values (Down = 0 ... East = 5).
 */
module Cube {
  import opened Wrappers

  /** A signed 32-bit integer, the type of the `facing_direction` block property. */
  newtype Int32 = x: int | -0x8000_0000 <= x < 0x8000_0000

  /** A signed 16-bit integer, the type of an item's legacy metadata value. */
  newtype Int16 = x: int | -0x8000 <= x < 0x8000

  datatype Face = Down | Up | North | South | West | East

  /** The four side faces; Up and Down are the vertical ones. */
  predicate IsHorizontal(f: Face) {
    f != Up && f != Down
  }

  /** The face pointing the other way along the same axis. */
  function Opposite(f: Face): (g: Face)
    ensures g != f
    ensures IsHorizontal(g) <==> IsHorizontal(f)
  {
    match f
    case Down => Up
    case Up => Down
    case North => South
    case South => North
    case West => East
    case East => West
  }

  lemma OppositeInvolution(f: Face)
    ensures Opposite(Opposite(f)) == f
  {
  }

  /** The numeric value of a face, as `int32(face)` produces it. */
  function FaceIndex(f: Face): (i: Int32)
    ensures 0 <= i < 6
  {
    match f
    case Down => 0
    case Up => 1
    case North => 2
    case South => 3
    case West => 4
    case East => 5
  }

  /** The face with a given numeric value, if there is one. */
  function FaceFromIndex(i: Int32): (r: Option<Face>)
    ensures r.Some? <==> 0 <= i < 6
  {
    if i == 0 then Some(Down)
    else if i == 1 then Some(Up)
    else if i == 2 then Some(North)
    else if i == 3 then Some(South)
    else if i == 4 then Some(West)
    else if i == 5 then Some(East)
    else None
  }

  lemma FaceIndexRoundTrip(f: Face)
    ensures FaceFromIndex(FaceIndex(f)) == Some(f)
  {
  }

  lemma FaceFromIndexRoundTrip(i: Int32)
    requires FaceFromIndex(i).Some?
    ensures FaceIndex(FaceFromIndex(i).value) == i
  {
  }

  lemma FaceIndexInjective(f: Face, g: Face)
    ensures FaceIndex(f) == FaceIndex(g) ==> f == g
  {
    FaceIndexRoundTrip(f);
    FaceIndexRoundTrip(g);
  }

  /** All six faces, in numeric order. */
  function Faces(): (fs: seq<Face>)
    ensures |fs| == 6
    ensures forall i :: 0 <= i < |fs| ==> FaceIndex(fs[i]) as int == i
  {
    [Down, Up, North, South, West, East]
  }

  /** Every face occurs in Faces(), and exactly once. */
  lemma FacesListsEachFaceOnce()
    ensures forall f: Face :: f in Faces()
    ensures forall i, j :: 0 <= i < j < |Faces()| ==> Faces()[i] != Faces()[j]
  {
    forall f: Face
      ensures f in Faces()
    {
      assert Faces()[FaceIndex(f)] == f;
    }
    forall i, j | 0 <= i < j < |Faces()|
      ensures Faces()[i] != Faces()[j]
    {
      assert FaceIndex(Faces()[i]) != FaceIndex(Faces()[j]);
    }
  }

  /** A cell of the voxel world. */
  datatype Pos = Pos(x: int, y: int, z: int) {

    /** The neighbouring cell one step in the direction of face f. */
    function Side(f: Face): (q: Pos)
      ensures q != this
      ensures f == Up || f == Down <==> q.y != y
    {
      match f
      case Down => this.(y := y - 1)
      case Up => this.(y := y + 1)
      case North => this.(z := z - 1)
      case South => this.(z := z + 1)
      case West => this.(x := x - 1)
      case East => this.(x := x + 1)
    }
  }

  /** Stepping out through a face and back through its opposite returns to the start. */
  lemma SideThenOpposite(p: Pos, f: Face)
    ensures p.Side(f).Side(Opposite(f)) == p
  {
  }

  /** Distinct faces lead to distinct neighbours. */
  lemma SideInjective(p: Pos, f: Face, g: Face)
    ensures p.Side(f) == p.Side(g) ==> f == g
  {
  }

}
