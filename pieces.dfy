/** The piece catalogue: the seven tetromino kinds and, for each, the four
    orientations as ordered lists of (dx, dy) offsets from the anchor cell.
    Colours are a rendering concern and are not modelled. */
module Pieces {

  /** The seven kinds, in the order of the source's block table (index 0 .. 6). */
  datatype Kind = I | O | S | Z | J | L | T

  /** The position of a kind in the block table, which is how the falling and
      the queued piece are held. */
  function Index(kind: Kind): (n: nat)
    ensures n < 7
    ensures n == 0 <==> kind == I
  {
    match kind
    case I => 0
    case O => 1
    case S => 2
    case Z => 3
    case J => 4
    case L => 5
    case T => 6
  }

  /** Distinct kinds sit at distinct table positions. */
  lemma IndexInjective(a: Kind, b: Kind)
    ensures Index(a) == Index(b) <==> a == b
  {
  }

  /** An orientation index. */
  type Angle = a: int | 0 <= a < 4

  /** One occupied cell of a piece, relative to its anchor. */
  datatype Offset = Offset(dx: int, dy: int)

  /** The orientation reached by one clockwise rotation step. */
  function NextAngle(a: Angle): (b: Angle)
    ensures b == (a + 1) % 4
    ensures a < 3 ==> b == a + 1
    ensures a == 3 ==> b == 0
  {
    if a == 3 then 0 else a + 1
  }

  /** The geometry table: the four cells of `kind` in orientation `angle`. */
  function Shape(kind: Kind, angle: Angle): (r: seq<Offset>)
    ensures |r| == 4
    ensures Offset(0, 0) in r
    ensures forall i :: 0 <= i < |r| ==> -1 <= r[i].dx <= 2 && -1 <= r[i].dy <= 2
  {
    match kind
    case I =>
      if angle % 2 == 0 then [Offset(-1, 0), Offset(0, 0), Offset(1, 0), Offset(2, 0)]
      else [Offset(0, -1), Offset(0, 0), Offset(0, 1), Offset(0, 2)]
    case O =>
      [Offset(0, 0), Offset(1, 0), Offset(0, 1), Offset(1, 1)]
    case S =>
      if angle % 2 == 0 then [Offset(0, 0), Offset(1, 0), Offset(-1, 1), Offset(0, 1)]
      else [Offset(-1, -1), Offset(-1, 0), Offset(0, 0), Offset(0, 1)]
    case Z =>
      if angle % 2 == 0 then [Offset(-1, 0), Offset(0, 0), Offset(0, 1), Offset(1, 1)]
      else [Offset(0, -1), Offset(-1, 0), Offset(0, 0), Offset(-1, 1)]
    case J => (
      match angle
      case 0 => [Offset(-1, -1), Offset(-1, 0), Offset(0, 0), Offset(1, 0)]
      case 1 => [Offset(0, -1), Offset(1, -1), Offset(0, 0), Offset(0, 1)]
      case 2 => [Offset(-1, 0), Offset(0, 0), Offset(1, 0), Offset(1, 1)]
      case 3 => [Offset(0, -1), Offset(0, 0), Offset(-1, 1), Offset(0, 1)])
    case L => (
      match angle
      case 0 => [Offset(1, -1), Offset(-1, 0), Offset(0, 0), Offset(1, 0)]
      case 1 => [Offset(0, -1), Offset(0, 0), Offset(0, 1), Offset(1, 1)]
      case 2 => [Offset(-1, 0), Offset(0, 0), Offset(1, 0), Offset(-1, 1)]
      case 3 => [Offset(-1, -1), Offset(0, -1), Offset(0, 0), Offset(0, 1)])
    case T => (
      match angle
      case 0 => [Offset(0, -1), Offset(-1, 0), Offset(0, 0), Offset(1, 0)]
      case 1 => [Offset(0, -1), Offset(0, 0), Offset(1, 0), Offset(0, 1)]
      case 2 => [Offset(-1, 0), Offset(0, 0), Offset(1, 0), Offset(0, 1)]
      case 3 => [Offset(0, -1), Offset(-1, 0), Offset(0, 0), Offset(0, 1)])
  }

  /** The four cells of every orientation are distinct. */
  lemma ShapeCellsDistinct(kind: Kind, angle: Angle)
    ensures forall i, j :: 0 <= i < j < 4 ==> Shape(kind, angle)[i] != Shape(kind, angle)[j]
  {
  }

  /** The O piece looks the same in every orientation; I, S and Z repeat
      after two rotation steps; J, L and T have four distinct orientations. */
  lemma RotationalSymmetry(angle: Angle)
    ensures Shape(O, angle) == Shape(O, 0)
    ensures forall k :: k in {I, S, Z} ==> Shape(k, angle) == Shape(k, (angle + 2) % 4)
    ensures forall k, b: Angle :: k in {J, L, T} && b != angle ==> Shape(k, b) != Shape(k, angle)
  {
  }
}
