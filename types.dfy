/** Value types shared by the geohash encoder, decoder and neighbour finder. */
module GeohashTypes {

  /** A point: `x` is the longitude, `y` the latitude. Exact reals stand in for `f64`. */
  datatype Coordinate = Coordinate(x: real, y: real)

  /** An axis-aligned cell, from its south-west corner `min` to its north-east corner `max`. */
  datatype Rect = Rect(min: Coordinate, max: Coordinate)

  /** The two ways an operation can fail, each carrying the offending input. */
  datatype GeohashError =
    | InvalidCoordinateRange(c: Coordinate)
    | InvalidHashCharacter(character: char)

  /** The outcome of every public operation; `:-` propagates a failure unchanged. */
  datatype Result<+T> = Success(value: T) | Failure(error: GeohashError) {
    predicate IsFailure() {
      Failure?
    }

    function PropagateFailure<U>(): Result<U>
      requires Failure?
    {
      Failure(error)
    }

    function Extract(): T
      requires Success?
    {
      value
    }
  }

  /** The eight compass directions a neighbour can lie in. */
  datatype Direction = N | NE | E | SE | S | SW | W | NW

  /** The (latitude, longitude) unit signs of a step in direction `d`. */
  function ToTuple(d: Direction): (t: (int, int))
    ensures -1 <= t.0 <= 1 && -1 <= t.1 <= 1
    ensures t != (0, 0)
    ensures d in {N, NE, NW} <==> t.0 == 1
    ensures d in {S, SE, SW} <==> t.0 == -1
    ensures d in {E, NE, SE} <==> t.1 == 1
    ensures d in {W, NW, SW} <==> t.1 == -1
  {
    match d
    case N => (1, 0)
    case NE => (1, 1)
    case E => (0, 1)
    case SE => (-1, 1)
    case S => (-1, 0)
    case SW => (-1, -1)
    case W => (0, -1)
    case NW => (1, -1)
  }

  /** The eight neighbours of a cell, all of the cell's own length. */
  datatype NeighborSet = NeighborSet(
    sw: string, s: string, se: string, w: string,
    e: string, nw: string, n: string, ne: string)

  /** A non-empty sequence is its front followed by its last element. */
  lemma LastSplit<T>(s: seq<T>)
    requires |s| > 0
    ensures s == s[..|s| - 1] + [s[|s| - 1]]
  {
  }

  /** Taking one more element of `s` after a fixed front appends that element. */
  lemma AppendTakeSnoc<T>(front: seq<T>, s: seq<T>, k: nat, m: nat)
    requires k < |s| && m == k + 1
    ensures front + s[..m] == (front + s[..k]) + [s[k]]
  {
    assert s[..m] == s[..k] + [s[k]];
  }

  /** A sequence is its first `p` elements followed by the rest. */
  lemma TakeDrop<T>(s: seq<T>, p: nat)
    requires p <= |s|
    ensures s == s[..p] + s[p..]
  {
  }
}
