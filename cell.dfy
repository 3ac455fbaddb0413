/** The unit stored in the grid: an immutable colour and two mutable positions
    (Assets/Scripts/Model/Cell.cs). */
module CellModel {

  /** `Cell.Type`: six colours followed by `Length`, a count sentinel that is
      not a colour. */
  datatype CellType = Brown | Violet | Rust | Red | Blue | Green | Length

  /** `(int) Cell.Type.Length`: the number of real colours. */
  const ColourCount: nat := 6

  /** The integer value of an enum member, as C# numbers them. */
  function Ordinal(t: CellType): (n: nat)
    ensures n <= ColourCount
    ensures n == ColourCount <==> t == Length
  {
    match t
    case Brown => 0
    case Violet => 1
    case Rust => 2
    case Red => 3
    case Blue => 4
    case Green => 5
    case Length => 6
  }

  /** The cast `(Cell.Type) i` for an integer within the enum's range. */
  function FromOrdinal(i: int): (t: CellType)
    requires 0 <= i <= ColourCount
    ensures Ordinal(t) == i
  {
    if i == 0 then Brown
    else if i == 1 then Violet
    else if i == 2 then Rust
    else if i == 3 then Red
    else if i == 4 then Blue
    else if i == 5 then Green
    else Length
  }

  /** A real colour, i.e. anything but the `Length` sentinel. */
  predicate IsColour(t: CellType) {
    t != Length
  }

  /** `(Cell.Type) Random.Range(0, (int) Cell.Type.Length)`: the generator is
      abstracted to an arbitrary choice in the exclusive range [0, Length). */
  method RandomType() returns (t: CellType)
    ensures Ordinal(t) < ColourCount
    ensures IsColour(t)
  {
    var roll :| 0 <= roll < ColourCount;
    t := FromOrdinal(roll);
  }

  /** `Vector2Int`, a pair of integers. */
  datatype Pos = Pos(x: int, y: int)

  /** The default value of a `Vector2Int` field. */
  const Origin: Pos := Pos(0, 0)

  class Cell {
    /** `CellType` has a private setter that only the constructors use. */
    const cellType: CellType
    var currentPosition: Pos
    var previousPosition: Pos

    /** `Cell(Type)`: positions keep their default value. */
    constructor OfType(t: CellType)
      ensures cellType == t
      ensures currentPosition == Origin && previousPosition == Origin
    {
      cellType := t;
      currentPosition := Origin;
      previousPosition := Origin;
    }

    /** `Cell(Vector2Int)`: a random real colour at the given position. */
    constructor AtPosition(position: Pos)
      ensures IsColour(cellType)
      ensures currentPosition == position && previousPosition == Origin
    {
      var t := RandomType();
      cellType := t;
      currentPosition := position;
      previousPosition := Origin;
    }

    /** `Cell(Type, Vector2Int)`. */
    constructor (t: CellType, position: Pos)
      ensures cellType == t
      ensures currentPosition == position && previousPosition == Origin
    {
      cellType := t;
      currentPosition := position;
      previousPosition := Origin;
    }
  }

  /** Casting back and forth between the enum and its integer value is the
      identity on both sides. */
  lemma OrdinalRoundTrip(t: CellType, i: int)
    requires 0 <= i <= ColourCount
    ensures FromOrdinal(Ordinal(t)) == t
    ensures Ordinal(FromOrdinal(i)) == i
    ensures IsColour(FromOrdinal(i)) <==> i < ColourCount
  {
  }
}
