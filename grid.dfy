/** The playable grid (Assets/Scripts/Model/CellGrid.cs): a fixed matrix of
    optional cells, the bullet queue, the stagger parity and the colours that
    are still attached to the ceiling. */
module GridModel {
  import opened CellModel

  datatype Option<T> = None | Some(value: T)

  /** The accept-predicate handed to the flood-fill: the same-colour match
      (`cell.CellType == toMatch.CellType`) or the accept-anything
      reachability (`_ => true`). */
  datatype Criterion = SameTypeAs(t: CellType) | AnyCell {
    predicate Accepts(u: CellType) {
      match this
      case SameTypeAs(t) => u == t
      case AnyCell => true
    }
  }

  /** The default `minimumCount` of `GetConnectedCells`. */
  const DefaultMinimumCount: int := 3

  /** Row `y` takes its diagonal neighbours from column `x - 1`, rather than
      `x + 1`, for the current stagger parity. */
  predicate DiagonalsLeft(y: int, anchoredLeft: bool) {
    (anchoredLeft && y % 2 == 0) || (!anchoredLeft && y % 2 != 0)
  }

  /** The six hex-offset neighbours of `p`, in the order the flood-fill
      visits them. */
  function Neighbours(p: Pos, anchoredLeft: bool): (ns: seq<Pos>)
    ensures |ns| == 6
  {
    var dx := if DiagonalsLeft(p.y, anchoredLeft) then -1 else 1;
    [Pos(p.x + 1, p.y), Pos(p.x - 1, p.y), Pos(p.x, p.y + 1), Pos(p.x, p.y - 1),
     Pos(p.x + dx, p.y - 1), Pos(p.x + dx, p.y + 1)]
  }

  predicate Adjacent(p: Pos, q: Pos, anchoredLeft: bool) {
    q in Neighbours(p, anchoredLeft)
  }

  /** A slot has six distinct neighbours, all in the 3 × 3 box around it. */
  lemma NeighboursShape(p: Pos, anchoredLeft: bool)
    ensures forall i, j :: 0 <= i < j < 6 ==> Neighbours(p, anchoredLeft)[i] != Neighbours(p, anchoredLeft)[j]
    ensures forall i :: 0 <= i < 6 ==>
      var q := Neighbours(p, anchoredLeft)[i];
      q != p && -1 <= q.x - p.x <= 1 && -1 <= q.y - p.y <= 1
  {
  }

  /** Within a row the neighbours are left and right; in the rows above and
      below they are the same column and the one on the diagonal side; no
      other slot is a neighbour. */
  lemma AdjacentByRow(p: Pos, q: Pos, anchoredLeft: bool)
    ensures q.y == p.y ==> (Adjacent(p, q, anchoredLeft) <==> q.x == p.x - 1 || q.x == p.x + 1)
    ensures q.y == p.y - 1 || q.y == p.y + 1 ==>
      (Adjacent(p, q, anchoredLeft) <==>
        q.x == p.x || q.x == p.x + (if DiagonalsLeft(p.y, anchoredLeft) then -1 else 1))
    ensures q.y != p.y && q.y != p.y - 1 && q.y != p.y + 1 ==> !Adjacent(p, q, anchoredLeft)
  {
  }

  /** Adjacent rows have opposite diagonal direction, whichever the parity,
      and flipping the parity flips every row's direction. */
  lemma DiagonalsAlternate(y: int, anchoredLeft: bool)
    ensures DiagonalsLeft(y + 1, anchoredLeft) == !DiagonalsLeft(y, anchoredLeft)
    ensures DiagonalsLeft(y - 1, anchoredLeft) == !DiagonalsLeft(y, anchoredLeft)
    ensures DiagonalsLeft(y, !anchoredLeft) == !DiagonalsLeft(y, anchoredLeft)
  {
  }

  /** The adjacency is symmetric for either value of the stagger flag, and no
      slot is its own neighbour. */
  lemma AdjacencySymmetric(p: Pos, q: Pos, anchoredLeft: bool)
    ensures Adjacent(p, q, anchoredLeft) <==> Adjacent(q, p, anchoredLeft)
    ensures !Adjacent(p, p, anchoredLeft)
  {
    DiagonalsAlternate(p.y, anchoredLeft);
    DiagonalsAlternate(q.y, anchoredLeft);
  }

  /** The number of entries of `ps` that pass the bounds test of
      `RemoveCells`, which compares the upper bounds only; duplicates count
      once per entry. */
  function RemovableCount(ps: seq<Pos>, columns: int, rows: int): (n: nat)
    ensures n <= |ps|
  {
    if ps == [] then 0
    else
      var last := ps[|ps| - 1];
      RemovableCount(ps[..|ps| - 1], columns, rows) + (if last.x < columns && last.y < rows then 1 else 0)
  }

  /** Never more than the list's length, and exactly its length when every
      entry passes the bounds test. */
  lemma {:induction false} RemovableCountBounds(ps: seq<Pos>, columns: int, rows: int)
    ensures RemovableCount(ps, columns, rows) <= |ps|
    ensures RemovableCount(ps, columns, rows) == |ps| <==>
      forall i :: 0 <= i < |ps| ==> ps[i].x < columns && ps[i].y < rows
  {
    if ps != [] {
      var init := ps[..|ps| - 1];
      RemovableCountBounds(init, columns, rows);
      assert forall i :: 0 <= i < |init| ==> init[i] == ps[i];
    }
  }

  /** Removing the same in-bounds position twice counts twice. */
  lemma RemovableCountDuplicate(ps: seq<Pos>, p: Pos, columns: int, rows: int)
    requires p.x < columns && p.y < rows
    ensures RemovableCount(ps + [p, p], columns, rows) == RemovableCount(ps, columns, rows) + 2
  {
    var ps1 := ps + [p];
    assert (ps + [p, p])[..|ps + [p, p]| - 1] == ps1;
    assert ps1[..|ps1| - 1] == ps;
  }

  /** `ToList()` of a hash set: its elements, each once, in some order. */
  method ListOf<T>(s: set<T>) returns (xs: seq<T>)
    ensures forall t :: t in xs <==> t in s
    ensures forall i, j :: 0 <= i < j < |xs| ==> xs[i] != xs[j]
  {
    xs := [];
    var rest := s;
    while rest != {}
      invariant rest <= s
      invariant forall t :: t in xs <==> t in s - rest
      invariant forall i :: 0 <= i < |xs| ==> xs[i] !in rest
      invariant forall i, j :: 0 <= i < j < |xs| ==> xs[i] != xs[j]
      decreases rest
    {
      var t :| t in rest;
      xs := xs + [t];
      rest := rest - {t};
    }
  }

  /** The matrix `Initialize` allocates: rows [0, initialRowCount) of every
      column hold fresh random cells at their own slots, the rest is empty. */
  method FilledMatrix(columns: int, rows: int, initialRowCount: int) returns (m: array2<Cell?>)
    requires 0 <= columns && 0 <= rows && initialRowCount <= rows
    ensures fresh(m) && m.Length0 == columns && m.Length1 == rows
    ensures forall c, r :: 0 <= c < columns && 0 <= r < rows ==>
      if r < initialRowCount then
        m[c, r] != null && fresh(m[c, r]) && IsColour(m[c, r].cellType) &&
        m[c, r].currentPosition == Pos(c, r) && m[c, r].previousPosition == Origin
      else m[c, r] == null
  {
    m := new Cell?[columns, rows]((_, _) => null);
    var column := 0;
    while column < columns
      invariant 0 <= column <= columns
      invariant fresh(m)
      invariant forall c, r :: 0 <= c < columns && 0 <= r < rows ==>
        if c < column && r < initialRowCount then
          m[c, r] != null && fresh(m[c, r]) && IsColour(m[c, r].cellType) &&
          m[c, r].currentPosition == Pos(c, r) && m[c, r].previousPosition == Origin
        else m[c, r] == null
    {
      FillColumn(m, column, initialRowCount);
      column := column + 1;
    }
  }

  /** The inner loop of `Initialize`: rows [0, count) of `column` receive
      fresh random cells, each at its own slot; no other slot changes. */
  method FillColumn(m: array2<Cell?>, column: int, count: int)
    requires 0 <= column < m.Length0 && count <= m.Length1
    modifies m
    ensures forall c, r :: 0 <= c < m.Length0 && 0 <= r < m.Length1 ==>
      if c == column && r < count then
        m[c, r] != null && fresh(m[c, r]) && IsColour(m[c, r].cellType) &&
        m[c, r].currentPosition == Pos(c, r) && m[c, r].previousPosition == Origin
      else m[c, r] == old(m[c, r])
  {
    var row := 0;
    while row < count
      invariant 0 <= row && (row <= count || row == 0)
      invariant forall c, r :: 0 <= c < m.Length0 && 0 <= r < m.Length1 ==>
        if c == column && r < row then
          m[c, r] != null && fresh(m[c, r]) && IsColour(m[c, r].cellType) &&
          m[c, r].currentPosition == Pos(c, r) && m[c, r].previousPosition == Origin
        else m[c, r] == old(m[c, r])
    {
      m[column, row] := new Cell.AtPosition(Pos(column, row));
      row := row + 1;
    }
  }

  class CellGrid {
    // Serialized configuration (columns = 10, rows = 24, initialRowCount = 5
    // in the source's inspector defaults).
    const columns: int
    const rows: int
    const initialRowCount: int

    /** `Matrix[column, row]`; row 0 is the ceiling. Null until `Initialize`. */
    var matrix: array2?<Cell?>
    /** `_activeTypes`: the distinct colours among the attached cells. */
    var activeTypes: seq<CellType>
    var isAnchoredLeft: bool
    var currentBullet: Cell?
    var nextBullet: Cell?

    /** A fresh grid object, before `Initialize`. */
    constructor (columns: int, rows: int, initialRowCount: int)
      requires 0 <= columns && 0 < rows && initialRowCount <= rows
      ensures this.columns == columns && this.rows == rows
      ensures this.initialRowCount == initialRowCount
      ensures Configured()
      ensures matrix == null && activeTypes == [] && !isAnchoredLeft
      ensures currentBullet == null && nextBullet == null
    {
      this.columns := columns;
      this.rows := rows;
      this.initialRowCount := initialRowCount;
      matrix := null;
      activeTypes := [];
      isAnchoredLeft := false;
      currentBullet := null;
      nextBullet := null;
    }

    // ---------------------------------------------------------------------
    // Invariants

    ghost predicate Configured() {
      0 <= columns && 0 < rows && initialRowCount <= rows
    }

    ghost predicate Shaped()
      reads this`matrix
    {
      Configured() && matrix != null && matrix.Length0 == columns && matrix.Length1 == rows
    }

    /** The cells currently held by the matrix. */
    ghost function Occupants(): set<Cell>
      reads this`matrix, matrix
    {
      if matrix == null then {}
      else set c, r | 0 <= c < matrix.Length0 && 0 <= r < matrix.Length1 && matrix[c, r] != null :: matrix[c, r]
    }

    predicate InBounds(p: Pos) {
      0 <= p.x < columns && 0 <= p.y < rows
    }

    /** Every attached cell sits at its own `currentPosition` (so no cell
        occupies two slots) and has a real colour. */
    ghost predicate Placed()
      reads this`matrix, matrix, Occupants()
      requires Shaped()
    {
      forall c, r :: 0 <= c < columns && 0 <= r < rows && matrix[c, r] != null ==>
        matrix[c, r].currentPosition == Pos(c, r) && IsColour(matrix[c, r].cellType)
    }

    /** The bullets are pending cells of real colour, distinct from each other
        and from every cell of the matrix. */
    ghost predicate BulletsApart()
      reads this`matrix, this`currentBullet, this`nextBullet, matrix
      requires Shaped()
    {
      (currentBullet != null ==>
        IsColour(currentBullet.cellType) &&
        forall c, r :: 0 <= c < columns && 0 <= r < rows ==> matrix[c, r] != currentBullet) &&
      (nextBullet != null ==>
        IsColour(nextBullet.cellType) &&
        forall c, r :: 0 <= c < columns && 0 <= r < rows ==> matrix[c, r] != nextBullet) &&
      (currentBullet != null && nextBullet != null ==> currentBullet != nextBullet)
    }

    ghost predicate ActiveTypesAreColours()
      reads this`activeTypes
    {
      forall i :: 0 <= i < |activeTypes| ==> IsColour(activeTypes[i])
    }

    ghost predicate Valid()
      reads this, matrix, Occupants()
    {
      Shaped() && Placed() && BulletsApart() && ActiveTypesAreColours()
    }

    // ---------------------------------------------------------------------
    // Lifecycle

    /** Allocates the matrix and fills rows [0, initialRowCount) of every
        column with random cells; draws both bullets. */
    method Initialize()
      requires Configured() && ActiveTypesAreColours()
      modifies this
      ensures Valid() && fresh(matrix)
      ensures forall c, r :: 0 <= c < columns && 0 <= r < rows ==>
        if r < initialRowCount then
          matrix[c, r] != null && fresh(matrix[c, r]) &&
          matrix[c, r].currentPosition == Pos(c, r) && matrix[c, r].previousPosition == Origin
        else matrix[c, r] == null
      ensures currentBullet != null && fresh(currentBullet)
      ensures currentBullet.currentPosition == Origin && currentBullet.previousPosition == Origin
      ensures nextBullet != null && fresh(nextBullet)
      ensures nextBullet.currentPosition == Origin && nextBullet.previousPosition == Origin
      ensures isAnchoredLeft == old(isAnchoredLeft) && activeTypes == old(activeTypes)
    {
      matrix := FilledMatrix(columns, rows, initialRowCount);
      var first := RandomType();
      currentBullet := new Cell.OfType(first);
      var second := RandomType();
      nextBullet := new Cell.OfType(second);
    }

    /** Empties every slot and both bullets (`Array.Clear`); repeating it
        changes nothing, since the resulting state does not depend on the
        matrix contents or bullets before. */
    method TearDown()
      requires Valid()
      modifies this, matrix
      ensures Valid() && matrix == old(matrix)
      ensures forall c, r :: 0 <= c < columns && 0 <= r < rows ==> matrix[c, r] == null
      ensures currentBullet == null && nextBullet == null
      ensures isAnchoredLeft == old(isAnchoredLeft) && activeTypes == old(activeTypes)
    {
      forall c, r | 0 <= c < matrix.Length0 && 0 <= r < matrix.Length1 {
        matrix[c, r] := null;
      }
      currentBullet := null;
      nextBullet := null;
    }

    // ---------------------------------------------------------------------
    // Bullets

    /** Stores the current bullet at (x, y), whatever the slot held before. */
    method AttachNewCell(x: int, y: int)
      requires Valid()
      requires 0 <= x < columns && 0 <= y < rows
      requires currentBullet != null
      modifies this, matrix, currentBullet
      ensures Valid() && matrix == old(matrix)
      ensures matrix[x, y] == old(currentBullet) && matrix[x, y].currentPosition == Pos(x, y)
      ensures matrix[x, y].previousPosition == old(currentBullet.previousPosition)
      ensures forall c, r :: 0 <= c < columns && 0 <= r < rows && (c != x || r != y) ==>
        matrix[c, r] == old(matrix[c, r])
      ensures currentBullet == null && nextBullet == old(nextBullet)
      ensures isAnchoredLeft == old(isAnchoredLeft) && activeTypes == old(activeTypes)
    {
      matrix[x, y] := currentBullet;
      currentBullet.currentPosition := Pos(x, y);
      currentBullet := null;
    }

    /** `GetValidCellType`: one of the active colours, or Blue when none is
        active. */
    method GetValidCellType() returns (t: CellType)
      ensures |activeTypes| > 0 ==> t in activeTypes
      ensures |activeTypes| == 0 ==> t == Blue
    {
      if |activeTypes| > 0 {
        var i :| 0 <= i < |activeTypes|;
        t := activeTypes[i];
      } else {
        t := Blue;
      }
    }

    /** Promotes the next bullet and draws a new one biased to the active
        colours. */
    method CreateNewBullet()
      requires Valid()
      modifies this
      ensures Valid() && matrix == old(matrix)
      ensures currentBullet == old(nextBullet)
      ensures nextBullet != null && fresh(nextBullet)
      ensures nextBullet.currentPosition == Origin && nextBullet.previousPosition == Origin
      ensures |activeTypes| > 0 ==> nextBullet.cellType in activeTypes
      ensures |activeTypes| == 0 ==> nextBullet.cellType == Blue
      ensures isAnchoredLeft == old(isAnchoredLeft) && activeTypes == old(activeTypes)
    {
      currentBullet := nextBullet;
      var t := GetValidCellType();
      nextBullet := new Cell.OfType(t);
    }

    // ---------------------------------------------------------------------
    // Removal

    /** Nulls every listed slot that passes the upper-bound test and counts
        the entries that passed it. */
    method RemoveCells(cellsToRemove: seq<Pos>) returns (count: int)
      requires Valid()
      requires forall i :: 0 <= i < |cellsToRemove| && cellsToRemove[i].x < columns && cellsToRemove[i].y < rows ==>
        0 <= cellsToRemove[i].x && 0 <= cellsToRemove[i].y
      modifies matrix
      ensures Valid()
      ensures count == RemovableCount(cellsToRemove, columns, rows)
      ensures forall c, r :: 0 <= c < columns && 0 <= r < rows ==>
        matrix[c, r] == if Pos(c, r) in cellsToRemove then null else old(matrix[c, r])
    {
      count := 0;
      var i := 0;
      while i < |cellsToRemove|
        invariant 0 <= i <= |cellsToRemove|
        invariant Valid()
        invariant count == RemovableCount(cellsToRemove[..i], columns, rows)
        invariant forall c, r :: 0 <= c < columns && 0 <= r < rows ==>
          matrix[c, r] == if Pos(c, r) in cellsToRemove[..i] then null else old(matrix[c, r])
      {
        var pair := cellsToRemove[i];
        assert cellsToRemove[..i + 1][..i] == cellsToRemove[..i];
        assert cellsToRemove[..i + 1] == cellsToRemove[..i] + [pair];
        if pair.x < matrix.Length0 && pair.y < matrix.Length1 {
          assert 0 <= pair.x && 0 <= pair.y;
          count := count + 1;
          matrix[pair.x, pair.y] := null;
        }
        i := i + 1;
      }
      assert cellsToRemove[..i] == cellsToRemove;
    }

    // ---------------------------------------------------------------------
    // Connectivity: specification

    /** Slot `p` is on the board, holds a cell, and the criterion accepts that
        cell: the three early returns of the flood-fill, negated. */
    predicate Qualifies(p: Pos, criterion: Criterion)
      reads this`matrix, matrix
      requires Shaped()
    {
      InBounds(p) && matrix[p.x, p.y] != null && criterion.Accepts(matrix[p.x, p.y].cellType)
    }

    /** A chain of qualifying slots, each adjacent to the one before it. */
    ghost predicate IsPath(ps: seq<Pos>, criterion: Criterion)
      reads this`matrix, this`isAnchoredLeft, matrix
      requires Shaped()
    {
      |ps| > 0 &&
      (forall i :: 0 <= i < |ps| ==> Qualifies(ps[i], criterion)) &&
      (forall i, j :: 0 <= i && j == i + 1 && j < |ps| ==> Adjacent(ps[i], ps[j], isAnchoredLeft))
    }

    /** `ps` is a path from `seed` to `p`. */
    ghost predicate PathFromTo(ps: seq<Pos>, seed: Pos, p: Pos, criterion: Criterion)
      reads this`matrix, this`isAnchoredLeft, matrix
      requires Shaped()
    {
      IsPath(ps, criterion) && ps[0] == seed && ps[|ps| - 1] == p
    }

    ghost predicate Reachable(seed: Pos, p: Pos, criterion: Criterion)
      reads this`matrix, this`isAnchoredLeft, matrix
      requires Shaped()
    {
      exists ps :: PathFromTo(ps, seed, p, criterion)
    }

    ghost function AllSlots(): set<Pos>
    {
      set c, r | 0 <= c < columns && 0 <= r < rows :: Pos(c, r)
    }

    /** What the flood-fill collects from `seed`: every slot that a path of
        qualifying slots joins to it. */
    ghost function Component(seed: Pos, criterion: Criterion): set<Pos>
      reads this`matrix, this`isAnchoredLeft, matrix
      requires Shaped()
    {
      set p | p in AllSlots() && Reachable(seed, p, criterion)
    }

    lemma InAllSlots(p: Pos)
      requires InBounds(p)
      ensures p in AllSlots()
    {
      assert p == Pos(p.x, p.y);
    }

    lemma ExtendPath(ps: seq<Pos>, seed: Pos, p: Pos, q: Pos, criterion: Criterion)
      requires Shaped()
      requires PathFromTo(ps, seed, p, criterion) && Adjacent(p, q, isAnchoredLeft) && Qualifies(q, criterion)
      ensures PathFromTo(ps + [q], seed, q, criterion)
    {
      var qs := ps + [q];
      assert forall i :: 0 <= i < |ps| ==> qs[i] == ps[i];
      assert IsPath(qs, criterion);
    }

    lemma ExtendReach(seed: Pos, p: Pos, q: Pos, criterion: Criterion)
      requires Shaped()
      requires Reachable(seed, p, criterion) && Adjacent(p, q, isAnchoredLeft) && Qualifies(q, criterion)
      ensures Reachable(seed, q, criterion)
    {
      var ps :| PathFromTo(ps, seed, p, criterion);
      ExtendPath(ps, seed, p, q, criterion);
    }

    /** Only qualifying slots belong to a component, and only when the seed
        qualifies too; membership is exactly reachability. */
    lemma ComponentMembers(seed: Pos, criterion: Criterion, p: Pos)
      requires Shaped()
      ensures p in Component(seed, criterion) <==> Reachable(seed, p, criterion)
      ensures p in Component(seed, criterion) ==> Qualifies(p, criterion) && Qualifies(seed, criterion)
    {
      if Reachable(seed, p, criterion) {
        var ps :| PathFromTo(ps, seed, p, criterion);
        assert Qualifies(ps[|ps| - 1], criterion) && Qualifies(ps[0], criterion);
        InAllSlots(p);
      }
    }

    /** The seed is in its own component exactly when it qualifies. */
    lemma SeedInComponent(seed: Pos, criterion: Criterion)
      requires Shaped()
      ensures seed in Component(seed, criterion) <==> Qualifies(seed, criterion)
    {
      if Qualifies(seed, criterion) {
        assert PathFromTo([seed], seed, seed, criterion);
      }
      ComponentMembers(seed, criterion, seed);
    }

    /** A component is closed under the six-neighbour adjacency. */
    lemma ComponentClosed(seed: Pos, criterion: Criterion, p: Pos, q: Pos)
      requires Shaped()
      requires p in Component(seed, criterion)
      requires Adjacent(p, q, isAnchoredLeft) && Qualifies(q, criterion)
      ensures q in Component(seed, criterion)
    {
      ComponentMembers(seed, criterion, p);
      ExtendReach(seed, p, q, criterion);
      ComponentMembers(seed, criterion, q);
    }

    /** `s` holds every qualifying neighbour of each of its slots. */
    ghost predicate Closed(s: set<Pos>, criterion: Criterion)
      reads this`matrix, this`isAnchoredLeft, matrix
      requires Shaped()
    {
      forall v, j :: v in s && 0 <= j < 6 && Qualifies(Neighbours(v, isAnchoredLeft)[j], criterion) ==>
        Neighbours(v, isAnchoredLeft)[j] in s
    }

    lemma {:induction false} PathInside(ps: seq<Pos>, s: set<Pos>, criterion: Criterion)
      requires Shaped() && IsPath(ps, criterion) && ps[0] in s && Closed(s, criterion)
      ensures ps[|ps| - 1] in s
      decreases |ps|
    {
      if |ps| > 1 {
        var init := ps[..|ps| - 1];
        assert forall i :: 0 <= i < |init| ==> init[i] == ps[i];
        assert IsPath(init, criterion);
        PathInside(init, s, criterion);
        var v, q := ps[|ps| - 2], ps[|ps| - 1];
        assert Adjacent(v, q, isAnchoredLeft);
        var j :| 0 <= j < 6 && Neighbours(v, isAnchoredLeft)[j] == q;
      }
    }

    /** A closed set that holds the seed holds its whole component. */
    lemma ClosedContainsComponent(seed: Pos, s: set<Pos>, criterion: Criterion)
      requires Shaped() && seed in s && Closed(s, criterion)
      ensures Component(seed, criterion) <= s
    {
      forall p | p in Component(seed, criterion)
        ensures p in s
      {
        ComponentMembers(seed, criterion, p);
        var ps :| PathFromTo(ps, seed, p, criterion);
        PathInside(ps, s, criterion);
      }
    }

    // ---------------------------------------------------------------------
    // Connectivity: the flood-fill

    /** `paths` holds a path from `seed` to every slot of `s`. */
    ghost predicate Witnessed(s: set<Pos>, paths: map<Pos, seq<Pos>>, seed: Pos, criterion: Criterion)
      reads this`matrix, this`isAnchoredLeft, matrix
      requires Shaped()
    {
      forall v :: v in s ==> v in paths && PathFromTo(paths[v], seed, v, criterion)
    }

    /** Closure holds for every slot of `s` that is not still `pending`. */
    ghost predicate ClosedOutside(s: set<Pos>, pending: set<Pos>, criterion: Criterion)
      reads this`matrix, this`isAnchoredLeft, matrix
      requires Shaped()
    {
      forall v, j ::
        v in s && v !in pending && 0 <= j < 6 && Qualifies(Neighbours(v, isAnchoredLeft)[j], criterion) ==>
          Neighbours(v, isAnchoredLeft)[j] in s
    }

    /** One recursive call on a neighbour `n` of the visited slot `p`: adds
        `n` to `visited` when it qualifies and is not yet visited. */
    method Visit(seed: Pos, criterion: Criterion, p: Pos, n: Pos,
                 visited0: set<Pos>, ghost paths0: map<Pos, seq<Pos>>)
      returns (visited: set<Pos>, ghost paths: map<Pos, seq<Pos>>)
      requires Shaped()
      requires p in visited0 && Adjacent(p, n, isAnchoredLeft)
      requires visited0 <= AllSlots() && Witnessed(visited0, paths0, seed, criterion)
      ensures visited <= AllSlots() && Witnessed(visited, paths, seed, criterion)
      ensures visited == if Qualifies(n, criterion) then visited0 + {n} else visited0
    {
      visited, paths := visited0, paths0;
      if Qualifies(n, criterion) && n !in visited {
        ExtendPath(paths0[p], seed, p, n, criterion);
        InAllSlots(n);
        visited := visited + {n};
        paths := paths[n := paths0[p] + [n]];
      }
    }

    /** The six recursive calls on the neighbours of `p`. */
    method VisitNeighbours(seed: Pos, criterion: Criterion, p: Pos, visited0: set<Pos>, ghost paths0: map<Pos, seq<Pos>>)
      returns (visited: set<Pos>, ghost paths: map<Pos, seq<Pos>>)
      requires Shaped()
      requires p in visited0 && visited0 <= AllSlots() && Witnessed(visited0, paths0, seed, criterion)
      ensures visited0 <= visited <= AllSlots() && Witnessed(visited, paths, seed, criterion)
      ensures forall i :: 0 <= i < 6 && Qualifies(Neighbours(p, isAnchoredLeft)[i], criterion) ==>
        Neighbours(p, isAnchoredLeft)[i] in visited
    {
      visited, paths := visited0, paths0;
      var ns := Neighbours(p, isAnchoredLeft);
      var j := 0;
      while j < 6
        invariant 0 <= j <= 6
        invariant visited0 <= visited <= AllSlots() && Witnessed(visited, paths, seed, criterion)
        invariant forall i :: 0 <= i < j && Qualifies(ns[i], criterion) ==> ns[i] in visited
      {
        visited, paths := Visit(seed, criterion, p, ns[j], visited, paths);
        j := j + 1;
      }
    }

    /** One step of the flood-fill: a pending slot has its six neighbours
        visited; the ones newly reached become pending in its place. */
    method Expand(seed: Pos, criterion: Criterion, visited0: set<Pos>, pending0: set<Pos>,
                  ghost paths0: map<Pos, seq<Pos>>)
      returns (visited: set<Pos>, pending: set<Pos>, ghost paths: map<Pos, seq<Pos>>)
      requires Shaped() && pending0 != {} && pending0 <= visited0
      requires visited0 <= AllSlots() && Witnessed(visited0, paths0, seed, criterion)
      requires ClosedOutside(visited0, pending0, criterion)
      ensures visited0 <= visited <= AllSlots() && Witnessed(visited, paths, seed, criterion)
      ensures pending <= visited && ClosedOutside(visited, pending, criterion)
      ensures visited != visited0 ==> AllSlots() - visited < AllSlots() - visited0
      ensures visited == visited0 ==> pending < pending0
    {
      var p :| p in pending0;
      visited, paths := VisitNeighbours(seed, criterion, p, visited0, paths0);
      pending := (pending0 - {p}) + (visited - visited0);
      forall v, j | v in visited && v !in pending && 0 <= j < 6 &&
          Qualifies(Neighbours(v, isAnchoredLeft)[j], criterion)
        ensures Neighbours(v, isAnchoredLeft)[j] in visited
      {
        assert v in visited0 && (v == p || v !in pending0);
      }
      if visited != visited0 {
        var n :| n in visited && n !in visited0;
        assert n in AllSlots() - visited0;
      }
    }

    /** When nothing is pending any more, the visited set is the component. */
    lemma FillComplete(seed: Pos, criterion: Criterion, visited: set<Pos>, paths: map<Pos, seq<Pos>>)
      requires Shaped() && Witnessed(visited, paths, seed, criterion)
      requires Qualifies(seed, criterion) ==> seed in visited
      requires ClosedOutside(visited, {}, criterion)
      ensures visited == Component(seed, criterion)
    {
      assert Closed(visited, criterion);
      if Qualifies(seed, criterion) {
        ClosedContainsComponent(seed, visited, criterion);
      } else {
        forall p | p in Component(seed, criterion)
          ensures false
        {
          ComponentMembers(seed, criterion, p);
        }
      }
      forall p | p in visited
        ensures p in Component(seed, criterion)
      {
        assert PathFromTo(paths[p], seed, p, criterion);
        ComponentMembers(seed, criterion, p);
      }
    }

    /** The private recursive `GetConnectedCells(x, y, comparison, ref
        matches)`, written as a worklist loop over a visited set: it collects
        exactly the component of `seed` under `criterion`. */
    method FloodFill(seed: Pos, criterion: Criterion) returns (visited: set<Pos>)
      requires Shaped()
      ensures visited == Component(seed, criterion)
    {
      visited := {};
      ghost var paths: map<Pos, seq<Pos>> := map[];
      var pending: set<Pos> := {};
      if Qualifies(seed, criterion) {
        assert IsPath([seed], criterion);
        InAllSlots(seed);
        visited := {seed};
        paths := map[seed := [seed]];
        pending := {seed};
      }
      while pending != {}
        invariant visited <= AllSlots() && Witnessed(visited, paths, seed, criterion)
        invariant pending <= visited
        invariant Qualifies(seed, criterion) ==> seed in visited
        invariant ClosedOutside(visited, pending, criterion)
        decreases AllSlots() - visited, pending
      {
        visited, pending, paths := Expand(seed, criterion, visited, pending, paths);
      }
      FillComplete(seed, criterion, visited, paths);
    }

    /** The public `GetConnectedCells(cell, minimumCount = 3)`: the
        same-colour component of the cell's position when it has at least
        `minimumCount` slots, otherwise no match. */
    method GetConnectedCells(cell: Cell, minimumCount: int := DefaultMinimumCount) returns (matches: Option<set<Pos>>)
      requires Shaped()
      ensures var component := Component(cell.currentPosition, SameTypeAs(cell.cellType));
        matches == if |component| >= minimumCount then Some(component) else None
      ensures matches.Some? ==>
        |matches.value| >= minimumCount &&
        forall p :: p in matches.value ==>
          InBounds(p) && matrix[p.x, p.y] != null && matrix[p.x, p.y].cellType == cell.cellType
    {
      var found := FloodFill(cell.currentPosition, SameTypeAs(cell.cellType));
      matches := if |found| >= minimumCount then Some(found) else None;
      forall p | p in found
        ensures InBounds(p) && matrix[p.x, p.y] != null && matrix[p.x, p.y].cellType == cell.cellType
      {
        ComponentMembers(cell.currentPosition, SameTypeAs(cell.cellType), p);
      }
    }

    /** `GetConnectedCellsNonMatching`: every slot joined to the cell's
        position through occupied slots, whatever their colour. */
    method GetConnectedCellsNonMatching(cell: Cell) returns (matches: set<Pos>)
      requires Shaped()
      ensures matches == Component(cell.currentPosition, AnyCell)
    {
      matches := FloodFill(cell.currentPosition, AnyCell);
    }

    // ---------------------------------------------------------------------
    // Attached and floating cells

    /** The slots that hold a cell (`Matrix.Cast<Cell>().Where(cell => cell != null)`). */
    function OccupiedSlots(): (s: set<Pos>)
      reads this`matrix, matrix
      requires Shaped()
      ensures s <= AllSlots()
    {
      set c, r | 0 <= c < columns && 0 <= r < rows && matrix[c, r] != null :: Pos(c, r)
    }

    lemma OccupiedMembers(p: Pos)
      requires Shaped()
      ensures p in OccupiedSlots() <==> InBounds(p) && matrix[p.x, p.y] != null
    {
      if InBounds(p) && matrix[p.x, p.y] != null {
        assert p == Pos(p.x, p.y);
      }
    }

    /** Qualifying slots are occupied; under the accept-anything criterion
        every occupied slot qualifies. */
    lemma QualifiesOccupied(p: Pos, criterion: Criterion)
      requires Shaped()
      ensures Qualifies(p, criterion) ==> p in OccupiedSlots()
      ensures criterion == AnyCell && p in OccupiedSlots() ==> Qualifies(p, criterion)
    {
      OccupiedMembers(p);
    }

    /** The union of the accept-anything components of the occupied ceiling
        slots in columns [0, n). */
    ghost function AttachedFrom(n: int): set<Pos>
      reads this`matrix, this`isAnchoredLeft, matrix
      requires Shaped() && 0 <= n <= columns
      decreases n
    {
      if n == 0 then {}
      else AttachedFrom(n - 1) + (if matrix[n - 1, 0] != null then Component(Pos(n - 1, 0), AnyCell) else {})
    }

    /** What `FindAttachedCells` collects. */
    ghost function Attached(): set<Pos>
      reads this`matrix, this`isAnchoredLeft, matrix
      requires Shaped()
    {
      AttachedFrom(columns)
    }

    /** The colours of the cells at the slots of `s`. */
    function TypesAt(s: set<Pos>): set<CellType>
      reads this`matrix, matrix
      requires Shaped()
    {
      set p | p in s && InBounds(p) && matrix[p.x, p.y] != null :: matrix[p.x, p.y].cellType
    }

    /** `_activeTypes` lists the colours of `s`, each once. */
    ghost predicate ActiveTypesOf(s: set<Pos>)
      reads this`matrix, this`activeTypes, matrix
      requires Shaped()
    {
      (forall t :: t in activeTypes <==> t in TypesAt(s)) &&
      (forall i, j :: 0 <= i < j < |activeTypes| ==> activeTypes[i] != activeTypes[j])
    }

    lemma {:induction false} AttachedFromMembers(n: int, p: Pos)
      requires Shaped() && 0 <= n <= columns
      ensures p in AttachedFrom(n) <==> exists c :: 0 <= c < n && Reachable(Pos(c, 0), p, AnyCell)
      decreases n
    {
      if n > 0 {
        AttachedFromMembers(n - 1, p);
        ComponentMembers(Pos(n - 1, 0), AnyCell, p);
        if Reachable(Pos(n - 1, 0), p, AnyCell) {
          assert matrix[n - 1, 0] != null;
        }
      }
    }

    /** A slot is attached exactly when a path of occupied slots joins it to
        some ceiling slot. */
    lemma AttachedMembers(p: Pos)
      requires Shaped()
      ensures p in Attached() <==> exists c :: 0 <= c < columns && Reachable(Pos(c, 0), p, AnyCell)
    {
      AttachedFromMembers(columns, p);
    }

    /** Attached slots are occupied. */
    lemma AttachedOccupied()
      requires Shaped()
      ensures Attached() <= OccupiedSlots()
    {
      forall p | p in Attached()
        ensures p in OccupiedSlots()
      {
        AttachedMembers(p);
        var c :| 0 <= c < columns && Reachable(Pos(c, 0), p, AnyCell);
        ComponentMembers(Pos(c, 0), AnyCell, p);
        OccupiedMembers(p);
      }
    }

    /** Every occupied ceiling slot is attached, and so is every occupied
        neighbour of an attached slot. */
    lemma AttachedClosed(p: Pos, q: Pos)
      requires Shaped()
      ensures InBounds(p) && p.y == 0 && matrix[p.x, p.y] != null ==> p in Attached()
      ensures p in Attached() && Adjacent(p, q, isAnchoredLeft) && q in OccupiedSlots() ==> q in Attached()
    {
      AttachedMembers(p);
      AttachedMembers(q);
      if InBounds(p) && p.y == 0 && matrix[p.x, p.y] != null {
        SeedInComponent(p, AnyCell);
        ComponentMembers(p, AnyCell, p);
        assert Reachable(Pos(p.x, 0), p, AnyCell);
      }
      if p in Attached() && Adjacent(p, q, isAnchoredLeft) && q in OccupiedSlots() {
        var c :| 0 <= c < columns && Reachable(Pos(c, 0), p, AnyCell);
        OccupiedMembers(q);
        ExtendReach(Pos(c, 0), p, q, AnyCell);
      }
    }

    /** `FindAttachedCells`: the union of the accept-anything flood-fills of
        the occupied ceiling slots; refreshes `_activeTypes` with their
        colours. */
    method FindAttachedCells() returns (cells: set<Pos>)
      requires Valid()
      modifies this`activeTypes
      ensures Valid()
      ensures cells == Attached()
      ensures ActiveTypesOf(cells)
    {
      activeTypes := [];
      cells := CollectAttached();
      var types := TypesAt(cells);
      assert forall t :: t in types ==> IsColour(t);
      activeTypes := ListOf(types);
    }

    /** The loop of `FindAttachedCells`: the union of the accept-anything
        flood-fills started from each occupied ceiling slot. */
    method CollectAttached() returns (cells: set<Pos>)
      requires Valid()
      ensures cells == Attached()
    {
      cells := {};
      var column := 0;
      while column < columns
        invariant 0 <= column <= columns
        invariant cells == AttachedFrom(column)
      {
        var cell := matrix[column, 0];
        if cell != null {
          var connected := GetConnectedCellsNonMatching(cell);
          cells := cells + connected;
        }
        column := column + 1;
      }
    }

    /** The number of attached cells; refreshes `_activeTypes`. */
    method GetActiveCellsCount() returns (count: int)
      requires Valid()
      modifies this`activeTypes
      ensures Valid()
      ensures count == |Attached()|
      ensures ActiveTypesOf(Attached())
    {
      var attachedCells := FindAttachedCells();
      count := |attachedCells|;
    }

    /** `FindFloatingCells`: the occupied slots that are not attached. They
        and the attached slots partition the occupied slots. */
    method FindFloatingCells() returns (floating: set<Pos>)
      requires Valid()
      modifies this`activeTypes
      ensures Valid()
      ensures floating == OccupiedSlots() - Attached()
      ensures floating !! Attached() && floating + Attached() == OccupiedSlots()
      ensures ActiveTypesOf(Attached())
    {
      var matrixSet := OccupiedSlots();
      var attached := FindAttachedCells();
      floating := matrixSet - attached;
      AttachedOccupied();
    }

    // ---------------------------------------------------------------------
    // Row shift

    /** The cells of the bottom row. */
    ghost function LastRowCells(): set<Cell>
      reads this`matrix, matrix
      requires Shaped()
    {
      set c, r | 0 <= c < columns && r == rows - 1 && matrix[c, r] != null :: matrix[c, r]
    }

    /** One step of the inner loop of `MoveCellsDown`: the cell at
        (column, row), if any, moves into the slot below, recording its old
        slot; (column, row) becomes empty. */
    method MoveCell(column: int, row: int)
      requires Valid() && 0 <= column < columns && 0 <= row < rows - 1
      modifies matrix, Occupants()
      ensures Valid()
      ensures forall c, k :: 0 <= c < columns && 0 <= k < rows ==>
        matrix[c, k] ==
          if c == column && k == row then null
          else if c == column && k == row + 1 then old(matrix[column, row])
          else old(matrix[c, k])
      ensures matrix[column, row + 1] != null ==> matrix[column, row + 1].previousPosition == Pos(column, row)
      ensures forall c, k :: 0 <= c < columns && 0 <= k < rows && !(c == column && k == row + 1) && matrix[c, k] != null ==>
        matrix[c, k].previousPosition == old(matrix[c, k].previousPosition)
      ensures Occupants() <= old(Occupants())
    {
      var cellToMove := matrix[column, row];
      matrix[column, row + 1] := cellToMove;
      if cellToMove != null {
        cellToMove.previousPosition := Pos(column, row);
        cellToMove.currentPosition := Pos(column, row + 1);
      }
      matrix[column, row] := null;
    }

    /** One pass of the inner loop of `MoveCellsDown`: every cell of `row`
        moves into the slot below it, recording `row` as its previous row. */
    method ShiftRow(row: int)
      requires Valid() && 0 <= row < rows - 1
      modifies matrix, Occupants()
      ensures Valid()
      ensures forall c, k :: 0 <= c < columns && 0 <= k < rows ==>
        matrix[c, k] == if k == row then null else if k == row + 1 then old(matrix[c, row]) else old(matrix[c, k])
      ensures forall c :: 0 <= c < columns && matrix[c, row + 1] != null ==>
        matrix[c, row + 1].previousPosition == Pos(c, row)
      ensures forall c, k :: 0 <= c < columns && 0 <= k < rows && k != row + 1 && matrix[c, k] != null ==>
        matrix[c, k].previousPosition == old(matrix[c, k].previousPosition)
      ensures Occupants() <= old(Occupants())
    {
      var cols := matrix.Length0;
      var column := 0;
      while column < cols
        invariant 0 <= column <= cols
        invariant Valid() && Occupants() <= old(Occupants())
        invariant forall c, k :: 0 <= c < columns && 0 <= k < rows ==>
          matrix[c, k] ==
            if k == row && c < column then null
            else if k == row + 1 && c < column then old(matrix[c, row])
            else old(matrix[c, k])
        invariant forall c :: 0 <= c < column && matrix[c, row + 1] != null ==>
          matrix[c, row + 1].previousPosition == Pos(c, row)
        invariant forall c, k :: 0 <= c < columns && 0 <= k < rows && !(k == row + 1 && c < column) && matrix[c, k] != null ==>
          matrix[c, k].previousPosition == old(matrix[c, k].previousPosition)
      {
        MoveCell(column, row);
        column := column + 1;
      }
    }

    /** `MoveCellsDown`: walking the rows upwards from the last but one, each
        cell moves one row down (recording its old slot in
        `previousPosition`), so the last row's cells drop out; then the
        stagger parity flips. */
    method MoveCellsDown()
      requires Valid()
      modifies this`isAnchoredLeft, matrix, Occupants()
      ensures Valid()
      ensures isAnchoredLeft == !old(isAnchoredLeft)
      ensures forall c, r :: 0 <= c < columns && 0 <= r < rows ==>
        matrix[c, r] == if r > 0 then old(matrix[c, r - 1]) else if rows > 1 then null else old(matrix[c, 0])
      ensures forall c, r :: 0 <= c < columns && 1 <= r < rows && matrix[c, r] != null ==>
        matrix[c, r].previousPosition == Pos(c, r - 1)
    {
      var ros := matrix.Length1;
      var row := ros - 2;
      while row >= 0
        invariant -1 <= row <= ros - 2
        invariant Valid() && isAnchoredLeft == old(isAnchoredLeft)
        invariant Occupants() <= old(Occupants())
        invariant forall c, k :: 0 <= c < columns && 0 <= k < ros ==>
          matrix[c, k] ==
            if k <= row then old(matrix[c, k])
            else if k == row + 1 then (if k == ros - 1 then old(matrix[c, k]) else null)
            else old(matrix[c, k - 1])
        invariant forall c, k :: 0 <= c < columns && row + 2 <= k < ros && matrix[c, k] != null ==>
          matrix[c, k].previousPosition == Pos(c, k - 1)
      {
        ShiftRow(row);
        row := row - 1;
      }
      isAnchoredLeft := !isAnchoredLeft;
    }

    /** The loop of `AddNewRow`: every ceiling slot receives a fresh random
        cell at its own slot; no other slot changes. */
    method FillCeiling()
      requires Valid()
      modifies matrix
      ensures Valid()
      ensures forall c, r :: 0 <= c < columns && 1 <= r < rows ==> matrix[c, r] == old(matrix[c, r])
      ensures forall c :: 0 <= c < columns ==>
        matrix[c, 0] != null && fresh(matrix[c, 0]) &&
        matrix[c, 0].currentPosition == Pos(c, 0) && matrix[c, 0].previousPosition == Origin
    {
      var column := 0;
      while column < columns
        invariant 0 <= column <= columns
        invariant Valid()
        invariant forall c, r :: 0 <= c < columns && 1 <= r < rows ==> matrix[c, r] == old(matrix[c, r])
        invariant forall c :: 0 <= c < column ==>
          matrix[c, 0] != null && fresh(matrix[c, 0]) &&
          matrix[c, 0].currentPosition == Pos(c, 0) && matrix[c, 0].previousPosition == Origin
        invariant forall c :: column <= c < columns ==> matrix[c, 0] == old(matrix[c, 0])
      {
        matrix[column, 0] := new Cell.AtPosition(Pos(column, 0));
        column := column + 1;
      }
    }

    /** `AddNewRow`: shifts every cell one row down and refills the ceiling
        with fresh random cells. */
    method AddNewRow()
      requires Valid()
      modifies this`isAnchoredLeft, matrix, Occupants()
      ensures Valid()
      ensures isAnchoredLeft == !old(isAnchoredLeft)
      ensures forall c, r :: 0 <= c < columns && 1 <= r < rows ==> matrix[c, r] == old(matrix[c, r - 1])
      ensures forall c, r :: 0 <= c < columns && 1 <= r < rows && matrix[c, r] != null ==>
        matrix[c, r].currentPosition == Pos(c, r) && matrix[c, r].previousPosition == Pos(c, r - 1)
      ensures forall c :: 0 <= c < columns ==>
        matrix[c, 0] != null && fresh(matrix[c, 0]) &&
        matrix[c, 0].currentPosition == Pos(c, 0) && matrix[c, 0].previousPosition == Origin
      ensures old(LastRowCells()) !! Occupants()
    {
      MoveCellsDown();
      FillCeiling();
    }
  }
}
