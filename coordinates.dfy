/** The coordinate system of a triangular peg board of side `size`.
    Slots are numbered 1 .. T(size) row by row from the apex; slot k sits at a
    0-based (row, column) with column <= row < size. */
module TriangleCoordinates {

  /** T(n) = n(n+1)/2, the number of slots in a triangle of side n: one row of
      each length 1 .. n. */
  function TriangleNumber(n: nat): (t: nat)
    ensures t == RowLengthSum(n)
  {
    RowLengthSumClosedForm(n);
    n * (n + 1) / 2
  }

  /** Reference definition of T(n): the lengths of rows 1 .. n added up. */
  function RowLengthSum(n: nat): nat
  {
    if n == 0 then 0 else RowLengthSum(n - 1) + n
  }

  /** Gauss's closed form of the row sum. */
  lemma {:induction false} RowLengthSumClosedForm(n: nat)
    ensures n * (n + 1) / 2 == RowLengthSum(n)
  {
    if n > 0 {
      RowLengthSumClosedForm(n - 1);
      assert n * (n + 1) == (n - 1) * n + 2 * n;
    }
  }

  /** T is strictly increasing: each row adds at least one slot, so rows end at
      distinct slots. */
  lemma {:induction false} TriangleNumberLess(m: nat, n: nat)
    requires m < n
    ensures TriangleNumber(m) + n - m <= TriangleNumber(n)
    decreases n - m
  {
    assert TriangleNumber(m + 1) == TriangleNumber(m) + m + 1;
    if m + 1 < n {
      TriangleNumberLess(m + 1, n);
    }
  }

  /** The coordinate (row, column) lies on a board of side `size`. */
  predicate InTriangle(size: nat, row: nat, column: nat)
  {
    column <= row < size
  }

  /** The 1-based slot index of (row, column): the rows above hold
      1 + 2 + ... + row = T(row) slots. */
  function Slot(row: nat, column: nat): nat
  {
    TriangleNumber(row) + column + 1
  }

  /** Every slot of row `row` lies strictly after the rows above it and no later
      than the end of its own row, hence within 1 .. T(size). */
  lemma SlotInRange(size: nat, row: nat, column: nat)
    requires InTriangle(size, row, column)
    ensures TriangleNumber(row) < Slot(row, column) <= TriangleNumber(row + 1)
    ensures 1 <= Slot(row, column) <= TriangleNumber(size)
  {
    assert TriangleNumber(row + 1) == TriangleNumber(row) + row + 1;
    if row + 1 < size {
      TriangleNumberLess(row + 1, size);
    }
  }

  /** Different coordinates of the triangle have different slot indices. */
  lemma SlotInjective(r1: nat, c1: nat, r2: nat, c2: nat)
    requires c1 <= r1 && c2 <= r2
    requires Slot(r1, c1) == Slot(r2, c2)
    ensures r1 == r2 && c1 == c2
  {
    // The rows above the lower coordinate already hold every slot of the higher one's row.
    if r1 < r2 {
      assert TriangleNumber(r1 + 1) == TriangleNumber(r1) + r1 + 1;
      if r1 + 1 < r2 { TriangleNumberLess(r1 + 1, r2); }
    } else if r2 < r1 {
      assert TriangleNumber(r2 + 1) == TriangleNumber(r2) + r2 + 1;
      if r2 + 1 < r1 { TriangleNumberLess(r2 + 1, r1); }
    }
  }

  /** The slot numbering of the doc-comment example: on a side-5 board slot 13
      is row 4, column 2, and no other coordinate. */
  lemma PositionThirteenIsRowFourColumnTwo(row: nat, column: nat)
    requires InTriangle(5, row, column) && Slot(row, column) == 13
    ensures row == 4 && column == 2
  {
    assert Slot(4, 2) == 13;
    SlotInjective(row, column, 4, 2);
  }

  /** `m` maps every slot 1 .. T(size), and nothing else, to its coordinate. */
  ghost predicate IsPositionMap(size: nat, m: map<nat, (nat, nat)>)
  {
    && (forall k :: k in m <==> 1 <= k <= TriangleNumber(size))
    && (forall k :: k in m ==> InTriangle(size, m[k].0, m[k].1) && k == Slot(m[k].0, m[k].1))
  }

  /** `m` maps every coordinate of the board, and nothing else, to its slot. */
  ghost predicate IsCoordinateMap(size: nat, m: map<(nat, nat), nat>)
  {
    && (forall rc: (nat, nat) :: rc in m <==> InTriangle(size, rc.0, rc.1))
    && (forall rc: (nat, nat) :: rc in m ==> m[rc] == Slot(rc.0, rc.1) && 1 <= m[rc] <= TriangleNumber(size))
  }

  /** Maps every row-ending slot T(n), 1 <= n <= size, back to n. */
  method CreateTriangleMap(size: nat) returns (triangleMap: map<nat, nat>)
    ensures forall n :: 1 <= n <= size ==> TriangleNumber(n) in triangleMap && triangleMap[TriangleNumber(n)] == n
    ensures forall t :: t in triangleMap ==> 1 <= triangleMap[t] <= size && TriangleNumber(triangleMap[t]) == t
  {
    triangleMap := map[];
    for eachNumber := 1 to size + 1
      invariant forall n :: 1 <= n < eachNumber ==> TriangleNumber(n) in triangleMap && triangleMap[TriangleNumber(n)] == n
      invariant forall t :: t in triangleMap ==> 1 <= triangleMap[t] < eachNumber && TriangleNumber(triangleMap[t]) == t
    {
      forall n | 1 <= n < eachNumber
        ensures TriangleNumber(n) != TriangleNumber(eachNumber)
      {
        TriangleNumberLess(n, eachNumber);
      }
      triangleMap := triangleMap[TriangleNumber(eachNumber) := eachNumber];
    }
  }

  /** Turns a 1-based slot index into its 0-based (row, column): scans the
      row-ending slots for the first one at or past `position`. A position past
      the last slot matches no row and falls through to row 0, at the column
      that overshoots the board. */
  method GetBoardCoors(size: nat, position: nat) returns (row: nat, column: nat)
    requires 1 <= size && 1 <= position
    ensures position <= TriangleNumber(size) ==> InTriangle(size, row, column) && position == Slot(row, column)
    ensures position > TriangleNumber(size) ==> row == 0 && column == position - TriangleNumber(size)
  {
    var prevNumber: nat := 1;
    var foundNumber: nat := 1;
    var tmap := CreateTriangleMap(size);
    var triangleNumbers := seq(size, i requires 0 <= i => TriangleNumber(i + 1));
    var i := 0;
    while i < |triangleNumbers|
      invariant 0 <= i <= size
      invariant i == 0 ==> prevNumber == 1
      invariant i > 0 ==> prevNumber == TriangleNumber(i) && position > TriangleNumber(i)
      invariant foundNumber == 1
    {
      var eachNumber := triangleNumbers[i];
      if position >= prevNumber && position <= eachNumber {
        foundNumber := eachNumber;
        break;
      } else if position > eachNumber {
        prevNumber := eachNumber;
      }
      i := i + 1;
    }
    // The scan breaks at the row i whose end T(i + 1) is the first one at or
    // past position; it runs through every row only when position is past T(size).
    if i + 1 < size {
      TriangleNumberLess(i + 1, size);
    }
    assert TriangleNumber(i + 1) == TriangleNumber(i) + i + 1;
    assert TriangleNumber(1) == 1;
    assert foundNumber != 1 ==> i < size && foundNumber == TriangleNumber(i + 1);
    row := tmap[foundNumber] - 1;
    if row == 0 {
      column := position - prevNumber;
    } else {
      column := (position - prevNumber) - 1;
    }
  }

  /** The forward table: slot index to coordinate, for every slot of the board. */
  method CreateBoardPositionMap(size: nat) returns (boardPositionMap: map<nat, (nat, nat)>)
    ensures IsPositionMap(size, boardPositionMap)
  {
    boardPositionMap := map[];
    for eachNumber := 1 to TriangleNumber(size) + 1
      invariant forall k :: k in boardPositionMap <==> 1 <= k < eachNumber
      invariant forall k :: k in boardPositionMap ==>
        InTriangle(size, boardPositionMap[k].0, boardPositionMap[k].1) &&
        k == Slot(boardPositionMap[k].0, boardPositionMap[k].1)
    {
      var row, column := GetBoardCoors(size, eachNumber);
      boardPositionMap := boardPositionMap[eachNumber := (row, column)];
    }
  }

  /** The reverse table: coordinate to slot index, for every coordinate of the board. */
  method CreateReverseBoardPositionMap(size: nat) returns (reversePositionMap: map<(nat, nat), nat>)
    ensures IsCoordinateMap(size, reversePositionMap)
  {
    reversePositionMap := map[];
    for eachNumber := 1 to TriangleNumber(size) + 1
      invariant forall rc: (nat, nat) :: rc in reversePositionMap <==>
        InTriangle(size, rc.0, rc.1) && Slot(rc.0, rc.1) < eachNumber
      invariant forall rc: (nat, nat) :: rc in reversePositionMap ==>
        reversePositionMap[rc] == Slot(rc.0, rc.1) && 1 <= reversePositionMap[rc] <= TriangleNumber(size)
    {
      var row, column := GetBoardCoors(size, eachNumber);
      forall rc: (nat, nat) | InTriangle(size, rc.0, rc.1) && Slot(rc.0, rc.1) == eachNumber
        ensures rc == (row, column)
      {
        SlotInjective(rc.0, rc.1, row, column);
      }
      reversePositionMap := reversePositionMap[(row, column) := eachNumber];
    }
    forall rc: (nat, nat) | InTriangle(size, rc.0, rc.1)
      ensures rc in reversePositionMap
    {
      SlotInRange(size, rc.0, rc.1);
    }
  }

  /** The two tables are inverse bijections between the slots 1 .. T(size) and
      the coordinates of the triangle. */
  ghost predicate TablesAgree(size: nat, positionMap: map<nat, (nat, nat)>, coordinateMap: map<(nat, nat), nat>)
  {
    && (forall k :: k in positionMap <==> 1 <= k <= TriangleNumber(size))
    && (forall rc: (nat, nat) :: rc in coordinateMap <==> InTriangle(size, rc.0, rc.1))
    && (forall k :: k in positionMap ==> positionMap[k] in coordinateMap && coordinateMap[positionMap[k]] == k)
    && (forall rc :: rc in coordinateMap ==> coordinateMap[rc] in positionMap && positionMap[coordinateMap[rc]] == rc)
  }

  /** The forward and reverse tables built for one size are inverse to each
      other in both directions. */
  lemma MapsAreInverse(size: nat, positionMap: map<nat, (nat, nat)>, coordinateMap: map<(nat, nat), nat>)
    requires IsPositionMap(size, positionMap) && IsCoordinateMap(size, coordinateMap)
    ensures TablesAgree(size, positionMap, coordinateMap)
  {
    forall rc | rc in coordinateMap
      ensures coordinateMap[rc] in positionMap && positionMap[coordinateMap[rc]] == rc
    {
      var k := coordinateMap[rc];
      assert k in positionMap;
      SlotInjective(positionMap[k].0, positionMap[k].1, rc.0, rc.1);
    }
  }
}
