/** One state of the peg board: which slots hold a peg, how many pegs remain,
    which slots are empty, and the two coordinate tables of its size. A board is
    a value: applying a jump yields a new board and leaves the old one as it was. */
module PegBoard {
  import opened TriangleCoordinates

  datatype Option<T> = None | Some(value: T)

  /** `data[k - 1]` tells whether slot k holds a peg; `trueCount` and
      `emptyPositions` are kept up to date alongside it. */
  datatype Board = Board(
    size: nat,
    trueCount: nat,
    data: seq<bool>,
    emptyPositions: set<nat>,
    posToCoorBoardMap: map<nat, (nat, nat)>,
    coorToPosBoardMap: map<(nat, nat), nat>)

  /** Number of `true` entries of `s`. */
  function CountTrue(s: seq<bool>): nat
  {
    if s == [] then 0 else CountTrue(s[..|s| - 1]) + (if s[|s| - 1] then 1 else 0)
  }

  /** The 1-based slots whose entry is `false`. */
  function EmptySlots(s: seq<bool>): set<nat>
  {
    set k: nat | 1 <= k <= |s| && IsEmptyAt(s, k)
  }

  /** Slot k (1-based) of `s` exists and has no peg. */
  predicate IsEmptyAt(s: seq<bool>, k: nat)
  {
    1 <= k <= |s| && !s[k - 1]
  }

  /** The board invariant: the occupancy covers every slot, the two tables are
      inverse bijections between the slots and the coordinates of this size, the
      peg count is the number of pegs and the empty set is exactly the set of
      slots without a peg. */
  ghost predicate Valid(b: Board)
  {
    && |b.data| == TriangleNumber(b.size)
    && TablesAgree(b.size, b.posToCoorBoardMap, b.coorToPosBoardMap)
    && b.trueCount == CountTrue(b.data)
    && b.emptyPositions == EmptySlots(b.data)
  }

  /** Slot k exists and holds a peg. */
  predicate HasPeg(b: Board, k: nat)
  {
    1 <= k <= |b.data| && b.data[k - 1]
  }

  lemma {:induction false} CountTrueUpdate(s: seq<bool>, i: nat, v: bool)
    requires i < |s|
    ensures CountTrue(s[i := v]) == CountTrue(s) - (if s[i] then 1 else 0) + (if v then 1 else 0)
    decreases |s|
  {
    var n := |s| - 1;
    assert s[i := v][..n] == if i == n then s[..n] else s[..n][i := v];
    if i < n {
      CountTrueUpdate(s[..n], i, v);
    }
  }

  lemma {:induction false} CountTrueAll(n: nat)
    ensures CountTrue(seq(n, _ => true)) == n
  {
    if n > 0 {
      assert seq(n, _ => true)[..n - 1] == seq(n - 1, _ => true);
      CountTrueAll(n - 1);
    }
  }

  /** Pegs and empty slots together fill the board. */
  lemma {:induction false} EmptySlotsCount(s: seq<bool>)
    ensures |EmptySlots(s)| + CountTrue(s) == |s|
    decreases |s|
  {
    if s != [] {
      var n := |s|;
      EmptySlotsCount(s[..n - 1]);
      var rest := EmptySlots(s[..n - 1]);
      assert n !in rest;
      if s[n - 1] {
        assert EmptySlots(s) == rest;
      } else {
        assert EmptySlots(s) == rest + {n};
      }
    }
  }

  /** Setting entry i adds slot i + 1 to, or removes it from, the empty slots. */
  lemma EmptySlotsUpdate(s: seq<bool>, i: nat, v: bool)
    requires i < |s|
    ensures EmptySlots(s[i := v]) == if v then EmptySlots(s) - {i + 1} else EmptySlots(s) + {i + 1}
  {
  }

  /** Emptying two slots with a peg and filling an empty one removes one peg,
      and the empty slots lose the filled slot and gain the two emptied ones. */
  lemma JumpOccupancy(s: seq<bool>, i: nat, j: nat, k: nat)
    requires i < |s| && j < |s| && k < |s| && i != j && j != k && i != k
    requires s[i] && s[j] && !s[k]
    ensures CountTrue(s[i := false][j := false][k := true]) == CountTrue(s) - 1
    ensures EmptySlots(s[i := false][j := false][k := true]) == EmptySlots(s) - {k + 1} + {j + 1, i + 1}
    ensures |EmptySlots(s[i := false][j := false][k := true])| == |EmptySlots(s)| + 1
  {
    var s1 := s[i := false];
    var s2 := s1[j := false];
    CountTrueUpdate(s, i, false);
    CountTrueUpdate(s1, j, false);
    CountTrueUpdate(s2, k, true);
    var e := EmptySlots(s);
    EmptySlotsUpdate(s, i, false);
    EmptySlotsUpdate(s1, j, false);
    EmptySlotsUpdate(s2, k, true);
    assert EmptySlots(s2[k := true]) == e + {i + 1} + {j + 1} - {k + 1};
    assert e + {i + 1} + {j + 1} - {k + 1} == e - {k + 1} + {j + 1, i + 1};
    EmptySlotsCount(s);
    EmptySlotsCount(s2[k := true]);
  }

  /** Clearing an already empty slot and a pegged one and filling an empty one
      leaves the number of pegs as it was. */
  lemma EmptySourceOccupancy(s: seq<bool>, i: nat, j: nat, k: nat)
    requires i < |s| && j < |s| && k < |s| && i != j && j != k && i != k
    requires !s[i] && s[j] && !s[k]
    ensures CountTrue(s[i := false][j := false][k := true]) == CountTrue(s)
  {
    var s2 := s[i := false][j := false];
    assert s[i := false] == s;
    CountTrueUpdate(s, j, false);
    CountTrueUpdate(s2, k, true);
  }

  /** Two distinct slots with a peg mean at least two pegs on the board. */
  lemma {:induction false} TwoPegsCount(s: seq<bool>, i: nat, j: nat)
    requires i < |s| && j < |s| && i != j && s[i] && s[j]
    ensures CountTrue(s) >= 2
  {
    CountTrueUpdate(s, i, false);
    CountTrueUpdate(s[i := false], j, false);
  }

  /** For a valid board, the empty slots and the pegs add up to T(size). */
  lemma EmptyPlusPegs(b: Board)
    ensures Valid(b) ==> |b.emptyPositions| + b.trueCount == TriangleNumber(b.size)
  {
    if Valid(b) {
      EmptySlotsCount(b.data);
    }
  }

  /** The starting board: every slot holds a peg except `emptyPosition`. */
  function NewBoard(
    size: nat,
    emptyPosition: nat,
    posToCoorBoardMap: map<nat, (nat, nat)>,
    coorToPosBoardMap: map<(nat, nat), nat>): (b: Board)
    requires 1 <= emptyPosition <= TriangleNumber(size)
    ensures |b.data| == TriangleNumber(size)
    ensures forall k :: 1 <= k <= TriangleNumber(size) ==> (HasPeg(b, k) <==> k != emptyPosition)
    ensures b.emptyPositions == {emptyPosition} && b.trueCount == TriangleNumber(size) - 1
    ensures b.size == size
    ensures b.posToCoorBoardMap == posToCoorBoardMap && b.coorToPosBoardMap == coorToPosBoardMap
    ensures TablesAgree(size, posToCoorBoardMap, coorToPosBoardMap) ==> Valid(b)
  {
    var adjustPosition := emptyPosition - 1;
    var full := seq(TriangleNumber(size), _ => true);
    var data := full[adjustPosition := false];
    CountTrueAll(TriangleNumber(size));
    CountTrueUpdate(full, adjustPosition, false);
    assert EmptySlots(data) == {emptyPosition};
    Board(size, TriangleNumber(size) - 1, data, {adjustPosition + 1}, posToCoorBoardMap, coorToPosBoardMap)
  }

  /** A starting board built over the tables that the two map builders produce
      satisfies the board invariant. */
  lemma StartBoardIsValid(
    size: nat,
    emptyPosition: nat,
    posToCoorBoardMap: map<nat, (nat, nat)>,
    coorToPosBoardMap: map<(nat, nat), nat>)
    requires 1 <= emptyPosition <= TriangleNumber(size)
    requires IsPositionMap(size, posToCoorBoardMap) && IsCoordinateMap(size, coorToPosBoardMap)
    ensures Valid(NewBoard(size, emptyPosition, posToCoorBoardMap, coorToPosBoardMap))
  {
    MapsAreInverse(size, posToCoorBoardMap, coorToPosBoardMap);
  }

  /** The six jump directions of the triangular lattice: the destination `t` is
      two rows, two columns, or two steps along the row-and-column diagonal away
      from the source `f`. */
  predicate IsJumpBetween(f: (nat, nat), t: (nat, nat))
  {
    var dr := t.0 as int - f.0 as int;
    var dc := t.1 as int - f.1 as int;
    || (dr == 0 && (dc == 2 || dc == -2))
    || (dc == 0 && (dr == 2 || dr == -2))
    || (dr == dc && (dr == 2 || dr == -2))
  }

  /** Both slots are on the board and lie one jump apart. */
  predicate IsJump(b: Board, from: nat, to: nat)
  {
    && from in b.posToCoorBoardMap
    && to in b.posToCoorBoardMap
    && IsJumpBetween(b.posToCoorBoardMap[from], b.posToCoorBoardMap[to])
  }

  /** The coordinate halfway between two coordinates. */
  function Halfway(f: (nat, nat), t: (nat, nat)): (nat, nat)
  {
    ((f.0 + t.0) / 2, (f.1 + t.1) / 2)
  }

  /** The slot jumped over, found by averaging the coordinates of the two ends:
      a slot of the board distinct from both. */
  function MiddleSlot(b: Board, from: nat, to: nat): (m: nat)
    requires Valid(b) && IsJump(b, from, to)
    ensures 1 <= m <= |b.data| && m != from && m != to && from != to
  {
    b.coorToPosBoardMap[Halfway(b.posToCoorBoardMap[from], b.posToCoorBoardMap[to])]
  }

  /** A legal move: `to` is empty, and `from` and the slot jumped over hold pegs. */
  ghost predicate LegalMove(b: Board, from: nat, to: nat)
    requires Valid(b)
  {
    && IsJump(b, from, to)
    && to in b.emptyPositions
    && HasPeg(b, from)
    && HasPeg(b, MiddleSlot(b, from, to))
  }

  /** A legal move needs two pegs, so a board that admits one has at least two. */
  lemma LegalMoveNeedsTwoPegs(b: Board, from: nat, to: nat)
    requires Valid(b) && LegalMove(b, from, to)
    ensures b.trueCount >= 2
  {
    TwoPegsCount(b.data, from - 1, MiddleSlot(b, from, to) - 1);
  }

  /** `from` is the slot at `src`, and it and the slot at `mid` hold pegs. */
  ghost predicate PegsAt(b: Board, from: nat, src: (nat, nat), mid: (nat, nat))
    requires Valid(b)
  {
    && src in b.coorToPosBoardMap && mid in b.coorToPosBoardMap
    && from == b.coorToPosBoardMap[src]
    && HasPeg(b, from) && HasPeg(b, b.coorToPosBoardMap[mid])
  }

  /** The first block of the move finder: from two rows up in the same column,
      or from two columns to the right, when (r, c) has two rows above it. */
  ghost predicate FromAboveOrRight(b: Board, from: nat, r: nat, c: nat)
    requires Valid(b)
  {
    r >= 2 && c <= r - 2 && (PegsAt(b, from, (r - 2, c), (r - 1, c)) || PegsAt(b, from, (r, c + 2), (r, c + 1)))
  }

  /** The second block: from two columns to the left, or from two rows up and
      two columns to the left, when (r, c) has two columns left of it. */
  ghost predicate FromLeftOrAboveLeft(b: Board, from: nat, r: nat, c: nat)
    requires Valid(b)
  {
    r >= 2 && c >= 2 && (PegsAt(b, from, (r, c - 2), (r, c - 1)) || PegsAt(b, from, (r - 2, c - 2), (r - 1, c - 1)))
  }

  /** The third block: from two rows down, in the same column or two columns
      to the right, when (r, c) has two rows below it. */
  ghost predicate FromBelow(b: Board, from: nat, r: nat, c: nat)
    requires Valid(b)
  {
    r + 3 <= b.size && (PegsAt(b, from, (r + 2, c), (r + 1, c)) || PegsAt(b, from, (r + 2, c + 2), (r + 1, c + 1)))
  }

  /** The source of a jump into (r, c) as the move finder's three blocks see it. */
  ghost predicate FoundInto(b: Board, from: nat, r: nat, c: nat)
    requires Valid(b)
  {
    FromAboveOrRight(b, from, r, c) || FromLeftOrAboveLeft(b, from, r, c) || FromBelow(b, from, r, c)
  }

  /** A jump into the empty slot `to` over the coordinate `mid` from the
      coordinate `src` is legal when both hold pegs. */
  lemma LegalMoveFrom(b: Board, from: nat, to: nat, src: (nat, nat), mid: (nat, nat))
    requires Valid(b) && to in b.emptyPositions && to in b.posToCoorBoardMap
    requires IsJumpBetween(src, b.posToCoorBoardMap[to]) && mid == Halfway(src, b.posToCoorBoardMap[to])
    ensures PegsAt(b, from, src, mid) ==> LegalMove(b, from, to)
  {
  }

  /** Every legal move into `to` is found by one of the three blocks. */
  lemma LegalMoveIsFound(b: Board, from: nat, to: nat)
    requires Valid(b) && LegalMove(b, from, to)
    ensures var (r, c) := b.posToCoorBoardMap[to]; FoundInto(b, from, r, c)
  {
  }

  /** The moves the first block finds into the empty slot `to` are legal. */
  lemma FoundAboveOrRightIsLegal(b: Board, from: nat, to: nat)
    requires Valid(b) && to in b.emptyPositions
    ensures to in b.posToCoorBoardMap
    ensures var (r, c) := b.posToCoorBoardMap[to]; FromAboveOrRight(b, from, r, c) ==> LegalMove(b, from, to)
  {
    var (r, c) := b.posToCoorBoardMap[to];
    if r >= 2 && c <= r - 2 {
      LegalMoveFrom(b, from, to, (r - 2, c), (r - 1, c));
      LegalMoveFrom(b, from, to, (r, c + 2), (r, c + 1));
    }
  }

  /** The moves the second block finds into the empty slot `to` are legal. */
  lemma FoundLeftOrAboveLeftIsLegal(b: Board, from: nat, to: nat)
    requires Valid(b) && to in b.emptyPositions
    ensures to in b.posToCoorBoardMap
    ensures var (r, c) := b.posToCoorBoardMap[to]; FromLeftOrAboveLeft(b, from, r, c) ==> LegalMove(b, from, to)
  {
    var (r, c) := b.posToCoorBoardMap[to];
    if r >= 2 && c >= 2 {
      LegalMoveFrom(b, from, to, (r, c - 2), (r, c - 1));
      LegalMoveFrom(b, from, to, (r - 2, c - 2), (r - 1, c - 1));
    }
  }

  /** The moves the third block finds into the empty slot `to` are legal. */
  lemma FoundBelowIsLegal(b: Board, from: nat, to: nat)
    requires Valid(b) && to in b.emptyPositions
    ensures to in b.posToCoorBoardMap
    ensures var (r, c) := b.posToCoorBoardMap[to]; FromBelow(b, from, r, c) ==> LegalMove(b, from, to)
  {
    var (r, c) := b.posToCoorBoardMap[to];
    if r + 3 <= b.size {
      LegalMoveFrom(b, from, to, (r + 2, c), (r + 1, c));
      LegalMoveFrom(b, from, to, (r + 2, c + 2), (r + 1, c + 1));
    }
  }

  /** The legal moves into an empty slot are exactly the moves the three
      blocks of the move finder look for. */
  lemma LegalMoveInto(b: Board, from: nat, to: nat)
    requires Valid(b) && to in b.emptyPositions
    ensures to in b.posToCoorBoardMap
    ensures var (r, c) := b.posToCoorBoardMap[to]; LegalMove(b, from, to) <==> FoundInto(b, from, r, c)
  {
    FoundAboveOrRightIsLegal(b, from, to);
    FoundLeftOrAboveLeftIsLegal(b, from, to);
    FoundBelowIsLegal(b, from, to);
    if LegalMove(b, from, to) {
      LegalMoveIsFound(b, from, to);
    }
  }

  /** The move from `src` into the slot `to`, when `src` and `mid` both hold pegs. */
  ghost function MoveIfPegs(b: Board, to: nat, src: (nat, nat), mid: (nat, nat)): seq<(nat, nat)>
    requires Valid(b) && src in b.coorToPosBoardMap && mid in b.coorToPosBoardMap
  {
    var from := b.coorToPosBoardMap[src];
    if HasPeg(b, from) && HasPeg(b, b.coorToPosBoardMap[mid]) then [(from, to)] else []
  }

  /** The moves the first block pushes for the empty slot `to` at (r, c). */
  ghost function MovesAboveOrRight(b: Board, to: nat, r: nat, c: nat): seq<(nat, nat)>
    requires Valid(b) && InTriangle(b.size, r, c)
  {
    if r >= 2 && c <= r - 2 then MoveIfPegs(b, to, (r - 2, c), (r - 1, c)) + MoveIfPegs(b, to, (r, c + 2), (r, c + 1))
    else []
  }

  /** The moves the second block pushes for the empty slot `to` at (r, c). */
  ghost function MovesLeftOrAboveLeft(b: Board, to: nat, r: nat, c: nat): seq<(nat, nat)>
    requires Valid(b) && InTriangle(b.size, r, c)
  {
    if r >= 2 && c >= 2 then MoveIfPegs(b, to, (r, c - 2), (r, c - 1)) + MoveIfPegs(b, to, (r - 2, c - 2), (r - 1, c - 1))
    else []
  }

  /** The moves the third block pushes for the empty slot `to` at (r, c). */
  ghost function MovesBelow(b: Board, to: nat, r: nat, c: nat): seq<(nat, nat)>
    requires Valid(b) && InTriangle(b.size, r, c)
  {
    if r + 3 <= b.size then MoveIfPegs(b, to, (r + 2, c), (r + 1, c)) + MoveIfPegs(b, to, (r + 2, c + 2), (r + 1, c + 1))
    else []
  }

  lemma MoveIfPegsMembers(b: Board, to: nat, src: (nat, nat), mid: (nat, nat))
    requires Valid(b) && src in b.coorToPosBoardMap && mid in b.coorToPosBoardMap
    ensures forall from: nat, t: nat :: (from, t) in MoveIfPegs(b, to, src, mid) <==> t == to && PegsAt(b, from, src, mid)
  {
  }

  /** The first block pushes the moves into `to` from the sources it looks for. */
  lemma MovesAboveOrRightMembers(b: Board, to: nat, r: nat, c: nat)
    requires Valid(b) && InTriangle(b.size, r, c)
    ensures forall from: nat, t: nat :: (from, t) in MovesAboveOrRight(b, to, r, c) <==> t == to && FromAboveOrRight(b, from, r, c)
    ensures |MovesAboveOrRight(b, to, r, c)| <= 2
  {
    if r >= 2 && c <= r - 2 {
      MoveIfPegsMembers(b, to, (r - 2, c), (r - 1, c));
      MoveIfPegsMembers(b, to, (r, c + 2), (r, c + 1));
    }
  }

  /** The second block pushes the moves into `to` from the sources it looks for. */
  lemma MovesLeftOrAboveLeftMembers(b: Board, to: nat, r: nat, c: nat)
    requires Valid(b) && InTriangle(b.size, r, c)
    ensures forall from: nat, t: nat :: (from, t) in MovesLeftOrAboveLeft(b, to, r, c) <==> t == to && FromLeftOrAboveLeft(b, from, r, c)
    ensures |MovesLeftOrAboveLeft(b, to, r, c)| <= 2
  {
    if r >= 2 && c >= 2 {
      MoveIfPegsMembers(b, to, (r, c - 2), (r, c - 1));
      MoveIfPegsMembers(b, to, (r - 2, c - 2), (r - 1, c - 1));
    }
  }

  /** The third block pushes the moves into `to` from the sources it looks for. */
  lemma MovesBelowMembers(b: Board, to: nat, r: nat, c: nat)
    requires Valid(b) && InTriangle(b.size, r, c)
    ensures forall from: nat, t: nat :: (from, t) in MovesBelow(b, to, r, c) <==> t == to && FromBelow(b, from, r, c)
    ensures |MovesBelow(b, to, r, c)| <= 2
  {
    if r + 3 <= b.size {
      MoveIfPegsMembers(b, to, (r + 2, c), (r + 1, c));
      MoveIfPegsMembers(b, to, (r + 2, c + 2), (r + 1, c + 1));
    }
  }

  /** The moves the three blocks push for the empty slot `to` at (r, c) are the
      moves into `to` from the sources the blocks look for, at most six of them. */
  lemma MovesIntoAreFound(b: Board, to: nat, r: nat, c: nat)
    requires Valid(b) && InTriangle(b.size, r, c)
    ensures forall from: nat, t: nat ::
      (from, t) in MovesAboveOrRight(b, to, r, c) + MovesLeftOrAboveLeft(b, to, r, c) + MovesBelow(b, to, r, c) <==>
        t == to && FoundInto(b, from, r, c)
    ensures |MovesAboveOrRight(b, to, r, c) + MovesLeftOrAboveLeft(b, to, r, c) + MovesBelow(b, to, r, c)| <= 6
  {
    MovesAboveOrRightMembers(b, to, r, c);
    MovesLeftOrAboveLeftMembers(b, to, r, c);
    MovesBelowMembers(b, to, r, c);
  }

  /** The moves the three blocks push for the empty slot `to` are exactly the
      legal moves into `to`. */
  lemma MovesIntoAreLegal(b: Board, to: nat, r: nat, c: nat)
    requires Valid(b) && to in b.emptyPositions
    requires to in b.posToCoorBoardMap && b.posToCoorBoardMap[to] == (r, c)
    ensures InTriangle(b.size, r, c)
    ensures forall from: nat, t: nat ::
      (from, t) in MovesAboveOrRight(b, to, r, c) + MovesLeftOrAboveLeft(b, to, r, c) + MovesBelow(b, to, r, c) <==>
        t == to && LegalMove(b, from, t)
    ensures |MovesAboveOrRight(b, to, r, c) + MovesLeftOrAboveLeft(b, to, r, c) + MovesBelow(b, to, r, c)| <= 6
  {
    MovesIntoAreFound(b, to, r, c);
    forall from: nat, t: nat
      ensures (from, t) in MovesAboveOrRight(b, to, r, c) + MovesLeftOrAboveLeft(b, to, r, c) + MovesBelow(b, to, r, c) <==>
        t == to && LegalMove(b, from, t)
    {
      LegalMoveInto(b, from, to);
    }
  }

  /** One step of the move finder: reads the source `src` and the slot `mid`
      it would jump over, and pushes the move from `src` into `emptyPosition`
      when both hold pegs. */
  method PushIfPegs(b: Board, moves: seq<(nat, nat)>, src: (nat, nat), mid: (nat, nat), emptyPosition: nat)
    returns (pushed: seq<(nat, nat)>)
    requires Valid(b) && src in b.coorToPosBoardMap && mid in b.coorToPosBoardMap
    ensures pushed == moves + MoveIfPegs(b, emptyPosition, src, mid)
  {
    pushed := moves;
    var value1 := b.data[b.coorToPosBoardMap[src] - 1];
    var value2 := b.data[b.coorToPosBoardMap[mid] - 1];
    if value1 && value2 {
      pushed := pushed + [(b.coorToPosBoardMap[src], emptyPosition)];
    }
  }

  /** The moves into one empty slot, as the move finder's three blocks push
      them: each direction is taken when its source and middle slot both hold
      a peg, under the bounds test that keeps the source on the board. */
  method GetActionsInto(b: Board, emptyPosition: nat) returns (moves: seq<(nat, nat)>)
    requires Valid(b) && b.size >= 3 && emptyPosition in b.emptyPositions
    ensures forall from: nat, to: nat :: (from, to) in moves <==> to == emptyPosition && LegalMove(b, from, to)
    ensures |moves| <= 6
  {
    assert 1 <= emptyPosition <= |b.data|;
    var (row, column) := b.posToCoorBoardMap[emptyPosition];
    moves := [];
    if row >= 2 && column <= row - 2 {
      var rowUp := (row - 2, column);
      var rowUp2 := (row - 1, column);
      var columnRight := (row, column + 2);
      var columnRight2 := (row, column + 1);
      moves := PushIfPegs(b, moves, rowUp, rowUp2, emptyPosition);
      moves := PushIfPegs(b, moves, columnRight, columnRight2, emptyPosition);
    }
    assert moves == MovesAboveOrRight(b, emptyPosition, row, column);
    if row >= 2 && column >= 2 {
      var columnLeft := (row, column - 2);
      var columnLeft2 := (row, column - 1);
      var rowUpColumnLeft := (row - 2, column - 2);
      var rowUpColumnLeft2 := (row - 1, column - 1);
      moves := PushIfPegs(b, moves, columnLeft, columnLeft2, emptyPosition);
      moves := PushIfPegs(b, moves, rowUpColumnLeft, rowUpColumnLeft2, emptyPosition);
    }
    assert moves == MovesAboveOrRight(b, emptyPosition, row, column) + MovesLeftOrAboveLeft(b, emptyPosition, row, column);
    if row <= b.size - 3 {
      var rowDown := (row + 2, column);
      var rowDown2 := (row + 1, column);
      var rowDownColumnDown := (row + 2, column + 2);
      var rowDownColumnDown2 := (row + 1, column + 1);
      moves := PushIfPegs(b, moves, rowDown, rowDown2, emptyPosition);
      moves := PushIfPegs(b, moves, rowDownColumnDown, rowDownColumnDown2, emptyPosition);
    }
    assert moves == MovesAboveOrRight(b, emptyPosition, row, column) + MovesLeftOrAboveLeft(b, emptyPosition, row, column)
      + MovesBelow(b, emptyPosition, row, column);
    MovesIntoAreLegal(b, emptyPosition, row, column);
  }

  /** Lists the legal moves: every empty slot, visited in an unspecified order as
      a hash set iterates, contributes the moves into it. */
  method GetActions(b: Board) returns (validMoves: seq<(nat, nat)>)
    requires Valid(b) && b.size >= 3
    ensures forall from: nat, to: nat :: (from, to) in validMoves <==> LegalMove(b, from, to)
    ensures |validMoves| <= 6 * |b.emptyPositions|
  {
    validMoves := [];
    var remaining := b.emptyPositions;
    ghost var visited: set<nat> := {};
    while remaining != {}
      invariant remaining + visited == b.emptyPositions && remaining !! visited
      invariant forall from: nat, to: nat :: (from, to) in validMoves <==> to in visited && LegalMove(b, from, to)
      invariant |validMoves| <= 6 * |visited|
      decreases remaining
    {
      var emptyPosition :| emptyPosition in remaining;
      var moves := GetActionsInto(b, emptyPosition);
      validMoves := validMoves + moves;
      remaining := remaining - {emptyPosition};
      visited := visited + {emptyPosition};
    }
  }

  /** The board after `from` jumps over the middle slot into `to`: `from` and the
      middle slot are emptied, `to` is filled and one peg is gone. */
  function Jump(b: Board, from: nat, to: nat): (r: Board)
    requires Valid(b) && IsJump(b, from, to) && b.trueCount >= 1
    ensures r.size == b.size && r.trueCount == b.trueCount - 1
    ensures r.posToCoorBoardMap == b.posToCoorBoardMap && r.coorToPosBoardMap == b.coorToPosBoardMap
    ensures |r.data| == |b.data|
    ensures forall i :: 0 <= i < |b.data| && i + 1 != from && i + 1 != to && i + 1 != MiddleSlot(b, from, to) ==>
      r.data[i] == b.data[i]
    ensures !HasPeg(r, from) && !HasPeg(r, MiddleSlot(b, from, to)) && HasPeg(r, to)
    ensures r.emptyPositions == b.emptyPositions - {to} + {MiddleSlot(b, from, to), from}
  {
    var middle := MiddleSlot(b, from, to);
    b.(
      emptyPositions := b.emptyPositions - {to} + {middle, from},
      trueCount := b.trueCount - 1,
      data := b.data[from - 1 := false][middle - 1 := false][to - 1 := true])
  }

  /** A board whose occupancy is replaced by one of the same length, with the
      matching peg count and empty set, is still valid. */
  lemma OccupancyKeepsValid(b: Board, data: seq<bool>, trueCount: nat, empty: set<nat>)
    requires Valid(b) && |data| == |b.data|
    requires trueCount == CountTrue(data) && empty == EmptySlots(data)
    ensures Valid(b.(data := data, trueCount := trueCount, emptyPositions := empty))
  {
  }

  /** A legal jump keeps the board invariant: the decremented peg count is
      still the number of pegs, and the empty set gains exactly one slot. */
  lemma JumpKeepsValid(b: Board, from: nat, to: nat)
    requires Valid(b) && LegalMove(b, from, to)
    ensures b.trueCount >= 1
    ensures Valid(Jump(b, from, to))
    ensures |Jump(b, from, to).emptyPositions| == |b.emptyPositions| + 1
  {
    LegalMoveNeedsTwoPegs(b, from, to);
    var middle := MiddleSlot(b, from, to);
    var moved := b.data[from - 1 := false][middle - 1 := false][to - 1 := true];
    JumpOccupancy(b.data, from - 1, middle - 1, to - 1);
    var after := b.emptyPositions - {to} + {middle, from};
    OccupancyKeepsValid(b, moved, b.trueCount - 1, after);
    assert Jump(b, from, to) == b.(data := moved, trueCount := b.trueCount - 1, emptyPositions := after);
  }

  /** The coordinate `action` jumps over, picked by the direction of the jump:
      same column, same row, or the diagonal. Each branch lands halfway between
      the two ends. */
  method MiddleCoordinate(fromRow: nat, fromColumn: nat, toRow: nat, toColumn: nat) returns (middleCoor: (nat, nat))
    requires IsJumpBetween((fromRow, fromColumn), (toRow, toColumn))
    ensures middleCoor == Halfway((fromRow, fromColumn), (toRow, toColumn))
  {
    if fromColumn == toColumn {
      if fromRow < toRow {
        middleCoor := (fromRow + 1, fromColumn);
      } else {
        middleCoor := (fromRow - 1, fromColumn);
      }
    } else if fromRow == toRow {
      if fromColumn < toColumn {
        middleCoor := (fromRow, fromColumn + 1);
      } else {
        middleCoor := (fromRow, fromColumn - 1);
      }
    } else {
      if fromRow < toRow && fromColumn < toColumn {
        middleCoor := (fromRow + 1, fromColumn + 1);
      } else {
        middleCoor := (fromRow - 1, fromColumn - 1);
      }
    }
  }

  /** Applies the move (from, to) to a copy of the board. The middle slot is found
      from the direction of the jump; the move is refused when `to` already holds
      a peg or the middle slot is empty. The receiver is a value and stays as it was. */
  method Action(b: Board, from: nat, to: nat) returns (r: Option<Board>)
    requires Valid(b) && IsJump(b, from, to) && b.trueCount >= 1
    ensures r.Some? <==> !b.data[to - 1] && HasPeg(b, MiddleSlot(b, from, to))
    ensures r.Some? ==> r.value == Jump(b, from, to)
  {
    var newBoard := b;
    newBoard := newBoard.(emptyPositions := newBoard.emptyPositions - {to});
    newBoard := newBoard.(trueCount := newBoard.trueCount - 1);
    var (fromRow, fromColumn) := b.posToCoorBoardMap[from];
    var (toRow, toColumn) := b.posToCoorBoardMap[to];
    var toValue := b.data[to - 1];
    var middleCoor := MiddleCoordinate(fromRow, fromColumn, toRow, toColumn);
    var middlePos := b.coorToPosBoardMap[middleCoor];
    assert middlePos == MiddleSlot(b, from, to);
    var middleValue := b.data[middlePos - 1];
    if !toValue && middleValue {
      newBoard := newBoard.(emptyPositions := newBoard.emptyPositions + {middlePos});
      newBoard := newBoard.(emptyPositions := newBoard.emptyPositions + {b.coorToPosBoardMap[(fromRow, fromColumn)]});
      newBoard := newBoard.(data := newBoard.data[from - 1 := false]);
      newBoard := newBoard.(data := newBoard.data[middlePos - 1 := false]);
      newBoard := newBoard.(data := newBoard.data[to - 1 := true]);
      r := Some(newBoard);
    } else {
      r := None;
    }
  }

  /** Action never looks at `from`: when that slot is already empty but the
      middle slot holds a peg, the move is still applied. The peg count drops
      by one while the pegs on the board stay as many as before, so the board
      no longer satisfies the invariant. */
  lemma JumpFromEmptySlotMiscounts(b: Board, from: nat, to: nat)
    requires Valid(b) && IsJump(b, from, to) && b.trueCount >= 1
    requires !HasPeg(b, from) && !b.data[to - 1] && HasPeg(b, MiddleSlot(b, from, to))
    ensures CountTrue(Jump(b, from, to).data) == b.trueCount
    ensures !Valid(Jump(b, from, to))
  {
    var middle := MiddleSlot(b, from, to);
    var cleared := b.data[from - 1 := false][middle - 1 := false][to - 1 := true];
    assert Jump(b, from, to).data == cleared;
    EmptySourceOccupancy(b.data, from - 1, middle - 1, to - 1);
    assert CountTrue(cleared) == b.trueCount;
  }

  /** Action with the check it lacks: the move is refused unless `from` holds a
      peg as well, so it is applied exactly when it is legal and the board
      invariant is kept. */
  method CheckedAction(b: Board, from: nat, to: nat) returns (r: Option<Board>)
    requires Valid(b) && IsJump(b, from, to) && b.trueCount >= 1
    ensures r.Some? <==> LegalMove(b, from, to)
    ensures r.Some? ==> r.value == Jump(b, from, to) && Valid(r.value)
  {
    if !b.data[from - 1] {
      return None;
    }
    r := Action(b, from, to);
    if r.Some? {
      JumpKeepsValid(b, from, to);
    }
  }

  /** A board is terminal when one peg is left: on a valid board, exactly when
      every slot but one is empty. */
  predicate IsTerminal(b: Board): (terminal: bool)
    ensures Valid(b) ==> (terminal <==> |b.emptyPositions| + 1 == TriangleNumber(b.size))
  {
    EmptyPlusPegs(b);
    b.trueCount == 1
  }
}
