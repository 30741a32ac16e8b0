/** Breadth-first search over board states. A node pairs the moves played so
    far with the board they lead to; the search returns the first node whose
    board has one peg left, or None when the frontier runs dry. */
module PegSearch {
  import opened TriangleCoordinates
  import opened PegBoard

  /** The moves taken from the start and the board they lead to. */
  datatype Node = Node(moveList: seq<(nat, nat)>, board: Board)

  /** The board reached by playing `moves` in order from `b`, or None as soon as
      one of them is not a legal move on the board it is played on. */
  ghost function Replay(b: Board, moves: seq<(nat, nat)>): (r: Option<Board>)
    requires Valid(b)
    ensures r.Some? ==> Valid(r.value) && r.value.size == b.size
    ensures r.Some? ==> r.value.trueCount + |moves| == b.trueCount
    decreases |moves|
  {
    if moves == [] then Some(b)
    else if LegalMove(b, moves[0].0, moves[0].1) then
      JumpKeepsValid(b, moves[0].0, moves[0].1);
      Replay(Jump(b, moves[0].0, moves[0].1), moves[1..])
    else None
  }

  /** `moves` is a play from `start` that leaves one peg. */
  ghost predicate Solves(start: Board, moves: seq<(nat, nat)>)
    requires Valid(start)
  {
    Replay(start, moves).Some? && IsTerminal(Replay(start, moves).value)
  }

  /** The node's board is the one its move list leads to from `start`. */
  ghost predicate Reaches(start: Board, node: Node)
    requires Valid(start)
  {
    Replay(start, node.moveList) == Some(node.board)
  }

  /** Playing `p` and then `q` is replaying `q` from where `p` ends. */
  lemma {:induction false} ReplayConcat(b: Board, p: seq<(nat, nat)>, q: seq<(nat, nat)>)
    requires Valid(b)
    ensures Replay(b, p + q) == if Replay(b, p).Some? then Replay(Replay(b, p).value, q) else None
    decreases |p|
  {
    if p != [] {
      assert (p + q)[0] == p[0] && (p + q)[1..] == p[1..] + q;
      if LegalMove(b, p[0].0, p[0].1) {
        JumpKeepsValid(b, p[0].0, p[0].1);
        ReplayConcat(Jump(b, p[0].0, p[0].1), p[1..], q);
      }
    } else {
      assert p + q == q;
    }
  }

  /** A legal move played after a replayable list extends the replay by one jump. */
  lemma ReplayAppend(b: Board, moves: seq<(nat, nat)>, from: nat, to: nat)
    requires Valid(b) && Replay(b, moves).Some?
    requires LegalMove(Replay(b, moves).value, from, to)
    ensures Replay(b, moves).value.trueCount >= 2
    ensures Replay(b, moves + [(from, to)]) == Some(Jump(Replay(b, moves).value, from, to))
  {
    var c := Replay(b, moves).value;
    JumpKeepsValid(c, from, to);
    LegalMoveNeedsTwoPegs(c, from, to);
    ReplayConcat(b, moves, [(from, to)]);
    assert [(from, to)][1..] == [];
  }

  /** Every solution removes all pegs but one, one per move: it has exactly
      trueCount - 1 moves, so every solution is as short as any other. */
  lemma SolutionLength(start: Board, moves: seq<(nat, nat)>)
    requires Valid(start) && Solves(start, moves)
    ensures |moves| + 1 == start.trueCount
  {
  }

  /** A sequence is its prefix followed by the rest. */
  lemma PrefixThenRest<T>(p: seq<T>, s: seq<T>)
    requires p <= s
    ensures s == p + s[|p|..]
  {
  }

  /** A proper prefix grows by the next element into a longer prefix. */
  lemma PrefixGrows<T>(p: seq<T>, s: seq<T>)
    requires p <= s && |p| < |s|
    ensures p + [s[|p|]] <= s
  {
    assert s[..|p| + 1] == p + [s[|p|]];
  }

  /** A solution that runs through a node that is not yet terminal continues
      with a legal move on that node's board. */
  lemma {:induction false} SolutionContinues(start: Board, node: Node, moves: seq<(nat, nat)>)
    requires Valid(start) && Reaches(start, node) && !IsTerminal(node.board)
    requires Solves(start, moves) && node.moveList <= moves
    ensures |node.moveList| < |moves|
    ensures LegalMove(node.board, moves[|node.moveList|].0, moves[|node.moveList|].1)
    ensures node.moveList + [moves[|node.moveList|]] <= moves
  {
    var p := node.moveList;
    var q := moves[|p|..];
    PrefixThenRest(p, moves);
    ReplayConcat(start, p, q);
    assert Replay(node.board, q) == Replay(start, moves);
    assert q != [];
    assert q[0] == moves[|p|];
    PrefixGrows(p, moves);
  }

  /** Some node of the frontier lies on the way to `moves`. */
  ghost predicate Covered(frontier: seq<Node>, moves: seq<(nat, nat)>)
  {
    exists j :: 0 <= j < |frontier| && frontier[j].moveList <= moves
  }

  /** A child on the way to `moves` still covers it once the front node is
      replaced by its children. */
  lemma CoveredByChild(rest: seq<Node>, children: seq<Node>, moves: seq<(nat, nat)>, k: nat)
    requires k < |children| && children[k].moveList <= moves
    ensures Covered(rest + children, moves)
  {
    assert (rest + children)[|rest| + k] == children[k];
  }

  /** A node behind the front node on the way to `moves` still covers it once
      the front node is replaced by its children. */
  lemma CoveredByRest(node: Node, rest: seq<Node>, children: seq<Node>, moves: seq<(nat, nat)>, j: nat)
    requires 1 <= j < |rest| + 1 && ([node] + rest)[j].moveList <= moves
    ensures Covered(rest + children, moves)
  {
    assert (rest + children)[j - 1] == ([node] + rest)[j];
  }

  /** Every node of `nodes` is reached from `start` by its move list. */
  ghost predicate AllReach(start: Board, nodes: seq<Node>)
    requires Valid(start)
  {
    forall j :: 0 <= j < |nodes| ==> Reaches(start, nodes[j])
  }

  /** Every solution from `start` runs through some node of `nodes`. */
  ghost predicate CoversAll(start: Board, nodes: seq<Node>)
    requires Valid(start)
  {
    forall moves :: Solves(start, moves) ==> Covered(nodes, moves)
  }

  /** A weight for a board with `pegs` pegs that exceeds the weight of the up
      to `bound` boards one move further on. */
  function Weight(pegs: nat, bound: nat): nat
  {
    if pegs == 0 then 1 else 1 + Repeated(bound, Weight(pegs - 1, bound))
  }

  /** `count` copies of `w` added up. */
  function Repeated(count: nat, w: nat): nat
  {
    if count == 0 then 0 else w + Repeated(count - 1, w)
  }

  /** Adding up more copies never gives less. */
  lemma {:induction false} RepeatedMonotone(m: nat, n: nat, w: nat)
    requires m <= n
    ensures Repeated(m, w) <= Repeated(n, w)
    decreases n
  {
    if m < n {
      RepeatedMonotone(m, n - 1, w);
    }
  }

  /** The weights of the frontier's boards added up: it shrinks whenever a node
      is replaced by its at most `bound` successors. */
  function FrontierWeight(frontier: seq<Node>, bound: nat): nat
  {
    if frontier == [] then 0 else Weight(frontier[0].board.trueCount, bound) + FrontierWeight(frontier[1..], bound)
  }

  /** The weight of two frontiers one after the other is the sum of their weights. */
  lemma {:induction false} FrontierWeightConcat(a: seq<Node>, b: seq<Node>, bound: nat)
    ensures FrontierWeight(a + b, bound) == FrontierWeight(a, bound) + FrontierWeight(b, bound)
  {
    if a != [] {
      assert (a + b)[1..] == a[1..] + b;
      FrontierWeightConcat(a[1..], b, bound);
    } else {
      assert a + b == b;
    }
  }

  /** Nodes that all carry `pegs` pegs weigh one Weight(pegs) each. */
  lemma {:induction false} FrontierWeightUniform(nodes: seq<Node>, pegs: nat, bound: nat)
    requires forall k :: 0 <= k < |nodes| ==> nodes[k].board.trueCount == pegs
    ensures FrontierWeight(nodes, bound) == Repeated(|nodes|, Weight(pegs, bound))
  {
    if nodes != [] {
      FrontierWeightUniform(nodes[1..], pegs, bound);
    }
  }

  /** `children` holds, in the order of `actions`, one node per move: the move
      list of `node` with the move appended, and the board it reaches from
      `start`, which has one peg fewer than `node`'s. */
  ghost predicate ChildrenOf(start: Board, node: Node, actions: seq<(nat, nat)>, children: seq<Node>)
    requires Valid(start)
  {
    && |children| == |actions|
    && (forall k :: 0 <= k < |children| ==> children[k].moveList == node.moveList + [actions[k]])
    && (forall k :: 0 <= k < |children| ==> children[k].board.trueCount + 1 == node.board.trueCount)
    && (forall k :: 0 <= k < |children| ==> Reaches(start, children[k]))
  }

  /** A solution through `node`, which is not terminal, runs on through one of
      the node's children. */
  lemma NextChildOnTheWay(start: Board, node: Node, actions: seq<(nat, nat)>, children: seq<Node>, moves: seq<(nat, nat)>)
    returns (k: nat)
    requires Valid(start) && Reaches(start, node)
    requires Valid(node.board) && !IsTerminal(node.board)
    requires forall from: nat, to: nat :: (from, to) in actions <==> LegalMove(node.board, from, to)
    requires ChildrenOf(start, node, actions, children)
    requires Solves(start, moves) && node.moveList <= moves
    ensures k < |children| && children[k].moveList <= moves
  {
    SolutionContinues(start, node, moves);
    var m: (nat, nat) := moves[|node.moveList|];
    assert (m.0, m.1) in actions;
    k :| 0 <= k < |actions| && actions[k] == m;
    assert children[k].moveList == node.moveList + [m];
  }

  /** Replacing the front node, which is not terminal, by one child per legal
      move on its board keeps every solution covered: a solution through the
      front node goes on through the child of its next move. */
  lemma ChildrenCover(start: Board, node: Node, rest: seq<Node>, actions: seq<(nat, nat)>, children: seq<Node>)
    requires Valid(start) && Reaches(start, node)
    requires Valid(node.board) && !IsTerminal(node.board)
    requires forall from: nat, to: nat :: (from, to) in actions <==> LegalMove(node.board, from, to)
    requires ChildrenOf(start, node, actions, children)
    requires CoversAll(start, [node] + rest)
    ensures CoversAll(start, rest + children)
  {
    forall moves | Solves(start, moves)
      ensures Covered(rest + children, moves)
    {
      var j :| 0 <= j < |rest| + 1 && ([node] + rest)[j].moveList <= moves;
      if j == 0 {
        var k := NextChildOnTheWay(start, node, actions, children, moves);
        CoveredByChild(rest, children, moves, k);
      } else {
        CoveredByRest(node, rest, children, moves, j);
      }
    }
  }

  /** At most `bound` children, each with one peg fewer than the parent,
      weigh less together than the parent alone. */
  lemma ChildrenWeighLess(pegs: nat, children: seq<Node>, bound: nat)
    requires |children| <= bound
    requires forall k :: 0 <= k < |children| ==> children[k].board.trueCount + 1 == pegs
    ensures FrontierWeight(children, bound) < Weight(pegs, bound)
  {
    if children == [] {
      assert FrontierWeight(children, bound) == 0;
    } else {
      assert children[0].board.trueCount + 1 == pegs;
      FrontierWeightUniform(children, pegs - 1, bound);
      RepeatedMonotone(|children|, bound, Weight(pegs - 1, bound));
    }
  }

  /** Replacing the front node by at most `bound` children with one peg fewer
      lowers the weight of the frontier. */
  lemma ExpansionWeighsLess(start: Board, node: Node, rest: seq<Node>, actions: seq<(nat, nat)>, children: seq<Node>, bound: nat)
    requires Valid(start) && ChildrenOf(start, node, actions, children) && |actions| <= bound
    ensures FrontierWeight(rest + children, bound) < FrontierWeight([node] + rest, bound)
  {
    FrontierWeightConcat(rest, children, bound);
    assert ([node] + rest)[1..] == rest;
    ChildrenWeighLess(node.board.trueCount, children, bound);
  }

  /** The frontier with its front node replaced by its children still holds
      only nodes reachable from the start. */
  lemma ExpansionReaches(start: Board, node: Node, rest: seq<Node>, actions: seq<(nat, nat)>, children: seq<Node>)
    requires Valid(start) && AllReach(start, [node] + rest)
    requires ChildrenOf(start, node, actions, children)
    ensures AllReach(start, rest + children)
  {
    forall j | 0 <= j < |rest| + |children|
      ensures Reaches(start, (rest + children)[j])
    {
      if j < |rest| {
        assert (rest + children)[j] == ([node] + rest)[j + 1];
      } else {
        assert (rest + children)[j] == children[j - |rest|];
      }
    }
  }

  /** The node for playing the legal move `move` on `node`'s board. */
  ghost function ChildFor(node: Node, move: (nat, nat)): Node
    requires Valid(node.board) && LegalMove(node.board, move.0, move.1)
  {
    LegalMoveNeedsTwoPegs(node.board, move.0, move.1);
    Node(node.moveList + [move], Jump(node.board, move.0, move.1))
  }

  /** The node for a legal move on a reachable node extends the move list by
      that move, has one peg fewer and is itself reachable. */
  lemma ChildForReaches(start: Board, node: Node, move: (nat, nat))
    requires Valid(start) && Reaches(start, node)
    requires Valid(node.board) && LegalMove(node.board, move.0, move.1)
    ensures ChildFor(node, move).moveList == node.moveList + [move]
    ensures ChildFor(node, move).board.trueCount + 1 == node.board.trueCount
    ensures Reaches(start, ChildFor(node, move))
  {
    ReplayAppend(start, node.moveList, move.0, move.1);
  }

  /** Pushes one child per move in `actions` onto the back of `frontier`: the
      board the move leads to, with the move appended to the node's move list. */
  method QueueChildren(ghost start: Board, node: Node, actions: seq<(nat, nat)>, frontier: seq<Node>)
    returns (queued: seq<Node>)
    requires Valid(start) && Reaches(start, node) && Valid(node.board)
    requires forall k :: 0 <= k < |actions| ==> LegalMove(node.board, actions[k].0, actions[k].1)
    ensures |frontier| <= |queued| && queued == frontier + queued[|frontier|..]
    ensures ChildrenOf(start, node, actions, queued[|frontier|..])
  {
    queued := frontier;
    for i := 0 to |actions|
      invariant |queued| == |frontier| + i && queued[..|frontier|] == frontier
      invariant forall k :: |frontier| <= k < |queued| ==> queued[k] == ChildFor(node, actions[k - |frontier|])
    {
      queued := QueueChild(node, actions[i], queued);
    }
    var children := queued[|frontier|..];
    forall k | 0 <= k < |children|
      ensures children[k].moveList == node.moveList + [actions[k]]
      ensures children[k].board.trueCount + 1 == node.board.trueCount
      ensures Reaches(start, children[k])
    {
      assert children[k] == ChildFor(node, actions[k]);
      ChildForReaches(start, node, actions[k]);
    }
  }

  /** Pushes the node for the legal move `move` on `node`'s board. */
  method QueueChild(node: Node, move: (nat, nat), frontier: seq<Node>) returns (queued: seq<Node>)
    requires Valid(node.board) && LegalMove(node.board, move.0, move.1)
    ensures queued == frontier + [ChildFor(node, move)]
  {
    var (from, to) := move;
    LegalMoveNeedsTwoPegs(node.board, from, to);
    var newState := Action(node.board, from, to);
    var newMoveList := node.moveList + [(from, to)];
    queued := frontier + [Node(newMoveList, newState.value)];
  }

  /** The search starts from the frontier holding the start board alone, which
      is reached by no moves and lies on the way to every solution. */
  lemma StartFrontier(start: Board)
    requires Valid(start)
    ensures AllReach(start, [Node([], start)]) && CoversAll(start, [Node([], start)])
  {
    forall moves | Solves(start, moves)
      ensures Covered([Node([], start)], moves)
    {
      CoveredByChild([], [Node([], start)], moves, 0);
    }
  }

  /** A frontier that covers every solution and has run dry shows there is none. */
  lemma EmptyFrontier(start: Board)
    requires Valid(start) && CoversAll(start, [])
    ensures forall moves :: !Solves(start, moves)
  {
  }

  /** Breadth-first search from `startBoard`: pops the front node, returns it if
      its board has one peg left, and otherwise queues one child per legal move.
      A node it returns is a solution, as short as any; None means there is none. */
  method SearchForSolution(startBoard: Board) returns (r: Option<Node>)
    requires Valid(startBoard) && startBoard.size >= 3
    ensures r.Some? ==> IsTerminal(r.value.board) && Reaches(startBoard, r.value)
    ensures r.Some? ==> |r.value.moveList| + 1 == startBoard.trueCount
    ensures r.None? ==> forall moves :: !Solves(startBoard, moves)
  {
    ghost var bound := 6 * TriangleNumber(startBoard.size);
    var frontier: seq<Node> := [Node([], startBoard)];
    StartFrontier(startBoard);
    while frontier != []
      invariant AllReach(startBoard, frontier)
      invariant CoversAll(startBoard, frontier)
      decreases FrontierWeight(frontier, bound)
    {
      ghost var popped := frontier;
      var node := frontier[0];
      frontier := frontier[1..];
      ghost var rest := frontier;
      assert popped == [node] + rest;
      assert Reaches(startBoard, node);
      if IsTerminal(node.board) {
        SolutionLength(startBoard, node.moveList);
        return Some(node);
      }
      var actions := GetActions(node.board);
      frontier := QueueChildren(startBoard, node, actions, frontier);
      ghost var children := frontier[|rest|..];
      assert |actions| <= bound by {
        EmptyPlusPegs(node.board);
      }
      ExpansionReaches(startBoard, node, rest, actions, children);
      ChildrenCover(startBoard, node, rest, actions, children);
      ExpansionWeighsLess(startBoard, node, rest, actions, children, bound);
    }
    EmptyFrontier(startBoard);
    return None;
  }
}
