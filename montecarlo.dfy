/** The bookkeeping of the Monte Carlo tree search agent
    (dlgo/agents/monte_carlo.py): tree nodes with their counters, the
    expansion and backpropagation steps of a search round and the final
    choice of a move. The UCT score of `select_child` is floating-point and
    is replaced by an oracle that picks some child; the random index of
    `add_random_child` and the winner of a random playout are arbitrary
    choices. */
module MonteCarlo {
  import opened GoTypes
  import opened GoStrings
  import opened Placement
  import opened GoBoard
  import opened GoGame

  /** `apply_move` can be called with `m` on a state with this board: a
      play is on the grid and on an empty point. */
  predicate Applicable(board: Board, m: Move)
    reads board
  {
    m.IsPlay() ==> board.IsOnGrid(m.point.value) && board.Get(m.point.value).None?
  }

  /** `after` is the board `apply_move` gives for `player` playing `m` on
      `before`: a play places the stone on a board of the same size, a pass
      or a resignation keeps the board itself. */
  ghost predicate AppliedBoard(before: Board, player: Player, m: Move, after: Board)
    reads before, after
  {
    if m.IsPlay() then
      && after.numRows == before.numRows && after.numCols == before.numCols
      && after.grid == Placed(before.numRows, before.numCols, before.grid, player, m.point.value)
    else after == before
  }

  /** The win counts after one more win for `winner`. */
  function Record(winCounts: map<Player, nat>, winner: Player): (r: map<Player, nat>)
    ensures r.Keys == winCounts.Keys + {winner}
    ensures r[winner] == (if winner in winCounts then winCounts[winner] else 0) + 1
    ensures forall p :: p in winCounts && p != winner ==> r[p] == winCounts[p]
  {
    winCounts[winner := if winner in winCounts then winCounts[winner] + 1 else 1]
  }

  /** Every legal move can be applied. */
  lemma LegalMovesApplicable(s: GameState)
    requires s.lastMove.Some? ==> s.previousState.Some?
    ensures forall m :: m in LegalMovesOf(s) ==> Applicable(s.board, m)
  {
    var pos := s.Snapshot();
    var plays := Plays(Allowed(pos), RowMajor(pos.rows, pos.cols));
    RowMajorFacts(pos.rows, pos.cols);
    PlaysMembers(Allowed(pos), RowMajor(pos.rows, pos.cols));
    forall m | m in LegalMovesOf(s) && m.IsPlay()
      ensures Applicable(s.board, m)
    {
      assert m in plays;
      var p := m.point.value;
      assert Play(p) == m;
      LegalMovesMembers(pos, p);
    }
  }

  /** The boards of the states of `nodes` are allocated, so changing a
      node never changes what the states say. */
  lemma StatesAllocated(nodes: set<MCTSNode>)
    ensures forall b :: b in StateBoards(nodes) ==> allocated(b)
  {
    forall n | n in nodes
      ensures forall b :: b in n.gameState.Ancestry() ==> allocated(b)
    {
      n.gameState.AncestryAllocated();
    }
  }

  class MCTSNode {
    const gameState: GameState
    const parent: MCTSNode?
    const move: Option<Move>
    /** The number of parent links from this node up to the root. */
    ghost const depth: nat
    /** The legal moves of the state when the node was made. */
    ghost const legalMoves: seq<Move>
    var winCounts: map<Player, nat>
    var numRollouts: nat
    var children: seq<MCTSNode>
    var unvisitedMoves: seq<Move>

    /** The state is consistent and `legalMoves` are its legal moves. */
    ghost predicate Grounded()
      reads gameState.board, gameState.Ancestry()
    {
      gameState.Valid() && legalMoves == LegalMovesOf(gameState)
    }

    /** The state has a last move exactly when it has a previous state,
        the node started with at least the two moves every state has (pass
        and resign), each of which is either still untried or has become a
        child, and the untried moves and the moves of the children are
        legal. */
    ghost predicate Shaped()
      reads this`children, this`unvisitedMoves
    {
      && (gameState.lastMove.Some? <==> gameState.previousState.Some?)
      && |children| + |unvisitedMoves| >= 2
      && (forall m :: m in unvisitedMoves ==> m in legalMoves)
      && (forall c :: c in children ==> c.move.Some? && c.move.value in legalMoves)
    }

    /** Both players have a win counter and the counters sum to the
        rollouts. */
    ghost predicate Counted()
      reads this`winCounts, this`numRollouts
    {
      && winCounts.Keys == {Black, White}
      && winCounts[Black] + winCounts[White] == numRollouts
    }

    ghost predicate Valid()
      reads this, gameState.board, gameState.Ancestry()
    {
      Grounded() && Shaped() && Counted()
    }

    /** `MCTSNode(game_state, parent, move)`: no rollouts, no wins, no
        children, and the state's legal moves still to try. */
    constructor(gameState: GameState, parent: MCTSNode?, move: Option<Move>)
      requires gameState.Valid()
      ensures this.gameState == gameState && this.parent == parent && this.move == move
      ensures depth == if parent == null then 0 else parent.depth + 1
      ensures winCounts == map[Black := 0, White := 0] && numRollouts == 0 && children == []
      ensures legalMoves == LegalMovesOf(gameState) && unvisitedMoves == legalMoves
      ensures Valid()
    {
      gameState.AncestryAllocated();
      this.gameState := gameState;
      this.legalMoves := LegalMovesOf(gameState);
      this.parent := parent;
      this.move := move;
      this.depth := if parent == null then 0 else parent.depth + 1;
      winCounts := map[Black := 0, White := 0];
      numRollouts := 0;
      children := [];
      new;
      unvisitedMoves := gameState.LegalMoves();
    }

    /** `add_random_child`: the untried move at `index` (the source draws
        it at random) is removed, applied to the state, and the new node
        for the resulting state is appended to the children. */
    method AddRandomChild(index: nat) returns (newNode: MCTSNode)
      requires Grounded() && Shaped() && index < |unvisitedMoves|
      modifies this`children, this`unvisitedMoves
      ensures Grounded()
      ensures Shaped()
      ensures newNode.Grounded()
      ensures newNode.Shaped()
      ensures newNode.Counted()
      ensures fresh(newNode)
      ensures unvisitedMoves == old(unvisitedMoves)[..index] + old(unvisitedMoves)[index + 1..]
      ensures children == old(children) + [newNode]
      ensures ChildOf(this, old(unvisitedMoves)[index], newNode)
    {
      newNode := MakeChild(index);
      Adopt(index, newNode);
    }

    /** The new node of `add_random_child`, for the untried move at
        `index`; this node is not changed. */
    method MakeChild(index: nat) returns (newNode: MCTSNode)
      requires Grounded() && Shaped() && index < |unvisitedMoves|
      ensures Grounded() && newNode.Valid() && fresh(newNode)
      ensures ChildOf(this, unvisitedMoves[index], newNode)
    {
      gameState.AncestryAllocated();
      ghost var seen := gameState.Situations();
      LegalMovesApplicable(gameState);
      newNode := NewChild(this, unvisitedMoves[index]);
      assert gameState.Situations() == seen;
    }

    /** The bookkeeping of `add_random_child`: the untried move at `index`
        is popped and `child`, the node made for it, is appended. */
    method Adopt(index: nat, child: MCTSNode)
      requires Shaped() && index < |unvisitedMoves| && child.move == Some(unvisitedMoves[index])
      requires Grounded() && child.Grounded()
      modifies this`children, this`unvisitedMoves
      ensures Shaped() && Grounded() && child.Grounded()
      ensures unvisitedMoves == old(unvisitedMoves)[..index] + old(unvisitedMoves)[index + 1..]
      ensures children == old(children) + [child]
    {
      gameState.AncestryAllocated();
      child.gameState.AncestryAllocated();
      RemovedSubset(unvisitedMoves, index);
      unvisitedMoves := unvisitedMoves[..index] + unvisitedMoves[index + 1..];
      children := children + [child];
    }

    /** `record_win`: one more rollout, won by `winner`. */
    method RecordWin(winner: Player)
      requires Counted()
      modifies this`winCounts, this`numRollouts
      ensures Counted()
      ensures winCounts == Record(old(winCounts), winner)
      ensures numRollouts == old(numRollouts) + 1
    {
      winCounts := winCounts[winner := winCounts[winner] + 1];
      numRollouts := numRollouts + 1;
    }

    /** `can_add_child`: some move is still untried. */
    predicate CanAddChild()
      reads this
    {
      |unvisitedMoves| > 0
    }

    /** `is_terminal`: the game of this node is over, after a resignation
        or two passes in a row. */
    predicate IsTerminal(): (r: bool)
      requires gameState.lastMove.Some? ==> gameState.previousState.Some?
      ensures r <==>
        && gameState.lastMove.Some?
        && (|| gameState.lastMove.value.isResign
            || (&& gameState.lastMove.value.isPass
                && gameState.previousState.value.lastMove.Some?
                && gameState.previousState.value.lastMove.value.isPass))
    {
      gameState.IsOver()
    }

    /** `winning_pct(player)`: the share of this node's rollouts that
        `player` won. */
    function WinningPct(player: Player): (r: real)
      reads this
      requires player in winCounts && numRollouts > 0
      ensures r * numRollouts as real == winCounts[player] as real
      ensures winCounts[player] <= numRollouts ==> 0.0 <= r <= 1.0
    {
      winCounts[player] as real / numRollouts as real
    }
  }

  /** `child` is a node just made for move `m` of `parent`: its parent,
      move and depth, the state `apply_move` gives (the other player to
      move, `parent`'s state as the previous one, `m` as the last move, the
      board after `m`), no rollouts and no children. */
  ghost predicate ChildOf(parent: MCTSNode, m: Move, child: MCTSNode)
    reads child, parent.gameState.board, child.gameState.board
  {
    && child.parent == parent && child.move == Some(m) && child.depth == parent.depth + 1
    && child.gameState.previousState == Some(parent.gameState) && child.gameState.lastMove == Some(m)
    && child.gameState.nextPlayer == parent.gameState.nextPlayer.Other()
    && AppliedBoard(parent.gameState.board, parent.gameState.nextPlayer, m, child.gameState.board)
    && child.numRollouts == 0 && child.children == []
  }

  /** `MCTSNode(game_state.apply_move(move), self, move)`, the node
      `add_random_child` makes for an untried move of `parent`. */
  method NewChild(parent: MCTSNode, m: Move) returns (child: MCTSNode)
    requires parent.gameState.Valid() && Applicable(parent.gameState.board, m)
    ensures fresh(child) && child.Valid()
    ensures ChildOf(parent, m, child)
  {
    var next := parent.gameState.ApplyMove(m);
    child := new MCTSNode(next, parent, Some(m));
  }

  /** The shape of a search tree: the root has no parent and depth 0,
      every other node's parent is in the tree one level up, and the
      children of a node are tree nodes whose parent it is. */
  ghost predicate Tree(root: MCTSNode, nodes: set<MCTSNode>)
    reads nodes`children
  {
    Linked(root, nodes) && ChildrenIn(nodes, nodes)
  }

  /** The parent links of `nodes` (which never change) form a tree rooted
      at `root`. */
  ghost predicate Linked(root: MCTSNode, nodes: set<MCTSNode>) {
    && root in nodes && root.parent == null && root.depth == 0
    && (forall n :: n in nodes ==> n.depth < |nodes|)
    && (forall n {:trigger n.parent} :: n in nodes ==>
          if n.parent == null then n == root else n.parent in nodes && n.depth == n.parent.depth + 1)
  }

  /** The children of `parents` are among `nodes` and have them as
      parent. */
  ghost predicate ChildrenIn(parents: set<MCTSNode>, nodes: set<MCTSNode>)
    reads parents`children
  {
    forall n, c :: n in parents && c in n.children ==> c in nodes && c.parent == n
  }

  /** Appending a new childless node to the children of `node`, whose
      parent it is, keeps the children of the tree in the tree. */
  lemma ChildrenGrow(nodes: set<MCTSNode>, node: MCTSNode, before: seq<MCTSNode>, leaf: MCTSNode)
    requires node in nodes && ChildrenIn(nodes - {node}, nodes)
    requires forall c :: c in before ==> c in nodes && c.parent == node
    requires node.children == before + [leaf] && leaf.parent == node && leaf.children == []
    ensures ChildrenIn(nodes + {leaf}, nodes + {leaf})
  {
    forall n, c | n in nodes + {leaf} && c in n.children
      ensures c in nodes + {leaf} && c.parent == n
    {
      if n != node && n != leaf {
        assert n in nodes - {node};
      }
    }
  }

  /** A new node whose parent is in the tree extends it. */
  lemma LinkedAdd(root: MCTSNode, nodes: set<MCTSNode>, leaf: MCTSNode)
    requires Linked(root, nodes) && leaf !in nodes
    requires leaf.parent != null && leaf.parent in nodes && leaf.depth == leaf.parent.depth + 1
    ensures Linked(root, nodes + {leaf})
  {
    assert |nodes + {leaf}| == |nodes| + 1;
  }

  /** A child of a tree node is a tree node one level down, so not the
      root. */
  lemma ChildInTree(root: MCTSNode, nodes: set<MCTSNode>, n: MCTSNode, c: MCTSNode)
    requires Tree(root, nodes) && n in nodes && c in n.children
    ensures c in nodes && c != root && c.depth == n.depth + 1 && c.depth < |nodes|
  {
  }

  /** The boards the states of `nodes` read: their own and those of their
      strict ancestors. Nothing in the search changes them. */
  ghost function StateBoards(nodes: set<MCTSNode>): (r: set<Board>)
    ensures forall n :: n in nodes ==> n.gameState.board in r && n.gameState.Ancestry() <= r
  {
    (set n | n in nodes :: n.gameState.board) + (set n, b | n in nodes && b in n.gameState.Ancestry() :: b)
  }

  /** The invariant of the search tree between rounds: a tree whose nodes
      are grounded, shaped and counted, and every node but the root has
      been through a rollout. */
  ghost predicate SearchTree(root: MCTSNode, nodes: set<MCTSNode>)
    reads nodes, StateBoards(nodes)
  {
    Grown(root, nodes, root)
  }

  /** The search tree within a round, after expansion: as between rounds,
      except that `leaf` may not have been through a rollout yet. */
  ghost predicate Grown(root: MCTSNode, nodes: set<MCTSNode>, leaf: MCTSNode)
    reads nodes, StateBoards(nodes)
  {
    && leaf in nodes && Tree(root, nodes) && AllGrounded(nodes) && AllShaped(nodes)
    && forall n :: n in nodes ==> n.Counted() && (n == root || n == leaf || n.numRollouts >= 1)
  }

  /** Every node of `nodes` is shaped. */
  ghost predicate AllShaped(nodes: set<MCTSNode>)
    reads nodes`children, nodes`unvisitedMoves
  {
    forall n {:trigger n.Shaped()} :: n in nodes ==> n.Shaped()
  }

  /** Every node of `nodes` is grounded. */
  ghost predicate AllGrounded(nodes: set<MCTSNode>)
    reads StateBoards(nodes)
  {
    forall n {:trigger n.Grounded()} :: n in nodes ==> n.Grounded()
  }

  /** Removing one element of a sequence keeps the others. */
  lemma RemovedSubset<T>(s: seq<T>, i: nat)
    requires i < |s|
    ensures forall x :: x in s[..i] + s[i + 1..] ==> x in s
  {
  }

  /** The nodes from `n` up the parent links (while the depth decreases,
      which in a tree is all the way to the root). */
  ghost function Chain(n: MCTSNode): set<MCTSNode>
    decreases n.depth
  {
    if n.parent == null || n.parent.depth >= n.depth then {n} else {n} + Chain(n.parent)
  }

  /** In a tree, the chain of a node ends at the root and climbs strictly. */
  lemma {:induction false} ChainFacts(root: MCTSNode, nodes: set<MCTSNode>, n: MCTSNode)
    requires Linked(root, nodes) && n in nodes
    ensures root in Chain(n) && Chain(n) <= nodes
    ensures forall m :: m in Chain(n) ==> m.depth <= n.depth
    ensures forall m :: m in Chain(n) ==> m in nodes && Chain(m) <= Chain(n)
    ensures forall m :: m in Chain(n) && m.parent != null ==>
      && m.parent in Chain(n) && m.parent.depth < m.depth
      && Chain(m) == {m} + Chain(m.parent) && m !in Chain(m.parent)
    decreases n.depth
  {
    if n.parent != null {
      ChainFacts(root, nodes, n.parent);
    }
  }

  /** One step up the chain of `start`: `node` moves from the part still
      to visit to the part done. */
  lemma ChainStep(root: MCTSNode, nodes: set<MCTSNode>, start: MCTSNode, node: MCTSNode, done: set<MCTSNode>)
    requires Linked(root, nodes) && start in nodes && node in Chain(start)
    requires done + Chain(node) == Chain(start) && done !! Chain(node)
    ensures node in nodes && node !in done
    ensures node.parent == null ==> done + {node} == Chain(start)
    ensures node.parent != null ==>
      && node.parent in Chain(start) && node.parent.depth < node.depth
      && (done + {node}) + Chain(node.parent) == Chain(start) && (done + {node}) !! Chain(node.parent)
  {
    ChainFacts(root, nodes, start);
  }

  /** The backpropagation loop of `select_move`: `record_win(winner)` on
      `start` and on every node up the parent links to the root, and on no
      other node. */
  method Backpropagate(start: MCTSNode, winner: Player, ghost root: MCTSNode, ghost nodes: set<MCTSNode>)
    requires Tree(root, nodes) && start in nodes
    requires forall n :: n in nodes ==> n.Counted()
    modifies nodes`winCounts, nodes`numRollouts
    ensures forall n :: n in nodes ==> n.Counted()
    ensures forall n :: n in nodes ==>
      n.numRollouts == old(n.numRollouts) + (if n in Chain(start) then 1 else 0)
    ensures forall n :: n in nodes ==>
      n.winCounts == if n in Chain(start) then Record(old(n.winCounts), winner) else old(n.winCounts)
  {
    ghost var rollouts := map n | n in nodes :: n.numRollouts;
    ghost var wins := map n | n in nodes :: n.winCounts;
    RecordChain(start, winner, root, nodes, rollouts, wins);
  }

  /** The loop of the backpropagation: climbing from `start` through the
      parents, each node on the way records the win, and no other node
      changes. */
  method RecordChain(start: MCTSNode, winner: Player, ghost root: MCTSNode, ghost nodes: set<MCTSNode>,
                     ghost rollouts: map<MCTSNode, nat>, ghost wins: map<MCTSNode, map<Player, nat>>)
    requires Linked(root, nodes) && start in nodes
    requires Recorded(nodes, {}, rollouts, wins, winner)
    modifies nodes`winCounts, nodes`numRollouts
    ensures Recorded(nodes, Chain(start), rollouts, wins, winner)
  {
    ChainFacts(root, nodes, start);
    var node: MCTSNode? := start;
    ghost var done: set<MCTSNode> := {};
    while node != null
      invariant node == null ==> done == Chain(start)
      invariant node != null ==> node in Chain(start) && done + Chain(node) == Chain(start) && done !! Chain(node)
      invariant Recorded(nodes, done, rollouts, wins, winner)
      decreases if node == null then 0 else node.depth + 1
    {
      ChainStep(root, nodes, start, node, done);
      RecordStep(node, winner, nodes, done, rollouts, wins);
      done := done + {node};
      node := node.parent;
    }
  }

  /** The playout and backpropagation of a round: the winner of the
      random game from `leaf` (`simulate_random_game`, not modelled, so
      any player) is recorded from `leaf` up to the root. Afterwards the
      root has one more rollout and every node but the root has at least
      one. */
  method Playout(leaf: MCTSNode, ghost root: MCTSNode, ghost nodes: set<MCTSNode>)
    requires Grown(root, nodes, leaf)
    modifies nodes`winCounts, nodes`numRollouts
    ensures SearchTree(root, nodes) && root.numRollouts == old(root.numRollouts) + 1
  {
    StatesAllocated(nodes);
    var winner: Player :| true;
    Backpropagate(leaf, winner, root, nodes);
    ChainFacts(root, nodes, leaf);
  }

  /** The nodes of `done` have each recorded one more win for `winner`
      since `rollouts` and `wins` were taken, and the others nothing. */
  ghost predicate Recorded(nodes: set<MCTSNode>, done: set<MCTSNode>, rollouts: map<MCTSNode, nat>,
                           wins: map<MCTSNode, map<Player, nat>>, winner: Player)
    reads nodes`winCounts, nodes`numRollouts
  {
    forall n :: n in nodes ==>
      && n in rollouts && n in wins && n.Counted()
      && n.numRollouts == rollouts[n] + (if n in done then 1 else 0)
      && n.winCounts == if n in done then Record(wins[n], winner) else wins[n]
  }

  /** One step of the backpropagation loop: `node.record_win(winner)`,
      after which `node` counts as done. */
  method RecordStep(node: MCTSNode, winner: Player, ghost nodes: set<MCTSNode>, ghost done: set<MCTSNode>,
                    ghost rollouts: map<MCTSNode, nat>, ghost wins: map<MCTSNode, map<Player, nat>>)
    requires node in nodes && node !in done && Recorded(nodes, done, rollouts, wins, winner)
    modifies node`winCounts, node`numRollouts
    ensures Recorded(nodes, done + {node}, rollouts, wins, winner)
  {
    assert node in rollouts && node in wins;
    assert node.numRollouts == rollouts[node] && node.winCounts == wins[node];
    node.RecordWin(winner);
    forall n | n in nodes
      ensures n in rollouts && n in wins && n.Counted()
      ensures n.numRollouts == rollouts[n] + (if n in done + {node} then 1 else 0)
      ensures n.winCounts == if n in done + {node} then Record(wins[n], winner) else wins[n]
    {
    }
  }

  /** The expansion of `node` when it has an untried move: a child for
      some untried move (the source draws its index at random). */
  method Grow(node: MCTSNode, ghost nodes: set<MCTSNode>) returns (leaf: MCTSNode)
    requires node in nodes && AllGrounded(nodes) && node.Shaped() && node.CanAddChild()
    modifies node`children, node`unvisitedMoves
    ensures fresh(leaf) && AllGrounded(nodes + {leaf})
    ensures node.Shaped() && leaf.Shaped() && leaf.Counted()
    ensures node.children == old(node.children) + [leaf]
    ensures leaf.parent == node && leaf.depth == node.depth + 1 && leaf.numRollouts == 0 && leaf.children == []
  {
    StatesAllocated(nodes);
    var index :| 0 <= index < |node.unvisitedMoves|;
    assert node.Grounded();
    leaf := node.AddRandomChild(index);
    assert AllGrounded(nodes);
  }

  class MonteBot {
    const temperature: real
    const numRounds: nat

    /** `MonteBot(temperature, max_search_rounds)`. */
    constructor(temperature: real, maxSearchRounds: nat)
      ensures this.temperature == temperature && numRounds == maxSearchRounds
    {
      this.temperature := temperature;
      numRounds := maxSearchRounds;
    }

    /** `select_child`, with the UCT comparison replaced by an oracle: some
        child of `node`. Every child has been through at least one
        rollout, so its winning percentage is defined. */
    method SelectChild(node: MCTSNode) returns (child: MCTSNode)
      requires |node.children| > 0
      requires forall c :: c in node.children ==> c.numRollouts > 0
      ensures child in node.children
    {
      var k :| 0 <= k < |node.children|;
      child := node.children[k];
    }

    /** The selection loop of `select_move`: descend while the node has
        no untried move and its game is not over. */
    method SelectLeaf(root: MCTSNode, ghost nodes: set<MCTSNode>) returns (node: MCTSNode)
      requires Tree(root, nodes)
      requires AllShaped(nodes) && forall n :: n in nodes ==> n == root || n.numRollouts > 0
      ensures node in nodes && (node.gameState.lastMove.Some? ==> node.gameState.previousState.Some?)
      ensures node.CanAddChild() || node.IsTerminal()
      ensures root.CanAddChild() ==> node == root
    {
      node := root;
      while !node.CanAddChild() && !node.IsTerminal()
        invariant node in nodes && node.Shaped()
        invariant root.CanAddChild() ==> node == root
        decreases |nodes| - node.depth
      {
        forall c | c in node.children
          ensures c.numRollouts > 0
        {
          ChildInTree(root, nodes, node, c);
        }
        var child := SelectChild(node);
        ChildInTree(root, nodes, node, child);
        node := child;
      }
    }

    /** The final loop of `select_move`: the move of the first child with
        the strictly greatest winning percentage for `player`, or `None`
        when the root has no children. */
    method FinalChoice(root: MCTSNode, player: Player) returns (bestMove: Option<Move>)
      requires forall c :: c in root.children ==> c.numRollouts > 0 && player in c.winCounts
      ensures root.children == [] ==> bestMove.None?
      ensures root.children != [] ==>
        exists j :: 0 <= j < |root.children| && bestMove == root.children[j].move
          && (forall k :: 0 <= k < j ==> root.children[k].WinningPct(player) < root.children[j].WinningPct(player))
          && (forall k :: j <= k < |root.children| ==>
                root.children[k].WinningPct(player) <= root.children[j].WinningPct(player))
    {
      bestMove := None;
      var bestPct := -1.0;
      ghost var j := 0;
      for i := 0 to |root.children|
        invariant i == 0 ==> bestMove.None? && bestPct == -1.0
        invariant i > 0 ==> 0 <= j < i
        invariant i > 0 ==> bestMove == root.children[j].move && bestPct == root.children[j].WinningPct(player)
        invariant i > 0 ==> forall k :: 0 <= k < j ==> root.children[k].WinningPct(player) < bestPct
        invariant i > 0 ==> forall k :: j <= k < i ==> root.children[k].WinningPct(player) <= bestPct
      {
        var child := root.children[i];
        var childPct := child.WinningPct(player);
        if childPct > bestPct {
          bestPct := childPct;
          bestMove := child.move;
          j := i;
        }
      }
      if root.children != [] {
        assert 0 <= j < |root.children| && bestMove == root.children[j].move;
      }
    }

    /** The expansion step of `select_move`: when the selected node has
        an untried move, a child for some untried move (the source picks
        it at random) is added, and the round goes on from that child. */
    method Expand(node: MCTSNode, ghost root: MCTSNode, ghost nodes: set<MCTSNode>)
      returns (leaf: MCTSNode, ghost nodes': set<MCTSNode>)
      requires SearchTree(root, nodes) && node in nodes
      modifies node`children, node`unvisitedMoves
      ensures Grown(root, nodes', leaf) && nodes' == nodes + {leaf}
      ensures |root.children| >= old(|root.children|)
      ensures leaf == node || (fresh(leaf) && leaf.numRollouts == 0)
      ensures node == root && old(root.CanAddChild()) ==> |root.children| > 0
    {
      leaf := node;
      nodes' := nodes;
      if node.CanAddChild() {
        ghost var before := node.children;
        assert ChildrenIn(nodes - {node}, nodes);
        leaf := Grow(node, nodes);
        nodes' := nodes + {leaf};
        LinkedAdd(root, nodes, leaf);
        ChildrenGrow(nodes, node, before, leaf);
        forall n | n in nodes && n != node
          ensures n.Shaped() && n.Counted()
        {
          assert old(n.Shaped() && n.Counted());
          assert n.children == old(n.children) && n.unvisitedMoves == old(n.unvisitedMoves);
        }
        assert AllShaped(nodes');
      }
    }

    /** Selection and expansion in a round of `select_move`: from the
        root down to a node with an untried move or a finished game, then
        a child of it when it has an untried move. The root ends up with
        a child. */
    method Descend(root: MCTSNode, ghost nodes: set<MCTSNode>) returns (leaf: MCTSNode, ghost nodes': set<MCTSNode>)
      requires SearchTree(root, nodes)
      modifies nodes`children, nodes`unvisitedMoves
      ensures Grown(root, nodes', leaf) && nodes' == nodes + {leaf}
      ensures leaf in nodes || fresh(leaf)
      ensures |root.children| > 0
    {
      StatesAllocated(nodes);
      assert root.Shaped();
      var node := SelectLeaf(root, nodes);
      leaf, nodes' := Expand(node, root, nodes);
    }

    /** One round of `select_move`: selection, expansion, a playout whose
        winner is arbitrary (`simulate_random_game` is not modelled) and
        backpropagation. */
    method Round(root: MCTSNode, ghost nodes: set<MCTSNode>) returns (ghost nodes': set<MCTSNode>)
      requires SearchTree(root, nodes)
      modifies nodes
      ensures SearchTree(root, nodes') && nodes <= nodes' && fresh(nodes' - nodes)
      ensures root.numRollouts == old(root.numRollouts) + 1 && |root.children| > 0
    {
      var leaf;
      leaf, nodes' := Descend(root, nodes);
      StatesAllocated(nodes');
      Playout(leaf, root, nodes');
    }

    /** `select_move`: `num_rounds` rounds of selection, expansion, a
        playout and backpropagation, then the final choice. The results
        expose the tree: the root has one rollout per round and every
        other node at least one. */
    method SelectMove(gameState: GameState) returns (bestMove: Option<Move>, root: MCTSNode,
                                                     ghost nodes: set<MCTSNode>)
      requires gameState.Valid()
      ensures Tree(root, nodes) && root.gameState == gameState && root.numRollouts == numRounds
      ensures forall n :: n in nodes && n != root ==> n.numRollouts >= 1
      ensures bestMove.Some? <==> numRounds > 0
      ensures bestMove.Some? ==> bestMove.value in LegalMovesOf(gameState)
      ensures forall n :: n in nodes ==> n.Counted()
      ensures forall c :: c in root.children ==> c.numRollouts > 0 && gameState.nextPlayer in c.winCounts
      ensures root.children != [] ==>
        exists j :: 0 <= j < |root.children| && bestMove == root.children[j].move
          && (forall k :: 0 <= k < j ==>
                root.children[k].WinningPct(gameState.nextPlayer) < root.children[j].WinningPct(gameState.nextPlayer))
          && (forall k :: j <= k < |root.children| ==>
                root.children[k].WinningPct(gameState.nextPlayer) <= root.children[j].WinningPct(gameState.nextPlayer))
    {
      root := new MCTSNode(gameState, null, None);
      nodes := {root};
      for round := 0 to numRounds
        invariant SearchTree(root, nodes) && root.numRollouts == round && fresh(nodes)
        invariant if round == 0 then root.children == [] else |root.children| > 0
      {
        nodes := Round(root, nodes);
      }
      assert Tree(root, nodes);
      forall c | c in root.children
        ensures c.numRollouts > 0 && gameState.nextPlayer in c.winCounts
      {
        ChildInTree(root, nodes, root, c);
        assert c.Counted();
        assert gameState.nextPlayer == Black || gameState.nextPlayer == White;
      }
      assert root.Shaped() && root.Grounded();
      StatesAllocated({root});
      bestMove := FinalChoice(root, gameState.nextPlayer);
    }
  }
}
