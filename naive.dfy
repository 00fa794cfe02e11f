/** The two simple agents of dlgo/agents/naive.py: `RandomBot`, which
    plays some legal move that does not fill one of its own eyes, and
    `AlphaBetaBot`, which plays the move of a root alpha-beta search. The
    random choice of `random.choice` and the shuffle of `np.random.shuffle`
    are arbitrary: an arbitrary index and a parameter. */
module Naive {
  import opened GoTypes
  import opened GoStrings
  import opened GoBoard
  import opened Scoring
  import opened GoGame
  import opened Helpers

  /** `RandomBot` keeps move `m`: not a pass, not a resignation, and not a
      play into an eye of `player` on grid `g`. */
  ghost predicate Keeps(rows: nat, cols: nat, g: Grid, player: Player, m: Move) {
    !m.isPass && !m.isResign && !(m.point.Some? && Eye(rows, cols, g, m.point.value, player))
  }

  /** The moves of `moves` that `RandomBot` keeps, in their order. */
  ghost function Kept(rows: nat, cols: nat, g: Grid, player: Player, moves: seq<Move>): seq<Move> {
    if moves == [] then []
    else
      var m := moves[|moves| - 1];
      Kept(rows, cols, g, player, moves[..|moves| - 1]) + (if Keeps(rows, cols, g, player, m) then [m] else [])
  }

  /** The `candidates` list `RandomBot.select_move` builds for state `s`. */
  ghost function RandomCandidates(s: GameState): seq<Move>
    reads s.board
    requires s.lastMove.Some? ==> s.previousState.Some?
  {
    Kept(s.board.numRows, s.board.numCols, s.board.grid, s.nextPlayer, LegalMovesOf(s))
  }

  /** A move is kept exactly when it is one of `moves` that `Keeps`
      accepts. */
  lemma {:induction false} KeptMembers(rows: nat, cols: nat, g: Grid, player: Player, moves: seq<Move>)
    ensures forall m :: m in Kept(rows, cols, g, player, moves) <==> m in moves && Keeps(rows, cols, g, player, m)
  {
    if moves != [] {
      var init := moves[..|moves| - 1];
      KeptMembers(rows, cols, g, player, init);
      assert moves == init + [moves[|moves| - 1]];
    }
  }

  /** The candidates of `RandomBot` are exactly the valid plays on the
      grid that do not fill an eye of the player to move: every candidate
      is such a play, and every such play is a candidate. In particular
      the bot passes exactly when no such play exists, and never resigns. */
  lemma RandomCandidatesMeaning(s: GameState)
    requires s.lastMove.Some? ==> s.previousState.Some?
    ensures var rows, cols, g := s.board.numRows, s.board.numCols, s.board.grid;
      && (forall m :: m in RandomCandidates(s) ==> m.IsPlay() && !m.isPass && !m.isResign && m in LegalMovesOf(s))
      && (forall p :: Play(p) in RandomCandidates(s) <==>
            OnGrid(rows, cols, p) && PlayAllowed(s.Snapshot(), p) && !Eye(rows, cols, g, p, s.nextPlayer))
  {
    var pos := s.Snapshot();
    var rows, cols, g := s.board.numRows, s.board.numCols, s.board.grid;
    var plays := Plays(Allowed(pos), RowMajor(rows, cols));
    KeptMembers(rows, cols, g, s.nextPlayer, LegalMovesOf(s));
    RowMajorFacts(rows, cols);
    PlaysMembers(Allowed(pos), RowMajor(rows, cols));
    forall m | m in RandomCandidates(s)
      ensures m.IsPlay() && !m.isPass && !m.isResign
    {
      assert m in plays;
    }
    forall p
      ensures Play(p) in RandomCandidates(s) <==>
        OnGrid(rows, cols, p) && PlayAllowed(pos, p) && !Eye(rows, cols, g, p, s.nextPlayer)
    {
      LegalMovesMembers(pos, p);
    }
  }

  class RandomBot {
    constructor()
    {
    }

    /** `RandomBot.select_move`: the legal moves that are neither a pass,
        a resignation nor a play into one of the mover's own eyes are
        collected; with none the bot passes, otherwise it plays one of
        them (the source draws it at random). */
    method SelectMove(gameState: GameState) returns (move: Move)
      requires gameState.board.Valid() && (gameState.lastMove.Some? ==> gameState.previousState.Some?)
      ensures RandomCandidates(gameState) == [] ==> move == PassTurn()
      ensures RandomCandidates(gameState) != [] ==> move in RandomCandidates(gameState)
    {
      ghost var rows, cols, g := gameState.board.numRows, gameState.board.numCols, gameState.board.grid;
      var candidates := [];
      var moves := gameState.LegalMoves();
      ghost var pos := gameState.Snapshot();
      RowMajorFacts(rows, cols);
      PlaysMembers(Allowed(pos), RowMajor(rows, cols));
      for i := 0 to |moves|
        invariant candidates == Kept(rows, cols, g, gameState.nextPlayer, moves[..i])
      {
        var m := moves[i];
        assert moves[..i + 1][..i] == moves[..i];
        if m.isPass || m.isResign {
          continue;
        }
        assert m in Plays(Allowed(pos), RowMajor(rows, cols));
        var eye := IsPointAnEye(gameState.board, m.point.value, gameState.nextPlayer);
        if !eye {
          candidates := candidates + [m];
        }
      }
      assert moves[..|moves|] == moves;
      if candidates == [] {
        return PassTurn();
      }
      var k :| 0 <= k < |candidates|;
      move := candidates[k];
    }
  }

  /** What `AlphaBetaBot.select_move` hands back: a move, or the score
      `alpha_beta` returns instead of a move when the game is already over
      or the depth is 0. */
  datatype Reply = Chosen(move: Move) | Score(value: Ext)

  /** The moves a root alpha-beta search examines are the candidates of
      `RandomBot`, in the shuffled order. */
  lemma SearchCandidates(s: GameState, evalFn: Evaluator, shuffle: seq<Move> -> seq<Move>)
    requires s.lastMove.Some? ==> s.previousState.Some?
    requires Permutes(shuffle)
    ensures forall m :: m in Candidates(NodeOf(s, evalFn, shuffle)) <==> m in RandomCandidates(s)
  {
    var n := NodeOf(s, evalFn, shuffle);
    var rows, cols, g := s.board.numRows, s.board.numCols, s.board.grid;
    var legal := LegalMovesOf(s);
    CandidatesMembers(n, 0);
    KeptMembers(rows, cols, g, s.nextPlayer, legal);
    RandomCandidatesMeaning(s);
    assert multiset(n.moves) == multiset(legal);
    forall m
      ensures m in Candidates(n) <==> m in RandomCandidates(s)
    {
      assert m in n.moves <==> m in multiset(n.moves);
      assert m in legal <==> m in multiset(legal);
      if m in n.moves && !m.isPass && !m.isResign {
        NodeMove(s, shuffle, n.moves, m);
        NodeEye(s, evalFn, shuffle, n, m, Eye(rows, cols, g, m.point.value, s.nextPlayer));
      }
    }
  }

  /** The moves the loop examines from index `i` on are the moves from
      `i` on that it does not skip. */
  lemma {:induction false} CandidatesMembers(n: Node, i: nat)
    ensures forall m :: m in CandidatesFrom(n, i) <==> exists k :: i <= k < |n.moves| && n.moves[k] == m && !Skipped(n, m)
    decreases |n.moves| - i
  {
    if i < |n.moves| {
      CandidatesMembers(n, i + 1);
    }
  }

  class AlphaBetaBot {
    const depth: nat
    const evalFn: Evaluator

    /** `AlphaBetaBot(depth=3, eval_fn=capture_diff)`. */
    constructor(depth: nat := 3, evalFn: Evaluator := CaptureDiffEval)
      ensures this.depth == depth && this.evalFn == evalFn
    {
      this.depth := depth;
      this.evalFn := evalFn;
    }

    /** `AlphaBetaBot.select_move`: a root search with `return_move`, as
        the maximizer exactly when Black is to move; a `None` move becomes
        a pass. The order of the legal moves is `shuffle`. */
    method SelectMove(gameState: GameState, shuffle: seq<Move> -> seq<Move>) returns (reply: Reply)
      requires gameState.board.Valid() && (gameState.lastMove.Some? ==> gameState.previousState.Some?)
      requires Permutes(shuffle)
      ensures var n := NodeOf(gameState, evalFn, shuffle);
        match Search(n, depth, gameState.nextPlayer == Black, NegInf, PosInf, true)
        case Choice(m) => reply == Chosen(if m.Some? then m.value else PassTurn())
        case Value(v) => reply == Score(v)
      ensures var n := NodeOf(gameState, evalFn, shuffle);
        && (n.over ==> reply == Score(Terminal(n)))
        && (!n.over && depth == 0 ==> reply == Score(Fin(n.score)))
        && (!n.over && depth > 0 ==> reply == Chosen(if Candidates(n) != [] then Candidates(n)[0] else PassTurn()))
    {
      ghost var n := NodeOf(gameState, evalFn, shuffle);
      var maximizingPlayer := gameState.nextPlayer == Black;
      var r := AlphaBeta(gameState, depth, evalFn, maximizingPlayer, NegInf, PosInf, true, shuffle, n);
      match r
      case Value(v) => reply := Score(v);
      case Choice(m) => reply := if m.None? then Chosen(PassTurn()) else Chosen(m.value);
      if !n.over && depth > 0 {
        RootPlaysFirstCandidate(n, depth, maximizingPlayer);
      }
    }
  }

  /** Whatever `AlphaBetaBot` plays in an unfinished game at a positive
      depth is a pass, when `RandomBot` would pass too, or one of the
      candidates of `RandomBot`: a valid play that fills no eye of the
      mover. */
  lemma AlphaBetaPlaysCandidate(s: GameState, evalFn: Evaluator, shuffle: seq<Move> -> seq<Move>, depth: nat)
    requires s.lastMove.Some? ==> s.previousState.Some?
    requires Permutes(shuffle)
    ensures var n := NodeOf(s, evalFn, shuffle);
      !n.over && depth > 0 ==>
        match Search(n, depth, s.nextPlayer == Black, NegInf, PosInf, true)
        case Choice(m) => (m.None? <==> RandomCandidates(s) == []) && (m.Some? ==> m.value in RandomCandidates(s))
        case Value(_) => false
  {
    var n := NodeOf(s, evalFn, shuffle);
    if !n.over && depth > 0 {
      RootPlaysFirstCandidate(n, depth, s.nextPlayer == Black);
      SearchCandidates(s, evalFn, shuffle);
      if Candidates(n) != [] {
        assert Candidates(n)[0] in Candidates(n);
      }
      if RandomCandidates(s) != [] {
        assert RandomCandidates(s)[0] in RandomCandidates(s);
      }
    }
  }
}
