/** The agents' helpers (dlgo/agents/helpers.py): the eye test, the two
    evaluation functions and depth-bounded alpha-beta search. */
module Helpers {
  import opened GoTypes
  import opened GoStrings
  import opened GoBoard
  import opened Scoring
  import opened GoGame

  // ---------------------------------------------------------------------
  // is_point_an_eye

  /** The four diagonal neighbours, in the order the source lists them. */
  function Corners(p: Point): seq<Point> {
    [Point(p.row - 1, p.col - 1), Point(p.row - 1, p.col + 1),
     Point(p.row + 1, p.col - 1), Point(p.row + 1, p.col + 1)]
  }

  /** How many of `ps` are on the grid and hold a stone of colour `c`. */
  function Friendly(rows: nat, cols: nat, g: Grid, c: Player, ps: seq<Point>): nat {
    if ps == [] then 0
    else
      var p := ps[|ps| - 1];
      Friendly(rows, cols, g, c, ps[..|ps| - 1]) + (if OnGrid(rows, cols, p) && Content(g, p) == Some(c) then 1 else 0)
  }

  /** How many of `ps` are off the grid. */
  function OffGrid(rows: nat, cols: nat, ps: seq<Point>): nat {
    if ps == [] then 0
    else OffGrid(rows, cols, ps[..|ps| - 1]) + (if OnGrid(rows, cols, ps[|ps| - 1]) then 0 else 1)
  }

  /** `p` is an eye of colour `c`: it is empty, every on-grid orthogonal
      neighbour holds a stone of colour `c`, and the diagonals are friendly
      enough: all on-grid ones when some diagonal is off the grid (an edge
      or corner point), at least three of four otherwise. */
  ghost predicate Eye(rows: nat, cols: nat, g: Grid, p: Point, c: Player) {
    var corners := Corners(p);
    && p !in g
    && (forall k :: 0 <= k < 4 && OnGrid(rows, cols, p.Neighbors()[k]) ==> Content(g, p.Neighbors()[k]) == Some(c))
    && (if exists k :: 0 <= k < 4 && !OnGrid(rows, cols, corners[k])
        then forall k :: 0 <= k < 4 && OnGrid(rows, cols, corners[k]) ==> Content(g, corners[k]) == Some(c)
        else Friendly(rows, cols, g, c, corners) >= 3)
  }

  /** Counting friendly and off-grid points: together they make up all of
      `ps` exactly when every on-grid point of `ps` is friendly, and there
      is an off-grid point exactly when that count is positive. */
  lemma {:induction false} CountsMeaning(rows: nat, cols: nat, g: Grid, c: Player, ps: seq<Point>)
    ensures Friendly(rows, cols, g, c, ps) + OffGrid(rows, cols, ps) <= |ps|
    ensures Friendly(rows, cols, g, c, ps) + OffGrid(rows, cols, ps) == |ps| <==>
            forall k :: 0 <= k < |ps| && OnGrid(rows, cols, ps[k]) ==> Content(g, ps[k]) == Some(c)
    ensures OffGrid(rows, cols, ps) > 0 <==> exists k :: 0 <= k < |ps| && !OnGrid(rows, cols, ps[k])
  {
    if ps != [] {
      var init := ps[..|ps| - 1];
      CountsMeaning(rows, cols, g, c, init);
      assert forall k :: 0 <= k < |init| ==> init[k] == ps[k];
      if OffGrid(rows, cols, ps) > 0 && OffGrid(rows, cols, init) > 0 {
        var k :| 0 <= k < |init| && !OnGrid(rows, cols, init[k]);
        assert !OnGrid(rows, cols, ps[k]);
      }
    }
  }

  lemma FriendlyStep(rows: nat, cols: nat, g: Grid, c: Player, ps: seq<Point>, i: nat)
    requires i < |ps|
    ensures Friendly(rows, cols, g, c, ps[..i + 1]) ==
      Friendly(rows, cols, g, c, ps[..i]) + (if OnGrid(rows, cols, ps[i]) && Content(g, ps[i]) == Some(c) then 1 else 0)
    ensures OffGrid(rows, cols, ps[..i + 1]) == OffGrid(rows, cols, ps[..i]) + (if OnGrid(rows, cols, ps[i]) then 0 else 1)
  {
    assert ps[..i + 1][..i] == ps[..i];
  }

  /** `is_point_an_eye(board, point, color)`. */
  method IsPointAnEye(board: Board, point: Point, color: Player) returns (eye: bool)
    ensures eye == Eye(board.numRows, board.numCols, board.grid, point, color)
  {
    ghost var rows, cols, g := board.numRows, board.numCols, board.grid;
    if board.Get(point).Some? {
      return false;
    }
    // All adjacent points must contain friendly stones.
    var neighbors := point.Neighbors();
    for i := 0 to 4
      invariant forall k :: 0 <= k < i && OnGrid(rows, cols, neighbors[k]) ==> Content(g, neighbors[k]) == Some(color)
    {
      if board.IsOnGrid(neighbors[i]) {
        var neighborColor := board.Get(neighbors[i]);
        if neighborColor != Some(color) {
          return false;
        }
      }
    }
    var friendlyCorners, offBoardCorners := 0, 0;
    var corners := Corners(point);
    for i := 0 to 4
      invariant friendlyCorners == Friendly(rows, cols, g, color, corners[..i])
      invariant offBoardCorners == OffGrid(rows, cols, corners[..i])
    {
      FriendlyStep(rows, cols, g, color, corners, i);
      if board.IsOnGrid(corners[i]) {
        var cornerColor := board.Get(corners[i]);
        if cornerColor == Some(color) {
          friendlyCorners := friendlyCorners + 1;
        }
      } else {
        offBoardCorners := offBoardCorners + 1;
      }
    }
    assert corners[..4] == corners;
    CountsMeaning(rows, cols, g, color, corners);
    if offBoardCorners > 0 {
      return offBoardCorners + friendlyCorners == 4;
    }
    return friendlyCorners >= 3;
  }

  // ---------------------------------------------------------------------
  // capture_diff

  /** How many of the points `ps` hold a stone of colour `c`. */
  function CountColour(g: Grid, ps: seq<Point>, c: Player): nat {
    if ps == [] then 0
    else CountColour(g, ps[..|ps| - 1], c) + (if Content(g, ps[|ps| - 1]) == Some(c) then 1 else 0)
  }

  /** The stones of colour `c` on the grid. */
  function StonesOf(g: Grid, c: Player): set<Point> {
    set p | p in g && g[p].color == c
  }

  lemma CountColourSnoc(g: Grid, ps: seq<Point>, p: Point, c: Player)
    ensures CountColour(g, ps + [p], c) == CountColour(g, ps, c) + (if Content(g, p) == Some(c) then 1 else 0)
  {
    assert (ps + [p])[..|ps|] == ps;
  }

  lemma {:induction false} CountColourConcat(g: Grid, a: seq<Point>, b: seq<Point>, c: Player)
    ensures CountColour(g, a + b, c) == CountColour(g, a, c) + CountColour(g, b, c)
    decreases |b|
  {
    if b == [] {
      assert a + b == a;
    } else {
      var init, last := b[..|b| - 1], b[|b| - 1];
      assert a + b == (a + init) + [last];
      assert b == init + [last];
      CountColourConcat(g, a, init, c);
      CountColourSnoc(g, a + init, last, c);
      CountColourSnoc(g, init, last, c);
    }
  }

  /** Over a sequence without repetitions the count is the number of
      distinct points of that colour. */
  lemma {:induction false} CountColourCard(g: Grid, ps: seq<Point>, c: Player)
    requires Distinct(ps)
    ensures CountColour(g, ps, c) == |set p | p in ps && p in g && g[p].color == c|
  {
    if ps != [] {
      var init, last := ps[..|ps| - 1], ps[|ps| - 1];
      assert ps == init + [last];
      assert Distinct(init) && last !in init;
      CountColourCard(g, init, c);
      ColouredSnoc(g, init, last, c);
    }
  }

  /** Appending a new point adds it to the coloured points exactly when it
      holds a stone of that colour. */
  lemma ColouredSnoc(g: Grid, ps: seq<Point>, p: Point, c: Player)
    requires p !in ps
    ensures |set q | q in ps + [p] && q in g && g[q].color == c|
         == |set q | q in ps && q in g && g[q].color == c| + (if Content(g, p) == Some(c) then 1 else 0)
  {
    var before := set q | q in ps && q in g && g[q].color == c;
    var after := set q | q in ps + [p] && q in g && g[q].color == c;
    if p in g && g[p].color == c {
      assert after == before + {p};
    } else {
      assert after == before;
    }
  }

  /** Counting over all on-grid points finds every stone of the colour. */
  lemma CountAllStones(rows: nat, cols: nat, g: Grid, c: Player)
    requires OnBoard(rows, cols, g)
    ensures CountColour(g, RowMajor(rows, cols), c) == |StonesOf(g, c)|
  {
    RowMajorFacts(rows, cols);
    CountColourCard(g, RowMajor(rows, cols), c);
    assert (set p | p in RowMajor(rows, cols) && p in g && g[p].color == c) == StonesOf(g, c);
  }

  /** `capture_diff`: Black's stones minus White's, from the point of view
      of the player to move. */
  method CaptureDiff(s: GameState) returns (diff: int)
    ensures var b, w := CountColour(s.board.grid, RowMajor(s.board.numRows, s.board.numCols), Black),
                        CountColour(s.board.grid, RowMajor(s.board.numRows, s.board.numCols), White);
      diff == if s.nextPlayer == Black then b - w else w - b
    ensures OnBoard(s.board.numRows, s.board.numCols, s.board.grid) ==>
      var b, w := |StonesOf(s.board.grid, Black)|, |StonesOf(s.board.grid, White)|;
      diff == if s.nextPlayer == Black then b - w else w - b
  {
    var board := s.board;
    ghost var g := board.grid;
    var blackStones, whiteStones := 0, 0;
    var row := 1;
    while row <= board.numRows
      invariant 1 <= row <= board.numRows + 1
      invariant blackStones == CountColour(g, RowMajor(row - 1, board.numCols), Black)
      invariant whiteStones == CountColour(g, RowMajor(row - 1, board.numCols), White)
    {
      var col := 1;
      assert RowMajor(row - 1, board.numCols) + Row(row, 0) == RowMajor(row - 1, board.numCols);
      while col <= board.numCols
        invariant 1 <= col <= board.numCols + 1
        invariant blackStones == CountColour(g, RowMajor(row - 1, board.numCols) + Row(row, col - 1), Black)
        invariant whiteStones == CountColour(g, RowMajor(row - 1, board.numCols) + Row(row, col - 1), White)
      {
        var point := Point(row, col);
        CountNext(g, RowMajor(row - 1, board.numCols), row, col);
        var color := board.Get(point);
        if color == Some(Black) {
          blackStones := blackStones + 1;
        } else if color == Some(White) {
          whiteStones := whiteStones + 1;
        }
        col := col + 1;
      }
      assert RowMajor(row, board.numCols) == RowMajor(row - 1, board.numCols) + Row(row, board.numCols);
      row := row + 1;
    }
    assert row - 1 == board.numRows;
    if OnBoard(board.numRows, board.numCols, g) {
      CountAllStones(board.numRows, board.numCols, g, Black);
      CountAllStones(board.numRows, board.numCols, g, White);
    }
    var d := blackStones - whiteStones;
    if s.nextPlayer == Black {
      return d;
    }
    return -d;
  }

  lemma CountNext(g: Grid, done: seq<Point>, row: nat, col: nat)
    requires col >= 1
    ensures forall c ::
      CountColour(g, done + Row(row, col), c) ==
      CountColour(g, done + Row(row, col - 1), c) + (if Content(g, Point(row, col)) == Some(c) then 1 else 0)
  {
    assert done + Row(row, col) == (done + Row(row, col - 1)) + [Point(row, col)];
    forall c ensures CountColour(g, done + Row(row, col), c) ==
      CountColour(g, done + Row(row, col - 1), c) + (if Content(g, Point(row, col)) == Some(c) then 1 else 0)
    {
      CountColourSnoc(g, done + Row(row, col - 1), Point(row, col), c);
    }
  }

  // ---------------------------------------------------------------------
  // current_score

  /** `current_score`: the winning margin, positive when Black wins and
      negative otherwise; that is Black's area total minus White's total
      with komi. */
  method CurrentScore(s: GameState) returns (score: real)
    ensures var r := AreaResult(s.board.numRows, s.board.numCols, s.board.grid);
      score == r.b as real - (r.w as real + 7.5)
  {
    var gameResult := ComputeGameResult(s.board);
    SignedMargin(gameResult);
    if gameResult.Winner() == Black {
      return gameResult.WinningMargin();
    }
    return -gameResult.WinningMargin();
  }

  // ---------------------------------------------------------------------
  // alpha_beta

  /** Scores extended with the `-np.inf` and `np.inf` the search uses. */
  datatype Ext = NegInf | Fin(v: real) | PosInf

  /** `a <= b` on extended scores. */
  predicate AtMost(a: Ext, b: Ext) {
    a == NegInf || b == PosInf || (a.Fin? && b.Fin? && a.v <= b.v)
  }

  /** `a < b` on extended scores. */
  predicate Below(a: Ext, b: Ext) {
    !AtMost(b, a)
  }

  function Max(a: Ext, b: Ext): (m: Ext)
    ensures AtMost(a, m) && AtMost(b, m) && (m == a || m == b)
  {
    if AtMost(a, b) then b else a
  }

  function Min(a: Ext, b: Ext): (m: Ext)
    ensures AtMost(m, a) && AtMost(m, b) && (m == a || m == b)
  {
    if AtMost(a, b) then a else b
  }

  /** The two evaluation functions the agents pass as `eval_fn`. */
  datatype Evaluator = CaptureDiffEval | CurrentScoreEval

  /** `alpha_beta` returns a score, or with `return_move` the best move
      found (`None` when none improved on the initial bound). */
  datatype SearchResult = Value(value: Ext) | Choice(move: Option<Move>)

  /** Everything one call of `alpha_beta` looks at in its state: whether
      the game is over and who wins it on area, the static evaluation, the
      shuffled legal moves and the points that are eyes of the player to
      move. The successor `apply_move` builds is discarded in the source,
      so every recursive call looks at this same node. */
  datatype Node = Node(over: bool, blackWins: bool, score: real, moves: seq<Move>, eyes: set<Point>)

  /** A move the search loop skips: a pass, a resignation or a play into
      one of the mover's own eyes. */
  predicate Skipped(n: Node, m: Move) {
    m.isPass || m.isResign || (m.point.Some? && m.point.value in n.eyes)
  }

  /** The moves from index `i` on that the search loop examines. */
  function CandidatesFrom(n: Node, i: nat): seq<Move>
    decreases |n.moves| - i
  {
    if i >= |n.moves| then []
    else (if Skipped(n, n.moves[i]) then [] else [n.moves[i]]) + CandidatesFrom(n, i + 1)
  }

  function Candidates(n: Node): seq<Move> {
    CandidatesFrom(n, 0)
  }

  /** The score of a finished game: Black wins are `+inf`, White wins `-inf`. */
  function Terminal(n: Node): Ext {
    if n.blackWins then PosInf else NegInf
  }

  /** The loop state of `alpha_beta`: the bounds, the best score so far
      and the best move so far. */
  datatype Window = Window(alpha: Ext, beta: Ext, best: Ext, bestMove: Option<Move>)

  /** The loop's initial state: the best score starts at the bound the
      maximizer (or minimizer) can only improve on. */
  function Start(maximizing: bool, alpha: Ext, beta: Ext): Window {
    Window(alpha, beta, if maximizing then NegInf else PosInf, None)
  }

  /** One examined move `m` whose child search scored `e`: a strictly
      better score records the move (when moves are wanted), and the best
      score and the bound on the mover's side move towards `e`. */
  function Update(maximizing: bool, returnMove: bool, w: Window, m: Move, e: Ext): Window {
    if maximizing then
      Window(Max(w.alpha, e), w.beta, Max(w.best, e), if Below(w.best, e) && returnMove then Some(m) else w.bestMove)
    else
      Window(w.alpha, Min(w.beta, e), Min(w.best, e), if Below(e, w.best) && returnMove then Some(m) else w.bestMove)
  }

  /** The loop stops once the window has closed. */
  predicate Cutoff(w: Window) {
    AtMost(w.beta, w.alpha)
  }

  /** What `alpha_beta(game_state, depth, eval_fn, maximizing, alpha,
      beta, return_move)` returns for a state whose node is `n`. */
  function Search(n: Node, depth: nat, maximizing: bool, alpha: Ext, beta: Ext, returnMove: bool): (r: SearchResult)
    ensures !returnMove ==> r.Value?
    ensures n.over ==> r == Value(Terminal(n))
    ensures !n.over && depth == 0 ==> r == Value(Fin(n.score))
    decreases depth, 1
  {
    if n.over then Value(Terminal(n))
    else if depth == 0 then Value(Fin(n.score))
    else
      var w := Scan(n, depth, maximizing, 0, Start(maximizing, alpha, beta), returnMove);
      if returnMove then Choice(w.bestMove) else Value(w.best)
  }

  /** The loop over the moves from index `i` on, from loop state `w`. */
  function Scan(n: Node, depth: nat, maximizing: bool, i: nat, w: Window, returnMove: bool): Window
    requires depth > 0 && i <= |n.moves|
    decreases depth, 0, |n.moves| - i
  {
    if i == |n.moves| then w
    else if Skipped(n, n.moves[i]) then Scan(n, depth, maximizing, i + 1, w, returnMove)
    else
      var e := Search(n, depth - 1, !maximizing, w.alpha, w.beta, false).value;
      var w' := Update(maximizing, returnMove, w, n.moves[i], e);
      if Cutoff(w') then w' else Scan(n, depth, maximizing, i + 1, w', returnMove)
  }

  /** The loop moves past a skipped move without changing its state. */
  lemma ScanSkips(n: Node, depth: nat, maximizing: bool, i: nat, w: Window, returnMove: bool)
    requires depth > 0 && i < |n.moves| && Skipped(n, n.moves[i])
    ensures Scan(n, depth, maximizing, i, w, returnMove) == Scan(n, depth, maximizing, i + 1, w, returnMove)
  {
  }

  /** An examined move updates the loop state with its child's score and
      stops the loop when the window closes. */
  lemma ScanExamines(n: Node, depth: nat, maximizing: bool, i: nat, w: Window, returnMove: bool, e: Ext)
    requires depth > 0 && i < |n.moves| && !Skipped(n, n.moves[i])
    requires e == Search(n, depth - 1, !maximizing, w.alpha, w.beta, false).value
    ensures var w' := Update(maximizing, returnMove, w, n.moves[i], e);
      Scan(n, depth, maximizing, i, w, returnMove) ==
      if Cutoff(w') then w' else Scan(n, depth, maximizing, i + 1, w', returnMove)
  {
  }

  /** The static evaluation `eval_fn(game_state)`. */
  ghost function Evaluation(s: GameState, evalFn: Evaluator): real
    reads s.board
  {
    var g, rows, cols := s.board.grid, s.board.numRows, s.board.numCols;
    match evalFn
    case CaptureDiffEval =>
      var b, w := CountColour(g, RowMajor(rows, cols), Black), CountColour(g, RowMajor(rows, cols), White);
      (if s.nextPlayer == Black then b - w else w - b) as real
    case CurrentScoreEval =>
      var r := AreaResult(rows, cols, g);
      r.b as real - (r.w as real + 7.5)
  }

  /** The node of state `s`. */
  ghost function NodeOf(s: GameState, evalFn: Evaluator, shuffle: seq<Move> -> seq<Move>): Node
    reads s.board
    requires s.lastMove.Some? ==> s.previousState.Some?
  {
    var rows, cols, g := s.board.numRows, s.board.numCols, s.board.grid;
    Node(s.IsOver(),
         AreaResult(rows, cols, g).Winner() == Black,
         Evaluation(s, evalFn),
         shuffle([PassTurn(), Resign()] + Plays(Allowed(s.Snapshot()), RowMajor(rows, cols))),
         set p | p in Cells(rows, cols) && Eye(rows, cols, g, p, s.nextPlayer))
  }

  /** A shuffle only reorders. */
  ghost predicate Permutes(shuffle: seq<Move> -> seq<Move>) {
    forall ms :: multiset(shuffle(ms)) == multiset(ms)
  }

  /** A move of the node that is neither a pass nor a resignation is a play
      on the grid. */
  lemma NodeMove(s: GameState, shuffle: seq<Move> -> seq<Move>, moves: seq<Move>, m: Move)
    requires s.lastMove.Some? ==> s.previousState.Some?
    requires Permutes(shuffle) && moves == shuffle(LegalMovesOf(s))
    requires m in moves && !m.isPass && !m.isResign
    ensures m.IsPlay() && OnGrid(s.board.numRows, s.board.numCols, m.point.value)
  {
    assert m in multiset(moves);
    LegalPlayOnGrid(s.Snapshot(), m);
  }

  /** Such a move is skipped exactly when it fills an eye of the player to
      move. */
  lemma NodeEye(s: GameState, evalFn: Evaluator, shuffle: seq<Move> -> seq<Move>, n: Node, m: Move, eye: bool)
    requires s.lastMove.Some? ==> s.previousState.Some?
    requires n == NodeOf(s, evalFn, shuffle)
    requires m.IsPlay() && OnGrid(s.board.numRows, s.board.numCols, m.point.value) && !m.isPass && !m.isResign
    requires eye == Eye(s.board.numRows, s.board.numCols, s.board.grid, m.point.value, s.nextPlayer)
    ensures Skipped(n, m) <==> eye
  {
    CellsMembers(s.board.numRows, s.board.numCols);
  }

  /** The test at the head of the search loop: passes, resignations and
      plays into the mover's own eyes are not searched. */
  method SkipsMove(s: GameState, move: Move, ghost evalFn: Evaluator, ghost shuffle: seq<Move> -> seq<Move>,
                   ghost n: Node) returns (skip: bool)
    requires s.lastMove.Some? ==> s.previousState.Some?
    requires Permutes(shuffle) && n == NodeOf(s, evalFn, shuffle) && move in n.moves
    ensures skip == Skipped(n, move)
  {
    if move.isPass || move.isResign {
      return true;
    }
    NodeMove(s, shuffle, n.moves, move);
    skip := IsPointAnEye(s.board, move.point.value, s.nextPlayer);
    NodeEye(s, evalFn, shuffle, n, move, skip);
  }

  /** `alpha_beta`. The shuffle of the legal moves is the parameter
      `shuffle`, any permutation; the copy of the state and the successor
      the source builds for each examined move are not used by the search,
      so the model does not build them. */
  method AlphaBeta(s: GameState, depth: nat, evalFn: Evaluator, maximizing: bool, alpha: Ext, beta: Ext,
                   returnMove: bool, shuffle: seq<Move> -> seq<Move>, ghost n: Node) returns (r: SearchResult)
    requires s.board.Valid() && (s.lastMove.Some? ==> s.previousState.Some?)
    requires Permutes(shuffle) && n == NodeOf(s, evalFn, shuffle)
    ensures r == Search(n, depth, maximizing, alpha, beta, returnMove)
    decreases depth, 1
  {
    if s.IsOver() {
      var gameResult := ComputeGameResult(s.board);
      r := if gameResult.Winner() == Black then Value(PosInf) else Value(NegInf);
      assert n.over;
      assert r == Value(Terminal(n));
      assert r == Search(n, depth, maximizing, alpha, beta, returnMove);
    } else if depth == 0 {
      var score: real;
      if evalFn == CaptureDiffEval {
        var diff := CaptureDiff(s);
        score := diff as real;
      } else {
        score := CurrentScore(s);
      }
      r := Value(Fin(score));
      assert !n.over && n.score == score;
      assert r == Search(n, depth, maximizing, alpha, beta, returnMove);
    } else {
      var best, bestMove := SearchMoves(s, depth, evalFn, maximizing, alpha, beta, returnMove, shuffle, n);
      r := if returnMove then Choice(bestMove) else Value(best);
      assert !n.over;
      assert r == Search(n, depth, maximizing, alpha, beta, returnMove);
    }
  }

  /** The two `for move in moves` loops of `alpha_beta`, with what follows
      them up to the `return`. */
  method SearchMoves(s: GameState, depth: nat, evalFn: Evaluator, maximizing: bool, alpha: Ext, beta: Ext,
                     returnMove: bool, shuffle: seq<Move> -> seq<Move>, ghost n: Node)
    returns (best: Ext, bestMove: Option<Move>)
    requires s.board.Valid() && (s.lastMove.Some? ==> s.previousState.Some?)
    requires Permutes(shuffle) && n == NodeOf(s, evalFn, shuffle) && depth > 0
    ensures var w := Scan(n, depth, maximizing, 0, Start(maximizing, alpha, beta), returnMove);
      best == w.best && bestMove == w.bestMove
    decreases depth, 0
  {
    best := if maximizing then NegInf else PosInf;
    bestMove := None;
    var legal := s.LegalMoves();
    var moves := shuffle(legal);
    ghost var total := Scan(n, depth, maximizing, 0, Start(maximizing, alpha, beta), returnMove);
    var a, b := alpha, beta;
    var i := 0;
    while i < |moves|
      invariant i <= |moves| && moves == n.moves
      invariant NodeOf(s, evalFn, shuffle) == n
      invariant Scan(n, depth, maximizing, i, Window(a, b, best, bestMove), returnMove) == total
    {
      var move := moves[i];
      var skip := SkipsMove(s, move, evalFn, shuffle, n);
      if skip {
        ScanSkips(n, depth, maximizing, i, Window(a, b, best, bestMove), returnMove);
        i := i + 1;
        continue;
      }
      var child := AlphaBeta(s, depth - 1, evalFn, !maximizing, a, b, false, shuffle, n);
      var e := child.value;
      ScanExamines(n, depth, maximizing, i, Window(a, b, best, bestMove), returnMove, e);
      if maximizing {
        if Below(best, e) && returnMove {
          bestMove := Some(move);
        }
        best := Max(best, e);
        a := Max(a, e);
        if AtMost(b, a) {
          break;
        }
      } else {
        if Below(e, best) && returnMove {
          bestMove := Some(move);
        }
        best := Min(best, e);
        b := Min(b, e);
        if AtMost(b, a) {
          break;
        }
      }
      i := i + 1;
    }
  }

  // ---------------------------------------------------------------------
  // What the search computes

  /** The minimax value of the tree `alpha_beta` explores from node `n`:
      a finished game scores its area winner, depth 0 scores the static
      evaluation, a node without candidate moves scores the worst bound for
      the side to move, and otherwise the best child value for the side to
      move, where every child is `n` itself one level shallower with the
      other side to move (the successor state is discarded), so that best
      value is the value of that one child. */
  function Minimax(n: Node, depth: nat, maximizing: bool): Ext
    decreases depth
  {
    if n.over then Terminal(n)
    else if depth == 0 then Fin(n.score)
    else if Candidates(n) == [] then (if maximizing then NegInf else PosInf)
    else Minimax(n, depth - 1, !maximizing)
  }

  /** Because every child is the node itself, the minimax value of an
      unfinished game with a candidate move is its static evaluation,
      whatever the depth: the search never looks past the current state. */
  lemma {:induction false} MinimaxIsStatic(n: Node, depth: nat, maximizing: bool)
    requires !n.over && (depth == 0 || Candidates(n) != [])
    ensures Minimax(n, depth, maximizing) == Fin(n.score)
  {
    if depth > 0 {
      MinimaxIsStatic(n, depth - 1, !maximizing);
    }
  }

  lemma CandidatesFromFacts(n: Node, i: nat)
    requires i < |n.moves|
    ensures Skipped(n, n.moves[i]) ==> CandidatesFrom(n, i) == CandidatesFrom(n, i + 1)
    ensures !Skipped(n, n.moves[i]) ==> CandidatesFrom(n, i) == [n.moves[i]] + CandidatesFrom(n, i + 1)
  {
  }

  /** Alpha-beta agrees with minimax inside the window and fails soft
      outside it: a value inside `(alpha, beta)` is returned exactly, a
      value at or below `alpha` yields a result at or below `alpha`, and a
      value at or above `beta` a result at or above `beta`. */
  lemma {:induction false} AlphaBetaWindow(n: Node, depth: nat, maximizing: bool, alpha: Ext, beta: Ext)
    requires Below(alpha, beta)
    ensures var v, m := Search(n, depth, maximizing, alpha, beta, false).value, Minimax(n, depth, maximizing);
      && (Below(alpha, m) && Below(m, beta) ==> v == m)
      && (AtMost(m, alpha) ==> AtMost(v, alpha))
      && (AtMost(beta, m) ==> AtMost(beta, v))
    decreases depth, 1
  {
    if !n.over && depth > 0 {
      var w := Start(maximizing, alpha, beta);
      ScanWindow(n, depth, maximizing, 0, w, false);
    }
  }

  /** The loop of one search call, from index `i` and loop state `w`,
      against the value `c` of the (single) child. */
  lemma {:induction false} ScanWindow(n: Node, depth: nat, maximizing: bool, i: nat, w: Window, returnMove: bool)
    requires depth > 0 && i <= |n.moves| && !n.over && Below(w.alpha, w.beta)
    ensures var v, c, cands := Scan(n, depth, maximizing, i, w, returnMove).best,
                               Minimax(n, depth - 1, !maximizing), CandidatesFrom(n, i);
      && (cands == [] ==> v == w.best)
      && (maximizing ==>
          && AtMost(w.best, v)
          && (cands != [] && Below(w.alpha, c) && Below(c, w.beta) ==> v == Max(w.best, c))
          && (AtMost(c, w.alpha) ==> AtMost(v, Max(w.best, w.alpha)))
          && (cands != [] && AtMost(w.beta, c) ==> AtMost(w.beta, v)))
      && (!maximizing ==>
          && AtMost(v, w.best)
          && (cands != [] && Below(w.alpha, c) && Below(c, w.beta) ==> v == Min(w.best, c))
          && (AtMost(w.beta, c) ==> AtMost(Min(w.best, w.beta), v))
          && (cands != [] && AtMost(c, w.alpha) ==> AtMost(v, w.alpha)))
    decreases depth, 0, |n.moves| - i
  {
    if i < |n.moves| {
      CandidatesFromFacts(n, i);
      if Skipped(n, n.moves[i]) {
        ScanWindow(n, depth, maximizing, i + 1, w, returnMove);
      } else {
        AlphaBetaWindow(n, depth - 1, !maximizing, w.alpha, w.beta);
        var e := Search(n, depth - 1, !maximizing, w.alpha, w.beta, false).value;
        var w' := Update(maximizing, returnMove, w, n.moves[i], e);
        if !Cutoff(w') {
          ScanWindow(n, depth, maximizing, i + 1, w', returnMove);
        }
      }
    }
  }

  /** With the initial window `(-inf, +inf)` the search returns the
      minimax value exactly. */
  lemma FullWindow(n: Node, depth: nat, maximizing: bool)
    ensures Search(n, depth, maximizing, NegInf, PosInf, false).value == Minimax(n, depth, maximizing)
  {
    AlphaBetaWindow(n, depth, maximizing, NegInf, PosInf);
  }

  /** Once the bound on the mover's side has reached both the child's
      value and the best score, no later move is recorded. */
  lemma {:induction false} ScanKeepsMove(n: Node, depth: nat, maximizing: bool, i: nat, w: Window, returnMove: bool)
    requires depth > 0 && i <= |n.moves| && !n.over && Below(w.alpha, w.beta)
    requires maximizing ==> AtMost(Minimax(n, depth - 1, false), w.alpha) && AtMost(w.alpha, w.best)
    requires !maximizing ==> AtMost(w.beta, Minimax(n, depth - 1, true)) && AtMost(w.best, w.beta)
    ensures Scan(n, depth, maximizing, i, w, returnMove).bestMove == w.bestMove
    decreases |n.moves| - i
  {
    if i < |n.moves| {
      if Skipped(n, n.moves[i]) {
        ScanKeepsMove(n, depth, maximizing, i + 1, w, returnMove);
      } else {
        AlphaBetaWindow(n, depth - 1, !maximizing, w.alpha, w.beta);
        var e := Search(n, depth - 1, !maximizing, w.alpha, w.beta, false).value;
        var w' := Update(maximizing, returnMove, w, n.moves[i], e);
        assert w'.alpha == w.alpha && w'.beta == w.beta && w'.best == w.best && w'.bestMove == w.bestMove;
        ScanKeepsMove(n, depth, maximizing, i + 1, w', returnMove);
      }
    }
  }

  /** From the initial loop state of a root search, the move recorded is
      the first candidate, unless the child's value is the mover's worst
      bound (no candidate is then strictly better than the initial score). */
  lemma {:induction false} ScanFirstChoice(n: Node, depth: nat, maximizing: bool, i: nat)
    requires depth > 0 && i <= |n.moves| && !n.over
    ensures var worst := if maximizing then NegInf else PosInf;
      var cands := CandidatesFrom(n, i);
      Scan(n, depth, maximizing, i, Start(maximizing, NegInf, PosInf), true).bestMove ==
      if cands != [] && Minimax(n, depth - 1, !maximizing) != worst then Some(cands[0]) else None
    decreases |n.moves| - i
  {
    var w := Start(maximizing, NegInf, PosInf);
    if i < |n.moves| {
      CandidatesFromFacts(n, i);
      if Skipped(n, n.moves[i]) {
        ScanFirstChoice(n, depth, maximizing, i + 1);
      } else {
        FullWindow(n, depth - 1, !maximizing);
        var c := Minimax(n, depth - 1, !maximizing);
        var w' := Update(maximizing, true, w, n.moves[i], c);
        if c == w.best {
          assert w' == w;
          ScanFirstChoice(n, depth, maximizing, i + 1);
        } else if !Cutoff(w') {
          ScanKeepsMove(n, depth, maximizing, i + 1, w', true);
        }
      }
    }
  }

  /** The move a root search (`return_move=True`, initial window) returns. */
  lemma RootChoice(n: Node, depth: nat, maximizing: bool)
    requires !n.over && depth > 0
    ensures var worst := if maximizing then NegInf else PosInf;
      Search(n, depth, maximizing, NegInf, PosInf, true) ==
      Choice(if Candidates(n) != [] && Minimax(n, depth - 1, !maximizing) != worst then Some(Candidates(n)[0]) else None)
  {
    ScanFirstChoice(n, depth, maximizing, 0);
  }

  /** Consequently a root search of an unfinished game returns the first
      candidate move of the shuffled list, and `None` only when there is no
      candidate. */
  lemma RootPlaysFirstCandidate(n: Node, depth: nat, maximizing: bool)
    requires !n.over && depth > 0
    ensures Search(n, depth, maximizing, NegInf, PosInf, true) ==
      Choice(if Candidates(n) != [] then Some(Candidates(n)[0]) else None)
  {
    RootChoice(n, depth, maximizing);
    if Candidates(n) != [] {
      MinimaxIsStatic(n, depth - 1, !maximizing);
    }
  }
}
