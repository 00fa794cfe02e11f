/** The game record (dlgo/goboard.py, class `GameState`): a board, the
    player to move, the previous state, the set of situations seen before
    and the last move. States are immutable values; a play works on a fresh
    copy of the board, a pass or a resignation shares the board. */
module GoGame {
  import opened GoTypes
  import opened GoStrings
  import opened Zobrist
  import opened Placement
  import opened GoBoard
  import opened Scoring

  /** `new_game` takes either one number (a square board) or a pair. */
  datatype BoardSize = Square(size: nat) | Rect(rows: nat, cols: nat)

  datatype GameState = GameState(
    board: Board,
    nextPlayer: Player,
    previousState: Option<GameState>,
    /** `previous_states`: pairs of player to move and board hash. */
    previousStates: set<(Player, nat)>,
    lastMove: Option<Move>)
  {
    /** The boards of the strict ancestors of this state. */
    function Ancestry(): set<Board>
      decreases this
    {
      match previousState
      case None => {}
      case Some(p) => {p.board} + p.Ancestry()
    }

    lemma {:induction false} AncestryAllocated()
      ensures forall b :: b in Ancestry() ==> allocated(b)
      decreases this
    {
      if previousState.Some? {
        previousState.value.AncestryAllocated();
      }
    }

    /** `a` is reached by following `previous_state` one or more times. */
    ghost predicate StrictAncestor(a: GameState)
      decreases this
    {
      match previousState
      case None => false
      case Some(p) => p == a || p.StrictAncestor(a)
    }

    /** The situations (player to move, hash of the board) of the strict
        ancestors, read from their boards. */
    ghost function Situations(): set<(Player, nat)>
      reads Ancestry()
      decreases this
    {
      match previousState
      case None => {}
      case Some(p) => p.Situations() + {(p.nextPlayer, p.board.hash)}
    }

    /** The board is consistent, a state has a last move exactly when it
        has a previous state, and `previous_states` records the situations
        of all strict ancestors. */
    ghost predicate Valid()
      reads {board} + Ancestry()
    {
      && board.Valid()
      && (lastMove.Some? <==> previousState.Some?)
      && previousStates == Situations()
    }

    /** `is_over`: after a resignation, or after two passes in a row. The
        source reads the previous state's last move whenever there is a
        last move, so that previous state must exist. */
    predicate IsOver()
      requires lastMove.Some? ==> previousState.Some?
    {
      match lastMove
      case None => false
      case Some(m) =>
        if m.isResign then true
        else
          var second := previousState.value.lastMove;
          if second.None? then false else m.isPass && second.value.isPass
    }

    /** `GameState(next_board, self.next_player.other, self, move)`, the
        state `apply_move` returns. */
    function Successor(nextBoard: Board, move: Move): (s: GameState)
      reads board
      ensures s.nextPlayer == nextPlayer.Other() && s.previousState == Some(this)
      ensures s.lastMove == Some(move) && s.board == nextBoard
      ensures s.IsOver() <==> move.isResign || (move.isPass && lastMove.Some? && lastMove.value.isPass)
      ensures s.Ancestry() == {board} + Ancestry()
    {
      NewState(nextBoard, nextPlayer.Other(), Some(this), Some(move))
    }

    /** `apply_move`: a play places a stone for the player to move on a
        copy of the board; a pass or a resignation keeps the board. The
        source's `place_stone` asserts that the point is on the grid and
        empty. No existing board changes. */
    method ApplyMove(move: Move) returns (next: GameState)
      requires Valid()
      requires move.IsPlay() ==> board.IsOnGrid(move.point.value) && board.Get(move.point.value).None?
      ensures next.Valid()
      ensures next == Successor(next.board, move)
      ensures next.previousStates == previousStates + {(nextPlayer, board.hash)}
      ensures move.IsPlay() ==>
        && fresh(next.board)
        && next.board.numRows == board.numRows && next.board.numCols == board.numCols
        && next.board.table == board.table
        && next.board.grid == Placed(board.numRows, board.numCols, board.grid, nextPlayer, move.point.value)
      ensures !move.IsPlay() ==> next.board == board
    {
      ghost var seen := Situations();
      AncestryAllocated();
      var nextBoard := board;
      if move.IsPlay() {
        nextBoard := board.Copy();
        nextBoard.PlaceStone(nextPlayer, move.point.value);
      }
      assert Situations() == seen;
      next := Successor(nextBoard, move);
    }

    /** `is_move_self_capture`: a play whose own string is left without
        liberties once the stone is placed and captures are taken. */
    method IsMoveSelfCapture(player: Player, move: Move) returns (r: bool)
      requires board.Valid()
      requires move.IsPlay() ==> board.IsOnGrid(move.point.value) && board.Get(move.point.value).None?
      ensures r <==> move.IsPlay() && SelfCapture(board.numRows, board.numCols, board.grid, player, move.point.value)
    {
      if !move.IsPlay() {
        return false;
      }
      var point := move.point.value;
      var nextBoard := board.Copy();
      nextBoard.PlaceStone(player, point);
      var newString := nextBoard.GetGoString(point);
      r := newString.value.NumLiberties() == 0;
    }

    /** `does_move_violate_ko`: a play that would recreate the situation
        (opponent to move, same position hash) of an earlier state. */
    method DoesMoveViolateKo(player: Player, move: Move) returns (r: bool)
      requires board.Valid()
      requires move.IsPlay() ==> board.IsOnGrid(move.point.value) && board.Get(move.point.value).None?
      ensures r <==>
        move.IsPlay() && NextSituation(board.numRows, board.numCols, board.table, board.grid, player, move.point.value) in previousStates
    {
      if !move.IsPlay() {
        return false;
      }
      var nextBoard := board.Copy();
      nextBoard.PlaceStone(player, move.point.value);
      var nextSituation := (player.Other(), nextBoard.ZobristHash());
      r := nextSituation in previousStates;
    }

    /** What `is_valid_move` looks at. */
    function Snapshot(): Position
      reads board
      requires lastMove.Some? ==> previousState.Some?
    {
      Position(board.numRows, board.numCols, board.table, board.grid, nextPlayer, previousStates, IsOver())
    }

    /** What `is_valid_move` decides: nothing is valid once the game is
        over; a pass or a resignation is valid otherwise; a play must be on
        an empty point, must not be self-capture and must not violate ko. */
    ghost predicate ValidMove(move: Move)
      reads board
      requires lastMove.Some? ==> previousState.Some?
      requires NewMove(move.point, move.isPass, move.isResign).Some?
    {
      if move.isPass || move.isResign then !IsOver() else PlayAllowed(Snapshot(), move.point.value)
    }

    /** `is_valid_move`. The move is one `Move`'s constructor accepts, and
        a play asked about while the game goes on is on the grid: the
        source's self-capture test fails on an off-grid point. */
    method IsValidMove(move: Move) returns (ok: bool)
      requires board.Valid() && (lastMove.Some? ==> previousState.Some?)
      requires NewMove(move.point, move.isPass, move.isResign).Some?
      requires !IsOver() && !move.isPass && !move.isResign ==> board.IsOnGrid(move.point.value)
      ensures ok == ValidMove(move)
    {
      if IsOver() {
        return false;
      }
      if move.isPass || move.isResign {
        return true;
      }
      if board.Get(move.point.value).Some? {
        return false;
      }
      var selfCapture := IsMoveSelfCapture(nextPlayer, move);
      if selfCapture {
        return false;
      }
      var ko := DoesMoveViolateKo(nextPlayer, move);
      ok := !ko;
    }

    /** `legal_moves`: a pass and a resignation, always, followed by the
        valid plays in row-major order. */
    method LegalMoves() returns (moves: seq<Move>)
      requires board.Valid() && (lastMove.Some? ==> previousState.Some?)
      ensures moves == [PassTurn(), Resign()] + Plays(Allowed(Snapshot()), RowMajor(board.numRows, board.numCols))
    {
      ghost var allowed := Allowed(Snapshot());
      var rows, cols := board.numRows, board.numCols;
      moves := [PassTurn(), Resign()];
      var row := 1;
      while row <= rows
        invariant 1 <= row <= rows + 1
        invariant moves == [PassTurn(), Resign()] + Plays(allowed, RowMajor(row - 1, cols))
      {
        moves := AppendRow(allowed, row, moves);
        row := row + 1;
      }
      assert row - 1 == rows;
    }

    /** The inner loop of `legal_moves`: the valid plays of row `row`,
        column by column, after those of the rows before it. */
    method AppendRow(ghost allowed: set<Point>, row: nat, moves: seq<Move>) returns (moves': seq<Move>)
      requires board.Valid() && (lastMove.Some? ==> previousState.Some?)
      requires allowed == Allowed(Snapshot()) && 1 <= row <= board.numRows
      requires moves == [PassTurn(), Resign()] + Plays(allowed, RowMajor(row - 1, board.numCols))
      ensures moves' == [PassTurn(), Resign()] + Plays(allowed, RowMajor(row, board.numCols))
    {
      moves' := moves;
      var col := 1;
      while col <= board.numCols
        invariant 1 <= col <= board.numCols + 1
        invariant moves' == moves + Plays(allowed, Row(row, col - 1))
      {
        var move := Play(Point(row, col));
        var ok := IsValidMove(move);
        NextColumn(Snapshot(), allowed, row, col, moves, moves', ok);
        if ok {
          moves' := moves' + [move];
        }
        col := col + 1;
      }
      assert col - 1 == board.numCols;
      NextRow(allowed, row, board.numCols, moves, moves');
    }

    /** `winner`: nobody before the game is over; the player to move after
        a resignation (the resigner's opponent); otherwise the winner of
        the area count with komi. */
    method Winner() returns (w: Option<Player>)
      requires Valid()
      ensures !IsOver() ==> w.None?
      ensures IsOver() && lastMove.value.isResign ==> w == Some(nextPlayer)
      ensures IsOver() && !lastMove.value.isResign ==>
        w == Some(AreaResult(board.numRows, board.numCols, board.grid).Winner())
    {
      if !IsOver() {
        return None;
      }
      if lastMove.value.isResign {
        return Some(nextPlayer);
      }
      var result := ComputeGameResult(board);
      w := Some(result.Winner());
    }

    /** `previous_states` holds a situation exactly when some strict
        ancestor had that player to move on a board with that hash. */
    lemma {:induction false} SituationsMeaning(sit: (Player, nat))
      ensures sit in Situations() <==>
        exists a :: StrictAncestor(a) && (a.nextPlayer, a.board.hash) == sit
      decreases this
    {
      if previousState.Some? {
        var p := previousState.value;
        p.SituationsMeaning(sit);
        if sit in Situations() {
          if sit == (p.nextPlayer, p.board.hash) {
            assert StrictAncestor(p);
          } else {
            var a :| p.StrictAncestor(a) && (a.nextPlayer, a.board.hash) == sit;
            assert StrictAncestor(a);
          }
        }
      }
    }
  }

  /** What `is_valid_move` looks at: the board's size, Zobrist table and
      grid, the player to move, the situations seen before and whether the
      game is over. */
  datatype Position = Position(rows: nat, cols: nat, table: ZobristTable, grid: Grid,
                               player: Player, seen: set<(Player, nat)>, over: bool)

  /** A play at `p` is valid: the game goes on, the point is empty, the
      play is not self-capture and does not repeat an earlier situation. */
  ghost predicate PlayAllowed(pos: Position, p: Point) {
    && !pos.over
    && p !in pos.grid
    && !SelfCapture(pos.rows, pos.cols, pos.grid, pos.player, p)
    && NextSituation(pos.rows, pos.cols, pos.table, pos.grid, pos.player, p) !in pos.seen
  }

  /** The on-grid points where a play is valid. */
  ghost function Allowed(pos: Position): set<Point> {
    set p | p in Cells(pos.rows, pos.cols) && PlayAllowed(pos, p)
  }

  /** The plays at those points of `ps` that are in `allowed`, in the
      order of `ps`. */
  function Plays(allowed: set<Point>, ps: seq<Point>): seq<Move> {
    if ps == [] then []
    else
      var p := ps[|ps| - 1];
      Plays(allowed, ps[..|ps| - 1]) + (if p in allowed then [Play(p)] else [])
  }

  lemma PlaysSnoc(allowed: set<Point>, ps: seq<Point>, p: Point)
    ensures Plays(allowed, ps + [p]) == Plays(allowed, ps) + (if p in allowed then [Play(p)] else [])
  {
    assert (ps + [p])[..|ps|] == ps;
  }

  lemma AppendAssociates<T>(a: seq<T>, b: seq<T>, c: seq<T>)
    ensures a + b + c == a + (b + c)
  {
  }

  lemma {:induction false} PlaysConcat(allowed: set<Point>, a: seq<Point>, b: seq<Point>)
    ensures Plays(allowed, a + b) == Plays(allowed, a) + Plays(allowed, b)
    decreases |b|
  {
    if b != [] {
      var init, last := b[..|b| - 1], b[|b| - 1];
      assert a + b == (a + init) + [last];
      assert b == init + [last];
      PlaysConcat(allowed, a, init);
      PlaysSnoc(allowed, a + init, last);
      PlaysSnoc(allowed, init, last);
      AppendAssociates(Plays(allowed, a), Plays(allowed, init), if last in allowed then [Play(last)] else []);
    } else {
      assert a + b == a;
    }
  }

  /** One more column of a row: the play is appended exactly when it is
      valid. */
  lemma NextColumn(pos: Position, allowed: set<Point>, row: nat, col: nat, moves: seq<Move>, acc: seq<Move>, ok: bool)
    requires allowed == Allowed(pos) && OnGrid(pos.rows, pos.cols, Point(row, col))
    requires col >= 1 && acc == moves + Plays(allowed, Row(row, col - 1))
    requires ok == PlayAllowed(pos, Point(row, col))
    ensures (if ok then acc + [Play(Point(row, col))] else acc) == moves + Plays(allowed, Row(row, col))
  {
    CellsMembers(pos.rows, pos.cols);
    assert ok <==> Point(row, col) in allowed;
    PlaysSnoc(allowed, Row(row, col - 1), Point(row, col));
    AppendAssociates(moves, Plays(allowed, Row(row, col - 1)), [Play(Point(row, col))]);
  }

  /** One more row of the board. */
  lemma NextRow(allowed: set<Point>, row: nat, cols: nat, moves: seq<Move>, next: seq<Move>)
    requires row >= 1
    requires moves == [PassTurn(), Resign()] + Plays(allowed, RowMajor(row - 1, cols))
    requires next == moves + Plays(allowed, Row(row, cols))
    ensures next == [PassTurn(), Resign()] + Plays(allowed, RowMajor(row, cols))
  {
    PlaysConcat(allowed, RowMajor(row - 1, cols), Row(row, cols));
    AppendAssociates([PassTurn(), Resign()], Plays(allowed, RowMajor(row - 1, cols)), Plays(allowed, Row(row, cols)));
  }

  /** A play is listed exactly when its point is among `ps` and in
      `allowed`; only plays are listed, and none twice. */
  lemma {:induction false} PlaysMembers(allowed: set<Point>, ps: seq<Point>)
    requires Distinct(ps)
    ensures forall m :: m in Plays(allowed, ps) ==> m.IsPlay() && !m.isPass && !m.isResign
    ensures forall p :: Play(p) in Plays(allowed, ps) <==> p in ps && p in allowed
    ensures Distinct(Plays(allowed, ps))
  {
    if ps != [] {
      var init, last := ps[..|ps| - 1], ps[|ps| - 1];
      assert ps == init + [last];
      assert Distinct(init);
      PlaysMembers(allowed, init);
      var tail := if last in allowed then [Play(last)] else [];
      assert last !in init;
      forall i, j | 0 <= i < j < |Plays(allowed, init) + tail|
        ensures (Plays(allowed, init) + tail)[i] != (Plays(allowed, init) + tail)[j]
      {
        if j >= |Plays(allowed, init)| {
          assert (Plays(allowed, init) + tail)[j] == Play(last);
          assert (Plays(allowed, init) + tail)[i] in Plays(allowed, init);
        }
      }
    }
  }

  /** The list `legal_moves` returns for state `s`. */
  ghost function LegalMovesOf(s: GameState): seq<Move>
    reads s.board
    requires s.lastMove.Some? ==> s.previousState.Some?
  {
    [PassTurn(), Resign()] + Plays(Allowed(s.Snapshot()), RowMajor(s.board.numRows, s.board.numCols))
  }

  /** `legal_moves` lists a pass, a resignation and then each valid play
      once: a play at `p` is listed exactly when `p` is on the grid and the
      play is valid. */
  lemma LegalMovesMembers(pos: Position, p: Point)
    ensures var moves := [PassTurn(), Resign()] + Plays(Allowed(pos), RowMajor(pos.rows, pos.cols));
      && Distinct(moves)
      && (Play(p) in moves <==> OnGrid(pos.rows, pos.cols, p) && PlayAllowed(pos, p))
  {
    var allowed := Allowed(pos);
    var plays := Plays(allowed, RowMajor(pos.rows, pos.cols));
    RowMajorFacts(pos.rows, pos.cols);
    CellsMembers(pos.rows, pos.cols);
    PlaysMembers(allowed, RowMajor(pos.rows, pos.cols));
    PassResignFirst(plays);
  }

  /** Every legal move other than a pass or a resignation is an allowed
      play on the grid. */
  lemma LegalPlayOnGrid(pos: Position, m: Move)
    requires m in [PassTurn(), Resign()] + Plays(Allowed(pos), RowMajor(pos.rows, pos.cols))
    requires !m.isPass && !m.isResign
    ensures m.IsPlay() && OnGrid(pos.rows, pos.cols, m.point.value) && PlayAllowed(pos, m.point.value)
  {
    var plays := Plays(Allowed(pos), RowMajor(pos.rows, pos.cols));
    RowMajorFacts(pos.rows, pos.cols);
    PlaysMembers(Allowed(pos), RowMajor(pos.rows, pos.cols));
    assert m in plays;
    assert Play(m.point.value) == m;
  }

  lemma PassResignFirst(plays: seq<Move>)
    requires Distinct(plays) && forall m :: m in plays ==> m.IsPlay()
    ensures Distinct([PassTurn(), Resign()] + plays)
    ensures forall p :: Play(p) in [PassTurn(), Resign()] + plays <==> Play(p) in plays
  {
    var moves := [PassTurn(), Resign()] + plays;
    forall i, j | 0 <= i < j < |moves| ensures moves[i] != moves[j] {
      if j >= 2 {
        assert moves[j] == plays[j - 2];
        assert moves[j] in plays;
        if i >= 2 {
          assert moves[i] == plays[i - 2];
        }
      }
    }
  }

  /** The `GameState` constructor: `previous_states` extends the previous
      state's with the previous state's own situation. */
  function NewState(board: Board, nextPlayer: Player, previous: Option<GameState>, move: Option<Move>): (s: GameState)
    reads if previous.Some? then {previous.value.board} else {}
    ensures s.board == board && s.nextPlayer == nextPlayer
    ensures s.previousState == previous && s.lastMove == move
    ensures previous.None? ==> s.previousStates == {}
    ensures previous.Some? ==>
      s.previousStates == previous.value.previousStates + {(previous.value.nextPlayer, previous.value.board.hash)}
  {
    var seen := if previous.None? then {}
      else previous.value.previousStates + {(previous.value.nextPlayer, previous.value.board.hash)};
    GameState(board, nextPlayer, previous, seen, move)
  }

  /** The situation after `player` plays at `point` on a board of grid `g`:
      the opponent to move, on the hash of the resulting position. */
  function NextSituation(rows: nat, cols: nat, t: ZobristTable, g: Grid, player: Player, point: Point): (Player, nat) {
    (player.Other(), PositionHash(t, rows, cols, Placed(rows, cols, g, player, point)))
  }

  /** Placing `player`'s stone at `point` leaves its own string without
      liberties. */
  predicate SelfCapture(rows: nat, cols: nat, g: Grid, player: Player, point: Point) {
    var after := Placed(rows, cols, g, player, point);
    point in after && after[point].liberties == {}
  }

  /** A stone of the new string next to an on-grid point that is empty
      after the play gives the string a liberty, so the play is not
      self-capture. */
  lemma LibertyAfterPlay(rows: nat, cols: nat, g: Grid, player: Player, point: Point, m: Point)
    requires WellFormed(rows, cols, g) && OnGrid(rows, cols, point) && point !in g
    requires Adjacent(point, m) && OnGrid(rows, cols, m) && m !in Placed(rows, cols, g, player, point)
    ensures !SelfCapture(rows, cols, g, player, point)
  {
    var after := Placed(rows, cols, g, player, point);
    PlacedFacts(rows, cols, g, player, point);
    assert point in after[point].stones;
    assert IsLiberty(rows, cols, after, after[point].stones, m);
    assert m in after[point].liberties;
  }

  /** A play next to an empty on-grid point is never self-capture. */
  lemma EmptyNeighbourNotSelfCapture(rows: nat, cols: nat, g: Grid, player: Player, point: Point, n: Point)
    requires WellFormed(rows, cols, g) && OnGrid(rows, cols, point) && point !in g
    requires Adjacent(point, n) && OnGrid(rows, cols, n) && n !in g
    ensures !SelfCapture(rows, cols, g, player, point)
  {
    PlacedFacts(rows, cols, g, player, point);
    LibertyAfterPlay(rows, cols, g, player, point, n);
  }

  /** A stone taken off by the play leaves an empty point next to the
      new stone, so the play is not self-capture. */
  lemma CaptureNotSelfCapture(rows: nat, cols: nat, g: Grid, player: Player, point: Point, q: Point)
    requires WellFormed(rows, cols, g) && OnGrid(rows, cols, point) && point !in g
    requires q in g && q !in Placed(rows, cols, g, player, point)
    ensures !SelfCapture(rows, cols, g, player, point)
  {
    CapturedString(rows, cols, g, player, point, q);
    var m :| m in g[q].stones && Adjacent(point, m);
    LibertyAfterPlay(rows, cols, g, player, point, m);
  }

  /** A stone the play takes off belongs to a string next to the new
      stone, all of whose on-grid stones are taken off with it. */
  lemma CapturedString(rows: nat, cols: nat, g: Grid, player: Player, point: Point, q: Point)
    requires WellFormed(rows, cols, g) && OnGrid(rows, cols, point) && point !in g
    requires q in g && q !in Placed(rows, cols, g, player, point)
    ensures Touches(point, g[q].stones)
    ensures forall r :: r in g[q].stones ==> OnGrid(rows, cols, r) && r !in Placed(rows, cols, g, player, point)
  {
    forall r | r in g[q].stones
      ensures r in g && g[r] == g[q] && OnGrid(rows, cols, r)
    {
      StoneOfString(rows, cols, g, q, r);
    }
    PlacedFacts(rows, cols, g, player, point);
  }

  /** A self-capturing play captures nothing: every stone on the board
      before the play is still there after it. */
  lemma SelfCaptureCapturesNothing(rows: nat, cols: nat, g: Grid, player: Player, point: Point)
    requires WellFormed(rows, cols, g) && OnGrid(rows, cols, point) && point !in g
    requires SelfCapture(rows, cols, g, player, point)
    ensures forall q :: q in g ==> q in Placed(rows, cols, g, player, point)
  {
    forall q | q in g ensures q in Placed(rows, cols, g, player, point) {
      if q !in Placed(rows, cols, g, player, point) {
        CaptureNotSelfCapture(rows, cols, g, player, point, q);
      }
    }
  }

  /** `new_game`: an empty board, Black to move, no history. The Zobrist
      table of the program is a parameter here. */
  method NewGame(size: BoardSize, table: ZobristTable) returns (s: GameState)
    ensures fresh(s.board) && s.Valid()
    ensures s.board.numRows == (if size.Square? then size.size else size.rows)
    ensures s.board.numCols == (if size.Square? then size.size else size.cols)
    ensures s.board.table == table && s.board.grid == map[]
    ensures s.nextPlayer == Black && s.previousState.None? && s.lastMove.None?
    ensures s.previousStates == {} && !s.IsOver()
  {
    var rows, cols := if size.Square? then size.size else size.rows, if size.Square? then size.size else size.cols;
    var board := new Board(rows, cols, table);
    s := NewState(board, Black, None, None);
  }
}
