/** Moves, Go strings and the consistency conditions on the board's grid
    (dlgo/goboard.py, classes `Move` and `GoString`). */
module GoStrings {
  import opened GoTypes

  /** A move as the program stores it: an optional point and two flags.
      Only the three named constructors below are used by the rest of the
      program, but the checked constructor admits any odd number of the
      three choices (see `NewMove`). */
  datatype Move = Move(point: Option<Point>, isPass: bool, isResign: bool) {
    predicate IsPlay() { point.Some? }
  }

  /** `Move.__init__`: the assertion `(point is not None) ^ is_pass ^ is_resign`
      decides whether construction succeeds (`None` models the failed
      assertion). */
  function NewMove(point: Option<Point>, isPass: bool, isResign: bool): (r: Option<Move>)
    ensures r.Some? <==> (point.Some? != isPass) != isResign
    ensures r.Some? ==> r.value.point == point && r.value.isPass == isPass && r.value.isResign == isResign
    ensures r.Some? ==> (r.value.IsPlay() <==> point.Some?)
  {
    if (point.Some? != isPass) != isResign then Some(Move(point, isPass, isResign)) else None
  }

  function Play(p: Point): Move { Move(Some(p), false, false) }
  function PassTurn(): Move { Move(None, true, false) }
  function Resign(): Move { Move(None, false, true) }

  /** Construction fails when none or exactly two of the three choices are
      given and succeeds for exactly one of them; the exclusive-or also lets
      all three through. The named constructors always succeed. */
  lemma NewMoveAccepts(p: Point)
    ensures NewMove(None, false, false).None?
    ensures NewMove(Some(p), true, false).None?
    ensures NewMove(Some(p), false, true).None?
    ensures NewMove(None, true, true).None?
    ensures NewMove(Some(p), false, false) == Some(Play(p))
    ensures NewMove(None, true, false) == Some(PassTurn())
    ensures NewMove(None, false, true) == Some(Resign())
    ensures NewMove(Some(p), true, true).Some?
    ensures NewMove(Some(p), true, true).value.IsPlay()
  {
  }

  /** A chain of stones of one colour together with its liberties. */
  datatype GoString = GoString(color: Player, stones: set<Point>, liberties: set<Point>) {

    function WithoutLiberty(p: Point): (r: GoString)
      ensures r.color == color && r.stones == stones
      ensures p !in r.liberties && r.liberties <= liberties
      ensures forall q :: q != p ==> (q in r.liberties <==> q in liberties)
      ensures |r.liberties| == if p in liberties then |liberties| - 1 else |liberties|
    {
      GoString(color, stones, liberties - {p})
    }

    function WithLiberty(p: Point): (r: GoString)
      ensures r.color == color && r.stones == stones
      ensures p in r.liberties && liberties <= r.liberties
      ensures forall q :: q != p ==> (q in r.liberties <==> q in liberties)
      ensures |r.liberties| == if p in liberties then |liberties| else |liberties| + 1
    {
      var r := GoString(color, stones, liberties + {p});
      assert p in liberties ==> r.liberties == liberties;
      assert p !in liberties ==> r.liberties - {p} == liberties;
      r
    }

    /** `merged_with` asserts that both strings have the same colour. */
    function MergedWith(other: GoString): (r: GoString)
      requires other.color == color
      ensures r.color == color
      ensures r.stones == stones + other.stones
      ensures forall q :: q in r.liberties <==> (q in liberties || q in other.liberties) && q !in r.stones
      ensures r.stones !! r.liberties
    {
      var combined := stones + other.stones;
      GoString(color, combined, (liberties + other.liberties) - combined)
    }

    function NumLiberties(): nat { |liberties| }
  }

  /** Merging is symmetric: the order in which neighbouring strings are
      merged does not change the result. */
  lemma MergedWithCommutes(a: GoString, b: GoString)
    requires a.color == b.color
    ensures a.MergedWith(b) == b.MergedWith(a)
  {
  }

  /** The board's `_grid`: each occupied point maps to the string it belongs to. */
  type Grid = map<Point, GoString>

  /** The point `q` holds a stone of the same colour as the string at `p`
      and is not recorded as part of that string. */
  predicate Separated(g: Grid, p: Point, q: Point)
    requires p in g
  {
    q in g && g[q].color == g[p].color && q !in g[p].stones
  }

  /** `n` is a liberty of a string with stones `stones` on grid `g`. */
  predicate IsLiberty(rows: int, cols: int, g: Grid, stones: set<Point>, n: Point) {
    OnGrid(rows, cols, n) && n !in g && Touches(n, stones)
  }

  ghost predicate OnBoard(rows: int, cols: int, g: Grid) {
    forall q :: q in g ==> OnGrid(rows, cols, q)
  }

  /** Every occupied point belongs to its own string, and every stone of
      that string maps to the very same string value. */
  ghost predicate Membership(g: Grid) {
    && (forall q :: q in g ==> q in g[q].stones)
    && (forall q, r :: q in g && r in g[q].stones ==> r in g && g[r] == g[q])
  }

  /** Strings are closed under same-colour orthogonal adjacency. */
  ghost predicate Maximal(g: Grid) {
    forall q :: q in g ==>
      && !Separated(g, q, q.Up()) && !Separated(g, q, q.Down())
      && !Separated(g, q, q.Left()) && !Separated(g, q, q.Right())
  }

  /** The liberties recorded for `s` are exactly the empty on-grid points
      orthogonally adjacent to one of its stones. */
  ghost predicate ExactLiberties(rows: int, cols: int, g: Grid, s: GoString) {
    forall n :: n in s.liberties <==> IsLiberty(rows, cols, g, s.stones, n)
  }

  /** The consistency of a board's grid that every operation preserves. */
  ghost predicate WellFormed(rows: int, cols: int, g: Grid) {
    && OnBoard(rows, cols, g)
    && Membership(g)
    && Maximal(g)
    && (forall q :: q in g ==> ExactLiberties(rows, cols, g, g[q]))
  }

  /** Every stone of an on-board string is an on-grid point holding that
      very string. */
  lemma StoneOfString(rows: int, cols: int, g: Grid, q: Point, r: Point)
    requires WellFormed(rows, cols, g) && q in g && r in g[q].stones
    ensures r in g && g[r] == g[q] && OnGrid(rows, cols, r)
  {
  }

  /** The grid of an empty board is consistent. */
  lemma EmptyGridWellFormed(rows: int, cols: int)
    ensures WellFormed(rows, cols, map[])
  {
  }

  /** Two strings of a consistent grid are equal or have no stone in common. */
  lemma {:induction false} StringsDisjoint(g: Grid, p: Point, q: Point)
    requires Membership(g) && p in g && q in g
    ensures g[p] == g[q] || g[p].stones !! g[q].stones
  {
    if !(g[p].stones !! g[q].stones) {
      var r :| r in g[p].stones && r in g[q].stones;
      assert g[r] == g[p] && g[r] == g[q];
    }
  }
}
