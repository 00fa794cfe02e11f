/** Players, points and the row-major enumeration of a board's points.
    The `gotypes` module of the program is not part of this model; the two
    operations the core uses from it (`Player.other`, `Point.neighbors`) are
    defined here. */
module GoTypes {

  datatype Option<T> = None | Some(value: T)

  datatype Player = Black | White {
    /** The opponent of this player. */
    function Other(): Player {
      if this == Black then White else Black
    }
  }

  datatype Point = Point(row: int, col: int) {
    function Up(): Point { Point(row - 1, col) }
    function Down(): Point { Point(row + 1, col) }
    function Left(): Point { Point(row, col - 1) }
    function Right(): Point { Point(row, col + 1) }

    /** The four orthogonal neighbours, in the order the program lists them. */
    function Neighbors(): seq<Point> {
      [Up(), Down(), Left(), Right()]
    }
  }

  /** Some orthogonal neighbour of `p` lies in `s`. */
  predicate Touches(p: Point, s: set<Point>) {
    p.Up() in s || p.Down() in s || p.Left() in s || p.Right() in s
  }

  /** `p` and `q` are orthogonal neighbours. */
  predicate Adjacent(p: Point, q: Point) {
    q == p.Up() || q == p.Down() || q == p.Left() || q == p.Right()
  }

  /** Rows and columns are numbered from 1, as in `Board.is_on_grid`. */
  predicate OnGrid(rows: int, cols: int, p: Point) {
    1 <= p.row <= rows && 1 <= p.col <= cols
  }

  /** Row-major order: `p` is visited before `q`. */
  predicate Before(p: Point, q: Point) {
    p.row < q.row || (p.row == q.row && p.col < q.col)
  }

  /** Points (r, 1) .. (r, cols). */
  function Row(r: int, cols: nat): seq<Point> {
    if cols == 0 then [] else Row(r, cols - 1) + [Point(r, cols)]
  }

  /** All on-grid points in the order of the program's nested
      `for row ... for col ...` loops. */
  function RowMajor(rows: nat, cols: nat): seq<Point> {
    if rows == 0 then [] else RowMajor(rows - 1, cols) + Row(rows, cols)
  }

  predicate StrictlyOrdered(ps: seq<Point>) {
    forall i, j :: 0 <= i < j < |ps| ==> Before(ps[i], ps[j])
  }

  predicate Distinct<T(==)>(xs: seq<T>) {
    forall i, j :: 0 <= i < j < |xs| ==> xs[i] != xs[j]
  }

  lemma OtherInvolutive(p: Player)
    ensures p.Other() != p && p.Other().Other() == p
  {
  }

  lemma {:induction false} RowFacts(r: int, cols: nat)
    ensures |Row(r, cols)| == cols
    ensures forall p :: p in Row(r, cols) <==> p.row == r && 1 <= p.col <= cols
    ensures StrictlyOrdered(Row(r, cols))
  {
    if cols > 0 {
      RowFacts(r, cols - 1);
    }
  }

  lemma ConcatOrdered(a: seq<Point>, b: seq<Point>)
    requires StrictlyOrdered(a) && StrictlyOrdered(b)
    requires forall x, y :: x in a && y in b ==> Before(x, y)
    ensures StrictlyOrdered(a + b)
  {
    forall i, j | 0 <= i < j < |a + b| ensures Before((a + b)[i], (a + b)[j]) {
      if j < |a| {
        assert (a + b)[i] == a[i] && (a + b)[j] == a[j];
      } else if i >= |a| {
        assert (a + b)[i] == b[i - |a|] && (a + b)[j] == b[j - |a|];
      } else {
        assert (a + b)[i] in a && (a + b)[j] in b;
      }
    }
  }

  lemma OrderedDistinct(ps: seq<Point>)
    requires StrictlyOrdered(ps)
    ensures Distinct(ps)
  {
    forall i, j | 0 <= i < j < |ps| ensures ps[i] != ps[j] {
      assert Before(ps[i], ps[j]);
    }
  }

  lemma {:induction false} RowMajorLength(rows: nat, cols: nat)
    ensures |RowMajor(rows, cols)| == rows * cols
  {
    if rows > 0 {
      RowMajorLength(rows - 1, cols);
      RowFacts(rows, cols);
      assert rows * cols == (rows - 1) * cols + cols;
    }
  }

  lemma {:induction false} RowMajorMembers(rows: nat, cols: nat)
    ensures forall p :: p in RowMajor(rows, cols) <==> OnGrid(rows, cols, p)
  {
    if rows > 0 {
      RowMajorMembers(rows - 1, cols);
      RowFacts(rows, cols);
    }
  }

  lemma {:induction false} RowMajorOrdered(rows: nat, cols: nat)
    ensures StrictlyOrdered(RowMajor(rows, cols))
  {
    if rows > 0 {
      RowMajorOrdered(rows - 1, cols);
      RowMajorMembers(rows - 1, cols);
      RowFacts(rows, cols);
      ConcatOrdered(RowMajor(rows - 1, cols), Row(rows, cols));
    }
  }

  /** Every on-grid point appears in the enumeration, and nothing else does;
      the enumeration is strictly increasing, so no point appears twice. */
  lemma RowMajorFacts(rows: nat, cols: nat)
    ensures |RowMajor(rows, cols)| == rows * cols
    ensures forall p :: p in RowMajor(rows, cols) <==> OnGrid(rows, cols, p)
    ensures StrictlyOrdered(RowMajor(rows, cols))
    ensures Distinct(RowMajor(rows, cols))
  {
    RowMajorLength(rows, cols);
    RowMajorMembers(rows, cols);
    RowMajorOrdered(rows, cols);
    OrderedDistinct(RowMajor(rows, cols));
  }
}
