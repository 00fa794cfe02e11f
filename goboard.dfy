/** The board: a grid of strings and a position hash, both updated in place
    (dlgo/goboard.py, class `Board`). */
module GoBoard {
  import opened GoTypes
  import opened GoStrings
  import opened Zobrist
  import opened Placement

  /** The grid part-way through `_remove_string(s)`: the stones `done` are
      gone and have become liberties of the strings next to them, and the
      strings with a stone among `reached` (the neighbours of `p` visited so
      far) have also gained `p`. */
  function Removing(g: Grid, s: GoString, done: set<Point>, p: Point, reached: set<Point>): Grid {
    map q | q in g && q !in done ::
      if q in s.stones then g[q] else Bump(AddLiberties(g[q], done), p, reached)
  }

  /** `t.with_liberty(p)` if a stone of `t` is among `reached`. */
  function Bump(t: GoString, p: Point, reached: set<Point>): GoString {
    if t.stones !! reached then t else t.WithLiberty(p)
  }

  /** Before `_remove_string` starts, nothing has changed. */
  lemma RemovingStart(g: Grid, s: GoString, p: Point)
    requires Intact(g, s)
    ensures Removing(g, s, {}, p, {}) == g
  {
    var r := Removing(g, s, {}, p, {});
    forall q | q in g ensures r[q] == g[q] {
      if q !in s.stones {
        assert g[q].liberties + {} == g[q].liberties;
      }
    }
  }

  /** Once every stone of `s` is done, the grid is `Vacated(g, s)`. */
  lemma RemovingEnd(g: Grid, s: GoString, p: Point)
    ensures Removing(g, s, s.stones, p, {}) == Vacated(g, s)
  {
  }

  /** After visiting all neighbours of `p`, clearing `p` completes it. */
  lemma RemovingNext(g: Grid, s: GoString, done: set<Point>, p: Point, reached: set<Point>)
    requires p in s.stones && p !in done && p in g
    requires forall x :: x in reached <==> x in p.Neighbors()
    ensures Removing(g, s, done, p, reached) - {p} == Removing(g, s, done + {p}, p, {})
  {
    var a := Removing(g, s, done, p, reached) - {p};
    var b := Removing(g, s, done + {p}, p, {});
    forall q | q in a ensures a[q] == b[q] {
      if q !in s.stones {
        RemovingNextAt(g[q], p, done, reached);
      }
    }
  }

  /** The same, for one string `t` outside `s`: the liberty `p` it gains
      when a neighbour of `p` is visited is the one it gains when `p` is
      done. */
  lemma RemovingNextAt(t: GoString, p: Point, done: set<Point>, reached: set<Point>)
    requires forall x :: x in reached <==> x in p.Neighbors()
    ensures Bump(AddLiberties(t, done), p, reached) == AddLiberties(t, done + {p})
  {
    var f := set d | d in done && Touches(d, t.stones);
    var f' := set d | d in done + {p} && Touches(d, t.stones);
    if Touches(p, t.stones) {
      assert f' == f + {p};
      assert !(t.stones !! reached);
    } else {
      assert f' == f;
      assert t.stones !! reached;
    }
  }

  /** One step of `_remove_string`: clearing `p`, once its neighbours are
      visited, completes `p` in the grid, and toggles the hash by the code
      of `p` in the colour of `s`. */
  lemma ClearStep(t: ZobristTable, rows: nat, cols: nat, g: Grid, s: GoString, done: set<Point>, p: Point,
                  reached: set<Point>)
    requires OnBoard(rows, cols, g) && Intact(g, s)
    requires p in s.stones && p !in done
    requires forall x :: x in reached <==> x in p.Neighbors()
    ensures var before := Removing(g, s, done, p, reached);
      && before - {p} == Removing(g, s, done + {p}, Point(0, 0), {})
      && PositionHash(t, rows, cols, before - {p}) == Xor(PositionHash(t, rows, cols, before), t.code(p, s.color))
  {
    var before := Removing(g, s, done, p, reached);
    RemovingNext(g, s, done, p, reached);
    RemovingReset(g, s, done + {p}, p, Point(0, 0));
    assert p in before && before[p] == s;
    PositionHashRemove(t, rows, cols, before, before - {p}, p, s.color);
  }

  /** A neighbour that is empty or a stone of `s` itself changes nothing. */
  lemma VisitSkip(g: Grid, s: GoString, done: set<Point>, p: Point, reached: set<Point>, n: Point)
    requires Membership(g) && Intact(g, s) && done <= s.stones
    requires var grid := Removing(g, s, done, p, reached); n !in grid || grid[n] == s
    ensures Removing(g, s, done, p, reached + {n}) == Removing(g, s, done, p, reached)
  {
    forall q | q in g && q !in done && q !in s.stones ensures n !in g[q].stones {
    }
  }

  /** The string at a neighbour outside `s` maps each of its stones to itself. */
  lemma VisitUniform(g: Grid, s: GoString, done: set<Point>, p: Point, reached: set<Point>, n: Point)
    requires Membership(g) && Intact(g, s) && done <= s.stones
    requires var grid := Removing(g, s, done, p, reached); n in grid && grid[n] != s
    ensures n in g && n !in s.stones
    ensures var grid := Removing(g, s, done, p, reached);
      forall r :: r in grid[n].stones ==> r in grid && grid[r] == grid[n]
  {
    var grid := Removing(g, s, done, p, reached);
    forall r | r in grid[n].stones ensures r in grid && grid[r] == grid[n] {
      assert g[r] == g[n];
    }
  }

  /** A neighbour in another string gives that whole string the liberty `p`. */
  lemma VisitBump(g: Grid, s: GoString, done: set<Point>, p: Point, reached: set<Point>, n: Point)
    requires Membership(g) && Intact(g, s) && done <= s.stones
    requires var grid := Removing(g, s, done, p, reached); n in grid && grid[n] != s
    ensures var grid := Removing(g, s, done, p, reached);
      WithString(grid, grid[n].WithLiberty(p)) == Removing(g, s, done, p, reached + {n})
  {
    var grid := Removing(g, s, done, p, reached);
    var grid' := Removing(g, s, done, p, reached + {n});
    VisitUniform(g, s, done, p, reached, n);
    var t := grid[n];
    var w := WithString(grid, t.WithLiberty(p));
    assert forall q :: q in w <==> q in grid';
    forall q | q in w ensures w[q] == grid'[q] {
      VisitBumpAt(g, s, done, p, reached, n, q);
    }
  }

  /** The same, at one point `q` of the grid. */
  lemma VisitBumpAt(g: Grid, s: GoString, done: set<Point>, p: Point, reached: set<Point>, n: Point, q: Point)
    requires Membership(g) && Intact(g, s) && done <= s.stones
    requires var grid := Removing(g, s, done, p, reached); n in grid && grid[n] != s && q in grid
    ensures var grid := Removing(g, s, done, p, reached);
      var grid' := Removing(g, s, done, p, reached + {n});
      q in grid' && WithString(grid, grid[n].WithLiberty(p))[q] == grid'[q]
  {
    var grid := Removing(g, s, done, p, reached);
    VisitUniform(g, s, done, p, reached, n);
    if q in grid[n].stones {
      assert g[q] == g[n];
    } else if q !in s.stones {
      assert n !in g[q].stones;
    }
  }

  /** Without any neighbour visited, the point being cleared is irrelevant. */
  lemma RemovingReset(g: Grid, s: GoString, done: set<Point>, p: Point, p': Point)
    ensures Removing(g, s, done, p, {}) == Removing(g, s, done, p', {})
  {
  }

  /** Lines 101-104 of `place_stone`: the new stone's string merged with
      each adjacent friendly string in turn. */
  method MergeStrings(start: GoString, same: seq<GoString>) returns (merged: GoString)
    requires start.stones !! start.liberties
    requires forall i :: 0 <= i < |same| ==> same[i].color == start.color
    ensures merged == MergeAll(start, same)
  {
    merged := start;
    for i := 0 to |same|
      invariant merged == MergeAll(start, same[..i])
    {
      assert same[..i + 1][..i] == same[..i];
      merged := merged.MergedWith(same[i]);
    }
    assert same[..|same|] == same;
  }

  class Board {
    const numRows: nat
    const numCols: nat
    /** The Zobrist table the hash is computed with. */
    const table: ZobristTable
    /** `_grid`: an absent key is an empty point. */
    var grid: Grid
    /** `_hash` */
    var hash: nat

    /** The grid is consistent and the hash fingerprints it. */
    ghost predicate Valid()
      reads this
    {
      && WellFormed(numRows, numCols, grid)
      && hash == PositionHash(table, numRows, numCols, grid)
    }

    /** `Board(num_rows, num_cols)`: an empty board. */
    constructor(rows: nat, cols: nat, t: ZobristTable)
      ensures numRows == rows && numCols == cols && table == t
      ensures grid == map[] && hash == t.emptyBoard
      ensures Valid()
    {
      numRows, numCols, table := rows, cols, t;
      grid := map[];
      hash := t.emptyBoard;
      new;
      EmptyGridWellFormed(rows, cols);
      EmptyPositionHash(t, rows, cols);
    }

    /** `copy.deepcopy(board)`: a new board with the same contents. */
    method Copy() returns (b: Board)
      ensures fresh(b)
      ensures b.numRows == numRows && b.numCols == numCols && b.table == table
      ensures b.grid == grid && b.hash == hash
    {
      b := new Board(numRows, numCols, table);
      b.grid := grid;
      b.hash := hash;
    }

    predicate IsOnGrid(p: Point) {
      OnGrid(numRows, numCols, p)
    }

    /** `get`: the colour of the stone on `p`, if any. */
    function Get(p: Point): Option<Player>
      reads this
    {
      if p in grid then Some(grid[p].color) else None
    }

    /** `get_go_string`: the string through `p`, if any. */
    function GetGoString(p: Point): Option<GoString>
      reads this
    {
      if p in grid then Some(grid[p]) else None
    }

    /** `zobrist_hash` */
    function ZobristHash(): (h: nat)
      reads this
      ensures Valid() ==> h == PositionHash(table, numRows, numCols, grid)
    {
      hash
    }

    /** `_replace_string(t)`: every stone of `t` now maps to `t`. Colours do
        not change, so the hash does not either. */
    method ReplaceString(t: GoString)
      modifies this
      requires forall r :: r in t.stones ==> r in grid && grid[r].color == t.color
      requires hash == PositionHash(table, numRows, numCols, grid)
      ensures grid == WithString(old(grid), t)
      ensures hash == old(hash) && hash == PositionHash(table, numRows, numCols, grid)
    {
      ghost var g := grid;
      var todo := t.stones;
      while todo != {}
        invariant todo <= t.stones
        invariant grid == g + map q | q in t.stones - todo :: t
        invariant hash == old(hash)
        decreases |todo|
      {
        var q :| q in todo;
        grid := grid[q := t];
        todo := todo - {q};
      }
      PositionHashColoursOnly(table, numRows, numCols, g, grid);
    }

    /** The inner loop of `_remove_string(s)` for one stone `p` of `s`:
        every string next to `p` other than `s` gains the liberty `p`. */
    method FreeNeighbours(s: GoString, p: Point, ghost g: Grid, ghost done: set<Point>)
        returns (ghost reached: set<Point>)
      modifies this
      requires Membership(g) && Intact(g, s) && done <= s.stones
      requires grid == Removing(g, s, done, p, {})
      requires hash == PositionHash(table, numRows, numCols, grid)
      ensures forall x :: x in reached <==> x in p.Neighbors()
      ensures grid == Removing(g, s, done, p, reached)
      ensures hash == PositionHash(table, numRows, numCols, grid)
    {
      var nbrs := p.Neighbors();
      reached := {};
      for i := 0 to 4
        invariant forall x :: x in reached <==> x in nbrs[..i]
        invariant grid == Removing(g, s, done, p, reached)
        invariant hash == PositionHash(table, numRows, numCols, grid)
      {
        var n := nbrs[i];
        if n in grid && grid[n] != s {
          VisitUniform(g, s, done, p, reached, n);
          VisitBump(g, s, done, p, reached, n);
          ReplaceString(grid[n].WithLiberty(p));
        } else {
          VisitSkip(g, s, done, p, reached, n);
        }
        reached := reached + {n};
      }
      assert nbrs[..4] == nbrs;
    }

    /** `_remove_string(s)`: each stone of `s` leaves the grid, becomes a
        liberty of every other string next to it, and its code is xored
        out of the hash. */
    method RemoveString(s: GoString)
      modifies this
      requires OnBoard(numRows, numCols, grid) && Membership(grid) && Intact(grid, s)
      requires hash == PositionHash(table, numRows, numCols, grid)
      ensures grid == Vacated(old(grid), s)
      ensures hash == PositionHash(table, numRows, numCols, grid)
    {
      ghost var g := grid;
      var todo := s.stones;
      ghost var done: set<Point> := {};
      RemovingStart(g, s, Point(0, 0));
      while todo != {}
        invariant todo <= s.stones && done == s.stones - todo
        invariant grid == Removing(g, s, done, Point(0, 0), {})
        invariant hash == PositionHash(table, numRows, numCols, grid)
        decreases |todo|
      {
        var p :| p in todo;
        ClearPoint(s, p, g, done);
        todo := todo - {p};
        done := done + {p};
      }
      assert done == s.stones;
      RemovingEnd(g, s, Point(0, 0));
    }

    /** The body of the loop of `_remove_string` for the stone `p`: its
        neighbouring strings of other stones gain the liberty `p`, then `p`
        is cleared from the grid and its code leaves the hash. */
    method ClearPoint(s: GoString, p: Point, ghost g: Grid, ghost done: set<Point>)
      modifies this
      requires OnBoard(numRows, numCols, g) && Membership(g) && Intact(g, s)
      requires done <= s.stones && p in s.stones && p !in done
      requires grid == Removing(g, s, done, Point(0, 0), {})
      requires hash == PositionHash(table, numRows, numCols, grid)
      ensures grid == Removing(g, s, done + {p}, Point(0, 0), {})
      ensures hash == PositionHash(table, numRows, numCols, grid)
    {
      RemovingReset(g, s, done, Point(0, 0), p);
      ghost var reached := FreeNeighbours(s, p, g, done);
      ClearStep(table, numRows, numCols, g, s, done, p, reached);
      grid := grid - {p};
      hash := Xor(hash, table.code(p, s.color));
    }

    /** The neighbour survey of `place_stone` (dlgo/goboard.py:85-99). */
    method SurveyNeighbours(player: Player, point: Point)
        returns (liberties: seq<Point>, same: seq<GoString>, opposite: seq<GoString>)
      ensures Survey(liberties, same, opposite) == Surroundings(numRows, numCols, grid, player, point)
    {
      liberties, same, opposite := [], [], [];
      var nbrs := point.Neighbors();
      for i := 0 to 4
        invariant Survey(liberties, same, opposite) == Scan(numRows, numCols, grid, player, nbrs[..i])
      {
        var neighbor := nbrs[i];
        assert nbrs[..i + 1] == nbrs[..i] + [neighbor];
        if !IsOnGrid(neighbor) {
          continue;
        }
        if neighbor !in grid {
          liberties := liberties + [neighbor];
        } else if grid[neighbor].color == player {
          if grid[neighbor] !in same {
            same := same + [grid[neighbor]];
          }
        } else {
          if grid[neighbor] !in opposite {
            opposite := opposite + [grid[neighbor]];
          }
        }
      }
      assert nbrs[..4] == nbrs;
    }

    /** The last loop of `place_stone` (dlgo/goboard.py:110-115): each
        adjacent enemy string loses the liberty `point`, and is removed if
        that was its last. */
    method ResolveCaptures(player: Player, point: Point, opposite: seq<GoString>)
      modifies this
      requires CaptureInv(numRows, numCols, grid, player, point, opposite)
      requires hash == PositionHash(table, numRows, numCols, grid)
      ensures grid == CaptureAll(old(grid), opposite, point)
      ensures Valid() && point in grid && grid[point].color == player
    {
      for i := 0 to |opposite|
        invariant CaptureInv(numRows, numCols, grid, player, point, opposite[i..])
        invariant CaptureAll(grid, opposite[i..], point) == CaptureAll(old(grid), opposite, point)
        invariant hash == PositionHash(table, numRows, numCols, grid)
      {
        assert opposite[i..][0] == opposite[i] && opposite[i..][1..] == opposite[i + 1..];
        var replacement := opposite[i].WithoutLiberty(point);
        if replacement.NumLiberties() > 0 {
          TrimStep(numRows, numCols, grid, player, point, opposite[i..]);
          ReplaceString(replacement);
        } else {
          RemoveStep(numRows, numCols, grid, player, point, opposite[i..]);
          RemoveString(opposite[i]);
        }
      }
      assert opposite[|opposite|..] == [];
      CaptureInvDone(numRows, numCols, grid, player, point);
    }

    /** Lines 105-106 of `place_stone`: every stone of the merged string
        now maps to it. */
    method WriteString(t: GoString)
      modifies this
      ensures grid == WithString(old(grid), t) && hash == old(hash)
    {
      ghost var g := grid;
      var todo := t.stones;
      while todo != {}
        invariant todo <= t.stones
        invariant grid == g + map q | q in t.stones - todo :: t
        invariant hash == old(hash)
        decreases |todo|
      {
        var q :| q in todo;
        grid := grid[q := t];
        todo := todo - {q};
      }
    }

    /** `place_stone(player, point)`: the source asserts that `point` is on
        the grid and empty. The grid becomes `Placed(...)` of the old one,
        which is consistent again (`Placement.PlacedFacts`), and the hash
        follows it. */
    method PlaceStone(player: Player, point: Point)
      modifies this
      requires Valid()
      requires IsOnGrid(point) && Get(point).None?
      ensures Valid()
      ensures grid == Placed(numRows, numCols, old(grid), player, point)
      ensures Get(point) == Some(player)
    {
      ghost var g := grid;
      ghost var sv := Surroundings(numRows, numCols, g, player, point);
      var liberties, same, opposite := SurveyNeighbours(player, point);
      SurveyMergeable(numRows, numCols, g, player, point);

      var newString := MergeStrings(GoString(player, {point}, set n | n in liberties), same);
      assert newString == NewString(numRows, numCols, g, player, point);

      WrittenInv(numRows, numCols, g, player, point);
      WriteString(newString);
      hash := Xor(hash, table.code(point, player));
      PositionHashPlace(table, numRows, numCols, g, grid, point, player);
      ResolveCaptures(player, point, opposite);
    }
  }
}
