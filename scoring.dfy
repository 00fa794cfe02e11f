/** Area scoring (dlgo/scoring.py): each empty region is territory of the
    one colour that borders it, or neutral, and the score of a colour is its
    stones plus its territory, with komi for White. */
module Scoring {
  import opened GoTypes
  import opened GoStrings
  import opened GoBoard

  /** `Board.get`: the colour of the stone on `p`, or `None` for an empty point. */
  function Content(g: Grid, p: Point): Option<Player> {
    if p in g then Some(g[p].color) else None
  }

  /** All on-grid points of a `rows` x `cols` board. */
  function Cells(rows: nat, cols: nat): set<Point> {
    set r, c | 1 <= r <= rows && 1 <= c <= cols :: Point(r, c)
  }

  lemma CellsMembers(rows: nat, cols: nat)
    ensures forall p :: p in Cells(rows, cols) <==> OnGrid(rows, cols, p)
  {
    forall p | OnGrid(rows, cols, p) ensures p in Cells(rows, cols) {
      assert p == Point(p.row, p.col);
    }
  }

  function Elems(ps: seq<Point>): set<Point> {
    set q | q in ps
  }

  /** What a point of the status map holds: a stone, territory of one
      colour (`"territory_b"`, `"territory_w"`) or `"neutral"`. */
  datatype Status = Stone(owner: Player) | TerritoryOf(owner: Player) | Neutral

  // ---------------------------------------------------------------------
  // Regions: maximal orthogonally connected sets of points with one content.

  /** A walk over on-grid points of equal content, each step orthogonal. */
  ghost predicate IsPath(rows: nat, cols: nat, g: Grid, path: seq<Point>) {
    && |path| > 0
    && (forall i :: 0 <= i < |path| ==>
          OnGrid(rows, cols, path[i]) && Content(g, path[i]) == Content(g, path[0]))
    && (forall i :: 0 <= i < |path| - 1 ==> Adjacent(path[i], path[i + 1]))
  }

  ghost predicate Connected(rows: nat, cols: nat, g: Grid, p: Point, q: Point) {
    exists path :: IsPath(rows, cols, g, path) && path[0] == p && path[|path| - 1] == q
  }

  /** The region of `p`: every on-grid point connected to it. */
  ghost function RegionOf(rows: nat, cols: nat, g: Grid, p: Point): set<Point> {
    set q | q in Cells(rows, cols) && Connected(rows, cols, g, p, q)
  }

  /** The contents found next to the points of `region` that differ from `here`. */
  ghost function Borders(rows: nat, cols: nat, g: Grid, region: set<Point>, here: Option<Player>): set<Option<Player>> {
    set x, n | x in region && n in x.Neighbors() && OnGrid(rows, cols, n) && Content(g, n) != here :: Content(g, n)
  }

  /** The status `evaluate_territory` gives an empty region with border set
      `borders`: territory when exactly one content borders it, neutral
      otherwise. */
  function Fill(borders: set<Option<Player>>): Status {
    if |borders| == 1 then
      (if Some(Black) in borders then TerritoryOf(Black) else TerritoryOf(White))
    else Neutral
  }

  /** The status of every on-grid point of the grid `g`. */
  ghost function TerritoryMap(rows: nat, cols: nat, g: Grid): map<Point, Status> {
    map p | p in Cells(rows, cols) ::
      if p in g then Stone(g[p].color) else Fill(Borders(rows, cols, g, RegionOf(rows, cols, g, p), None))
  }

  /** An empty region is territory of colour `c` exactly when `c` is the
      only content on its border; it is neutral when nothing or both
      colours border it. */
  lemma FillMeaning(rows: nat, cols: nat, g: Grid, region: set<Point>, c: Player)
    ensures Borders(rows, cols, g, region, None) <= {Some(Black), Some(White)}
    ensures Fill(Borders(rows, cols, g, region, None)) == TerritoryOf(c)
        <==> Borders(rows, cols, g, region, None) == {Some(c)}
    ensures Fill(Borders(rows, cols, g, region, None)) == Neutral
        <==> Borders(rows, cols, g, region, None) == {} || Borders(rows, cols, g, region, None) == {Some(Black), Some(White)}
  {
    var b := Borders(rows, cols, g, region, None);
    assert b <= {Some(Black), Some(White)} by {
      forall x | x in b ensures x == Some(Black) || x == Some(White) {
        var y, n :| y in region && n in y.Neighbors() && OnGrid(rows, cols, n) && Content(g, n) != None && Content(g, n) == x;
        assert n in g && x == Some(g[n].color);
        assert g[n].color == Black || g[n].color == White;
      }
    }
    if Some(Black) in b && Some(White) in b {
      assert b == {Some(Black), Some(White)};
    } else if Some(Black) in b {
      assert b == {Some(Black)};
    } else if Some(White) in b {
      assert b == {Some(White)};
    } else {
      assert b == {};
    }
  }

  lemma ConnectedRefl(rows: nat, cols: nat, g: Grid, p: Point)
    requires OnGrid(rows, cols, p)
    ensures Connected(rows, cols, g, p, p)
  {
    assert IsPath(rows, cols, g, [p]);
  }

  /** A step to an adjacent point of equal content extends connectivity. */
  lemma ConnectedStep(rows: nat, cols: nat, g: Grid, p: Point, n: Point, q: Point)
    requires OnGrid(rows, cols, p) && Adjacent(p, n) && Content(g, n) == Content(g, p)
    requires Connected(rows, cols, g, n, q)
    ensures Connected(rows, cols, g, p, q)
  {
    var path: seq<Point> :| IsPath(rows, cols, g, path) && path[0] == n && path[|path| - 1] == q;
    var path' := [p] + path;
    assert path'[1..] == path;
    assert IsPath(rows, cols, g, path');
  }

  lemma AdjacentSymmetric(p: Point, q: Point)
    requires Adjacent(p, q)
    ensures Adjacent(q, p)
  {
  }

  lemma ConnectedSymmetric(rows: nat, cols: nat, g: Grid, p: Point, q: Point)
    requires Connected(rows, cols, g, p, q)
    ensures Connected(rows, cols, g, q, p)
  {
    var path: seq<Point> :| IsPath(rows, cols, g, path) && path[0] == p && path[|path| - 1] == q;
    var rev := seq(|path|, i requires 0 <= i < |path| => path[|path| - 1 - i]);
    forall i | 0 <= i < |rev| - 1 ensures Adjacent(rev[i], rev[i + 1]) {
      AdjacentSymmetric(path[|path| - 2 - i], path[|path| - 1 - i]);
    }
    assert IsPath(rows, cols, g, rev);
  }

  lemma ConnectedTrans(rows: nat, cols: nat, g: Grid, p: Point, q: Point, r: Point)
    requires Connected(rows, cols, g, p, q) && Connected(rows, cols, g, q, r)
    ensures Connected(rows, cols, g, p, r)
  {
    var a: seq<Point> :| IsPath(rows, cols, g, a) && a[0] == p && a[|a| - 1] == q;
    var b: seq<Point> :| IsPath(rows, cols, g, b) && b[0] == q && b[|b| - 1] == r;
    var c := a + b[1..];
    forall i | 0 <= i < |c| - 1 ensures Adjacent(c[i], c[i + 1]) {
      if i < |a| - 1 {
        assert c[i] == a[i] && c[i + 1] == a[i + 1];
      } else {
        assert c[i] == b[i - |a| + 1] && c[i + 1] == b[i - |a| + 2];
      }
    }
    assert IsPath(rows, cols, g, c);
  }

  /** All same-content on-grid neighbours of `q` lie in `s`. */
  ghost predicate ClosedAt(rows: nat, cols: nat, g: Grid, q: Point, here: Option<Player>, s: set<Point>) {
    && Joined(rows, cols, g, q.Up(), here, s)
    && Joined(rows, cols, g, q.Down(), here, s)
    && Joined(rows, cols, g, q.Left(), here, s)
    && Joined(rows, cols, g, q.Right(), here, s)
  }

  /** If `n` is on the grid with content `here`, it lies in `s`. */
  ghost predicate Joined(rows: nat, cols: nat, g: Grid, n: Point, here: Option<Player>, s: set<Point>) {
    OnGrid(rows, cols, n) && Content(g, n) == here ==> n in s
  }

  /** Connected points have the same content. */
  lemma ConnectedContent(rows: nat, cols: nat, g: Grid, p: Point, q: Point)
    requires Connected(rows, cols, g, p, q)
    ensures Content(g, q) == Content(g, p) && OnGrid(rows, cols, q)
  {
    var path: seq<Point> :| IsPath(rows, cols, g, path) && path[0] == p && path[|path| - 1] == q;
  }

  /** A set that holds `p`, is connected to it and is closed under
      same-content neighbours is the region of `p`. */
  lemma {:induction false} RegionFromClosed(rows: nat, cols: nat, g: Grid, p: Point, region: set<Point>)
    requires p in region
    requires forall x :: x in region ==> OnGrid(rows, cols, x) && Connected(rows, cols, g, p, x)
    requires forall x :: x in region ==> ClosedAt(rows, cols, g, x, Content(g, p), region)
    ensures region == RegionOf(rows, cols, g, p)
  {
    CellsMembers(rows, cols);
    forall q | q in RegionOf(rows, cols, g, p) ensures q in region {
      var path: seq<Point> :| IsPath(rows, cols, g, path) && path[0] == p && path[|path| - 1] == q;
      var i := 0;
      while i < |path| - 1
        invariant 0 <= i < |path| && path[i] in region
      {
        assert ClosedAt(rows, cols, g, path[i], Content(g, p), region);
        i := i + 1;
      }
    }
  }

  /** Every point of a region has that same region. */
  lemma RegionShared(rows: nat, cols: nat, g: Grid, p: Point, x: Point)
    requires x in RegionOf(rows, cols, g, p)
    ensures RegionOf(rows, cols, g, x) == RegionOf(rows, cols, g, p)
    ensures Content(g, x) == Content(g, p)
  {
    ConnectedContent(rows, cols, g, p, x);
    ConnectedSymmetric(rows, cols, g, p, x);
    forall y | Connected(rows, cols, g, x, y) ensures Connected(rows, cols, g, p, y) {
      ConnectedTrans(rows, cols, g, p, x, y);
    }
    forall y | Connected(rows, cols, g, p, y) ensures Connected(rows, cols, g, x, y) {
      ConnectedTrans(rows, cols, g, x, p, y);
    }
  }

  lemma SmallerSet(a: set<Point>, b: set<Point>)
    requires a < b
    ensures |a| < |b|
  {
    var x :| x in b && x !in a;
    assert a <= b - {x};
    SubsetCard(a, b - {x});
  }

  lemma SubsetCard<T>(a: set<T>, b: set<T>)
    requires a <= b
    ensures |a| <= |b|
  {
    assert b == a + (b - a);
  }

  lemma BordersSplit(rows: nat, cols: nat, g: Grid, a: set<Point>, b: set<Point>, here: Option<Player>)
    ensures Borders(rows, cols, g, a + b, here) == Borders(rows, cols, g, a, here) + Borders(rows, cols, g, b, here)
  {
  }

  /** The contents differing from `here` among the first `k` neighbours of `p`. */
  ghost function Near(rows: nat, cols: nat, g: Grid, p: Point, k: nat, here: Option<Player>): set<Option<Player>>
    requires k <= 4
  {
    set i | 0 <= i < k && OnGrid(rows, cols, p.Neighbors()[i]) && Content(g, p.Neighbors()[i]) != here
      :: Content(g, p.Neighbors()[i])
  }

  lemma NearAll(rows: nat, cols: nat, g: Grid, p: Point, here: Option<Player>)
    ensures Near(rows, cols, g, p, 4, here) == Borders(rows, cols, g, {p}, here)
  {
    var a, b := Near(rows, cols, g, p, 4, here), Borders(rows, cols, g, {p}, here);
    forall x | x in b ensures x in a {
      var y, n :| y in {p} && n in y.Neighbors() && OnGrid(rows, cols, n) && Content(g, n) != here && Content(g, n) == x;
      if n == p.Up() { assert p.Neighbors()[0] == n; }
      else if n == p.Down() { assert p.Neighbors()[1] == n; }
      else if n == p.Left() { assert p.Neighbors()[2] == n; }
      else { assert p.Neighbors()[3] == n; }
    }
  }

  /** What `_collect_region(start, board, visited)` returns when it is
      entered with `visited`: the points it newly visits, each once, all with
      the content of `start` and connected to it, every same-content
      neighbour of theirs visited, and the differing contents around them. */
  ghost predicate Collected(rows: nat, cols: nat, g: Grid, start: Point, visited: set<Point>,
                            points: seq<Point>, borders: set<Option<Player>>, visitedOut: set<Point>)
  {
    && visited <= visitedOut <= Cells(rows, cols)
    && start in visitedOut
    && (start !in visited ==> |points| > 0 && points[0] == start)
    && Distinct(points)
    && (forall q :: q in points <==> q in visitedOut && q !in visited)
    && (forall q :: q in points ==> Content(g, q) == Content(g, start) && Connected(rows, cols, g, start, q))
    && (forall q :: q in points ==> ClosedAt(rows, cols, g, q, Content(g, start), visitedOut))
    && borders == Borders(rows, cols, g, Elems(points), Content(g, start))
  }

  /** The state of `_collect_region`'s loop after the first `i` neighbours
      of `start`. */
  ghost predicate Progress(rows: nat, cols: nat, g: Grid, start: Point, visited: set<Point>, i: nat,
                           points: seq<Point>, borders: set<Option<Player>>, visitedOut: set<Point>)
    requires i <= 4
  {
    var here := Content(g, start);
    && visited + {start} <= visitedOut <= Cells(rows, cols)
    && |points| > 0 && points[0] == start && Distinct(points)
    && (forall q :: q in points <==> q in visitedOut && q !in visited)
    && (forall q :: q in points ==> Content(g, q) == here && Connected(rows, cols, g, start, q))
    && (forall q :: q in points && q != start ==> ClosedAt(rows, cols, g, q, here, visitedOut))
    && (forall k :: 0 <= k < i ==> Joined(rows, cols, g, start.Neighbors()[k], here, visitedOut))
    && borders == Borders(rows, cols, g, Elems(points[1..]), here) + Near(rows, cols, g, start, i, here)
  }

  lemma ProgressStart(rows: nat, cols: nat, g: Grid, start: Point, visited: set<Point>)
    requires OnGrid(rows, cols, start) && visited <= Cells(rows, cols) && start !in visited
    ensures Progress(rows, cols, g, start, visited, 0, [start], {}, visited + {start})
  {
    CellsMembers(rows, cols);
    ConnectedRefl(rows, cols, g, start);
    assert Elems([start][1..]) == {};
  }

  /** An off-grid neighbour is skipped. */
  lemma ProgressSkip(rows: nat, cols: nat, g: Grid, start: Point, visited: set<Point>, i: nat,
                     points: seq<Point>, borders: set<Option<Player>>, visitedOut: set<Point>)
    requires i < 4 && Progress(rows, cols, g, start, visited, i, points, borders, visitedOut)
    requires !OnGrid(rows, cols, start.Neighbors()[i])
    ensures Progress(rows, cols, g, start, visited, i + 1, points, borders, visitedOut)
  {
    var here := Content(g, start);
    assert Near(rows, cols, g, start, i + 1, here) == Near(rows, cols, g, start, i, here);
  }

  /** A neighbour of different content joins the border. */
  lemma ProgressBorder(rows: nat, cols: nat, g: Grid, start: Point, visited: set<Point>, i: nat,
                       points: seq<Point>, borders: set<Option<Player>>, visitedOut: set<Point>)
    requires i < 4 && Progress(rows, cols, g, start, visited, i, points, borders, visitedOut)
    requires OnGrid(rows, cols, start.Neighbors()[i]) && Content(g, start.Neighbors()[i]) != Content(g, start)
    ensures Progress(rows, cols, g, start, visited, i + 1, points,
                     borders + {Content(g, start.Neighbors()[i])}, visitedOut)
  {
    var here := Content(g, start);
    assert Near(rows, cols, g, start, i + 1, here) ==
           Near(rows, cols, g, start, i, here) + {Content(g, start.Neighbors()[i])};
  }

  /** A neighbour of the same content contributes what the recursive call
      collected from it. */
  lemma ProgressMerge(rows: nat, cols: nat, g: Grid, start: Point, visited: set<Point>, i: nat,
                      points: seq<Point>, borders: set<Option<Player>>, visitedOut: set<Point>,
                      pts: seq<Point>, bds: set<Option<Player>>, vis: set<Point>)
    requires i < 4 && Progress(rows, cols, g, start, visited, i, points, borders, visitedOut)
    requires OnGrid(rows, cols, start.Neighbors()[i]) && Content(g, start.Neighbors()[i]) == Content(g, start)
    requires Collected(rows, cols, g, start.Neighbors()[i], visitedOut, pts, bds, vis)
    ensures Progress(rows, cols, g, start, visited, i + 1, points + pts, borders + bds, vis)
  {
    var here, next := Content(g, start), start.Neighbors()[i];
    CellsMembers(rows, cols);
    forall q | q in pts ensures Connected(rows, cols, g, start, q) {
      ConnectedStep(rows, cols, g, start, next, q);
    }
    DistinctAppend(points, pts);
    MergeBorders(rows, cols, g, start, i, points, borders, pts, bds);
    StepClosed(rows, cols, g, start, here, points, pts, visitedOut, vis);
    StepDeltas(rows, cols, g, start.Neighbors(), i, here, visitedOut, vis);
  }

  /** The borders after merging a same-content neighbour's collection. */
  lemma MergeBorders(rows: nat, cols: nat, g: Grid, start: Point, i: nat,
                     points: seq<Point>, borders: set<Option<Player>>, pts: seq<Point>, bds: set<Option<Player>>)
    requires i < 4 && |points| > 0
    requires OnGrid(rows, cols, start.Neighbors()[i]) && Content(g, start.Neighbors()[i]) == Content(g, start)
    requires borders == Borders(rows, cols, g, Elems(points[1..]), Content(g, start)) + Near(rows, cols, g, start, i, Content(g, start))
    requires bds == Borders(rows, cols, g, Elems(pts), Content(g, start))
    ensures borders + bds ==
            Borders(rows, cols, g, Elems((points + pts)[1..]), Content(g, start)) + Near(rows, cols, g, start, i + 1, Content(g, start))
  {
    var here := Content(g, start);
    assert (points + pts)[1..] == points[1..] + pts;
    assert Elems(points[1..] + pts) == Elems(points[1..]) + Elems(pts);
    BordersSplit(rows, cols, g, Elems(points[1..]), Elems(pts), here);
    assert Near(rows, cols, g, start, i + 1, here) == Near(rows, cols, g, start, i, here);
  }

  lemma ProgressDone(rows: nat, cols: nat, g: Grid, start: Point, visited: set<Point>,
                     points: seq<Point>, borders: set<Option<Player>>, visitedOut: set<Point>)
    requires Progress(rows, cols, g, start, visited, 4, points, borders, visitedOut)
    ensures Collected(rows, cols, g, start, visited, points, borders, visitedOut)
  {
    var here, deltas := Content(g, start), start.Neighbors();
    assert ClosedAt(rows, cols, g, start, here, visitedOut) by {
      assert Joined(rows, cols, g, deltas[0], here, visitedOut);
      assert Joined(rows, cols, g, deltas[1], here, visitedOut);
      assert Joined(rows, cols, g, deltas[2], here, visitedOut);
      assert Joined(rows, cols, g, deltas[3], here, visitedOut);
    }
    assert Elems(points) == {start} + Elems(points[1..]);
    BordersSplit(rows, cols, g, {start}, Elems(points[1..]), here);
    NearAll(rows, cols, g, start, here);
  }

  /** `_collect_region(start, board, visited)`: the points of the same
      content as `start` reachable from it and not visited before, each once,
      and the differing contents bordering them. `visited` is the dictionary
      the source shares between the recursive calls; here it is passed in
      and handed back. */
  method CollectRegion(start: Point, board: Board, visited: set<Point>)
      returns (points: seq<Point>, borders: set<Option<Player>>, visitedOut: set<Point>)
    requires OnGrid(board.numRows, board.numCols, start)
    requires visited <= Cells(board.numRows, board.numCols)
    ensures Collected(board.numRows, board.numCols, board.grid, start, visited, points, borders, visitedOut)
    decreases |Cells(board.numRows, board.numCols)| - |visited|
  {
    ghost var rows, cols, g := board.numRows, board.numCols, board.grid;
    if start in visited {
      CellsMembers(rows, cols);
      assert Elems([]) == {};
      return [], {}, visited;
    }
    points := [start];
    borders := {};
    visitedOut := visited + {start};
    var here := board.Get(start);
    ProgressStart(rows, cols, g, start, visited);
    // The offsets (-1, 0), (1, 0), (0, -1), (0, 1) of the source.
    var deltas := start.Neighbors();
    for i := 0 to 4
      invariant board.grid == g
      invariant Progress(rows, cols, g, start, visited, i, points, borders, visitedOut)
    {
      var next := deltas[i];
      if !board.IsOnGrid(next) {
        ProgressSkip(rows, cols, g, start, visited, i, points, borders, visitedOut);
        continue;
      }
      var neighbor := board.Get(next);
      if neighbor == here {
        SmallerSet(visited, visitedOut);
        SubsetCard(visitedOut, Cells(rows, cols));
        var pts, bds, vis := CollectRegion(next, board, visitedOut);
        ProgressMerge(rows, cols, g, start, visited, i, points, borders, visitedOut, pts, bds, vis);
        points := points + pts;
        borders := borders + bds;
        visitedOut := vis;
      } else {
        ProgressBorder(rows, cols, g, start, visited, i, points, borders, visitedOut);
        borders := borders + {neighbor};
      }
    }
    ProgressDone(rows, cols, g, start, visited, points, borders, visitedOut);
  }

  lemma StepClosed(rows: nat, cols: nat, g: Grid, start: Point, here: Option<Player>,
                   before: seq<Point>, pts: seq<Point>, s: set<Point>, s': set<Point>)
    requires s <= s'
    requires forall q :: q in before && q != start ==> ClosedAt(rows, cols, g, q, here, s)
    requires forall q :: q in pts ==> ClosedAt(rows, cols, g, q, here, s')
    ensures forall q :: q in before + pts && q != start ==> ClosedAt(rows, cols, g, q, here, s')
  {
  }

  lemma StepDeltas(rows: nat, cols: nat, g: Grid, deltas: seq<Point>, i: nat, here: Option<Player>,
                   s: set<Point>, s': set<Point>)
    requires i < |deltas| && s <= s' && deltas[i] in s'
    requires forall k :: 0 <= k < i ==> Joined(rows, cols, g, deltas[k], here, s)
    ensures forall k :: 0 <= k < i + 1 ==> Joined(rows, cols, g, deltas[k], here, s')
  {
  }

  lemma DistinctAppend(a: seq<Point>, b: seq<Point>)
    requires Distinct(a) && Distinct(b)
    requires forall q :: q in a ==> q !in b
    ensures Distinct(a + b)
  {
    forall i, j | 0 <= i < j < |a + b| ensures (a + b)[i] != (a + b)[j] {
      if j < |a| {
        assert (a + b)[i] == a[i] && (a + b)[j] == a[j];
      } else if i >= |a| {
        assert (a + b)[i] == b[i - |a|] && (a + b)[j] == b[j - |a|];
      } else {
        assert (a + b)[i] in a && (a + b)[j] in b;
      }
    }
  }

  // ---------------------------------------------------------------------
  // evaluate_territory

  /** The region `_collect_region` collects from an empty point with a
      fresh `visited` is the whole region of that point, and every point of
      it gets the status its border decides. */
  lemma GroupStatus(rows: nat, cols: nat, g: Grid, point: Point, group: seq<Point>,
                    borders: set<Option<Player>>, visitedOut: set<Point>)
    requires OnGrid(rows, cols, point) && point !in g
    requires Collected(rows, cols, g, point, {}, group, borders, visitedOut)
    ensures Elems(group) == RegionOf(rows, cols, g, point)
    ensures forall q :: q in group ==>
      q in TerritoryMap(rows, cols, g) && TerritoryMap(rows, cols, g)[q] == Fill(borders)
  {
    assert Elems(group) == visitedOut;
    forall x | x in Elems(group) ensures OnGrid(rows, cols, x) {
      ConnectedContent(rows, cols, g, point, x);
    }
    RegionFromClosed(rows, cols, g, point, Elems(group));
    CellsMembers(rows, cols);
    forall q | q in group
      ensures q in TerritoryMap(rows, cols, g) && TerritoryMap(rows, cols, g)[q] == Fill(borders)
    {
      RegionShared(rows, cols, g, point, q);
    }
  }

  /** `evaluate_territory(board)`: the status of every on-grid point. */
  method EvaluateTerritory(board: Board) returns (status: map<Point, Status>)
    ensures status == TerritoryMap(board.numRows, board.numCols, board.grid)
  {
    ghost var rows, cols, g := board.numRows, board.numCols, board.grid;
    ghost var tm := TerritoryMap(rows, cols, g);
    CellsMembers(rows, cols);
    status := map[];
    for row := 1 to board.numRows + 1
      invariant Agrees(status, tm)
      invariant forall p :: OnGrid(rows, cols, p) && p.row < row ==> p in status
    {
      for col := 1 to board.numCols + 1
        invariant Agrees(status, tm)
        invariant forall p :: OnGrid(rows, cols, p) && (p.row < row || (p.row == row && p.col < col)) ==> p in status
      {
        var point := Point(row, col);
        if point in status {
          continue;
        }
        status := EvaluatePoint(board, point, status);
      }
    }
    assert status.Keys == tm.Keys;
  }

  /** Every point `status` marks has the status `tm` gives it. */
  ghost predicate Agrees(status: map<Point, Status>, tm: map<Point, Status>) {
    forall p :: p in status ==> p in tm && status[p] == tm[p]
  }

  /** The body of `evaluate_territory`'s loop for a point not yet marked:
      a stone is marked with its colour, an empty point's whole region with
      the status its border decides. */
  method EvaluatePoint(board: Board, point: Point, status: map<Point, Status>) returns (status': map<Point, Status>)
    requires OnGrid(board.numRows, board.numCols, point)
    requires Agrees(status, TerritoryMap(board.numRows, board.numCols, board.grid))
    ensures status.Keys + {point} <= status'.Keys
    ensures Agrees(status', TerritoryMap(board.numRows, board.numCols, board.grid))
  {
    ghost var rows, cols, g := board.numRows, board.numCols, board.grid;
    CellsMembers(rows, cols);
    var stone := board.Get(point);
    if stone.Some? {
      return status[point := Stone(stone.value)];
    }
    var group, neighbors, visitedAll := CollectRegion(point, board, {});
    var fillWith: Status;
    if |neighbors| == 1 {
      var neighborStone :| neighborStone in neighbors;
      FillSingle(neighbors, neighborStone);
      fillWith := if neighborStone == Some(Black) then TerritoryOf(Black) else TerritoryOf(White);
    } else {
      fillWith := Neutral;
    }
    GroupStatus(rows, cols, g, point, group, neighbors, visitedAll);
    status' := MarkRegion(status, group, fillWith, TerritoryMap(rows, cols, g));
  }

  /** The source's `for pos in group: status[pos] = fill_with`. */
  method MarkRegion(status: map<Point, Status>, group: seq<Point>, fillWith: Status, ghost tm: map<Point, Status>)
      returns (status': map<Point, Status>)
    requires |group| > 0
    requires Agrees(status, tm)
    requires forall q :: q in group ==> q in tm && tm[q] == fillWith
    ensures status.Keys + {group[0]} <= status'.Keys
    ensures Agrees(status', tm)
  {
    status' := status;
    for j := 0 to |group|
      invariant status.Keys <= status'.Keys
      invariant j > 0 ==> group[0] in status'
      invariant Agrees(status', tm)
    {
      status' := status'[group[j] := fillWith];
    }
  }

  /** A one-element border set decides the fill by its one element. */
  lemma FillSingle(borders: set<Option<Player>>, b: Option<Player>)
    requires |borders| == 1 && b in borders
    ensures Fill(borders) == if b == Some(Black) then TerritoryOf(Black) else TerritoryOf(White)
  {
    forall x | x in borders ensures x == b {
      if x != b {
        assert {x, b} <= borders;
        SubsetCard({x, b}, borders);
      }
    }
    assert borders == {b};
  }

  // ---------------------------------------------------------------------
  // Territory, GameResult, compute_game_result

  /** `Territory(territory_map)`: the five counts and the neutral points. */
  datatype Territory = Territory(
    numBlackTerritory: nat, numWhiteTerritory: nat,
    numBlackStones: nat, numWhiteStones: nat,
    numNeutral: nat, neutralPoints: seq<Point>)

  /** The number of points of `within` that `status` marks `s`. */
  ghost function Tally(status: map<Point, Status>, within: set<Point>, s: Status): nat {
    |set p | p in within && p in status && status[p] == s|
  }

  lemma TallyStep(status: map<Point, Status>, done: set<Point>, p: Point, s: Status)
    requires p !in done && p in status
    ensures Tally(status, done + {p}, s) == Tally(status, done, s) + (if status[p] == s then 1 else 0)
  {
    var a := set q | q in done && q in status && status[q] == s;
    var b := set q | q in done + {p} && q in status && status[q] == s;
    if status[p] == s {
      assert b == a + {p};
    } else {
      assert b == a;
    }
  }

  /** The counters of `t` are those of the points `done` of `status`. */
  ghost predicate Counted(status: map<Point, Status>, done: set<Point>, t: Territory)
    requires done <= status.Keys
  {
    && t.numBlackStones == Tally(status, done, Stone(Black))
    && t.numWhiteStones == Tally(status, done, Stone(White))
    && t.numBlackTerritory == Tally(status, done, TerritoryOf(Black))
    && t.numWhiteTerritory == Tally(status, done, TerritoryOf(White))
    && t.numNeutral == Tally(status, done, Neutral) == |t.neutralPoints|
    && Distinct(t.neutralPoints)
    && (forall p :: p in t.neutralPoints <==> p in done && status[p] == Neutral)
    && t.numBlackTerritory + t.numWhiteTerritory + t.numBlackStones + t.numWhiteStones + t.numNeutral == |done|
  }

  /** The `if`/`elif` chain of the constructor's loop: the counter of the
      point's status goes up, and a neutral point is recorded. */
  function AddPoint(t: Territory, point: Point, s: Status): Territory {
    match s
    case Stone(Black) => t.(numBlackStones := t.numBlackStones + 1)
    case Stone(White) => t.(numWhiteStones := t.numWhiteStones + 1)
    case TerritoryOf(Black) => t.(numBlackTerritory := t.numBlackTerritory + 1)
    case TerritoryOf(White) => t.(numWhiteTerritory := t.numWhiteTerritory + 1)
    case Neutral => t.(numNeutral := t.numNeutral + 1, neutralPoints := t.neutralPoints + [point])
  }

  /** The loop state of the constructor: `todo` and `done` split the map's
      points, and the counters hold the statuses of `done`. */
  ghost predicate Counting(status: map<Point, Status>, todo: set<Point>, done: set<Point>, t: Territory) {
    todo + done == status.Keys && todo !! done && Counted(status, done, t)
  }

  lemma CountStep(status: map<Point, Status>, todo: set<Point>, done: set<Point>, p: Point, t: Territory)
    requires Counting(status, todo, done, t) && p in todo
    ensures p in status
    ensures Counting(status, todo - {p}, done + {p}, AddPoint(t, p, status[p]))
  {
    TallyStep(status, done, p, Stone(Black));
    TallyStep(status, done, p, Stone(White));
    TallyStep(status, done, p, TerritoryOf(Black));
    TallyStep(status, done, p, TerritoryOf(White));
    TallyStep(status, done, p, Neutral);
    DistinctAppend(t.neutralPoints, [p]);
  }

  /** The constructor of `Territory`: one pass over the map, counting each
      point under its status. Dictionary order is not modelled, so the
      neutral points come in some order. */
  method NewTerritory(status: map<Point, Status>) returns (t: Territory)
    ensures t.numBlackStones == Tally(status, status.Keys, Stone(Black))
    ensures t.numWhiteStones == Tally(status, status.Keys, Stone(White))
    ensures t.numBlackTerritory == Tally(status, status.Keys, TerritoryOf(Black))
    ensures t.numWhiteTerritory == Tally(status, status.Keys, TerritoryOf(White))
    ensures t.numNeutral == Tally(status, status.Keys, Neutral) == |t.neutralPoints|
    ensures Distinct(t.neutralPoints)
    ensures forall p :: p in t.neutralPoints <==> p in status && status[p] == Neutral
    ensures t.numBlackTerritory + t.numWhiteTerritory + t.numBlackStones + t.numWhiteStones + t.numNeutral
            == |status|
  {
    t := Territory(0, 0, 0, 0, 0, []);
    var todo := status.Keys;
    ghost var done: set<Point> := {};
    while todo != {}
      invariant Counting(status, todo, done, t)
      decreases todo
    {
      var point :| point in todo;
      CountStep(status, todo, done, point, t);
      t := AddPoint(t, point, status[point]);
      todo := todo - {point};
      done := done + {point};
    }
    assert done == status.Keys;
  }

  /** The final score: `b` and `w` are points, `komi` is added to White. */
  datatype GameResult = GameResult(b: int, w: int, komi: real) {
    /** Black wins only with strictly more than White plus komi. */
    function Winner(): Player {
      if b as real > w as real + komi then Black else White
    }

    /** The absolute difference between Black's and White's totals. */
    function WinningMargin(): (m: real)
      ensures m >= 0.0
      ensures m == b as real - (w as real + komi) || m == (w as real + komi) - b as real
    {
      var w' := w as real + komi;
      if b as real >= w' then b as real - w' else w' - b as real
    }
  }

  /** With whole-point totals and a komi of 7.5 a game never ends level:
      the margin is at least one half and Black wins exactly when it leads
      by eight points or more. */
  lemma NoTie(r: GameResult)
    requires r.komi == 7.5
    ensures r.WinningMargin() >= 0.5
    ensures r.Winner() == Black <==> r.b >= r.w + 8
  {
    if r.b >= r.w + 8 {
      assert r.b as real >= r.w as real + 8.0;
    } else {
      assert r.b as real <= r.w as real + 7.0;
    }
  }

  /** The winner's margin, signed from Black's side, is Black's total
      minus White's total with komi. */
  lemma SignedMargin(r: GameResult)
    ensures (if r.Winner() == Black then r.WinningMargin() else -r.WinningMargin())
            == r.b as real - (r.w as real + r.komi)
  {
  }

  /** The result area scoring gives the grid `g`. */
  ghost function AreaResult(rows: nat, cols: nat, g: Grid): GameResult {
    var tm := TerritoryMap(rows, cols, g);
    GameResult(
      Tally(tm, tm.Keys, TerritoryOf(Black)) + Tally(tm, tm.Keys, Stone(Black)),
      Tally(tm, tm.Keys, TerritoryOf(White)) + Tally(tm, tm.Keys, Stone(White)),
      7.5)
  }

  /** `compute_game_result`: the source passes the game state and uses only
      its board. */
  method ComputeGameResult(board: Board) returns (r: GameResult)
    ensures r == AreaResult(board.numRows, board.numCols, board.grid)
  {
    var status := EvaluateTerritory(board);
    var territory := NewTerritory(status);
    r := GameResult(
      territory.numBlackTerritory + territory.numBlackStones,
      territory.numWhiteTerritory + territory.numWhiteStones,
      7.5);
  }

  /** The stones counted for a colour are exactly that colour's stones on
      the grid. */
  lemma StonesTallied(rows: nat, cols: nat, g: Grid, c: Player)
    requires OnBoard(rows, cols, g)
    ensures var tm := TerritoryMap(rows, cols, g);
      Tally(tm, tm.Keys, Stone(c)) == |set p | p in g && g[p].color == c|
  {
    var tm := TerritoryMap(rows, cols, g);
    CellsMembers(rows, cols);
    assert (set p | p in tm.Keys && p in tm && tm[p] == Stone(c)) == (set p | p in g && g[p].color == c);
  }
}
