/** The effect of `Board.place_stone` on the grid, as pure functions on
    grid values (dlgo/goboard.py:81-115, 134-148), and the proof that it
    keeps the grid consistent. `GoBoard.Board.PlaceStone` performs the same
    steps in place and is proved to produce `Placed`. */
module Placement {
  import opened GoTypes
  import opened GoStrings

  /** What `place_stone` gathers from the neighbours of the new stone:
      the empty on-grid neighbours, and the distinct adjacent strings of
      the player's colour and of the opponent's, in order of discovery. */
  datatype Survey = Survey(liberties: seq<Point>, same: seq<GoString>, opposite: seq<GoString>)

  /** The survey after visiting the neighbours `ns` in order. */
  function Scan(rows: int, cols: int, g: Grid, player: Player, ns: seq<Point>): Survey
  {
    if ns == [] then Survey([], [], [])
    else
      var r := Scan(rows, cols, g, player, ns[..|ns| - 1]);
      var n := ns[|ns| - 1];
      if !OnGrid(rows, cols, n) then r
      else if n !in g then r.(liberties := r.liberties + [n])
      else if g[n].color == player then
        (if g[n] in r.same then r else r.(same := r.same + [g[n]]))
      else
        (if g[n] in r.opposite then r else r.(opposite := r.opposite + [g[n]]))
  }

  /** Some neighbour in `ns` lies on the grid and holds a stone of string `s`. */
  ghost predicate Found(rows: int, cols: int, g: Grid, ns: seq<Point>, s: GoString) {
    exists n :: n in ns && OnGrid(rows, cols, n) && n in g && g[n] == s
  }

  /** The survey records exactly the empty on-grid neighbours, and each
      adjacent string once, sorted by colour. */
  lemma {:induction false} ScanFacts(rows: int, cols: int, g: Grid, player: Player, ns: seq<Point>)
    ensures var r := Scan(rows, cols, g, player, ns);
      && (forall n :: n in r.liberties <==> n in ns && OnGrid(rows, cols, n) && n !in g)
      && (forall s :: s in r.same <==> Found(rows, cols, g, ns, s) && s.color == player)
      && (forall s :: s in r.opposite <==> Found(rows, cols, g, ns, s) && s.color != player)
      && Distinct(r.same) && Distinct(r.opposite)
  {
    if ns != [] {
      var init, n := ns[..|ns| - 1], ns[|ns| - 1];
      ScanFacts(rows, cols, g, player, init);
      assert ns == init + [n];
      forall s ensures Found(rows, cols, g, ns, s) <==>
        Found(rows, cols, g, init, s) || (OnGrid(rows, cols, n) && n in g && g[n] == s)
      {
        if Found(rows, cols, g, ns, s) {
          var m :| m in ns && OnGrid(rows, cols, m) && m in g && g[m] == s;
          if m != n {
            assert m in init;
          }
        }
      }
    }
  }

  /** Union of the stones of a sequence of strings. */
  function UnionStones(ss: seq<GoString>): (r: set<Point>)
    ensures forall p :: p in r <==> exists i :: 0 <= i < |ss| && p in ss[i].stones
  {
    if ss == [] then {} else UnionStones(ss[..|ss| - 1]) + ss[|ss| - 1].stones
  }

  /** Union of the liberties of a sequence of strings. */
  function UnionLiberties(ss: seq<GoString>): (r: set<Point>)
    ensures forall p :: p in r <==> exists i :: 0 <= i < |ss| && p in ss[i].liberties
  {
    if ss == [] then {} else UnionLiberties(ss[..|ss| - 1]) + ss[|ss| - 1].liberties
  }

  /** `new_string.merged_with(...)` over the adjacent friendly strings in order:
      the stones of all of them, and their liberties minus those stones. */
  function MergeAll(start: GoString, ss: seq<GoString>): (r: GoString)
    requires start.stones !! start.liberties
    requires forall i :: 0 <= i < |ss| ==> ss[i].color == start.color
    ensures r.color == start.color
    ensures r.stones == start.stones + UnionStones(ss)
    ensures r.liberties == (start.liberties + UnionLiberties(ss)) - r.stones
  {
    if ss == [] then start
    else MergeAll(start, ss[..|ss| - 1]).MergedWith(ss[|ss| - 1])
  }

  /** `_replace_string(t)`: every stone of `t` now maps to `t`. */
  function WithString(g: Grid, t: GoString): Grid {
    g + map q | q in t.stones :: t
  }

  /** String `t` after the points `freed` became empty: those of them
      adjacent to its stones are added to its liberties. */
  function AddLiberties(t: GoString, freed: set<Point>): GoString {
    GoString(t.color, t.stones, t.liberties + set d | d in freed && Touches(d, t.stones))
  }

  /** `_remove_string(s)`: the stones of `s` leave the grid, and each of
      them becomes a liberty of every other string next to it. */
  function Vacated(g: Grid, s: GoString): Grid {
    map q | q in g && q !in s.stones :: AddLiberties(g[q], s.stones)
  }

  /** The enemy string `s` loses the liberty `point`; if that was its last
      one it is removed, otherwise it is replaced with the reduced string. */
  function CaptureStep(g: Grid, s: GoString, point: Point): Grid {
    var replacement := s.WithoutLiberty(point);
    if replacement.NumLiberties() > 0 then WithString(g, replacement) else Vacated(g, s)
  }

  /** `CaptureStep` for each adjacent enemy string, in order of discovery. */
  function CaptureAll(g: Grid, pending: seq<GoString>, point: Point): Grid
    decreases |pending|
  {
    if pending == [] then g else CaptureAll(CaptureStep(g, pending[0], point), pending[1..], point)
  }

  /** The stones of those strings in `pending` whose only liberty was `point`. */
  function CapturedStones(pending: seq<GoString>, point: Point): (r: set<Point>)
    ensures forall q :: q in r <==>
      exists s :: s in pending && q in s.stones && s.WithoutLiberty(point).NumLiberties() == 0
    decreases |pending|
  {
    if pending == [] then {}
    else (if pending[0].WithoutLiberty(point).NumLiberties() > 0 then {} else pending[0].stones)
         + CapturedStones(pending[1..], point)
  }

  /** The survey `place_stone` takes around `point`. */
  function Surroundings(rows: int, cols: int, g: Grid, player: Player, point: Point): Survey {
    Scan(rows, cols, g, player, point.Neighbors())
  }

  /** The string holding the new stone: the stone with its empty neighbours
      as liberties, merged with every adjacent friendly string. */
  function NewString(rows: int, cols: int, g: Grid, player: Player, point: Point): GoString {
    var sv := Surroundings(rows, cols, g, player, point);
    ScanFacts(rows, cols, g, player, point.Neighbors());
    MergeAll(GoString(player, {point}, set n | n in sv.liberties), sv.same)
  }

  /** The survey around `point` can start a merge: `point` is not among
      its own empty neighbours, and every adjacent friendly string has the
      player's colour. */
  lemma SurveyMergeable(rows: int, cols: int, g: Grid, player: Player, point: Point)
    ensures var sv := Surroundings(rows, cols, g, player, point);
      && point !in sv.liberties
      && forall i :: 0 <= i < |sv.same| ==> sv.same[i].color == player
  {
    var sv := Surroundings(rows, cols, g, player, point);
    ScanFacts(rows, cols, g, player, point.Neighbors());
    forall i | 0 <= i < |sv.same| ensures sv.same[i].color == player {
      assert sv.same[i] in sv.same;
    }
  }

  /** The grid after `place_stone(player, point)`. */
  function Placed(rows: int, cols: int, g: Grid, player: Player, point: Point): Grid {
    var sv := Surroundings(rows, cols, g, player, point);
    CaptureAll(WithString(g, NewString(rows, cols, g, player, point)), sv.opposite, point)
  }

  /** Every stone of `s` maps to `s` itself in `g`. */
  ghost predicate Intact(g: Grid, s: GoString) {
    forall r :: r in s.stones ==> r in g && g[r] == s
  }

  /** The grid while the adjacent enemy strings `pending` still await their
      `CaptureStep`: consistent, except that each pending string still
      lists the new stone's point among its liberties. */
  ghost predicate CaptureInv(rows: int, cols: int, g: Grid, player: Player, point: Point, pending: seq<GoString>) {
    && OnBoard(rows, cols, g) && Membership(g) && Maximal(g)
    && point in g && g[point].color == player
    && Distinct(pending)
    && (forall i :: 0 <= i < |pending| ==> Intact(g, pending[i]) && pending[i].color != player)
    && (forall q, n :: q in g ==>
          (n in g[q].liberties <==> IsLiberty(rows, cols, g, g[q].stones, n) || (n == point && g[q] in pending)))
  }

  /** `g2` is `g` with the points `removed` taken off the board, every
      remaining point keeping its colour and its string's stones. */
  ghost predicate Shrinks(g: Grid, g2: Grid, removed: set<Point>) {
    && (forall q :: q in g2 <==> q in g && q !in removed)
    && (forall q :: q in g2 ==> g2[q].color == g[q].color && g2[q].stones == g[q].stones)
  }

  /** With no enemy string pending, the invariant is plain consistency. */
  lemma CaptureInvDone(rows: int, cols: int, g: Grid, player: Player, point: Point)
    requires CaptureInv(rows, cols, g, player, point, [])
    ensures WellFormed(rows, cols, g)
  {
    forall q | q in g ensures ExactLiberties(rows, cols, g, g[q]) {
      forall n ensures n in g[q].liberties <==> IsLiberty(rows, cols, g, g[q].stones, n) {
        assert g[q] !in [];
      }
    }
  }

  /** Two different pending strings share no stone. */
  lemma PendingDisjoint(g: Grid, pending: seq<GoString>, i: int, j: int)
    requires Distinct(pending) && 0 <= i < |pending| && 0 <= j < |pending| && i != j
    requires Intact(g, pending[i]) && Intact(g, pending[j])
    ensures pending[i].stones !! pending[j].stones
  {
    forall r | r in pending[i].stones ensures r !in pending[j].stones {
      assert g[r] == pending[i];
    }
  }

  /** Taking points off the board while keeping every remaining string's
      colour and stones cannot make strings non-maximal. */
  lemma MaximalKept(g: Grid, g2: Grid, removed: set<Point>)
    requires Maximal(g) && Shrinks(g, g2, removed)
    ensures Maximal(g2)
  {
    forall q | q in g2
      ensures !Separated(g2, q, q.Up()) && !Separated(g2, q, q.Down())
      ensures !Separated(g2, q, q.Left()) && !Separated(g2, q, q.Right())
    {
      assert !Separated(g, q, q.Up()) && !Separated(g, q, q.Down());
      assert !Separated(g, q, q.Left()) && !Separated(g, q, q.Right());
    }
  }

  /** Replacing an intact string by one with the same colour and stones. */
  lemma ReplaceShape(g: Grid, s: GoString, s': GoString)
    requires Membership(g) && Intact(g, s)
    requires s'.color == s.color && s'.stones == s.stones
    ensures Shrinks(g, WithString(g, s'), {})
    ensures Membership(WithString(g, s'))
    ensures Intact(WithString(g, s'), s')
    ensures forall q :: q in g && q !in s.stones ==> WithString(g, s')[q] == g[q]
  {
    var g' := WithString(g, s');
    forall q, r | q in g' && r in g'[q].stones ensures r in g' && g'[r] == g'[q] {
      if q !in s.stones {
        assert g[r] == g[q];
      }
    }
  }

  /** A pending string that still has another liberty only loses `point`. */
  lemma {:induction false} TrimStep(rows: int, cols: int, g: Grid, player: Player, point: Point, pending: seq<GoString>)
    requires CaptureInv(rows, cols, g, player, point, pending) && pending != []
    requires pending[0].WithoutLiberty(point).NumLiberties() > 0
    ensures CaptureInv(rows, cols, CaptureStep(g, pending[0], point), player, point, pending[1..])
    ensures Shrinks(g, CaptureStep(g, pending[0], point), {})
  {
    var s, rest := pending[0], pending[1..];
    var s' := s.WithoutLiberty(point);
    var g' := CaptureStep(g, s, point);
    assert g' == WithString(g, s');
    assert Intact(g, s);
    ReplaceShape(g, s, s');
    MaximalKept(g, g', {});
    assert point !in s.stones;
    forall j | 0 <= j < |rest| ensures Intact(g', rest[j]) && rest[j].color != player {
      assert rest[j] == pending[j + 1];
      PendingDisjoint(g, pending, 0, j + 1);
    }
    TrimLiberties(rows, cols, g, player, point, pending);
  }

  lemma TrimLiberties(rows: int, cols: int, g: Grid, player: Player, point: Point, pending: seq<GoString>)
    requires CaptureInv(rows, cols, g, player, point, pending) && pending != []
    ensures var g' := WithString(g, pending[0].WithoutLiberty(point));
      forall q, n | q in g' ::
        n in g'[q].liberties <==> IsLiberty(rows, cols, g', g'[q].stones, n) || (n == point && g'[q] in pending[1..])
  {
    var s, rest := pending[0], pending[1..];
    var s' := s.WithoutLiberty(point);
    var g' := WithString(g, s');
    assert Intact(g, s);
    assert pending == [s] + rest;
    forall q, n | q in g'
      ensures n in g'[q].liberties <==> IsLiberty(rows, cols, g', g'[q].stones, n) || (n == point && g'[q] in rest)
    {
      if q !in s.stones {
        assert g[q] != s;
      }
    }
  }

  /** Removing an intact string: every remaining string keeps its colour
      and stones, and the grid still maps each stone to its own string. */
  lemma VacatedShape(g: Grid, s: GoString)
    requires Membership(g) && Intact(g, s)
    ensures Shrinks(g, Vacated(g, s), s.stones)
    ensures Membership(Vacated(g, s))
  {
    var g' := Vacated(g, s);
    forall q, r | q in g' && r in g'[q].stones ensures r in g' && g'[r] == g'[q] {
      assert g[r] == g[q];
    }
  }

  /** A pending string other than `s` lies next to no stone of `s`: both
      belong to the opponent, and strings are maximal. */
  lemma PendingApart(g: Grid, player: Player, s: GoString, s2: GoString)
    requires Membership(g) && Maximal(g) && Intact(g, s) && Intact(g, s2)
    requires s != s2 && s.color != player && s2.color != player
    ensures forall d :: d in s.stones ==> !Touches(d, s2.stones)
  {
    forall d | d in s.stones ensures !Touches(d, s2.stones) {
      assert !Separated(g, d, d.Up()) && !Separated(g, d, d.Down());
      assert !Separated(g, d, d.Left()) && !Separated(g, d, d.Right());
    }
  }

  /** Removing the first pending string leaves the others intact. */
  lemma PendingSurvives(g: Grid, player: Player, pending: seq<GoString>, j: int)
    requires Membership(g) && Maximal(g) && Distinct(pending) && 1 <= j < |pending|
    requires Intact(g, pending[0]) && Intact(g, pending[j])
    requires pending[0].color != player && pending[j].color != player
    ensures Intact(Vacated(g, pending[0]), pending[j])
  {
    var s, s2 := pending[0], pending[j];
    PendingDisjoint(g, pending, 0, j);
    PendingApart(g, player, s, s2);
    assert (set d | d in s.stones && Touches(d, s2.stones)) == {};
    assert AddLiberties(s2, s.stones) == s2;
  }

  /** A pending string whose last liberty was `point` is removed. */
  lemma {:induction false} RemoveStep(rows: int, cols: int, g: Grid, player: Player, point: Point, pending: seq<GoString>)
    requires CaptureInv(rows, cols, g, player, point, pending) && pending != []
    requires pending[0].WithoutLiberty(point).NumLiberties() == 0
    ensures CaptureInv(rows, cols, CaptureStep(g, pending[0], point), player, point, pending[1..])
    ensures Shrinks(g, CaptureStep(g, pending[0], point), pending[0].stones)
  {
    var s, rest := pending[0], pending[1..];
    var g' := CaptureStep(g, s, point);
    assert g' == Vacated(g, s);
    assert Intact(g, s);
    VacatedShape(g, s);
    MaximalKept(g, g', s.stones);
    assert point !in s.stones;
    forall j | 1 <= j < |pending| ensures Intact(g', pending[j]) {
      PendingSurvives(g, player, pending, j);
    }
    assert forall j :: 0 <= j < |rest| ==> rest[j] == pending[j + 1];
    RemoveLiberties(rows, cols, g, player, point, pending);
  }

  lemma RemoveLiberties(rows: int, cols: int, g: Grid, player: Player, point: Point, pending: seq<GoString>)
    requires CaptureInv(rows, cols, g, player, point, pending) && pending != []
    requires pending[0].WithoutLiberty(point).NumLiberties() == 0
    requires forall j :: 1 <= j < |pending| ==> Intact(Vacated(g, pending[0]), pending[j])
    ensures var g' := Vacated(g, pending[0]);
      forall q, n | q in g' ::
        n in g'[q].liberties <==> IsLiberty(rows, cols, g', g'[q].stones, n) || (n == point && g'[q] in pending[1..])
  {
    var s, rest := pending[0], pending[1..];
    var g' := Vacated(g, s);
    assert Intact(g, s);
    assert pending == [s] + rest;
    forall q, n | q in g'
      ensures n in g'[q].liberties <==> IsLiberty(rows, cols, g', g'[q].stones, n) || (n == point && g'[q] in rest)
    {
      assert g[q] != s;
      assert g'[q] in rest <==> g[q] in rest by {
        if g'[q] in rest {
          var j :| 0 <= j < |rest| && rest[j] == g'[q];
          assert rest[j] == pending[j + 1];
          assert g'[q] == g'[q];
        }
      }
    }
  }

  lemma ShrinksTrans(g1: Grid, g2: Grid, g3: Grid, r1: set<Point>, r2: set<Point>)
    requires Shrinks(g1, g2, r1) && Shrinks(g2, g3, r2)
    ensures Shrinks(g1, g3, r1 + r2)
  {
  }

  /** Resolving all pending enemy strings leaves a consistent grid from
      which exactly the stones of the strings without another liberty are
      gone. */
  lemma {:induction false} CaptureAllFacts(rows: int, cols: int, g: Grid, player: Player, point: Point, pending: seq<GoString>)
    requires CaptureInv(rows, cols, g, player, point, pending)
    ensures CaptureInv(rows, cols, CaptureAll(g, pending, point), player, point, [])
    ensures Shrinks(g, CaptureAll(g, pending, point), CapturedStones(pending, point))
    decreases |pending|
  {
    if pending != [] {
      var g' := CaptureStep(g, pending[0], point);
      var r0: set<Point> := if pending[0].WithoutLiberty(point).NumLiberties() > 0 then {} else pending[0].stones;
      if pending[0].WithoutLiberty(point).NumLiberties() > 0 {
        TrimStep(rows, cols, g, player, point, pending);
      } else {
        RemoveStep(rows, cols, g, player, point, pending);
      }
      CaptureAllFacts(rows, cols, g', player, point, pending[1..]);
      ShrinksTrans(g, g', CaptureAll(g', pending[1..], point), r0, CapturedStones(pending[1..], point));
    }
  }

  /** Under a consistent grid a string is found among the neighbours of
      `point` exactly when one of its stones is next to `point`. */
  lemma FoundIffTouches(rows: int, cols: int, g: Grid, point: Point)
    requires OnBoard(rows, cols, g) && Membership(g)
    ensures forall s :: Found(rows, cols, g, point.Neighbors(), s) ==> Intact(g, s) && Touches(point, s.stones)
    ensures forall q :: q in g && Touches(point, g[q].stones) ==> Found(rows, cols, g, point.Neighbors(), g[q])
  {
    var ns := point.Neighbors();
    forall s | Found(rows, cols, g, ns, s) ensures Intact(g, s) && Touches(point, s.stones) {
      var n :| n in ns && OnGrid(rows, cols, n) && n in g && g[n] == s;
      assert n in s.stones;
    }
    forall q | q in g && Touches(point, g[q].stones) ensures Found(rows, cols, g, ns, g[q]) {
      var n :| n in ns && n in g[q].stones;
      assert g[n] == g[q];
    }
  }

  /** The neighbours of `point` are the points adjacent to it. */
  lemma NeighboursAdjacent(point: Point)
    ensures forall n :: n in point.Neighbors() <==> Touches(n, {point})
  {
  }

  /** Under a consistent grid the survey around a point is described by
      adjacency alone: the friendly (enemy) strings found are exactly those
      of the player's (the opponent's) colour with a stone next to
      `point`, and the liberties found are the empty on-grid neighbours of
      `point`. */
  lemma SurveyFacts(rows: int, cols: int, g: Grid, player: Player, point: Point)
    requires WellFormed(rows, cols, g)
    ensures var sv := Surroundings(rows, cols, g, player, point);
      && (forall q :: q in g ==>
            (g[q] in sv.same <==> g[q].color == player && Touches(point, g[q].stones)))
      && (forall q :: q in g ==>
            (g[q] in sv.opposite <==> g[q].color != player && Touches(point, g[q].stones)))
      && (forall s :: s in sv.same ==> Intact(g, s) && s.color == player && Touches(point, s.stones))
      && (forall s :: s in sv.opposite ==> Intact(g, s) && s.color != player && Touches(point, s.stones))
      && (forall n :: n in sv.liberties <==> IsLiberty(rows, cols, g, {point}, n))
      && Distinct(sv.opposite)
  {
    ScanFacts(rows, cols, g, player, point.Neighbors());
    FoundIffTouches(rows, cols, g, point);
    NeighboursAdjacent(point);
  }

  /** The stones of the new string: the new stone and every stone of a
      friendly string next to it. */
  lemma NewStringStones(rows: int, cols: int, g: Grid, player: Player, point: Point)
    requires WellFormed(rows, cols, g) && point !in g
    ensures var ns := NewString(rows, cols, g, player, point);
      && ns.color == player
      && (forall q :: q in ns.stones <==>
            q == point || (q in g && g[q].color == player && Touches(point, g[q].stones)))
  {
    var sv := Surroundings(rows, cols, g, player, point);
    SurveyFacts(rows, cols, g, player, point);
    forall q | q in UnionStones(sv.same)
      ensures q in g && g[q].color == player && Touches(point, g[q].stones)
    {
      var i :| 0 <= i < |sv.same| && q in sv.same[i].stones;
      assert Intact(g, sv.same[i]);
    }
  }

  /** The liberties of the new string are exact once its stone is down. */
  lemma NewStringLiberties(rows: int, cols: int, g: Grid, player: Player, point: Point)
    requires WellFormed(rows, cols, g) && OnGrid(rows, cols, point) && point !in g
    ensures var ns := NewString(rows, cols, g, player, point);
      ExactLiberties(rows, cols, WithString(g, ns), ns)
  {
    var ns := NewString(rows, cols, g, player, point);
    forall n ensures n in ns.liberties <==> IsLiberty(rows, cols, WithString(g, ns), ns.stones, n) {
      if n in ns.liberties {
        NewLibertySound(rows, cols, g, player, point, n);
      }
      if IsLiberty(rows, cols, WithString(g, ns), ns.stones, n) {
        NewLibertyComplete(rows, cols, g, player, point, n);
      }
    }
  }

  lemma NewLibertySound(rows: int, cols: int, g: Grid, player: Player, point: Point, n: Point)
    requires WellFormed(rows, cols, g) && OnGrid(rows, cols, point) && point !in g
    requires n in NewString(rows, cols, g, player, point).liberties
    ensures var ns := NewString(rows, cols, g, player, point);
      IsLiberty(rows, cols, WithString(g, ns), ns.stones, n)
  {
    var sv := Surroundings(rows, cols, g, player, point);
    SurveyFacts(rows, cols, g, player, point);
    NewStringStones(rows, cols, g, player, point);
    if n in UnionLiberties(sv.same) {
      var i :| 0 <= i < |sv.same| && n in sv.same[i].liberties;
      var r :| r in sv.same[i].stones;
      assert g[r] == sv.same[i];
      assert IsLiberty(rows, cols, g, sv.same[i].stones, n);
    }
  }

  lemma NewLibertyComplete(rows: int, cols: int, g: Grid, player: Player, point: Point, n: Point)
    requires WellFormed(rows, cols, g) && OnGrid(rows, cols, point) && point !in g
    requires var ns := NewString(rows, cols, g, player, point);
      IsLiberty(rows, cols, WithString(g, ns), ns.stones, n)
    ensures n in NewString(rows, cols, g, player, point).liberties
  {
    var sv := Surroundings(rows, cols, g, player, point);
    var ns := NewString(rows, cols, g, player, point);
    SurveyFacts(rows, cols, g, player, point);
    NewStringStones(rows, cols, g, player, point);
    var m := if n.Up() in ns.stones then n.Up() else if n.Down() in ns.stones then n.Down()
             else if n.Left() in ns.stones then n.Left() else n.Right();
    assert n !in g && n !in ns.stones;
    if m != point {
      LibertyOfPart(rows, cols, g, g[m], m, n);
      assert g[m] in sv.same;
      var i :| 0 <= i < |sv.same| && sv.same[i] == g[m];
      assert n in UnionLiberties(sv.same);
    } else {
      assert IsLiberty(rows, cols, g, {point}, n);
    }
  }

  /** An empty on-grid point next to a stone of a string with exact
      liberties is one of its liberties. */
  lemma LibertyOfPart(rows: int, cols: int, g: Grid, s: GoString, m: Point, n: Point)
    requires ExactLiberties(rows, cols, g, s)
    requires m in s.stones && (m == n.Up() || m == n.Down() || m == n.Left() || m == n.Right())
    requires OnGrid(rows, cols, n) && n !in g
    ensures n in s.liberties
  {
    assert IsLiberty(rows, cols, g, s.stones, n);
  }

  /** `ns` holds the new stone at `point` and exactly the friendly stones
      of the strings next to it. */
  ghost predicate MergedAround(g: Grid, player: Player, point: Point, ns: GoString) {
    && ns.color == player
    && forall r :: r in ns.stones <==> r == point || (r in g && g[r].color == player && Touches(point, g[r].stones))
  }

  /** The grid right after the merged string is written: strings still map
      each stone to themselves and are still maximal. */
  lemma WrittenShape(rows: int, cols: int, g: Grid, player: Player, point: Point, ns: GoString)
    requires OnBoard(rows, cols, g) && Membership(g) && Maximal(g)
    requires OnGrid(rows, cols, point) && point !in g && MergedAround(g, player, point, ns)
    ensures var g1 := WithString(g, ns);
      && OnBoard(rows, cols, g1) && Membership(g1) && Maximal(g1)
      && (forall q :: q in g1 <==> q in g || q == point)
  {
    var g1 := WithString(g, ns);
    WrittenMembership(g, player, point, ns);
    forall q | q in g1
      ensures !Separated(g1, q, q.Up()) && !Separated(g1, q, q.Down())
      ensures !Separated(g1, q, q.Left()) && !Separated(g1, q, q.Right())
    {
      WrittenMaximalAt(g, player, point, ns, q, q.Up());
      WrittenMaximalAt(g, player, point, ns, q, q.Down());
      WrittenMaximalAt(g, player, point, ns, q, q.Left());
      WrittenMaximalAt(g, player, point, ns, q, q.Right());
    }
  }

  lemma WrittenMaximalAt(g: Grid, player: Player, point: Point, ns: GoString, q: Point, x: Point)
    requires Membership(g) && Maximal(g) && point !in g && MergedAround(g, player, point, ns)
    requires x == q.Up() || x == q.Down() || x == q.Left() || x == q.Right()
    requires q in WithString(g, ns)
    ensures !Separated(WithString(g, ns), q, x)
  {
    if q in g {
      assert q in g[q].stones;
    }
    if x in g {
      assert x in g[x].stones;
    }
  }

  lemma WrittenMembership(g: Grid, player: Player, point: Point, ns: GoString)
    requires Membership(g) && point !in g && MergedAround(g, player, point, ns)
    ensures Membership(WithString(g, ns))
  {
    var g1 := WithString(g, ns);
    forall q, r | q in g1 && r in g1[q].stones ensures r in g1 && g1[r] == g1[q] {
      if q !in ns.stones {
        assert g[r] == g[q];
      }
    }
  }

  /** After the merged string is written, every string but the adjacent
      enemy ones has exact liberties; those still list `point`. */
  lemma WrittenLiberties(rows: int, cols: int, g: Grid, player: Player, point: Point, ns: GoString, opp: seq<GoString>)
    requires WellFormed(rows, cols, g) && OnGrid(rows, cols, point) && point !in g
    requires MergedAround(g, player, point, ns)
    requires ExactLiberties(rows, cols, WithString(g, ns), ns)
    requires forall q :: q in g ==> (g[q] in opp <==> g[q].color != player && Touches(point, g[q].stones))
    requires forall s :: s in opp ==> s.color != player
    ensures var g1 := WithString(g, ns);
      forall q, n | q in g1 ::
        n in g1[q].liberties <==> IsLiberty(rows, cols, g1, g1[q].stones, n) || (n == point && g1[q] in opp)
  {
    var g1 := WithString(g, ns);
    forall q, n | q in g1
      ensures n in g1[q].liberties <==> IsLiberty(rows, cols, g1, g1[q].stones, n) || (n == point && g1[q] in opp)
    {
      if q !in ns.stones {
        assert g1[q] == g[q];
        assert n in g[q].liberties <==> IsLiberty(rows, cols, g, g[q].stones, n);
        if n in ns.stones && n != point {
          assert n in g;
        }
      }
    }
  }

  /** Right after the merged string is written, the capture invariant holds
      with every adjacent enemy string pending. */
  lemma WrittenInv(rows: int, cols: int, g: Grid, player: Player, point: Point)
    requires WellFormed(rows, cols, g) && OnGrid(rows, cols, point) && point !in g
    ensures var sv := Surroundings(rows, cols, g, player, point);
      var ns := NewString(rows, cols, g, player, point);
      && MergedAround(g, player, point, ns)
      && CaptureInv(rows, cols, WithString(g, ns), player, point, sv.opposite)
  {
    var sv := Surroundings(rows, cols, g, player, point);
    var ns := NewString(rows, cols, g, player, point);
    var g1 := WithString(g, ns);
    SurveyFacts(rows, cols, g, player, point);
    NewStringStones(rows, cols, g, player, point);
    NewStringLiberties(rows, cols, g, player, point);
    WrittenShape(rows, cols, g, player, point, ns);
    WrittenLiberties(rows, cols, g, player, point, ns, sv.opposite);
    forall i | 0 <= i < |sv.opposite| ensures Intact(g1, sv.opposite[i]) {
      assert Intact(g, sv.opposite[i]);
    }
  }

  /** The captured stones are those of the enemy strings next to `point`
      that had no liberty other than `point`. */
  lemma CapturedFacts(rows: int, cols: int, g: Grid, player: Player, point: Point)
    requires WellFormed(rows, cols, g)
    ensures var sv := Surroundings(rows, cols, g, player, point);
      forall q :: q in CapturedStones(sv.opposite, point) <==>
        q in g && g[q].color != player && Touches(point, g[q].stones) && g[q].liberties <= {point}
  {
    var sv := Surroundings(rows, cols, g, player, point);
    SurveyFacts(rows, cols, g, player, point);
    forall q ensures q in CapturedStones(sv.opposite, point) <==>
      q in g && g[q].color != player && Touches(point, g[q].stones) && g[q].liberties <= {point}
    {
      if q in CapturedStones(sv.opposite, point) {
        var t :| t in sv.opposite && q in t.stones && t.WithoutLiberty(point).NumLiberties() == 0;
        var i :| 0 <= i < |sv.opposite| && sv.opposite[i] == t;
        assert Intact(g, sv.opposite[i]);
        assert sv.opposite[i].liberties - {point} == {};
      }
      if q in g && g[q].color != player && Touches(point, g[q].stones) && g[q].liberties <= {point} {
        var i :| 0 <= i < |sv.opposite| && sv.opposite[i] == g[q];
        assert q in g[q].stones;
        assert g[q].liberties - {point} == {};
      }
    }
  }

  /** `place_stone` on an empty on-grid point keeps the grid consistent.
      The new stone belongs to the player and its string is the new stone
      merged with every adjacent friendly string; an adjacent enemy string
      whose only liberty was `point` is removed; every other stone stays,
      with its colour, and strings not merged keep their stones. */
  lemma PlacedFacts(rows: int, cols: int, g: Grid, player: Player, point: Point)
    requires WellFormed(rows, cols, g) && OnGrid(rows, cols, point) && point !in g
    ensures var p := Placed(rows, cols, g, player, point);
      var ns := NewString(rows, cols, g, player, point);
      && WellFormed(rows, cols, p)
      && MergedAround(g, player, point, ns)
      && point in p && p[point].color == player && p[point].stones == ns.stones
      && (forall q :: q in p <==> (q == point ||
            (q in g && !(g[q].color != player && Touches(point, g[q].stones) && g[q].liberties <= {point}))))
      && (forall q :: q in p && q != point ==> q in g && p[q].color == g[q].color)
      && (forall q :: q in p && q !in ns.stones ==> p[q].stones == g[q].stones)
  {
    PlacedWellFormed(rows, cols, g, player, point);
    PlacedContents(rows, cols, g, player, point);
  }

  /** The consistency half of `PlacedFacts`. */
  lemma PlacedWellFormed(rows: int, cols: int, g: Grid, player: Player, point: Point)
    requires WellFormed(rows, cols, g) && OnGrid(rows, cols, point) && point !in g
    ensures WellFormed(rows, cols, Placed(rows, cols, g, player, point))
  {
    var sv := Surroundings(rows, cols, g, player, point);
    var ns := NewString(rows, cols, g, player, point);
    WrittenInv(rows, cols, g, player, point);
    CaptureAllFacts(rows, cols, WithString(g, ns), player, point, sv.opposite);
    CaptureInvDone(rows, cols, Placed(rows, cols, g, player, point), player, point);
  }

  /** The contents half of `PlacedFacts`. */
  lemma PlacedContents(rows: int, cols: int, g: Grid, player: Player, point: Point)
    requires WellFormed(rows, cols, g) && OnGrid(rows, cols, point) && point !in g
    ensures var p := Placed(rows, cols, g, player, point);
      var ns := NewString(rows, cols, g, player, point);
      && MergedAround(g, player, point, ns)
      && point in p && p[point].color == player && p[point].stones == ns.stones
      && (forall q :: q in p <==> (q == point ||
            (q in g && !(g[q].color != player && Touches(point, g[q].stones) && g[q].liberties <= {point}))))
      && (forall q :: q in p && q != point ==> q in g && p[q].color == g[q].color)
      && (forall q :: q in p && q !in ns.stones ==> p[q].stones == g[q].stones)
  {
    var sv := Surroundings(rows, cols, g, player, point);
    var ns := NewString(rows, cols, g, player, point);
    var g1 := WithString(g, ns);
    WrittenInv(rows, cols, g, player, point);
    CaptureAllFacts(rows, cols, g1, player, point, sv.opposite);
    CapturedFacts(rows, cols, g, player, point);
    PlacedFromParts(g, player, point, ns, Placed(rows, cols, g, player, point), CapturedStones(sv.opposite, point));
  }

  /** The contents of the grid after a play follow from the merged string
      written over the grid and the captured stones taken off it. */
  lemma PlacedFromParts(g: Grid, player: Player, point: Point, ns: GoString, p: Grid, captured: set<Point>)
    requires point !in g && MergedAround(g, player, point, ns)
    requires Shrinks(WithString(g, ns), p, captured)
    requires forall q :: q in captured <==>
      q in g && g[q].color != player && Touches(point, g[q].stones) && g[q].liberties <= {point}
    ensures point in p && p[point].color == player && p[point].stones == ns.stones
    ensures forall q :: q in p <==> (q == point ||
      (q in g && !(g[q].color != player && Touches(point, g[q].stones) && g[q].liberties <= {point})))
    ensures forall q :: q in p && q != point ==> q in g && p[q].color == g[q].color
    ensures forall q :: q in p && q !in ns.stones ==> p[q].stones == g[q].stones
  {
    var g1 := WithString(g, ns);
    assert point in ns.stones && point !in captured;
    forall q | q in p && q != point ensures q in g && p[q].color == g[q].color {
      if q in ns.stones {
        assert g1[q] == ns;
      }
    }
  }
}
