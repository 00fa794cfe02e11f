/** The position fingerprint. The program's `zobrist` table (`HASH_CODE`,
    `EMPTY_BOARD`) is not part of this model: it is taken as an arbitrary
    table of non-negative integer codes, so nothing proved here depends on
    its values or on the codes being free of collisions. Hash values are
    the program's unbounded integers, combined with bitwise exclusive-or. */
module Zobrist {
  import opened GoTypes
  import opened GoStrings

  /** Bitwise exclusive-or of two non-negative integers (Python's `^`). */
  function Xor(a: nat, b: nat): nat
    decreases a + b
  {
    if a == 0 then b
    else if b == 0 then a
    else 2 * Xor(a / 2, b / 2) + (if a % 2 == b % 2 then 0 else 1)
  }

  /** The lowest bit of `Xor(a, b)` is the exclusive-or of the lowest bits,
      and the remaining bits are the exclusive-or of the remaining bits. */
  lemma XorBits(a: nat, b: nat)
    ensures Xor(a, b) == 2 * Xor(a / 2, b / 2) + (if a % 2 == b % 2 then 0 else 1)
  {
    if a == 0 {
      assert Xor(0, b / 2) == b / 2;
    } else if b == 0 {
      assert Xor(a / 2, 0) == a / 2;
    }
  }

  lemma XorZero(a: nat)
    ensures Xor(a, 0) == a && Xor(0, a) == a
  {
  }

  lemma {:induction false} XorCommutes(a: nat, b: nat)
    ensures Xor(a, b) == Xor(b, a)
    decreases a + b
  {
    if a != 0 && b != 0 {
      XorCommutes(a / 2, b / 2);
    }
  }

  lemma {:induction false} XorSelf(a: nat)
    ensures Xor(a, a) == 0
    decreases a
  {
    if a != 0 {
      XorSelf(a / 2);
    }
  }

  /** Splitting a number into its lowest bit and the rest. */
  lemma Halves(x: nat, k: nat, e: nat)
    requires x == 2 * k + e && e < 2
    ensures x / 2 == k && x % 2 == e
  {
  }

  lemma {:induction false} XorAssociates(a: nat, b: nat, c: nat)
    ensures Xor(Xor(a, b), c) == Xor(a, Xor(b, c))
    decreases a + b + c
  {
    if a != 0 || b != 0 || c != 0 {
      var x, y := Xor(a, b), Xor(b, c);
      XorBits(a, b);
      XorBits(b, c);
      Halves(x, Xor(a / 2, b / 2), if a % 2 == b % 2 then 0 else 1);
      Halves(y, Xor(b / 2, c / 2), if b % 2 == c % 2 then 0 else 1);
      XorBits(x, c);
      XorBits(a, y);
      XorAssociates(a / 2, b / 2, c / 2);
    }
  }

  datatype ZobristTable = ZobristTable(code: (Point, Player) -> nat, emptyBoard: nat)

  /** The contribution of point `p`: its code for the stone on it, or nothing. */
  function Term(t: ZobristTable, g: Grid, p: Point): nat {
    if p in g then t.code(p, g[p].color) else 0
  }

  /** Exclusive-or of the terms of the points `ps`. */
  function XorTerms(t: ZobristTable, g: Grid, ps: seq<Point>): nat {
    if ps == [] then 0 else Xor(XorTerms(t, g, ps[..|ps| - 1]), Term(t, g, ps[|ps| - 1]))
  }

  /** The hash a board with grid `g` must carry: `EMPTY_BOARD` xor the code
      of every occupied on-grid point with the colour of its stone. */
  function PositionHash(t: ZobristTable, rows: nat, cols: nat, g: Grid): nat {
    Xor(t.emptyBoard, XorTerms(t, g, RowMajor(rows, cols)))
  }

  /** The two grids hold the same colours everywhere except possibly at `q`. */
  ghost predicate SameColoursExcept(g1: Grid, g2: Grid, q: Point) {
    forall p :: p != q ==>
      (p in g1 <==> p in g2) && (p in g1 ==> g1[p].color == g2[p].color)
  }

  /** Changing the content of one point changes the xor by exactly the old
      and the new term of that point. */
  lemma {:induction false} XorTermsToggle(t: ZobristTable, g1: Grid, g2: Grid, q: Point, ps: seq<Point>)
    requires SameColoursExcept(g1, g2, q)
    requires Distinct(ps)
    ensures XorTerms(t, g2, ps) ==
            Xor(XorTerms(t, g1, ps), if q in ps then Xor(Term(t, g1, q), Term(t, g2, q)) else 0)
  {
    if ps == [] {
      XorZero(0);
    } else {
      var init, last := ps[..|ps| - 1], ps[|ps| - 1];
      assert Distinct(init);
      XorTermsToggle(t, g1, g2, q, init);
      assert ps == init + [last];
      var a1 := XorTerms(t, g1, init);
      var b1, b2 := Term(t, g1, last), Term(t, g2, last);
      var d := Xor(Term(t, g1, q), Term(t, g2, q));
      if last == q {
        assert q !in init;
        XorZero(a1);
        // a1 ^ b2 == (a1 ^ b1) ^ (b1 ^ b2)
        XorAssociates(a1, b1, Xor(b1, b2));
        XorAssociates(b1, b1, b2);
        XorSelf(b1);
        XorZero(b2);
      } else {
        assert b1 == b2;
        if q in init {
          // (a1 ^ d) ^ b1 == (a1 ^ b1) ^ d
          XorAssociates(a1, d, b1);
          XorCommutes(d, b1);
          XorAssociates(a1, b1, d);
        } else {
          XorZero(a1);
          XorZero(Xor(a1, b1));
        }
      }
    }
  }

  lemma EnumeratedOnce(rows: nat, cols: nat, q: Point)
    ensures Distinct(RowMajor(rows, cols))
    ensures q in RowMajor(rows, cols) <==> OnGrid(rows, cols, q)
  {
    RowMajorFacts(rows, cols);
  }

  /** Changing the content of a single on-grid point toggles exactly that
      point's old and new codes in the position hash. */
  lemma PositionHashToggle(t: ZobristTable, rows: nat, cols: nat, g1: Grid, g2: Grid, q: Point)
    requires SameColoursExcept(g1, g2, q) && OnGrid(rows, cols, q)
    ensures PositionHash(t, rows, cols, g2) ==
            Xor(PositionHash(t, rows, cols, g1), Xor(Term(t, g1, q), Term(t, g2, q)))
  {
    var ps := RowMajor(rows, cols);
    EnumeratedOnce(rows, cols, q);
    XorTermsToggle(t, g1, g2, q, ps);
    XorAssociates(t.emptyBoard, XorTerms(t, g1, ps), Xor(Term(t, g1, q), Term(t, g2, q)));
  }

  /** Placing a stone of colour `c` on an empty on-grid point xors in its code. */
  lemma PositionHashPlace(t: ZobristTable, rows: nat, cols: nat, g1: Grid, g2: Grid, q: Point, c: Player)
    requires SameColoursExcept(g1, g2, q) && OnGrid(rows, cols, q)
    requires q !in g1 && q in g2 && g2[q].color == c
    ensures PositionHash(t, rows, cols, g2) == Xor(PositionHash(t, rows, cols, g1), t.code(q, c))
  {
    PositionHashToggle(t, rows, cols, g1, g2, q);
    XorZero(t.code(q, c));
  }

  /** Removing a stone of colour `c` from an on-grid point xors its code out. */
  lemma PositionHashRemove(t: ZobristTable, rows: nat, cols: nat, g1: Grid, g2: Grid, q: Point, c: Player)
    requires SameColoursExcept(g1, g2, q) && OnGrid(rows, cols, q)
    requires q in g1 && g1[q].color == c && q !in g2
    ensures PositionHash(t, rows, cols, g2) == Xor(PositionHash(t, rows, cols, g1), t.code(q, c))
  {
    PositionHashToggle(t, rows, cols, g1, g2, q);
    XorZero(t.code(q, c));
  }

  /** Changes to liberties or string membership do not touch the hash. */
  lemma PositionHashColoursOnly(t: ZobristTable, rows: nat, cols: nat, g1: Grid, g2: Grid)
    requires forall p :: (p in g1 <==> p in g2) && (p in g1 ==> g1[p].color == g2[p].color)
    ensures PositionHash(t, rows, cols, g2) == PositionHash(t, rows, cols, g1)
  {
    var q := Point(0, 0);
    assert SameColoursExcept(g1, g2, q);
    EnumeratedOnce(rows, cols, q);
    XorTermsToggle(t, g1, g2, q, RowMajor(rows, cols));
    XorZero(XorTerms(t, g1, RowMajor(rows, cols)));
  }

  /** An empty board hashes to `EMPTY_BOARD`. */
  lemma {:induction false} XorTermsEmpty(t: ZobristTable, ps: seq<Point>)
    ensures XorTerms(t, map[], ps) == 0
  {
    if ps != [] {
      XorTermsEmpty(t, ps[..|ps| - 1]);
      XorZero(0);
    }
  }

  lemma EmptyPositionHash(t: ZobristTable, rows: nat, cols: nat)
    ensures PositionHash(t, rows, cols, map[]) == t.emptyBoard
  {
    XorTermsEmpty(t, RowMajor(rows, cols));
    XorZero(t.emptyBoard);
  }
}
