/**
 * The program's worked examples, evaluated on the model: the two built-in
 * divisions, a self-division, the zero node agregarTermino keeps, and the
 * division whose check prints a spurious "- 0".
 */
module Examples {
  import opened Poly
  import opened Arith
  import opened Printer
  import opened Division

  lemma InsertTwo(s: seq<Term>, a: Term, b: Term)
    ensures InsertAll(s, [a, b]) == Insert(Insert(s, a.coef, a.exp), b.coef, b.exp)
  {
    assert [a, b] == [a] + [b];
    InsertAllSnoc(s, [a], b);
    assert [a] == [] + [a];
    InsertAllSnoc(s, [], a);
  }

  lemma InsertThree(s: seq<Term>, a: Term, b: Term, c: Term)
    ensures InsertAll(s, [a, b, c]) == Insert(Insert(Insert(s, a.coef, a.exp), b.coef, b.exp), c.coef, c.exp)
  {
    assert [a, b, c] == [a, b] + [c];
    InsertAllSnoc(s, [a, b], c);
    InsertTwo(s, a, b);
  }

  /** A node above the head of a sorted list keeps it sorted. */
  lemma SortedCons(t: Term, s: seq<Term>)
    requires Sorted(s) && (s == [] || t.exp > s[0].exp)
    ensures Sorted([t] + s)
  {
  }

  lemma Sorted2(a: Term, b: Term)
    requires a.exp > b.exp
    ensures Sorted([a, b])
  {
  }

  lemma Sorted3(a: Term, b: Term, c: Term)
    requires a.exp > b.exp > c.exp
    ensures Sorted([a, b, c])
  {
    Sorted2(b, c);
    SortedCons(a, [b, c]);
    assert [a] + [b, c] == [a, b, c];
  }

  lemma Sorted4(a: Term, b: Term, c: Term, d: Term)
    requires a.exp > b.exp > c.exp > d.exp
    ensures Sorted([a, b, c, d])
  {
    Sorted3(b, c, d);
    SortedCons(a, [b, c, d]);
    assert [a] + [b, c, d] == [a, b, c, d];
  }

  lemma Sorted5(a: Term, b: Term, c: Term, d: Term, e: Term)
    requires a.exp > b.exp > c.exp > d.exp > e.exp
    ensures Sorted([a, b, c, d, e])
  {
    Sorted4(b, c, d, e);
    SortedCons(a, [b, c, d, e]);
    assert [a] + [b, c, d, e] == [a, b, c, d, e];
  }

  /**
   * A pass over a nonzero head with a zero-free unit-led divisor: the product
   * is just the divisor's nodes scaled and shifted, so the pass is fixed by
   * the remainder that subtracting them leaves.
   */
  lemma UnitPass(q: seq<Term>, r: seq<Term>, d: seq<Term>, r': seq<Term>)
    requires Sorted(r) && Sorted(d) && ZeroFree(d) && UnitLead(d)
    requires r != [] && r[0].coef != 0 && r[0].exp >= d[0].exp
    requires Difference(r, Shifted(d, r[0].coef * d[0].coef, r[0].exp - d[0].exp)) == r'
    ensures Sorted(r')
    ensures DivLoop(q, r, d) == DivLoop(Insert(q, r[0].coef * d[0].coef, r[0].exp - d[0].exp), r', d)
  {
    var c, k := r[0].coef * d[0].coef, r[0].exp - d[0].exp;
    JavaDivTruncates(r[0].coef, d[0].coef);
    assert c != 0;
    assert ZeroFree(Shifted(d, c, k));
    MonomialProductValue(d, c, k, 0);
    NonZeroOfZeroFree(Shifted(d, c, k));
    DivLoopPass(q, r, d);
  }

  /**
   * A pass over a zero head at or above the divisor's head exponent, with
   * every later node nonzero, drops just that head and leaves the quotient.
   */
  lemma ClearingPass(q: seq<Term>, r: seq<Term>, d: seq<Term>)
    requires Sorted(r) && Sorted(d) && UnitLead(d)
    requires r != [] && r[0].coef == 0 && r[0].exp >= d[0].exp
    requires forall i :: 1 <= i < |r| ==> r[i].coef != 0
    ensures DivLoop(q, r, d) == DivLoop(q, r[1..], d)
  {
    assert ZeroFree(r[1..]);
    DivLoopPass(q, r, d);
    LeadZero(q, r, d);
    assert r == [r[0]] + r[1..];
    NonZeroCons(r[0], r[1..]);
    NonZeroOfZeroFree(r[1..]);
    assert [] + r[1..] == r[1..];
  }

  /** A sorted list without zero coefficients is its own copy. */
  lemma CopyOfCanonical(r: seq<Term>)
    requires Sorted(r) && ZeroFree(r)
    ensures CopyOf(r) == r
  {
    CopyOfSorted(r);
    NonZeroOfZeroFree(r);
  }

  lemma RenderOne(a: Term)
    ensures Render([a]) == Piece(true, a)
  {
    assert [a] == [] + [a];
    RenderSnoc([], a);
  }

  lemma RenderTwo(a: Term, b: Term)
    ensures Render([a, b]) == Piece(true, a) + Piece(Piece(true, a) == "", b)
  {
    assert [a, b] == [a] + [b];
    RenderSnoc([a], b);
    RenderOne(a);
  }

  lemma RenderThree(a: Term, b: Term, c: Term)
    ensures Render([a, b, c]) == Render([a, b]) + Piece(Render([a, b]) == "", c)
  {
    assert [a, b, c] == [a, b] + [c];
    RenderSnoc([a, b], c);
  }

  /** A two-node list whose first node prints as x and second as y. */
  lemma FormatTwo(a: Term, b: Term, x: string, y: string)
    requires Piece(true, a) == x && x != "" && Piece(false, b) == y
    ensures Format([a, b]) == x + y
  {
    RenderTwo(a, b);
  }

  /** A three-node list whose first two nodes already print as x: the third is joined to x. */
  lemma FormatThree(a: Term, b: Term, c: Term, x: string)
    requires Render([a, b]) == x && x != ""
    ensures Format([a, b, c]) == x + Piece(false, c)
  {
    RenderThree(a, b, c);
    assert |x + Piece(false, c)| > 0;
  }

  // 2x^3 + 3x^2 − x + 5 divided by x^2 − 1, pass by pass.

  lemma CubicInserts1()
    ensures Insert(Insert([Term(2, 3), Term(3, 2), Term(-1, 1), Term(5, 0)], -2, 3), 2, 1)
         == [Term(0, 3), Term(3, 2), Term(1, 1), Term(5, 0)]
  {
    assert Insert([Term(2, 3), Term(3, 2), Term(-1, 1), Term(5, 0)], -2, 3) == [Term(0, 3), Term(3, 2), Term(-1, 1), Term(5, 0)];
  }

  lemma CubicDifference1()
    ensures Difference([Term(2, 3), Term(3, 2), Term(-1, 1), Term(5, 0)], Shifted([Term(1, 2), Term(-1, 0)], 2, 1)) == [Term(0, 3), Term(3, 2), Term(1, 1), Term(5, 0)]
  {
    assert Shifted([Term(1, 2), Term(-1, 0)], 2, 1) == [Term(2, 3), Term(-2, 1)];
    assert Negated([Term(2, 3), Term(-2, 1)]) == [Term(-2, 3), Term(2, 1)];
    CopyOfCanonical([Term(2, 3), Term(3, 2), Term(-1, 1), Term(5, 0)]);
    InsertTwo([Term(2, 3), Term(3, 2), Term(-1, 1), Term(5, 0)], Term(-2, 3), Term(2, 1));
    CubicInserts1();
  }

  lemma CubicPass1()
    ensures Sorted([Term(2, 3), Term(3, 2), Term(-1, 1), Term(5, 0)])
    ensures Sorted([Term(1, 2), Term(-1, 0)])
    ensures Sorted([Term(0, 3), Term(3, 2), Term(1, 1), Term(5, 0)])
    ensures DivLoop([], [Term(2, 3), Term(3, 2), Term(-1, 1), Term(5, 0)], [Term(1, 2), Term(-1, 0)])
         == DivLoop([Term(2, 1)], [Term(0, 3), Term(3, 2), Term(1, 1), Term(5, 0)], [Term(1, 2), Term(-1, 0)])
  {
    CubicDifference1();
    assert Insert([], 2, 1) == [Term(2, 1)];
    Sorted4(Term(2, 3), Term(3, 2), Term(-1, 1), Term(5, 0));
    Sorted2(Term(1, 2), Term(-1, 0));
    Sorted4(Term(0, 3), Term(3, 2), Term(1, 1), Term(5, 0));
    UnitPass([], [Term(2, 3), Term(3, 2), Term(-1, 1), Term(5, 0)], [Term(1, 2), Term(-1, 0)], [Term(0, 3), Term(3, 2), Term(1, 1), Term(5, 0)]);
  }

  lemma CubicClear1()
    ensures Sorted([Term(0, 3), Term(3, 2), Term(1, 1), Term(5, 0)])
    ensures Sorted([Term(1, 2), Term(-1, 0)])
    ensures Sorted([Term(3, 2), Term(1, 1), Term(5, 0)])
    ensures DivLoop([Term(2, 1)], [Term(0, 3), Term(3, 2), Term(1, 1), Term(5, 0)], [Term(1, 2), Term(-1, 0)])
         == DivLoop([Term(2, 1)], [Term(3, 2), Term(1, 1), Term(5, 0)], [Term(1, 2), Term(-1, 0)])
  {
    Sorted4(Term(0, 3), Term(3, 2), Term(1, 1), Term(5, 0));
    Sorted2(Term(1, 2), Term(-1, 0));
    Sorted3(Term(3, 2), Term(1, 1), Term(5, 0));
    ClearingPass([Term(2, 1)], [Term(0, 3), Term(3, 2), Term(1, 1), Term(5, 0)], [Term(1, 2), Term(-1, 0)]);
    assert [Term(0, 3), Term(3, 2), Term(1, 1), Term(5, 0)][1..] == [Term(3, 2), Term(1, 1), Term(5, 0)];
  }

  lemma CubicInserts2()
    ensures Insert(Insert([Term(3, 2), Term(1, 1), Term(5, 0)], -3, 2), 3, 0)
         == [Term(0, 2), Term(1, 1), Term(8, 0)]
  {
    assert Insert([Term(3, 2), Term(1, 1), Term(5, 0)], -3, 2) == [Term(0, 2), Term(1, 1), Term(5, 0)];
  }

  lemma CubicDifference2()
    ensures Difference([Term(3, 2), Term(1, 1), Term(5, 0)], Shifted([Term(1, 2), Term(-1, 0)], 3, 0)) == [Term(0, 2), Term(1, 1), Term(8, 0)]
  {
    assert Shifted([Term(1, 2), Term(-1, 0)], 3, 0) == [Term(3, 2), Term(-3, 0)];
    assert Negated([Term(3, 2), Term(-3, 0)]) == [Term(-3, 2), Term(3, 0)];
    CopyOfCanonical([Term(3, 2), Term(1, 1), Term(5, 0)]);
    InsertTwo([Term(3, 2), Term(1, 1), Term(5, 0)], Term(-3, 2), Term(3, 0));
    CubicInserts2();
  }

  lemma CubicPass2()
    ensures Sorted([Term(3, 2), Term(1, 1), Term(5, 0)])
    ensures Sorted([Term(1, 2), Term(-1, 0)])
    ensures Sorted([Term(2, 1), Term(3, 0)])
    ensures Sorted([Term(0, 2), Term(1, 1), Term(8, 0)])
    ensures DivLoop([Term(2, 1)], [Term(3, 2), Term(1, 1), Term(5, 0)], [Term(1, 2), Term(-1, 0)])
         == DivLoop([Term(2, 1), Term(3, 0)], [Term(0, 2), Term(1, 1), Term(8, 0)], [Term(1, 2), Term(-1, 0)])
  {
    CubicDifference2();
    assert Insert([Term(2, 1)], 3, 0) == [Term(2, 1), Term(3, 0)];
    Sorted3(Term(3, 2), Term(1, 1), Term(5, 0));
    Sorted2(Term(1, 2), Term(-1, 0));
    Sorted2(Term(2, 1), Term(3, 0));
    Sorted3(Term(0, 2), Term(1, 1), Term(8, 0));
    UnitPass([Term(2, 1)], [Term(3, 2), Term(1, 1), Term(5, 0)], [Term(1, 2), Term(-1, 0)], [Term(0, 2), Term(1, 1), Term(8, 0)]);
  }

  lemma CubicClear2()
    ensures Sorted([Term(2, 1), Term(3, 0)])
    ensures Sorted([Term(0, 2), Term(1, 1), Term(8, 0)])
    ensures Sorted([Term(1, 2), Term(-1, 0)])
    ensures Sorted([Term(1, 1), Term(8, 0)])
    ensures DivLoop([Term(2, 1), Term(3, 0)], [Term(0, 2), Term(1, 1), Term(8, 0)], [Term(1, 2), Term(-1, 0)])
         == DivLoop([Term(2, 1), Term(3, 0)], [Term(1, 1), Term(8, 0)], [Term(1, 2), Term(-1, 0)])
  {
    Sorted2(Term(2, 1), Term(3, 0));
    Sorted3(Term(0, 2), Term(1, 1), Term(8, 0));
    Sorted2(Term(1, 2), Term(-1, 0));
    Sorted2(Term(1, 1), Term(8, 0));
    ClearingPass([Term(2, 1), Term(3, 0)], [Term(0, 2), Term(1, 1), Term(8, 0)], [Term(1, 2), Term(-1, 0)]);
    assert [Term(0, 2), Term(1, 1), Term(8, 0)][1..] == [Term(1, 1), Term(8, 0)];
  }

  /** 2x^3 + 3x^2 − x + 5 divided by x^2 − 1 (the menu's first example): quotient 2x + 3, remainder x + 8. */
  lemma CubicDivision()
    ensures LongDivision([Term(2, 3), Term(3, 2), Term(-1, 1), Term(5, 0)], [Term(1, 2), Term(-1, 0)])
         == ([Term(2, 1), Term(3, 0)], [Term(1, 1), Term(8, 0)])
  {
    CopyOfCanonical([Term(2, 3), Term(3, 2), Term(-1, 1), Term(5, 0)]);
    CubicPass1();
    CubicClear1();
    CubicPass2();
    CubicClear2();
  }

  /** The quotient and remainder of the first example print as "2x + 3" and "x + 8". */
  lemma CubicPrinted()
    ensures Format([Term(2, 1), Term(3, 0)]) == "2x + 3" && Format([Term(1, 1), Term(8, 0)]) == "x + 8"
  {
    assert Piece(true, Term(2, 1)) == "2x";
    assert Piece(false, Term(3, 0)) == " + 3";
    FormatTwo(Term(2, 1), Term(3, 0), "2x", " + 3");
    assert Piece(true, Term(1, 1)) == "x";
    assert Piece(false, Term(8, 0)) == " + 8";
    FormatTwo(Term(1, 1), Term(8, 0), "x", " + 8");
  }

  // 3x^4 − 2x^2 + x − 7 divided by x^2 − 2x + 1, pass by pass.

  lemma QuarticInserts1()
    ensures Insert(Insert(Insert([Term(3, 4), Term(-2, 2), Term(1, 1), Term(-7, 0)], -3, 4), 6, 3), -3, 2)
         == [Term(0, 4), Term(6, 3), Term(-5, 2), Term(1, 1), Term(-7, 0)]
  {
    assert Insert([Term(3, 4), Term(-2, 2), Term(1, 1), Term(-7, 0)], -3, 4) == [Term(0, 4), Term(-2, 2), Term(1, 1), Term(-7, 0)];
    assert Insert([Term(0, 4), Term(-2, 2), Term(1, 1), Term(-7, 0)], 6, 3) == [Term(0, 4), Term(6, 3), Term(-2, 2), Term(1, 1), Term(-7, 0)];
  }

  lemma QuarticDifference1()
    ensures Difference([Term(3, 4), Term(-2, 2), Term(1, 1), Term(-7, 0)], Shifted([Term(1, 2), Term(-2, 1), Term(1, 0)], 3, 2)) == [Term(0, 4), Term(6, 3), Term(-5, 2), Term(1, 1), Term(-7, 0)]
  {
    assert Shifted([Term(1, 2), Term(-2, 1), Term(1, 0)], 3, 2) == [Term(3, 4), Term(-6, 3), Term(3, 2)];
    assert Negated([Term(3, 4), Term(-6, 3), Term(3, 2)]) == [Term(-3, 4), Term(6, 3), Term(-3, 2)];
    CopyOfCanonical([Term(3, 4), Term(-2, 2), Term(1, 1), Term(-7, 0)]);
    InsertThree([Term(3, 4), Term(-2, 2), Term(1, 1), Term(-7, 0)], Term(-3, 4), Term(6, 3), Term(-3, 2));
    QuarticInserts1();
  }

  lemma QuarticPass1()
    ensures Sorted([Term(3, 4), Term(-2, 2), Term(1, 1), Term(-7, 0)])
    ensures Sorted([Term(1, 2), Term(-2, 1), Term(1, 0)])
    ensures Sorted([Term(0, 4), Term(6, 3), Term(-5, 2), Term(1, 1), Term(-7, 0)])
    ensures DivLoop([], [Term(3, 4), Term(-2, 2), Term(1, 1), Term(-7, 0)], [Term(1, 2), Term(-2, 1), Term(1, 0)])
         == DivLoop([Term(3, 2)], [Term(0, 4), Term(6, 3), Term(-5, 2), Term(1, 1), Term(-7, 0)], [Term(1, 2), Term(-2, 1), Term(1, 0)])
  {
    QuarticDifference1();
    assert Insert([], 3, 2) == [Term(3, 2)];
    Sorted4(Term(3, 4), Term(-2, 2), Term(1, 1), Term(-7, 0));
    Sorted3(Term(1, 2), Term(-2, 1), Term(1, 0));
    Sorted5(Term(0, 4), Term(6, 3), Term(-5, 2), Term(1, 1), Term(-7, 0));
    UnitPass([], [Term(3, 4), Term(-2, 2), Term(1, 1), Term(-7, 0)], [Term(1, 2), Term(-2, 1), Term(1, 0)], [Term(0, 4), Term(6, 3), Term(-5, 2), Term(1, 1), Term(-7, 0)]);
  }

  lemma QuarticClear1()
    ensures Sorted([Term(0, 4), Term(6, 3), Term(-5, 2), Term(1, 1), Term(-7, 0)])
    ensures Sorted([Term(1, 2), Term(-2, 1), Term(1, 0)])
    ensures Sorted([Term(6, 3), Term(-5, 2), Term(1, 1), Term(-7, 0)])
    ensures DivLoop([Term(3, 2)], [Term(0, 4), Term(6, 3), Term(-5, 2), Term(1, 1), Term(-7, 0)], [Term(1, 2), Term(-2, 1), Term(1, 0)])
         == DivLoop([Term(3, 2)], [Term(6, 3), Term(-5, 2), Term(1, 1), Term(-7, 0)], [Term(1, 2), Term(-2, 1), Term(1, 0)])
  {
    Sorted5(Term(0, 4), Term(6, 3), Term(-5, 2), Term(1, 1), Term(-7, 0));
    Sorted3(Term(1, 2), Term(-2, 1), Term(1, 0));
    Sorted4(Term(6, 3), Term(-5, 2), Term(1, 1), Term(-7, 0));
    ClearingPass([Term(3, 2)], [Term(0, 4), Term(6, 3), Term(-5, 2), Term(1, 1), Term(-7, 0)], [Term(1, 2), Term(-2, 1), Term(1, 0)]);
    assert [Term(0, 4), Term(6, 3), Term(-5, 2), Term(1, 1), Term(-7, 0)][1..] == [Term(6, 3), Term(-5, 2), Term(1, 1), Term(-7, 0)];
  }

  lemma QuarticInserts2()
    ensures Insert(Insert(Insert([Term(6, 3), Term(-5, 2), Term(1, 1), Term(-7, 0)], -6, 3), 12, 2), -6, 1)
         == [Term(0, 3), Term(7, 2), Term(-5, 1), Term(-7, 0)]
  {
    assert Insert([Term(6, 3), Term(-5, 2), Term(1, 1), Term(-7, 0)], -6, 3) == [Term(0, 3), Term(-5, 2), Term(1, 1), Term(-7, 0)];
    assert Insert([Term(0, 3), Term(-5, 2), Term(1, 1), Term(-7, 0)], 12, 2) == [Term(0, 3), Term(7, 2), Term(1, 1), Term(-7, 0)];
  }

  lemma QuarticDifference2()
    ensures Difference([Term(6, 3), Term(-5, 2), Term(1, 1), Term(-7, 0)], Shifted([Term(1, 2), Term(-2, 1), Term(1, 0)], 6, 1)) == [Term(0, 3), Term(7, 2), Term(-5, 1), Term(-7, 0)]
  {
    assert Shifted([Term(1, 2), Term(-2, 1), Term(1, 0)], 6, 1) == [Term(6, 3), Term(-12, 2), Term(6, 1)];
    assert Negated([Term(6, 3), Term(-12, 2), Term(6, 1)]) == [Term(-6, 3), Term(12, 2), Term(-6, 1)];
    CopyOfCanonical([Term(6, 3), Term(-5, 2), Term(1, 1), Term(-7, 0)]);
    InsertThree([Term(6, 3), Term(-5, 2), Term(1, 1), Term(-7, 0)], Term(-6, 3), Term(12, 2), Term(-6, 1));
    QuarticInserts2();
  }

  lemma QuarticPass2()
    ensures Sorted([Term(6, 3), Term(-5, 2), Term(1, 1), Term(-7, 0)])
    ensures Sorted([Term(1, 2), Term(-2, 1), Term(1, 0)])
    ensures Sorted([Term(3, 2), Term(6, 1)])
    ensures Sorted([Term(0, 3), Term(7, 2), Term(-5, 1), Term(-7, 0)])
    ensures DivLoop([Term(3, 2)], [Term(6, 3), Term(-5, 2), Term(1, 1), Term(-7, 0)], [Term(1, 2), Term(-2, 1), Term(1, 0)])
         == DivLoop([Term(3, 2), Term(6, 1)], [Term(0, 3), Term(7, 2), Term(-5, 1), Term(-7, 0)], [Term(1, 2), Term(-2, 1), Term(1, 0)])
  {
    QuarticDifference2();
    assert Insert([Term(3, 2)], 6, 1) == [Term(3, 2), Term(6, 1)];
    Sorted4(Term(6, 3), Term(-5, 2), Term(1, 1), Term(-7, 0));
    Sorted3(Term(1, 2), Term(-2, 1), Term(1, 0));
    Sorted2(Term(3, 2), Term(6, 1));
    Sorted4(Term(0, 3), Term(7, 2), Term(-5, 1), Term(-7, 0));
    UnitPass([Term(3, 2)], [Term(6, 3), Term(-5, 2), Term(1, 1), Term(-7, 0)], [Term(1, 2), Term(-2, 1), Term(1, 0)], [Term(0, 3), Term(7, 2), Term(-5, 1), Term(-7, 0)]);
  }

  lemma QuarticClear2()
    ensures Sorted([Term(3, 2), Term(6, 1)])
    ensures Sorted([Term(0, 3), Term(7, 2), Term(-5, 1), Term(-7, 0)])
    ensures Sorted([Term(1, 2), Term(-2, 1), Term(1, 0)])
    ensures Sorted([Term(7, 2), Term(-5, 1), Term(-7, 0)])
    ensures DivLoop([Term(3, 2), Term(6, 1)], [Term(0, 3), Term(7, 2), Term(-5, 1), Term(-7, 0)], [Term(1, 2), Term(-2, 1), Term(1, 0)])
         == DivLoop([Term(3, 2), Term(6, 1)], [Term(7, 2), Term(-5, 1), Term(-7, 0)], [Term(1, 2), Term(-2, 1), Term(1, 0)])
  {
    Sorted2(Term(3, 2), Term(6, 1));
    Sorted4(Term(0, 3), Term(7, 2), Term(-5, 1), Term(-7, 0));
    Sorted3(Term(1, 2), Term(-2, 1), Term(1, 0));
    Sorted3(Term(7, 2), Term(-5, 1), Term(-7, 0));
    ClearingPass([Term(3, 2), Term(6, 1)], [Term(0, 3), Term(7, 2), Term(-5, 1), Term(-7, 0)], [Term(1, 2), Term(-2, 1), Term(1, 0)]);
    assert [Term(0, 3), Term(7, 2), Term(-5, 1), Term(-7, 0)][1..] == [Term(7, 2), Term(-5, 1), Term(-7, 0)];
  }

  lemma QuarticInserts3()
    ensures Insert(Insert(Insert([Term(7, 2), Term(-5, 1), Term(-7, 0)], -7, 2), 14, 1), -7, 0)
         == [Term(0, 2), Term(9, 1), Term(-14, 0)]
  {
    assert Insert([Term(7, 2), Term(-5, 1), Term(-7, 0)], -7, 2) == [Term(0, 2), Term(-5, 1), Term(-7, 0)];
    assert Insert([Term(0, 2), Term(-5, 1), Term(-7, 0)], 14, 1) == [Term(0, 2), Term(9, 1), Term(-7, 0)];
  }

  lemma QuarticDifference3()
    ensures Difference([Term(7, 2), Term(-5, 1), Term(-7, 0)], Shifted([Term(1, 2), Term(-2, 1), Term(1, 0)], 7, 0)) == [Term(0, 2), Term(9, 1), Term(-14, 0)]
  {
    assert Shifted([Term(1, 2), Term(-2, 1), Term(1, 0)], 7, 0) == [Term(7, 2), Term(-14, 1), Term(7, 0)];
    assert Negated([Term(7, 2), Term(-14, 1), Term(7, 0)]) == [Term(-7, 2), Term(14, 1), Term(-7, 0)];
    CopyOfCanonical([Term(7, 2), Term(-5, 1), Term(-7, 0)]);
    InsertThree([Term(7, 2), Term(-5, 1), Term(-7, 0)], Term(-7, 2), Term(14, 1), Term(-7, 0));
    QuarticInserts3();
  }

  lemma QuarticPass3()
    ensures Sorted([Term(3, 2), Term(6, 1)])
    ensures Sorted([Term(7, 2), Term(-5, 1), Term(-7, 0)])
    ensures Sorted([Term(1, 2), Term(-2, 1), Term(1, 0)])
    ensures Sorted([Term(3, 2), Term(6, 1), Term(7, 0)])
    ensures Sorted([Term(0, 2), Term(9, 1), Term(-14, 0)])
    ensures DivLoop([Term(3, 2), Term(6, 1)], [Term(7, 2), Term(-5, 1), Term(-7, 0)], [Term(1, 2), Term(-2, 1), Term(1, 0)])
         == DivLoop([Term(3, 2), Term(6, 1), Term(7, 0)], [Term(0, 2), Term(9, 1), Term(-14, 0)], [Term(1, 2), Term(-2, 1), Term(1, 0)])
  {
    QuarticDifference3();
    assert Insert([Term(3, 2), Term(6, 1)], 7, 0) == [Term(3, 2), Term(6, 1), Term(7, 0)];
    Sorted2(Term(3, 2), Term(6, 1));
    Sorted3(Term(7, 2), Term(-5, 1), Term(-7, 0));
    Sorted3(Term(1, 2), Term(-2, 1), Term(1, 0));
    Sorted3(Term(3, 2), Term(6, 1), Term(7, 0));
    Sorted3(Term(0, 2), Term(9, 1), Term(-14, 0));
    UnitPass([Term(3, 2), Term(6, 1)], [Term(7, 2), Term(-5, 1), Term(-7, 0)], [Term(1, 2), Term(-2, 1), Term(1, 0)], [Term(0, 2), Term(9, 1), Term(-14, 0)]);
  }

  lemma QuarticClear3()
    ensures Sorted([Term(3, 2), Term(6, 1), Term(7, 0)])
    ensures Sorted([Term(0, 2), Term(9, 1), Term(-14, 0)])
    ensures Sorted([Term(1, 2), Term(-2, 1), Term(1, 0)])
    ensures Sorted([Term(9, 1), Term(-14, 0)])
    ensures DivLoop([Term(3, 2), Term(6, 1), Term(7, 0)], [Term(0, 2), Term(9, 1), Term(-14, 0)], [Term(1, 2), Term(-2, 1), Term(1, 0)])
         == DivLoop([Term(3, 2), Term(6, 1), Term(7, 0)], [Term(9, 1), Term(-14, 0)], [Term(1, 2), Term(-2, 1), Term(1, 0)])
  {
    Sorted3(Term(3, 2), Term(6, 1), Term(7, 0));
    Sorted3(Term(0, 2), Term(9, 1), Term(-14, 0));
    Sorted3(Term(1, 2), Term(-2, 1), Term(1, 0));
    Sorted2(Term(9, 1), Term(-14, 0));
    ClearingPass([Term(3, 2), Term(6, 1), Term(7, 0)], [Term(0, 2), Term(9, 1), Term(-14, 0)], [Term(1, 2), Term(-2, 1), Term(1, 0)]);
    assert [Term(0, 2), Term(9, 1), Term(-14, 0)][1..] == [Term(9, 1), Term(-14, 0)];
  }

  /** 3x^4 − 2x^2 + x − 7 divided by x^2 − 2x + 1 (the menu's second example): quotient 3x^2 + 6x + 7, remainder 9x − 14. */
  lemma QuarticDivision()
    ensures LongDivision([Term(3, 4), Term(-2, 2), Term(1, 1), Term(-7, 0)], [Term(1, 2), Term(-2, 1), Term(1, 0)])
         == ([Term(3, 2), Term(6, 1), Term(7, 0)], [Term(9, 1), Term(-14, 0)])
  {
    CopyOfCanonical([Term(3, 4), Term(-2, 2), Term(1, 1), Term(-7, 0)]);
    QuarticPass1();
    QuarticClear1();
    QuarticPass2();
    QuarticClear2();
    QuarticPass3();
    QuarticClear3();
  }

  /** The quotient of the second example prints as "3x^2 + 6x + 7". */
  lemma QuarticQuotientPrinted()
    ensures Format([Term(3, 2), Term(6, 1), Term(7, 0)]) == "3x^2 + 6x + 7"
  {
    QuarticQuotientLead();
    assert Piece(false, Term(7, 0)) == " + 7";
    FormatThree(Term(3, 2), Term(6, 1), Term(7, 0), "3x^2 + 6x");
  }

  lemma QuarticQuotientLead()
    ensures Render([Term(3, 2), Term(6, 1)]) == "3x^2 + 6x"
  {
    assert Piece(true, Term(3, 2)) == "3x^2" by {
      assert Decimal(2) == "2";
    }
    assert Piece(false, Term(6, 1)) == " + 6x";
    RenderTwo(Term(3, 2), Term(6, 1));
  }

  /** The remainder of the second example prints as "9x - 14". */
  lemma QuarticRemainderPrinted()
    ensures Format([Term(9, 1), Term(-14, 0)]) == "9x - 14"
  {
    RenderTwo(Term(9, 1), Term(-14, 0));
    assert Piece(true, Term(9, 1)) == "9x";
    assert Decimal(14) == "14";
    assert Piece(false, Term(-14, 0)) == " - 14";
  }

  // x^2 − 1 divided by itself.

  lemma SelfInserts()
    ensures Insert(Insert([Term(1, 2), Term(-1, 0)], -1, 2), 1, 0) == [Term(0, 2), Term(0, 0)]
  {
    assert Insert([Term(1, 2), Term(-1, 0)], -1, 2) == [Term(0, 2), Term(-1, 0)];
  }

  lemma SelfDifference()
    ensures Difference([Term(1, 2), Term(-1, 0)], Shifted([Term(1, 2), Term(-1, 0)], 1, 0)) == [Term(0, 2), Term(0, 0)]
  {
    assert Shifted([Term(1, 2), Term(-1, 0)], 1, 0) == [Term(1, 2), Term(-1, 0)];
    assert Negated([Term(1, 2), Term(-1, 0)]) == [Term(-1, 2), Term(1, 0)];
    CopyOfCanonical([Term(1, 2), Term(-1, 0)]);
    InsertTwo([Term(1, 2), Term(-1, 0)], Term(-1, 2), Term(1, 0));
    SelfInserts();
  }

  lemma SelfPass()
    ensures Sorted([Term(1, 2), Term(-1, 0)])
    ensures Sorted([Term(0, 2), Term(0, 0)])
    ensures DivLoop([], [Term(1, 2), Term(-1, 0)], [Term(1, 2), Term(-1, 0)])
         == DivLoop([Term(1, 0)], [Term(0, 2), Term(0, 0)], [Term(1, 2), Term(-1, 0)])
  {
    SelfDifference();
    assert Insert([], 1, 0) == [Term(1, 0)];
    Sorted2(Term(1, 2), Term(-1, 0));
    Sorted2(Term(0, 2), Term(0, 0));
    UnitPass([], [Term(1, 2), Term(-1, 0)], [Term(1, 2), Term(-1, 0)], [Term(0, 2), Term(0, 0)]);
  }

  /** The cancellation leaves two zero nodes; the next pass strips both and the loop ends on an empty remainder. */
  lemma SelfClear()
    ensures Sorted([Term(0, 2), Term(0, 0)])
    ensures Sorted([Term(1, 2), Term(-1, 0)])
    ensures DivLoop([Term(1, 0)], [Term(0, 2), Term(0, 0)], [Term(1, 2), Term(-1, 0)]) == ([Term(1, 0)], [])
  {
    Sorted2(Term(0, 2), Term(0, 0));
    Sorted2(Term(1, 2), Term(-1, 0));
    DivLoopPass([Term(1, 0)], [Term(0, 2), Term(0, 0)], [Term(1, 2), Term(-1, 0)]);
    LeadZero([Term(1, 0)], [Term(0, 2), Term(0, 0)], [Term(1, 2), Term(-1, 0)]);
    BothZerosDropped();
  }

  lemma BothZerosDropped()
    ensures NonZero([Term(0, 2), Term(0, 0)]) == []
  {
    assert [Term(0, 2), Term(0, 0)] == [Term(0, 2)] + [Term(0, 0)];
    NonZeroCons(Term(0, 2), [Term(0, 0)]);
    assert [Term(0, 0)] == [Term(0, 0)] + [];
    NonZeroCons(Term(0, 0), []);
  }

  /** x^2 − 1 divided by itself: quotient 1 and an empty remainder. */
  lemma SelfDivision()
    ensures LongDivision([Term(1, 2), Term(-1, 0)], [Term(1, 2), Term(-1, 0)]) == ([Term(1, 0)], [])
  {
    CopyOfCanonical([Term(1, 2), Term(-1, 0)]);
    SelfPass();
    SelfClear();
  }

  /** The self-division's quotient and remainder print as "1" and "0". */
  lemma SelfPrinted()
    ensures Format([Term(1, 0)]) == "1" && Format([]) == "0"
  {
    RenderOne(Term(1, 0));
  }

  /**
   * agregarTermino keeps a node whose coefficient sums to 0: adding 2x^3 and
   * then −2x^3 leaves a node worth nothing that the printer shows as "0x^3".
   */
  lemma ZeroNodeKept()
    ensures Insert(Insert([], 2, 3), -2, 3) == [Term(0, 3)]
    ensures forall f :: Coef(Insert(Insert([], 2, 3), -2, 3), f) == 0
    ensures Format([Term(0, 3)]) == "0x^3"
  {
    RenderOne(Term(0, 3));
  }

  // x^2 divided by x + 1, and the check comprobarDivision makes on the result.

  lemma SquareInserts1()
    ensures Insert(Insert([Term(1, 2)], -1, 2), -1, 1)
         == [Term(0, 2), Term(-1, 1)]
  {
    assert Insert([Term(1, 2)], -1, 2) == [Term(0, 2)];
  }

  lemma SquareDifference1()
    ensures Difference([Term(1, 2)], Shifted([Term(1, 1), Term(1, 0)], 1, 1)) == [Term(0, 2), Term(-1, 1)]
  {
    assert Shifted([Term(1, 1), Term(1, 0)], 1, 1) == [Term(1, 2), Term(1, 1)];
    assert Negated([Term(1, 2), Term(1, 1)]) == [Term(-1, 2), Term(-1, 1)];
    CopyOfCanonical([Term(1, 2)]);
    InsertTwo([Term(1, 2)], Term(-1, 2), Term(-1, 1));
    SquareInserts1();
  }

  lemma SquarePass1()
    ensures Sorted([Term(1, 1), Term(1, 0)])
    ensures Sorted([Term(0, 2), Term(-1, 1)])
    ensures DivLoop([], [Term(1, 2)], [Term(1, 1), Term(1, 0)])
         == DivLoop([Term(1, 1)], [Term(0, 2), Term(-1, 1)], [Term(1, 1), Term(1, 0)])
  {
    SquareDifference1();
    assert Insert([], 1, 1) == [Term(1, 1)];
    Sorted2(Term(1, 1), Term(1, 0));
    Sorted2(Term(0, 2), Term(-1, 1));
    UnitPass([], [Term(1, 2)], [Term(1, 1), Term(1, 0)], [Term(0, 2), Term(-1, 1)]);
  }

  lemma SquareClear1()
    ensures Sorted([Term(0, 2), Term(-1, 1)])
    ensures Sorted([Term(1, 1), Term(1, 0)])
    ensures DivLoop([Term(1, 1)], [Term(0, 2), Term(-1, 1)], [Term(1, 1), Term(1, 0)])
         == DivLoop([Term(1, 1)], [Term(-1, 1)], [Term(1, 1), Term(1, 0)])
  {
    Sorted2(Term(0, 2), Term(-1, 1));
    Sorted2(Term(1, 1), Term(1, 0));
    ClearingPass([Term(1, 1)], [Term(0, 2), Term(-1, 1)], [Term(1, 1), Term(1, 0)]);
    assert [Term(0, 2), Term(-1, 1)][1..] == [Term(-1, 1)];
  }

  lemma SquareInserts2()
    ensures Insert(Insert([Term(-1, 1)], 1, 1), 1, 0)
         == [Term(0, 1), Term(1, 0)]
  {
    assert Insert([Term(-1, 1)], 1, 1) == [Term(0, 1)];
  }

  lemma SquareDifference2()
    ensures Difference([Term(-1, 1)], Shifted([Term(1, 1), Term(1, 0)], -1, 0)) == [Term(0, 1), Term(1, 0)]
  {
    assert Shifted([Term(1, 1), Term(1, 0)], -1, 0) == [Term(-1, 1), Term(-1, 0)];
    assert Negated([Term(-1, 1), Term(-1, 0)]) == [Term(1, 1), Term(1, 0)];
    CopyOfCanonical([Term(-1, 1)]);
    InsertTwo([Term(-1, 1)], Term(1, 1), Term(1, 0));
    SquareInserts2();
  }

  lemma SquarePass2()
    ensures Sorted([Term(1, 1), Term(1, 0)])
    ensures Sorted([Term(1, 1), Term(-1, 0)])
    ensures Sorted([Term(0, 1), Term(1, 0)])
    ensures DivLoop([Term(1, 1)], [Term(-1, 1)], [Term(1, 1), Term(1, 0)])
         == DivLoop([Term(1, 1), Term(-1, 0)], [Term(0, 1), Term(1, 0)], [Term(1, 1), Term(1, 0)])
  {
    SquareDifference2();
    assert Insert([Term(1, 1)], -1, 0) == [Term(1, 1), Term(-1, 0)];
    Sorted2(Term(1, 1), Term(1, 0));
    Sorted2(Term(1, 1), Term(-1, 0));
    Sorted2(Term(0, 1), Term(1, 0));
    UnitPass([Term(1, 1)], [Term(-1, 1)], [Term(1, 1), Term(1, 0)], [Term(0, 1), Term(1, 0)]);
  }

  lemma SquareClear2()
    ensures Sorted([Term(1, 1), Term(-1, 0)])
    ensures Sorted([Term(0, 1), Term(1, 0)])
    ensures Sorted([Term(1, 1), Term(1, 0)])
    ensures DivLoop([Term(1, 1), Term(-1, 0)], [Term(0, 1), Term(1, 0)], [Term(1, 1), Term(1, 0)])
         == DivLoop([Term(1, 1), Term(-1, 0)], [Term(1, 0)], [Term(1, 1), Term(1, 0)])
  {
    Sorted2(Term(1, 1), Term(-1, 0));
    Sorted2(Term(0, 1), Term(1, 0));
    Sorted2(Term(1, 1), Term(1, 0));
    ClearingPass([Term(1, 1), Term(-1, 0)], [Term(0, 1), Term(1, 0)], [Term(1, 1), Term(1, 0)]);
    assert [Term(0, 1), Term(1, 0)][1..] == [Term(1, 0)];
  }

  /** x^2 divided by x + 1: quotient x − 1, remainder 1. */
  lemma SquareDivision()
    ensures LongDivision([Term(1, 2)], [Term(1, 1), Term(1, 0)])
         == ([Term(1, 1), Term(-1, 0)], [Term(1, 0)])
  {
    CopyOfCanonical([Term(1, 2)]);
    SquarePass1();
    SquareClear1();
    SquarePass2();
    SquareClear2();
  }

  /** multiplicarPolinomios of x + 1 and x − 1 keeps the cancelled x as a zero node: x^2 + 0x − 1. */
  lemma SquareProduct()
    ensures Product([Term(1, 1), Term(1, 0)], [Term(1, 1), Term(-1, 0)]) == [Term(1, 2), Term(0, 1), Term(-1, 0)]
  {
    var d, q := [Term(1, 1), Term(1, 0)], [Term(1, 1), Term(-1, 0)];
    var cross := [Term(1, 2), Term(-1, 1), Term(1, 1), Term(-1, 0)];
    assert Products(d, q) == cross by {
      assert d[..1] == [Term(1, 1)] && [Term(1, 1)][..0] == [];
      assert Shifted(q, 1, 1) == [Term(1, 2), Term(-1, 1)];
      assert Shifted(q, 1, 0) == q;
    }
    assert cross == [Term(1, 2), Term(-1, 1), Term(1, 1)] + [Term(-1, 0)];
    InsertAllSnoc([], [Term(1, 2), Term(-1, 1), Term(1, 1)], Term(-1, 0));
    InsertThree([], Term(1, 2), Term(-1, 1), Term(1, 1));
    assert Insert([], 1, 2) == [Term(1, 2)];
    assert Insert([Term(1, 2)], -1, 1) == [Term(1, 2), Term(-1, 1)];
    assert Insert([Term(1, 2), Term(-1, 1)], 1, 1) == [Term(1, 2), Term(0, 1)];
    assert Insert([Term(1, 2), Term(0, 1)], -1, 0) == [Term(1, 2), Term(0, 1), Term(-1, 0)];
  }

  /** sumarPolinomios copies the product (dropping 0x) and adds the remainder 1 onto −1, keeping a node 0. */
  lemma SquareSum()
    ensures Sum([Term(1, 2), Term(0, 1), Term(-1, 0)], [Term(1, 0)]) == [Term(1, 2), Term(0, 0)]
  {
    var p := [Term(1, 2), Term(0, 1), Term(-1, 0)];
    assert CopyOf(p) == [Term(1, 2), Term(-1, 0)] by {
      CopyOfSorted(p);
      assert p == [Term(1, 2)] + [Term(0, 1), Term(-1, 0)];
      NonZeroCons(Term(1, 2), [Term(0, 1), Term(-1, 0)]);
      assert [Term(0, 1), Term(-1, 0)] == [Term(0, 1)] + [Term(-1, 0)];
      NonZeroCons(Term(0, 1), [Term(-1, 0)]);
      NonZeroOfZeroFree([Term(-1, 0)]);
    }
    assert [Term(1, 0)] == [] + [Term(1, 0)];
    InsertAllSnoc([Term(1, 2), Term(-1, 0)], [], Term(1, 0));
    assert Insert([Term(1, 2), Term(-1, 0)], 1, 0) == [Term(1, 2), Term(0, 0)];
  }

  lemma SquarePrinted()
    ensures Format([Term(1, 2), Term(0, 0)]) == "x^2 - 0" && Format([Term(1, 2)]) == "x^2"
  {
    RenderTwo(Term(1, 2), Term(0, 0));
    assert Piece(true, Term(1, 2)) == "x^2";
    assert Piece(false, Term(0, 0)) == " - 0";
    RenderOne(Term(1, 2));
  }

  /**
   * comprobarDivision as written rejects an exact division: x^2 ÷ (x + 1)
   * gives x − 1 and 1, which satisfy the identity, but divisor·quotient +
   * remainder prints as "x^2 - 0" against "x^2". The comparison on
   * zero-stripped copies accepts it.
   */
  lemma CheckRejectsExactDivision()
    ensures LongDivision([Term(1, 2)], [Term(1, 1), Term(1, 0)]) == ([Term(1, 1), Term(-1, 0)], [Term(1, 0)])
    ensures Identity([Term(1, 2)], [Term(1, 1), Term(1, 0)], [Term(1, 1), Term(-1, 0)], [Term(1, 0)])
    ensures !CheckAsWritten([Term(1, 2)], [Term(1, 1), Term(1, 0)], [Term(1, 1), Term(-1, 0)], [Term(1, 0)])
    ensures CheckCanonical([Term(1, 2)], [Term(1, 1), Term(1, 0)], [Term(1, 1), Term(-1, 0)], [Term(1, 0)])
  {
    var n, d := [Term(1, 2)], [Term(1, 1), Term(1, 0)];
    var q, r := [Term(1, 1), Term(-1, 0)], [Term(1, 0)];
    assert LongDivision(n, d) == (q, r) by {
      SquareDivision();
    }
    assert Identity(n, d, q, r) by {
      LongDivisionCorrect(n, d);
    }
    assert !CheckAsWritten(n, d, q, r) by {
      SquareProduct();
      SquareSum();
      SquarePrinted();
    }
    CheckCanonicalAcceptsDivision(n, d);
  }

  /**
   * A negative exponent defeats the corrected comparison: x^-1 ÷ 1 with an
   * empty quotient and remainder breaks the identity, yet both sides print
   * "0", since a leading node 1·x^-1 writes nothing.
   */
  lemma CheckCanonicalNegativeExponent()
    ensures !Identity([Term(1, -1)], [Term(1, 0)], [], [])
    ensures CheckCanonical([Term(1, -1)], [Term(1, 0)], [], [])
  {
    var n, d: seq<Term> := [Term(1, -1)], [Term(1, 0)];
    assert Coef(n, -1) == 1;
    assert ProdCoef(d, [], -1) == 0;
    assert Sum(Product(d, []), []) == [];
    assert CopyOf(n) == n;
    assert Render(n) == Piece(true, Term(1, -1)) == "";
  }

  /**
   * The loop guard can fail before any pass: 5 ÷ 2x, where the dividend's
   * head lies below the divisor's, and 0 ÷ 0, where both lists are empty.
   * dividir then returns an empty quotient and the copied dividend as remainder.
   */
  lemma SkippedDivisions()
    ensures Skipped([Term(5, 0)], [Term(2, 1)]) && CopyOf([Term(5, 0)]) == [Term(5, 0)]
    ensures Identity([Term(5, 0)], [Term(2, 1)], [], [Term(5, 0)])
    ensures Skipped([], []) && Identity([], [], [], [])
  {
    assert CopyOf([Term(5, 0)]) == [Term(5, 0)];
    SkippedDivision([Term(5, 0)], [Term(2, 1)]);
    SkippedDivision([], []);
  }
}
