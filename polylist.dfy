/**
 * The linked-list polynomial class (PolinomioLista) and its operations as
 * imperative code over the node sequence, each proved against the functions
 * of Poly, Arith, Printer and Division.
 */
module PolyLists {
  import opened Poly
  import opened Arith
  import opened Printer
  import opened Division

  /** A polynomial held as its nodes from the head (cabeza) to the tail. */
  class PolyList {
    var terms: seq<Term>

    /** Every list the program builds keeps its exponents strictly decreasing. */
    ghost predicate Valid()
      reads this
    {
      Sorted(terms)
    }

    constructor()
      ensures Valid() && terms == []
    {
      terms := [];
    }

    /**
     * agregarTermino (lines 28-52): a zero coefficient is ignored; otherwise
     * the walk passes every node with a greater exponent, then adds to the
     * node with the same exponent (kept even when the sum is 0) or links a
     * new node in.
     */
    method AddTerm(c: int, e: int)
      modifies this
      ensures terms == Insert(old(terms), c, e)
      ensures old(Valid()) ==> Valid()
      ensures forall f :: Coef(terms, f) == Coef(old(terms), f) + (if f == e then c else 0)
    {
      ghost var before := terms;
      if c == 0 {
        return;
      }
      if terms == [] || terms[0].exp < e {
        terms := [Term(c, e)] + terms;
      } else {
        var i := 0;
        while i < |terms| && terms[i].exp > e
          invariant 0 <= i <= |terms|
          invariant forall j :: 0 <= j < i ==> terms[j].exp > e
        {
          i := i + 1;
        }
        InsertPosition(terms, c, e, i);
        if i < |terms| && terms[i].exp == e {
          terms := terms[i := Term(terms[i].coef + c, e)];
        } else {
          terms := terms[..i] + [Term(c, e)] + terms[i..];
        }
      }
      forall f ensures Coef(terms, f) == Coef(before, f) + (if f == e then c else 0) {
        InsertCoef(before, c, e, f);
      }
      if Sorted(before) {
        InsertSorted(before, c, e);
      }
    }

    /** imprimir (lines 55-74): the builder loop over the nodes, then "0" for an empty builder. */
    method Print() returns (s: string)
      ensures s == Format(terms)
    {
      var sb := "";
      var i := 0;
      while i < |terms|
        invariant 0 <= i <= |terms|
        invariant sb == Render(terms[..i])
      {
        var t := terms[i];
        ghost var mark := sb;
        var sign := if |sb| > 0 then (if t.coef > 0 then " + " else " - ") else if t.coef < 0 then "-" else "";
        sb := sb + sign;
        var coef := Abs(t.coef);
        var magnitude := if coef != 1 || t.exp == 0 then Decimal(coef) else "";
        sb := sb + magnitude;
        var power := if t.exp > 0 then "x" + (if t.exp > 1 then "^" + Decimal(t.exp) else "") else "";
        sb := sb + power;
        assert sign + magnitude + power == Piece(mark == "", t) by {
          assert (|mark| > 0) == (mark != "");
        }
        assert sb == mark + Piece(mark == "", t) by {
          Regroup(mark, sign, magnitude, power);
        }
        assert Render(terms[..i + 1]) == mark + Piece(mark == "", t) by {
          assert terms[..i + 1] == terms[..i] + [t];
          RenderSnoc(terms[..i], t);
        }
        i := i + 1;
      }
      assert terms[..i] == terms;
      s := if |sb| > 0 then sb else "0";
    }
  }

  lemma Regroup(a: string, b: string, c: string, d: string)
    ensures a + b + c + d == a + (b + c + d)
  {
    forall k | 0 <= k < |a + b + c + d| ensures (a + b + c + d)[k] == (a + (b + c + d))[k] {
    }
  }

  /** copiar (lines 123-131): every node of src inserted, in order, into a new list. */
  method Copy(src: PolyList) returns (copy: PolyList)
    ensures fresh(copy) && copy.Valid()
    ensures copy.terms == CopyOf(src.terms)
  {
    copy := new PolyList();
    var i := 0;
    while i < |src.terms|
      invariant 0 <= i <= |src.terms|
      invariant fresh(copy)
      invariant copy.terms == InsertAll([], src.terms[..i])
    {
      InsertAllSnoc([], src.terms[..i], src.terms[i]);
      assert src.terms[..i + 1] == src.terms[..i] + [src.terms[i]];
      copy.AddTerm(src.terms[i].coef, src.terms[i].exp);
      i := i + 1;
    }
    assert src.terms[..i] == src.terms;
    InsertAllSorted([], src.terms);
  }

  /** multiplicar (lines 101-109): every node of p scaled by c and shifted by k, inserted into a new list. */
  method MulMonomial(p: PolyList, c: int, k: int) returns (result: PolyList)
    ensures fresh(result) && result.Valid()
    ensures result.terms == MonomialProduct(p.terms, c, k)
  {
    result := new PolyList();
    var i := 0;
    while i < |p.terms|
      invariant 0 <= i <= |p.terms|
      invariant fresh(result)
      invariant result.terms == InsertAll([], Shifted(p.terms[..i], c, k))
    {
      var t := p.terms[i];
      InsertAllSnoc([], Shifted(p.terms[..i], c, k), Term(t.coef * c, t.exp + k));
      assert Shifted(p.terms[..i + 1], c, k) == Shifted(p.terms[..i], c, k) + [Term(t.coef * c, t.exp + k)];
      result.AddTerm(t.coef * c, t.exp + k);
      i := i + 1;
    }
    assert p.terms[..i] == p.terms;
    MonomialProductValue(p.terms, c, k, 0);
  }

  /** restar (lines 112-120): a copy of p1 into which every node of p2 is inserted negated. */
  method Subtract(p1: PolyList, p2: PolyList) returns (result: PolyList)
    ensures fresh(result) && result.Valid()
    ensures result.terms == Difference(p1.terms, p2.terms)
  {
    result := Copy(p1);
    var i := 0;
    while i < |p2.terms|
      invariant 0 <= i <= |p2.terms|
      invariant fresh(result)
      invariant result.terms == InsertAll(CopyOf(p1.terms), Negated(p2.terms[..i]))
    {
      var t := p2.terms[i];
      InsertAllSnoc(CopyOf(p1.terms), Negated(p2.terms[..i]), Term(-t.coef, t.exp));
      assert Negated(p2.terms[..i + 1]) == Negated(p2.terms[..i]) + [Term(-t.coef, t.exp)];
      result.AddTerm(-t.coef, t.exp);
      i := i + 1;
    }
    assert p2.terms[..i] == p2.terms;
    DifferenceValue(p1.terms, p2.terms, 0);
  }

  /** sumarPolinomios (lines 150-158): a copy of p1 into which every node of p2 is inserted. */
  method Add(p1: PolyList, p2: PolyList) returns (result: PolyList)
    ensures fresh(result) && result.Valid()
    ensures result.terms == Sum(p1.terms, p2.terms)
  {
    result := Copy(p1);
    var i := 0;
    while i < |p2.terms|
      invariant 0 <= i <= |p2.terms|
      invariant fresh(result)
      invariant result.terms == InsertAll(CopyOf(p1.terms), p2.terms[..i])
    {
      InsertAllSnoc(CopyOf(p1.terms), p2.terms[..i], p2.terms[i]);
      assert p2.terms[..i + 1] == p2.terms[..i] + [p2.terms[i]];
      result.AddTerm(p2.terms[i].coef, p2.terms[i].exp);
      i := i + 1;
    }
    assert p2.terms[..i] == p2.terms;
    SumValue(p1.terms, p2.terms, 0);
  }

  /** multiplicarPolinomios (lines 134-147): every pair of nodes, p1's outside and p2's inside, multiplied and inserted. */
  method Multiply(p1: PolyList, p2: PolyList) returns (result: PolyList)
    ensures fresh(result) && result.Valid()
    ensures result.terms == Product(p1.terms, p2.terms)
  {
    result := new PolyList();
    var i := 0;
    while i < |p1.terms|
      invariant 0 <= i <= |p1.terms|
      invariant fresh(result)
      invariant result.terms == InsertAll([], Products(p1.terms[..i], p2.terms))
    {
      var a := p1.terms[i];
      ghost var done := Products(p1.terms[..i], p2.terms);
      var j := 0;
      assert done + Shifted(p2.terms[..j], a.coef, a.exp) == done;
      while j < |p2.terms|
        invariant 0 <= j <= |p2.terms|
        invariant fresh(result)
        invariant result.terms == InsertAll([], done + Shifted(p2.terms[..j], a.coef, a.exp))
      {
        var b := p2.terms[j];
        CrossStep(done, p2.terms, a, j);
        result.AddTerm(a.coef * b.coef, a.exp + b.exp);
        j := j + 1;
      }
      assert p2.terms[..j] == p2.terms;
      ProductsSnoc(p1.terms, p2.terms, i);
      i := i + 1;
    }
    assert p1.terms[..i] == p1.terms;
    ProductValue(p1.terms, p2.terms, 0);
  }

  /** One more pass of the inner loop of multiplicarPolinomios inserts one more cross term. */
  lemma CrossStep(done: seq<Term>, p2: seq<Term>, a: Term, j: int)
    requires 0 <= j < |p2|
    ensures InsertAll([], done + Shifted(p2[..j + 1], a.coef, a.exp))
         == Insert(InsertAll([], done + Shifted(p2[..j], a.coef, a.exp)), a.coef * p2[j].coef, a.exp + p2[j].exp)
  {
    var prefix := Shifted(p2[..j], a.coef, a.exp);
    var x := Term(p2[j].coef * a.coef, p2[j].exp + a.exp);
    assert Shifted(p2[..j + 1], a.coef, a.exp) == prefix + [x] by {
      ShiftedSnoc(p2, a.coef, a.exp, j);
    }
    assert done + (prefix + [x]) == (done + prefix) + [x];
    InsertAllSnoc([], done + prefix, x);
    assert x == Term(a.coef * p2[j].coef, a.exp + p2[j].exp);
  }

  /** One more pass of the outer loop of multiplicarPolinomios appends the next node's row. */
  lemma ProductsSnoc(p1: seq<Term>, p2: seq<Term>, i: int)
    requires 0 <= i < |p1|
    ensures Products(p1[..i + 1], p2) == Products(p1[..i], p2) + Shifted(p2, p1[i].coef, p1[i].exp)
  {
    assert p1[..i + 1][..i] == p1[..i];
  }

  /** The pair dividir returns (lines 162-170). */
  datatype DivisionResult = DivisionResult(quotient: PolyList, remainder: PolyList)

  /**
   * dividir (lines 77-98) for a divisor led by 1 or −1, or for any divisor
   * when the loop is never entered: the loop computes LongDivision (an empty
   * quotient and the copied dividend when it is skipped), so the dividend's
   * value is divisor·quotient + remainder, both results are sorted and the
   * remainder's head lies below the divisor's.
   */
  method Divide(dividend: PolyList, divisor: PolyList) returns (res: DivisionResult)
    requires divisor.Valid() && (UnitLead(divisor.terms) || Skipped(dividend.terms, divisor.terms))
    ensures fresh(res.quotient) && fresh(res.remainder)
    ensures Skipped(dividend.terms, divisor.terms) ==> res.quotient.terms == [] && res.remainder.terms == CopyOf(dividend.terms)
    ensures UnitLead(divisor.terms) ==> (res.quotient.terms, res.remainder.terms) == LongDivision(dividend.terms, divisor.terms)
    ensures Identity(dividend.terms, divisor.terms, res.quotient.terms, res.remainder.terms)
    ensures res.quotient.Valid() && res.remainder.Valid()
    ensures res.remainder.terms == [] || (divisor.terms != [] && res.remainder.terms[0].exp < divisor.terms[0].exp)
  {
    var quotient := new PolyList();
    var remainder := Copy(dividend);
    ghost var d := divisor.terms;
    if Skipped(dividend.terms, d) {
      SkippedDivision(dividend.terms, d);
    }
    while remainder.terms != [] && remainder.terms[0].exp >= divisor.terms[0].exp
      invariant fresh(quotient) && fresh(remainder) && quotient != remainder
      invariant remainder.Valid()
      invariant UnitLead(d) || (quotient.terms == [] && remainder.terms == CopyOf(dividend.terms))
      invariant UnitLead(d) ==> DivLoop(quotient.terms, remainder.terms, d) == LongDivision(dividend.terms, d)
      decreases if UnitLead(d) then Measure(remainder.terms, d[0].exp) else 0
    {
      assert UnitLead(d);
      ghost var q, r := quotient.terms, remainder.terms;
      ghost var next := Step(q, r, d);
      assert Sorted(next.1) && Measure(next.1, d[0].exp) < Measure(r, d[0].exp) by {
        StepDecreases(q, r, d);
      }
      assert DivLoop(q, r, d) == DivLoop(next.0, next.1, d);
      var coef := JavaDiv(remainder.terms[0].coef, divisor.terms[0].coef);
      var exp := remainder.terms[0].exp - divisor.terms[0].exp;
      quotient.AddTerm(coef, exp);
      var product := MulMonomial(divisor, coef, exp);
      remainder := Subtract(remainder, product);
      assert (quotient.terms, remainder.terms) == next;
    }
    res := DivisionResult(quotient, remainder);
    if UnitLead(d) {
      assert (quotient.terms, remainder.terms) == LongDivision(dividend.terms, d);
      LongDivisionCorrect(dividend.terms, d);
    }
  }

  /**
   * comprobarDivision (lines 284-297): divisor·quotient + remainder is built
   * with multiplicarPolinomios and sumarPolinomios and its printed form is
   * compared with the printed dividend.
   */
  method CheckDivision(original: PolyList, divisor: PolyList, quotient: PolyList, remainder: PolyList) returns (ok: bool)
    ensures ok == CheckAsWritten(original.terms, divisor.terms, quotient.terms, remainder.terms)
  {
    var product := Multiply(divisor, quotient);
    var sum := Add(product, remainder);
    var shown := sum.Print();
    var expected := original.Print();
    ok := shown == expected;
  }
}
