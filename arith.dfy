/**
 * The list-building helpers of the polynomial class as functions on node
 * lists: each one inserts a sequence of terms, in list order, into a fresh
 * list (copiar, multiplicar, restar, sumarPolinomios, multiplicarPolinomios).
 */
module Arith {
  import opened Poly

  /** The nodes of p scaled by c and shifted by k, in the order multiplicar visits them. */
  function Shifted(p: seq<Term>, c: int, k: int): (r: seq<Term>)
    ensures |r| == |p|
  {
    seq(|p|, i requires 0 <= i < |p| => Term(p[i].coef * c, p[i].exp + k))
  }

  /** The nodes of p with negated coefficients, in the order restar visits them. */
  function Negated(p: seq<Term>): (r: seq<Term>)
    ensures |r| == |p|
  {
    seq(|p|, i requires 0 <= i < |p| => Term(-p[i].coef, p[i].exp))
  }

  /** The cross terms in the order multiplicarPolinomios inserts them: p1's nodes outside, p2's inside. */
  function Products(p1: seq<Term>, p2: seq<Term>): seq<Term>
    decreases |p1|
  {
    if p1 == [] then []
    else
      var n := |p1| - 1;
      Products(p1[..n], p2) + Shifted(p2, p1[n].coef, p1[n].exp)
  }

  /** copiar */
  function CopyOf(p: seq<Term>): seq<Term> {
    InsertAll([], p)
  }

  /** multiplicar: p times the monomial c·x^k. */
  function MonomialProduct(p: seq<Term>, c: int, k: int): seq<Term> {
    InsertAll([], Shifted(p, c, k))
  }

  /** restar */
  function Difference(p1: seq<Term>, p2: seq<Term>): seq<Term> {
    InsertAll(CopyOf(p1), Negated(p2))
  }

  /** sumarPolinomios */
  function Sum(p1: seq<Term>, p2: seq<Term>): seq<Term> {
    InsertAll(CopyOf(p1), p2)
  }

  /** multiplicarPolinomios */
  function Product(p1: seq<Term>, p2: seq<Term>): seq<Term> {
    InsertAll([], Products(p1, p2))
  }

  /** The coefficient at x^e of the product of the values of p1 and p2: a sum over the nodes of p1. */
  function ProdCoef(p1: seq<Term>, p2: seq<Term>, e: int): int
    decreases |p1|
  {
    if p1 == [] then 0
    else
      var n := |p1| - 1;
      ProdCoef(p1[..n], p2, e) + p1[n].coef * Coef(p2, e - p1[n].exp)
  }

  lemma {:induction false} ShiftedCoef(p: seq<Term>, c: int, k: int, f: int)
    ensures Coef(Shifted(p, c, k), f) == c * Coef(p, f - k)
    decreases |p|
  {
    if p != [] {
      var n := |p| - 1;
      var x := Term(p[n].coef * c, p[n].exp + k);
      var a, b := Coef(p[..n], f - k), Coef([p[n]], f - k);
      assert Coef(p, f - k) == a + b by {
        assert p == p[..n] + [p[n]];
        CoefConcat(p[..n], [p[n]], f - k);
      }
      assert Coef(Shifted(p, c, k), f) == Coef(Shifted(p[..n], c, k), f) + Coef([x], f) by {
        ShiftedSnoc(p, c, k, n);
        assert p[..n + 1] == p;
        CoefConcat(Shifted(p[..n], c, k), [x], f);
      }
      assert Coef([x], f) == c * b by {
        CoefSingle(x, f);
        CoefSingle(p[n], f - k);
      }
      ShiftedCoef(p[..n], c, k, f);
      Distribute(c, a, b, 1, 0);
    }
  }

  lemma {:induction false} NegatedCoef(p: seq<Term>, f: int)
    ensures Coef(Negated(p), f) == -Coef(p, f)
  {
    if p != [] {
      NegatedCoef(p[1..], f);
      assert Negated(p)[1..] == Negated(p[1..]);
    }
  }

  lemma {:induction false} ProductsCoef(p1: seq<Term>, p2: seq<Term>, f: int)
    ensures Coef(Products(p1, p2), f) == ProdCoef(p1, p2, f)
    decreases |p1|
  {
    if p1 != [] {
      var n := |p1| - 1;
      ProductsCoef(p1[..n], p2, f);
      CoefConcat(Products(p1[..n], p2), Shifted(p2, p1[n].coef, p1[n].exp), f);
      ShiftedCoef(p2, p1[n].coef, p1[n].exp, f);
    }
  }

  /** One more node of p scales and shifts one more node onto the end. */
  lemma ShiftedSnoc(p: seq<Term>, c: int, k: int, j: int)
    requires 0 <= j < |p|
    ensures Shifted(p[..j + 1], c, k) == Shifted(p[..j], c, k) + [Term(p[j].coef * c, p[j].exp + k)]
  {
  }

  lemma ShiftedSorted(p: seq<Term>, c: int, k: int)
    requires Sorted(p)
    ensures Sorted(Shifted(p, c, k))
  {
  }

  /** copiar keeps the value and yields a sorted list. */
  lemma CopyOfValue(p: seq<Term>, f: int)
    ensures Coef(CopyOf(p), f) == Coef(p, f) && Sorted(CopyOf(p))
  {
    InsertAllCoef([], p, f);
    InsertAllSorted([], p);
  }

  /** copiar of a sorted list: the same nodes, same order, zero-coefficient nodes removed. */
  lemma CopyOfSorted(p: seq<Term>)
    requires Sorted(p)
    ensures CopyOf(p) == NonZero(p) && Sorted(CopyOf(p)) && ZeroFree(CopyOf(p))
  {
    InsertAllDropsZeros(p);
    InsertAllSorted([], p);
    NonZeroMembers(p);
  }

  /**
   * multiplicar: the value is c·x^k times the value of p; for a sorted p the
   * result is exactly the nonzero scaled-and-shifted nodes, so it is empty
   * when c = 0.
   */
  lemma MonomialProductValue(p: seq<Term>, c: int, k: int, f: int)
    ensures Coef(MonomialProduct(p, c, k), f) == c * Coef(p, f - k)
    ensures Sorted(MonomialProduct(p, c, k))
    ensures Sorted(p) ==> MonomialProduct(p, c, k) == NonZero(Shifted(p, c, k))
    ensures c == 0 ==> MonomialProduct(p, c, k) == []
  {
    InsertAllCoef([], Shifted(p, c, k), f);
    ShiftedCoef(p, c, k, f);
    InsertAllSorted([], Shifted(p, c, k));
    if Sorted(p) {
      ShiftedSorted(p, c, k);
      InsertAllDropsZeros(Shifted(p, c, k));
    }
    if c == 0 {
      InsertAllZeros([], Shifted(p, c, k));
    }
  }

  /** restar: the value is p1 − p2, and the result is sorted. */
  lemma DifferenceValue(p1: seq<Term>, p2: seq<Term>, f: int)
    ensures Coef(Difference(p1, p2), f) == Coef(p1, f) - Coef(p2, f)
    ensures Sorted(Difference(p1, p2))
  {
    CopyOfValue(p1, f);
    InsertAllCoef(CopyOf(p1), Negated(p2), f);
    NegatedCoef(p2, f);
    InsertAllSorted(CopyOf(p1), Negated(p2));
  }

  /** sumarPolinomios: the value is p1 + p2, and the result is sorted. */
  lemma SumValue(p1: seq<Term>, p2: seq<Term>, f: int)
    ensures Coef(Sum(p1, p2), f) == Coef(p1, f) + Coef(p2, f)
    ensures Sorted(Sum(p1, p2))
  {
    CopyOfValue(p1, f);
    InsertAllCoef(CopyOf(p1), p2, f);
    InsertAllSorted(CopyOf(p1), p2);
  }

  /** multiplicarPolinomios: the value is the product of the values, and the result is sorted. */
  lemma ProductValue(p1: seq<Term>, p2: seq<Term>, f: int)
    ensures Coef(Product(p1, p2), f) == ProdCoef(p1, p2, f)
    ensures Sorted(Product(p1, p2))
  {
    InsertAllCoef([], Products(p1, p2), f);
    ProductsCoef(p1, p2, f);
    InsertAllSorted([], Products(p1, p2));
  }

  /** Products, sums and copies of lists with nonnegative exponents have nonnegative exponents. */
  lemma {:induction false} ProductsAtLeast(p1: seq<Term>, p2: seq<Term>)
    requires ExpsAtLeast(p1, 0) && ExpsAtLeast(p2, 0)
    ensures ExpsAtLeast(Products(p1, p2), 0)
    decreases |p1|
  {
    if p1 != [] {
      var n := |p1| - 1;
      ProductsAtLeast(p1[..n], p2);
    }
  }

  lemma CheckedSumAtLeast(d: seq<Term>, q: seq<Term>, r: seq<Term>)
    requires ExpsAtLeast(d, 0) && ExpsAtLeast(q, 0) && ExpsAtLeast(r, 0)
    ensures ExpsAtLeast(Sum(Product(d, q), r), 0)
  {
    ProductsAtLeast(d, q);
    InsertAllAtLeast([], Products(d, q), 0);
    InsertAllAtLeast([], Product(d, q), 0);
    InsertAllAtLeast(CopyOf(Product(d, q)), r, 0);
  }

  /** The product coefficient depends on the second factor only through its value, linearly. */
  lemma {:induction false} ProdCoefLinear(p: seq<Term>, t: seq<Term>, u: seq<Term>, v: seq<Term>, a: int, e: int)
    requires forall g :: Coef(t, g) == Coef(u, g) + a * Coef(v, g)
    ensures ProdCoef(p, t, e) == ProdCoef(p, u, e) + a * ProdCoef(p, v, e)
    decreases |p|
  {
    if p != [] {
      var n := |p| - 1;
      ProdCoefLinear(p[..n], t, u, v, a, e);
      var x, g := p[n].coef, e - p[n].exp;
      assert ProdCoef(p, t, e) == ProdCoef(p[..n], t, e) + x * Coef(t, g);
      assert ProdCoef(p, u, e) == ProdCoef(p[..n], u, e) + x * Coef(u, g);
      assert ProdCoef(p, v, e) == ProdCoef(p[..n], v, e) + x * Coef(v, g);
      Distribute(x, Coef(u, g), Coef(v, g), a, ProdCoef(p[..n], v, e));
    }
  }

  lemma Distribute(x: int, y: int, z: int, a: int, w: int)
    ensures x * (y + a * z) == x * y + a * (x * z)
    ensures a * (w + x * z) == a * w + a * (x * z)
  {
  }

  /** Adding c at exponent k to the second factor adds c·x^k times the first factor. */
  lemma ProdCoefInsert(p: seq<Term>, q: seq<Term>, c: int, k: int, e: int)
    ensures ProdCoef(p, Insert(q, c, k), e) == ProdCoef(p, q, e) + c * Coef(p, e - k)
  {
    var m := [Term(1, k)];
    forall g ensures Coef(Insert(q, c, k), g) == Coef(q, g) + c * Coef(m, g) {
      InsertCoef(q, c, k, g);
    }
    ProdCoefLinear(p, Insert(q, c, k), q, m, c, e);
    ProdCoefMonomial(p, k, e);
  }

  /** Multiplying by x^k shifts: the coefficient at e is p's coefficient at e − k. */
  lemma {:induction false} ProdCoefMonomial(p: seq<Term>, k: int, e: int)
    ensures ProdCoef(p, [Term(1, k)], e) == Coef(p, e - k)
    decreases |p|
  {
    if p != [] {
      var n := |p| - 1;
      ProdCoefMonomial(p[..n], k, e);
      assert Coef([Term(1, k)], e - p[n].exp) == if e - p[n].exp == k then 1 else 0 by {
        assert [Term(1, k)][1..] == [];
      }
      assert Coef([p[n]], e - k) == if p[n].exp == e - k then p[n].coef else 0 by {
        assert [p[n]][1..] == [];
      }
      assert p == p[..n] + [p[n]];
      CoefConcat(p[..n], [p[n]], e - k);
    }
  }

  /**
   * Multiplication distributes over addition, value by value:
   * a·(b + c) and a·b + a·c have the same coefficient at every exponent.
   */
  lemma MulDistributes(a: seq<Term>, b: seq<Term>, c: seq<Term>, e: int)
    ensures Coef(Product(a, Sum(b, c)), e) == Coef(Sum(Product(a, b), Product(a, c)), e)
  {
    forall g ensures Coef(Sum(b, c), g) == Coef(b, g) + 1 * Coef(c, g) {
      SumValue(b, c, g);
    }
    ProdCoefLinear(a, Sum(b, c), b, c, 1, e);
    ProductValue(a, Sum(b, c), e);
    SumValue(Product(a, b), Product(a, c), e);
    ProductValue(a, b, e);
    ProductValue(a, c, e);
  }
}
