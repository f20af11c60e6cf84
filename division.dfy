/**
 * Long division of one node list by another (dividir), its loop as a
 * recursive function over the running quotient and remainder, and the
 * comparison comprobarDivision makes afterwards.
 */
module Division {
  import opened Poly
  import opened Arith
  import opened Printer

  /** Java's int division: the exact quotient truncated toward zero. */
  function JavaDiv(a: int, b: int): int
    requires b != 0
  {
    var m := Abs(a) / Abs(b);
    if (a < 0) == (b < 0) then m else -m
  }

  /**
   * Truncating division leaves a remainder a − q·b smaller than |b| in
   * magnitude and never of the opposite sign to a; dividing by 1 or −1 is
   * exact.
   */
  lemma JavaDivTruncates(a: int, b: int)
    requires b != 0
    ensures Abs(a - JavaDiv(a, b) * b) < Abs(b)
    ensures a - JavaDiv(a, b) * b == 0 || (a - JavaDiv(a, b) * b < 0 <==> a < 0)
    ensures (b == 1 || b == -1) ==> JavaDiv(a, b) == a * b
  {
    var A, B := Abs(a), Abs(b);
    assert A == (A / B) * B + A % B && 0 <= A % B < B;
    JavaDivTimes(a, b);
    if b == 1 || b == -1 {
      assert A % B == 0;
    }
  }

  /** The truncated quotient times the divisor is the magnitude part of a, with a's sign. */
  lemma JavaDivTimes(a: int, b: int)
    requires b != 0
    ensures JavaDiv(a, b) * b == (if a < 0 then -((Abs(a) / Abs(b)) * Abs(b)) else (Abs(a) / Abs(b)) * Abs(b))
  {
    var m: int := Abs(a) / Abs(b);
    if b < 0 {
      assert Abs(b) == -b;
      assert JavaDiv(a, b) == (if a < 0 then m else -m);
    } else {
      assert JavaDiv(a, b) == (if a < 0 then -m else m);
    }
  }

  lemma SmallQuotient(a: nat, b: nat)
    requires a < b
    ensures a / b == 0
  {
  }

  /** The divisor's head coefficient is 1 or −1: every leading-coefficient division is exact. */
  predicate UnitLead(d: seq<Term>) {
    |d| > 0 && (d[0].coef == 1 || d[0].coef == -1)
  }

  /**
   * One pass of the division loop: the quotient term is the truncated ratio
   * of the head coefficients at the difference of the head exponents; it is
   * inserted into the quotient and divisor·term is subtracted from the
   * remainder.
   */
  function Step(q: seq<Term>, r: seq<Term>, d: seq<Term>): (seq<Term>, seq<Term>)
    requires r != [] && d != [] && d[0].coef != 0
  {
    var c := JavaDiv(r[0].coef, d[0].coef);
    var k := r[0].exp - d[0].exp;
    (Insert(q, c, k), Difference(r, MonomialProduct(d, c, k)))
  }

  function Max(a: nat, b: nat): nat {
    if a < b then b else a
  }

  /**
   * How far above h − 1 the highest exponent carrying a nonzero coefficient
   * reaches (0 when none reaches h).
   */
  function Rank(s: seq<Term>, h: int): nat
    decreases |s|
  {
    if s == [] then 0
    else
      var n := |s| - 1;
      Max(Rank(s[..n], h), if s[n].coef != 0 && s[n].exp >= h then s[n].exp - h + 1 else 0)
  }

  /**
   * The loop's termination measure: a pass that cancels the head lowers the
   * rank; a pass over a zero head (coefficient 0, empty product) only strips
   * the zero nodes.
   */
  ghost function Measure(r: seq<Term>, h: int): nat {
    2 * Rank(r, h) + (if ZeroFree(r) then 0 else 1)
  }

  lemma {:induction false} RankAtLeast(s: seq<Term>, i: int, h: int)
    requires 0 <= i < |s| && s[i].coef != 0 && s[i].exp >= h
    ensures Rank(s, h) >= s[i].exp - h + 1
    decreases |s|
  {
    var n := |s| - 1;
    if i < n {
      RankAtLeast(s[..n], i, h);
    }
  }

  lemma {:induction false} RankAtMost(s: seq<Term>, m: int, h: int)
    requires forall i :: 0 <= i < |s| && s[i].coef != 0 ==> s[i].exp < m
    requires m >= h
    ensures Rank(s, h) <= m - h
    decreases |s|
  {
    if s != [] {
      RankAtMost(s[..|s| - 1], m, h);
    }
  }

  lemma {:induction false} RankNonZero(s: seq<Term>, h: int)
    ensures Rank(NonZero(s), h) == Rank(s, h)
    decreases |s|
  {
    if s != [] {
      var n := |s| - 1;
      RankNonZero(s[..n], h);
      var u := NonZero(s[..n]);
      if s[n].coef != 0 {
        assert NonZero(s) == u + [s[n]];
        assert (u + [s[n]])[..|u|] == u;
      } else {
        assert NonZero(s) == u;
      }
    }
  }

  lemma SortedHeadMax(s: seq<Term>)
    requires Sorted(s) && s != []
    ensures ExpsAtMost(s, s[0].exp)
  {
    forall i | 0 < i < |s| ensures s[i].exp <= s[0].exp {
      assert s[0].exp > s[i].exp;
    }
  }

  /** copiar keeps a nonzero head. */
  lemma CopyKeepsHead(r: seq<Term>)
    requires Sorted(r) && r != [] && r[0].coef != 0
    ensures CopyOf(r) != [] && CopyOf(r)[0].exp == r[0].exp
  {
    var rh := r[0].exp;
    var cp := CopyOf(r);
    SortedHeadMax(r);
    InsertAllAtMost([], r, rh);
    CopyOfValue(r, rh);
    CoefAt(r, 0);
    var j := CoefHasNode(cp, rh);
    assert cp[0].exp >= cp[j].exp;
  }

  /** Subtracting nodes no higher than a nonzero head keeps that head's exponent first. */
  lemma DifferenceKeepsHead(r: seq<Term>, p: seq<Term>)
    requires Sorted(r) && r != [] && r[0].coef != 0 && ExpsAtMost(p, r[0].exp)
    ensures Difference(r, p) != [] && Difference(r, p)[0].exp == r[0].exp
  {
    CopyKeepsHead(r);
    assert ExpsAtMost(Negated(p), r[0].exp);
    InsertAllHead(CopyOf(r), Negated(p));
  }

  /** divisor·c·x^k has no node above the divisor's head exponent plus k. */
  lemma MonomialProductBelow(d: seq<Term>, c: int, k: int)
    requires Sorted(d) && d != []
    ensures ExpsAtMost(MonomialProduct(d, c, k), d[0].exp + k)
  {
    SortedHeadMax(d);
    assert ExpsAtMost(Shifted(d, c, k), d[0].exp + k);
    InsertAllAtMost([], Shifted(d, c, k), d[0].exp + k);
  }

  /** With an exact head division, r − d·c·x^k is zero at and above r's head exponent. */
  lemma HeadCancels(r: seq<Term>, d: seq<Term>, f: int)
    requires Sorted(r) && Sorted(d) && UnitLead(d) && r != [] && f >= r[0].exp
    ensures Coef(Difference(r, MonomialProduct(d, r[0].coef * d[0].coef, r[0].exp - d[0].exp)), f) == 0
  {
    var rc, rh, dc, dh := r[0].coef, r[0].exp, d[0].coef, d[0].exp;
    var c, k := rc * dc, rh - dh;
    var p := MonomialProduct(d, c, k);
    var x, y := Coef(r, f), Coef(d, f - k);
    assert Coef(Difference(r, p), f) == x - c * y by {
      DifferenceValue(r, p, f);
      MonomialProductValue(d, c, k, f);
    }
    if f > rh {
      assert x == 0 by {
        SortedHeadMax(r);
        CoefAbsent(r, f);
      }
      assert y == 0 by {
        SortedHeadMax(d);
        CoefAbsent(d, f - k);
      }
    } else {
      assert x == rc by {
        CoefAt(r, 0);
      }
      assert y == dc by {
        CoefAt(d, 0);
      }
      assert c * y == rc * (dc * dc);
    }
  }

  /**
   * A pass over a nonzero head with an exact leading division: the head's
   * exponent stays (as a node with coefficient 0) and every nonzero node of
   * the new remainder lies below it.
   */
  lemma LeadCancels(q: seq<Term>, r: seq<Term>, d: seq<Term>)
    requires Sorted(r) && Sorted(d) && UnitLead(d)
    requires r != [] && r[0].exp >= d[0].exp && r[0].coef != 0
    ensures JavaDiv(r[0].coef, d[0].coef) != 0
    ensures Step(q, r, d).0 == Merge(q, JavaDiv(r[0].coef, d[0].coef), r[0].exp - d[0].exp)
    ensures Sorted(Step(q, r, d).1)
    ensures Step(q, r, d).1 != [] && Step(q, r, d).1[0].exp == r[0].exp
    ensures forall i :: 0 <= i < |Step(q, r, d).1| && Step(q, r, d).1[i].coef != 0 ==>
              Step(q, r, d).1[i].exp < r[0].exp
  {
    var rc, rh, dc, dh := r[0].coef, r[0].exp, d[0].coef, d[0].exp;
    JavaDivTruncates(rc, dc);
    var c, k := JavaDiv(rc, dc), rh - dh;
    assert c == rc * dc;
    var p := MonomialProduct(d, c, k);
    var r' := Difference(r, p);
    assert Step(q, r, d) == (Merge(q, c, k), r');
    MonomialProductBelow(d, c, k);
    DifferenceKeepsHead(r, p);
    DifferenceValue(r, p, 0);
    forall i | 0 <= i < |r'| && r'[i].coef != 0 ensures r'[i].exp < rh {
      CoefAt(r', i);
      if r'[i].exp >= rh {
        HeadCancels(r, d, r'[i].exp);
      }
    }
  }

  /** A pass over a zero head: nothing enters the quotient and copiar strips the zero nodes. */
  lemma LeadZero(q: seq<Term>, r: seq<Term>, d: seq<Term>)
    requires Sorted(r) && UnitLead(d) && r != [] && r[0].coef == 0
    ensures Step(q, r, d) == (q, NonZero(r))
  {
    var k := r[0].exp - d[0].exp;
    assert JavaDiv(0, d[0].coef) == 0;
    MonomialProductValue(d, 0, k, 0);
    assert Negated([]) == [];
    CopyOfSorted(r);
  }

  /** Every pass of the loop keeps the remainder sorted and lowers the measure. */
  lemma StepDecreases(q: seq<Term>, r: seq<Term>, d: seq<Term>)
    requires Sorted(r) && Sorted(d) && UnitLead(d)
    requires r != [] && r[0].exp >= d[0].exp
    ensures Sorted(Step(q, r, d).1)
    ensures Measure(Step(q, r, d).1, d[0].exp) < Measure(r, d[0].exp)
  {
    var dh := d[0].exp;
    var r' := Step(q, r, d).1;
    if r[0].coef != 0 {
      LeadCancels(q, r, d);
      RankAtLeast(r, 0, dh);
      RankAtMost(r', r[0].exp, dh);
    } else {
      LeadZero(q, r, d);
      RankNonZero(r, dh);
      NonZeroMembers(r);
      CopyOfSorted(r);
    }
  }

  /** The division loop (lines 82-95): passes until the remainder is empty or its head is below the divisor's. */
  function DivLoop(q: seq<Term>, r: seq<Term>, d: seq<Term>): (seq<Term>, seq<Term>)
    requires Sorted(r) && Sorted(d) && UnitLead(d)
    decreases Measure(r, d[0].exp)
  {
    if r != [] && r[0].exp >= d[0].exp then
      StepDecreases(q, r, d);
      var next := Step(q, r, d);
      DivLoop(next.0, next.1, d)
    else
      (q, r)
  }

  /** While the guard holds the loop makes one more pass. */
  lemma DivLoopPass(q: seq<Term>, r: seq<Term>, d: seq<Term>)
    requires Sorted(r) && Sorted(d) && UnitLead(d) && r != [] && r[0].exp >= d[0].exp
    ensures Sorted(Step(q, r, d).1)
    ensures DivLoop(q, r, d) == DivLoop(Step(q, r, d).0, Step(q, r, d).1, d)
  {
    StepDecreases(q, r, d);
  }

  /** dividir: the loop started from an empty quotient and a copy of the dividend. */
  function LongDivision(n: seq<Term>, d: seq<Term>): (seq<Term>, seq<Term>)
    requires Sorted(d) && UnitLead(d)
  {
    InsertAllSorted([], n);
    DivLoop([], CopyOf(n), d)
  }

  /** The division identity: the value of n equals d·q + r at every exponent. */
  ghost predicate Identity(n: seq<Term>, d: seq<Term>, q: seq<Term>, r: seq<Term>) {
    forall e :: Coef(n, e) == ProdCoef(d, q, e) + Coef(r, e)
  }

  lemma {:induction false} ProdCoefEmpty(p: seq<Term>, e: int)
    ensures ProdCoef(p, [], e) == 0
    decreases |p|
  {
    if p != [] {
      ProdCoefEmpty(p[..|p| - 1], e);
    }
  }

  /**
   * Every pass keeps n = d·q + r, for any divisor whose head coefficient is
   * nonzero, even when the truncating division of the head coefficients is
   * inexact.
   */
  lemma StepKeepsIdentity(n: seq<Term>, q: seq<Term>, r: seq<Term>, d: seq<Term>)
    requires r != [] && d != [] && d[0].coef != 0
    requires Identity(n, d, q, r)
    ensures Identity(n, d, Step(q, r, d).0, Step(q, r, d).1)
  {
    var c := JavaDiv(r[0].coef, d[0].coef);
    var k := r[0].exp - d[0].exp;
    var p := MonomialProduct(d, c, k);
    forall e ensures Coef(n, e) == ProdCoef(d, Step(q, r, d).0, e) + Coef(Step(q, r, d).1, e) {
      ProdCoefInsert(d, q, c, k, e);
      DifferenceValue(r, p, e);
      MonomialProductValue(d, c, k, e);
    }
  }

  /** Zero-freeness of quotient and remainder, kept by the loop (the quotient's exponents stay above the rank). */
  ghost predicate Canonical(q: seq<Term>, r: seq<Term>, h: int) {
    && Sorted(q) && ZeroFree(q)
    && (forall i :: 0 <= i < |q| ==> q[i].exp >= Rank(r, h))
    && (ZeroFree(r) || (r != [] && r[0].exp >= h))
  }

  lemma StepKeepsCanonical(q: seq<Term>, r: seq<Term>, d: seq<Term>)
    requires Sorted(r) && Sorted(d) && UnitLead(d)
    requires r != [] && r[0].exp >= d[0].exp
    requires Canonical(q, r, d[0].exp)
    ensures Canonical(Step(q, r, d).0, Step(q, r, d).1, d[0].exp)
  {
    var dh := d[0].exp;
    var next := Step(q, r, d);
    if r[0].coef != 0 {
      var c, k := JavaDiv(r[0].coef, d[0].coef), r[0].exp - dh;
      assert next.0 == Merge(q, c, k) && c != 0 by {
        LeadCancels(q, r, d);
      }
      assert Rank(next.1, dh) <= k by {
        LeadCancels(q, r, d);
        RankAtMost(next.1, r[0].exp, dh);
      }
      assert forall i :: 0 <= i < |q| ==> q[i].exp > k by {
        RankAtLeast(r, 0, dh);
      }
      assert Sorted(next.0) by {
        InsertSorted(q, c, k);
      }
      assert ZeroFree(next.0) by {
        MergeZeroFree(q, c, k);
      }
      assert forall i :: 0 <= i < |next.0| ==> next.0[i].exp >= Rank(next.1, dh) by {
        MergeAtLeast(q, c, k, Rank(next.1, dh));
      }
      assert next.1 != [] && next.1[0].exp >= dh by {
        LeadCancels(q, r, d);
      }
    } else {
      assert next == (q, NonZero(r)) by {
        LeadZero(q, r, d);
      }
      RankNonZero(r, dh);
      NonZeroMembers(r);
    }
  }

  /** What the loop returns: the identity, sorted lists, and a remainder whose head is below the divisor's. */
  lemma {:induction false} DivLoopCorrect(n: seq<Term>, q: seq<Term>, r: seq<Term>, d: seq<Term>)
    requires Sorted(q) && Sorted(r) && Sorted(d) && UnitLead(d)
    requires Identity(n, d, q, r)
    ensures Identity(n, d, DivLoop(q, r, d).0, DivLoop(q, r, d).1)
    ensures Sorted(DivLoop(q, r, d).0) && Sorted(DivLoop(q, r, d).1)
    ensures DivLoop(q, r, d).1 == [] || DivLoop(q, r, d).1[0].exp < d[0].exp
    decreases Measure(r, d[0].exp)
  {
    if r != [] && r[0].exp >= d[0].exp {
      var next := Step(q, r, d);
      assert Sorted(next.1) && Measure(next.1, d[0].exp) < Measure(r, d[0].exp) by {
        StepDecreases(q, r, d);
      }
      assert DivLoop(q, r, d) == DivLoop(next.0, next.1, d);
      assert Identity(n, d, next.0, next.1) by {
        StepKeepsIdentity(n, q, r, d);
      }
      assert Sorted(next.0) by {
        InsertSorted(q, JavaDiv(r[0].coef, d[0].coef), r[0].exp - d[0].exp);
      }
      DivLoopCorrect(n, next.0, next.1, d);
    }
  }

  lemma {:induction false} DivLoopCanonical(q: seq<Term>, r: seq<Term>, d: seq<Term>)
    requires Sorted(r) && Sorted(d) && UnitLead(d)
    requires Canonical(q, r, d[0].exp)
    ensures ZeroFree(DivLoop(q, r, d).0) && ZeroFree(DivLoop(q, r, d).1)
    decreases Measure(r, d[0].exp)
  {
    if r != [] && r[0].exp >= d[0].exp {
      var next := Step(q, r, d);
      assert Sorted(next.1) && Measure(next.1, d[0].exp) < Measure(r, d[0].exp) by {
        StepDecreases(q, r, d);
      }
      assert DivLoop(q, r, d) == DivLoop(next.0, next.1, d);
      assert Canonical(next.0, next.1, d[0].exp) by {
        StepKeepsCanonical(q, r, d);
      }
      DivLoopCanonical(next.0, next.1, d);
    }
  }

  /**
   * dividir, for a divisor led by 1 or −1: the dividend's value is
   * divisor·quotient + remainder, both results are sorted, and the remainder
   * is empty or its head exponent is below the divisor's.
   */
  lemma LongDivisionCorrect(n: seq<Term>, d: seq<Term>)
    requires Sorted(d) && UnitLead(d)
    ensures Identity(n, d, LongDivision(n, d).0, LongDivision(n, d).1)
    ensures Sorted(LongDivision(n, d).0) && Sorted(LongDivision(n, d).1)
    ensures LongDivision(n, d).1 == [] || LongDivision(n, d).1[0].exp < d[0].exp
  {
    forall e ensures Coef(n, e) == ProdCoef(d, [], e) + Coef(CopyOf(n), e) {
      ProdCoefEmpty(d, e);
      CopyOfValue(n, e);
    }
    InsertAllSorted([], n);
    DivLoopCorrect(n, [], CopyOf(n), d);
  }

  /**
   * For a sorted dividend, quotient and remainder carry no zero-coefficient
   * node: the extra passes over a zero head strip the zeros a cancellation
   * leaves, and no quotient exponent repeats.
   */
  lemma LongDivisionZeroFree(n: seq<Term>, d: seq<Term>)
    requires Sorted(n) && Sorted(d) && UnitLead(d)
    ensures ZeroFree(LongDivision(n, d).0) && ZeroFree(LongDivision(n, d).1)
  {
    CopyOfSorted(n);
    DivLoopCanonical([], CopyOf(n), d);
  }

  /** The guard of line 82 fails at once: the copied dividend is empty or its head lies below the divisor's. */
  predicate Skipped(n: seq<Term>, d: seq<Term>) {
    var r := CopyOf(n);
    r == [] || (d != [] && r[0].exp < d[0].exp)
  }

  /**
   * When the loop is never entered, whatever the divisor (empty, led by 0 or
   * by any other coefficient), the empty quotient and the copied dividend
   * satisfy the identity; for a unit-led divisor they are LongDivision's result.
   */
  lemma SkippedDivision(n: seq<Term>, d: seq<Term>)
    requires Skipped(n, d)
    ensures Identity(n, d, [], CopyOf(n))
    ensures Sorted(d) && UnitLead(d) ==> LongDivision(n, d) == ([], CopyOf(n))
  {
    forall e ensures Coef(n, e) == ProdCoef(d, [], e) + Coef(CopyOf(n), e) {
      ProdCoefEmpty(d, e);
      CopyOfValue(n, e);
    }
  }

  /**
   * When the head coefficient is nonzero but smaller in magnitude than the
   * divisor's, the truncated quotient term is 0 and a pass over a zero-free
   * remainder returns exactly the state it started from. The loop guard then
   * still holds, so the loop never ends.
   */
  lemma StuckWhenInexact(q: seq<Term>, r: seq<Term>, d: seq<Term>)
    requires Sorted(r) && ZeroFree(r) && r != [] && d != [] && d[0].coef != 0
    requires r[0].exp >= d[0].exp
    requires Abs(r[0].coef) < Abs(d[0].coef)
    ensures Step(q, r, d) == (q, r)
    ensures Step(q, r, d).1 != [] && Step(q, r, d).1[0].exp >= d[0].exp
  {
    var k := r[0].exp - d[0].exp;
    assert JavaDiv(r[0].coef, d[0].coef) == 0 by {
      SmallQuotient(Abs(r[0].coef), Abs(d[0].coef));
    }
    assert Step(q, r, d) == (q, Difference(r, MonomialProduct(d, 0, k)));
    assert MonomialProduct(d, 0, k) == [] by {
      MonomialProductValue(d, 0, k, 0);
    }
    assert Difference(r, []) == r by {
      assert Negated([]) == [];
      CopyOfSorted(r);
      NonZeroOfZeroFree(r);
    }
  }

  /** Dividing x by 2x: the guard holds and a pass changes nothing. */
  lemma XByTwoXLoops()
    ensures [Term(1, 1)][0].exp >= [Term(2, 1)][0].exp
    ensures Step([], [Term(1, 1)], [Term(2, 1)]) == ([], [Term(1, 1)])
  {
    StuckWhenInexact([], [Term(1, 1)], [Term(2, 1)]);
  }

  /** comprobarDivision as written: the printed d·q + r against the printed dividend. */
  function CheckAsWritten(n: seq<Term>, d: seq<Term>, q: seq<Term>, r: seq<Term>): bool {
    Format(Sum(Product(d, q), r)) == Format(n)
  }

  /** The comparison made on copies, which drop the zero-coefficient nodes on both sides. */
  function CheckCanonical(n: seq<Term>, d: seq<Term>, q: seq<Term>, r: seq<Term>): bool {
    Format(CopyOf(Sum(Product(d, q), r))) == Format(CopyOf(n))
  }

  /** The zero-stripped comparison accepts every (q, r) that satisfies the division identity. */
  lemma CheckCanonicalAccepts(n: seq<Term>, d: seq<Term>, q: seq<Term>, r: seq<Term>)
    requires Sorted(n) && Identity(n, d, q, r)
    ensures CheckCanonical(n, d, q, r)
  {
    var s := Sum(Product(d, q), r);
    SumValue(Product(d, q), r, 0);
    CopyOfSorted(s);
    CopyOfSorted(n);
    forall f ensures Coef(CopyOf(s), f) == Coef(CopyOf(n), f) {
      CopyOfValue(s, f);
      CopyOfValue(n, f);
      SumValue(Product(d, q), r, f);
      ProductValue(d, q, f);
    }
    CanonicalUnique(CopyOf(s), CopyOf(n));
  }

  /** Hence the corrected comparison accepts every result of dividir with a unit-led divisor. */
  lemma CheckCanonicalAcceptsDivision(n: seq<Term>, d: seq<Term>)
    requires Sorted(n) && Sorted(d) && UnitLead(d)
    ensures CheckCanonical(n, d, LongDivision(n, d).0, LongDivision(n, d).1)
  {
    LongDivisionCorrect(n, d);
    CheckCanonicalAccepts(n, d, LongDivision(n, d).0, LongDivision(n, d).1);
  }

  /**
   * With no negative exponent anywhere, the zero-stripped comparison also
   * rejects every (q, r) that breaks the identity: two zero-free sorted lists
   * that print alike are equal, so equal texts mean equal values.
   */
  lemma CheckCanonicalExact(n: seq<Term>, d: seq<Term>, q: seq<Term>, r: seq<Term>)
    requires Sorted(n)
    requires ExpsAtLeast(n, 0) && ExpsAtLeast(d, 0) && ExpsAtLeast(q, 0) && ExpsAtLeast(r, 0)
    ensures CheckCanonical(n, d, q, r) <==> Identity(n, d, q, r)
  {
    if CheckCanonical(n, d, q, r) {
      var s := Sum(Product(d, q), r);
      SumValue(Product(d, q), r, 0);
      CopyOfSorted(s);
      CopyOfSorted(n);
      CheckedSumAtLeast(d, q, r);
      InsertAllAtLeast([], s, 0);
      InsertAllAtLeast([], n, 0);
      FormatInjective(CopyOf(s), CopyOf(n));
      forall e ensures Coef(n, e) == ProdCoef(d, q, e) + Coef(r, e) {
        CopyOfValue(s, e);
        CopyOfValue(n, e);
        SumValue(Product(d, q), r, e);
        ProductValue(d, q, e);
      }
    }
    if Identity(n, d, q, r) {
      CheckCanonicalAccepts(n, d, q, r);
    }
  }
}
