/**
 * The value model of a polynomial kept as a list of (coefficient, exponent)
 * nodes, and the merge-on-insert operation that every list of the program is
 * built with.
 */
module Poly {

  /** One node of the list. Both fields are Java ints, modelled unbounded. */
  datatype Term = Term(coef: int, exp: int)

  /** Exponents strictly decrease from the head to the tail. */
  ghost predicate Sorted(s: seq<Term>) {
    forall i, j :: 0 <= i < j < |s| ==> s[i].exp > s[j].exp
  }

  /** No node carries a zero coefficient. */
  ghost predicate ZeroFree(s: seq<Term>) {
    forall i :: 0 <= i < |s| ==> s[i].coef != 0
  }

  /** Every node has exponent at least h. */
  ghost predicate ExpsAtLeast(s: seq<Term>, h: int) {
    forall i :: 0 <= i < |s| ==> s[i].exp >= h
  }

  /** Every node has exponent at most h. */
  ghost predicate ExpsAtMost(s: seq<Term>, h: int) {
    forall i :: 0 <= i < |s| ==> s[i].exp <= h
  }

  /** The value of the list at x^e: the sum of the coefficients of its nodes with exponent e. */
  function Coef(s: seq<Term>, e: int): int {
    if s == [] then 0 else (if s[0].exp == e then s[0].coef else 0) + Coef(s[1..], e)
  }

  /** A single node contributes its coefficient at its own exponent only. */
  lemma CoefSingle(t: Term, e: int)
    ensures Coef([t], e) == if t.exp == e then t.coef else 0
  {
    assert [t][1..] == [];
  }

  lemma {:induction false} CoefConcat(a: seq<Term>, b: seq<Term>, e: int)
    ensures Coef(a + b, e) == Coef(a, e) + Coef(b, e)
  {
    if a == [] {
      assert a + b == b;
    } else {
      assert (a + b)[1..] == a[1..] + b;
      CoefConcat(a[1..], b, e);
    }
  }

  lemma {:induction false} CoefAbsent(s: seq<Term>, e: int)
    requires forall i :: 0 <= i < |s| ==> s[i].exp != e
    ensures Coef(s, e) == 0
  {
    if s != [] {
      CoefAbsent(s[1..], e);
    }
  }

  /** In a sorted list the value at a node's exponent is that node's coefficient. */
  lemma {:induction false} CoefAt(s: seq<Term>, i: int)
    requires Sorted(s) && 0 <= i < |s|
    ensures Coef(s, s[i].exp) == s[i].coef
  {
    if i == 0 {
      CoefAbsent(s[1..], s[0].exp);
    } else {
      CoefAt(s[1..], i - 1);
    }
  }

  /** A nonzero value at e needs a node with exponent e. */
  lemma {:induction false} CoefHasNode(s: seq<Term>, e: int) returns (i: int)
    requires Coef(s, e) != 0
    ensures 0 <= i < |s| && s[i].exp == e
  {
    if s[0].exp == e {
      i := 0;
    } else {
      var j := CoefHasNode(s[1..], e);
      i := j + 1;
    }
  }

  /**
   * agregarTermino's walk for a nonzero coefficient: pass every node whose
   * exponent is greater than e; at the first node with exponent e add c to it
   * (keeping it even when the sum is 0); otherwise put a new node in front of
   * the first node with a smaller exponent, or at the end.
   */
  function Merge(s: seq<Term>, c: int, e: int): seq<Term> {
    if s == [] || s[0].exp < e then [Term(c, e)] + s
    else if s[0].exp == e then [Term(s[0].coef + c, e)] + s[1..]
    else [s[0]] + Merge(s[1..], c, e)
  }

  /** agregarTermino: a zero coefficient leaves the list as it is. */
  function Insert(s: seq<Term>, c: int, e: int): seq<Term> {
    if c == 0 then s else Merge(s, c, e)
  }

  lemma {:induction false} MergeCoef(s: seq<Term>, c: int, e: int, f: int)
    ensures Coef(Merge(s, c, e), f) == Coef(s, f) + (if f == e then c else 0)
  {
    if s == [] || s[0].exp < e {
      assert ([Term(c, e)] + s)[1..] == s;
    } else if s[0].exp == e {
      assert ([Term(s[0].coef + c, e)] + s[1..])[1..] == s[1..];
    } else {
      assert ([s[0]] + Merge(s[1..], c, e))[1..] == Merge(s[1..], c, e);
      MergeCoef(s[1..], c, e, f);
    }
  }

  /** Inserting (c, e) changes the value by exactly c at e and nowhere else. */
  lemma InsertCoef(s: seq<Term>, c: int, e: int, f: int)
    ensures Coef(Insert(s, c, e), f) == Coef(s, f) + (if f == e then c else 0)
  {
    if c != 0 {
      MergeCoef(s, c, e, f);
    }
  }

  lemma {:induction false} MergeAtMost(s: seq<Term>, c: int, e: int, h: int)
    requires ExpsAtMost(s, h) && e <= h
    ensures ExpsAtMost(Merge(s, c, e), h)
  {
    if s != [] && s[0].exp > e {
      MergeAtMost(s[1..], c, e, h);
    }
  }

  lemma {:induction false} MergeAtLeast(s: seq<Term>, c: int, e: int, h: int)
    requires ExpsAtLeast(s, h) && e >= h
    ensures ExpsAtLeast(Merge(s, c, e), h)
  {
    if s != [] && s[0].exp > e {
      MergeAtLeast(s[1..], c, e, h);
    }
  }

  lemma {:induction false} MergeSorted(s: seq<Term>, c: int, e: int)
    requires Sorted(s)
    ensures Sorted(Merge(s, c, e))
  {
    if s != [] && s[0].exp > e {
      MergeSorted(s[1..], c, e);
      MergeAtMost(s[1..], c, e, s[0].exp - 1);
    }
  }

  /** Insertion keeps the exponents strictly decreasing. */
  lemma InsertSorted(s: seq<Term>, c: int, e: int)
    requires Sorted(s)
    ensures Sorted(Insert(s, c, e))
  {
    if c != 0 {
      MergeSorted(s, c, e);
    }
  }

  /**
   * Where insertion puts its term: given the index i of the first node whose
   * exponent is not greater than e, either that node has exponent e and only
   * its coefficient changes (the node stays even if the sum is 0, the length
   * is unchanged), or a new node (c, e) goes in at i and every other node keeps
   * its coefficient, exponent and relative order.
   */
  lemma {:induction false} InsertPosition(s: seq<Term>, c: int, e: int, i: int)
    requires c != 0 && 0 <= i <= |s|
    requires forall j :: 0 <= j < i ==> s[j].exp > e
    requires i < |s| ==> s[i].exp <= e
    ensures Insert(s, c, e) ==
      if i < |s| && s[i].exp == e then s[i := Term(s[i].coef + c, e)]
      else s[..i] + [Term(c, e)] + s[i..]
  {
    if i == 0 {
      if s != [] && s[0].exp == e {
        assert [Term(s[0].coef + c, e)] + s[1..] == s[0 := Term(s[0].coef + c, e)];
      }
    } else {
      var rest := s[1..];
      assert Insert(s, c, e) == [s[0]] + Insert(rest, c, e);
      InsertPosition(rest, c, e, i - 1);
      if i < |s| && s[i].exp == e {
        ConsSplice(s, i, Term(s[i].coef + c, e));
      } else {
        ConsSplice(s, i, Term(c, e));
      }
    }
  }

  /** Putting the head back in front of an update or a splice of the tail. */
  lemma ConsSplice(s: seq<Term>, i: int, t: Term)
    requires 0 < i <= |s|
    ensures i < |s| ==> [s[0]] + s[1..][i - 1 := t] == s[i := t]
    ensures [s[0]] + (s[1..][..i - 1] + [t] + s[1..][i - 1..]) == s[..i] + [t] + s[i..]
  {
    assert s[1..][..i - 1] == s[1..i] && s[1..][i - 1..] == s[i..];
    assert [s[0]] + s[1..i] == s[..i];
  }

  /** A new exponent with a nonzero coefficient keeps a zero-free list zero-free. */
  lemma {:induction false} MergeZeroFree(s: seq<Term>, c: int, e: int)
    requires ZeroFree(s) && c != 0
    requires forall i :: 0 <= i < |s| ==> s[i].exp != e
    ensures ZeroFree(Merge(s, c, e))
  {
    if s != [] && s[0].exp > e {
      MergeZeroFree(s[1..], c, e);
    }
  }

  /** Merging below every node appends. */
  lemma {:induction false} MergeAtEnd(s: seq<Term>, c: int, e: int)
    requires forall i :: 0 <= i < |s| ==> s[i].exp > e
    ensures Merge(s, c, e) == s + [Term(c, e)]
  {
    if s != [] {
      MergeAtEnd(s[1..], c, e);
      assert [s[0]] + (s[1..] + [Term(c, e)]) == s + [Term(c, e)];
    }
  }

  /** Inserting the terms of t one by one, from first to last, into s. */
  function InsertAll(s: seq<Term>, t: seq<Term>): seq<Term>
    decreases |t|
  {
    if t == [] then s
    else
      var n := |t| - 1;
      Insert(InsertAll(s, t[..n]), t[n].coef, t[n].exp)
  }

  /** Inserting one more term at the end of t is one more insertion. */
  lemma InsertAllSnoc(s: seq<Term>, t: seq<Term>, x: Term)
    ensures InsertAll(s, t + [x]) == Insert(InsertAll(s, t), x.coef, x.exp)
  {
    assert (t + [x])[..|t|] == t;
  }

  /** Inserting a list adds its value. */
  lemma {:induction false} InsertAllCoef(s: seq<Term>, t: seq<Term>, f: int)
    ensures Coef(InsertAll(s, t), f) == Coef(s, f) + Coef(t, f)
    decreases |t|
  {
    if t != [] {
      var n := |t| - 1;
      InsertAllCoef(s, t[..n], f);
      InsertCoef(InsertAll(s, t[..n]), t[n].coef, t[n].exp, f);
      assert t == t[..n] + [t[n]];
      CoefConcat(t[..n], [t[n]], f);
    }
  }

  lemma {:induction false} InsertAllSorted(s: seq<Term>, t: seq<Term>)
    requires Sorted(s)
    ensures Sorted(InsertAll(s, t))
    decreases |t|
  {
    if t != [] {
      var n := |t| - 1;
      InsertAllSorted(s, t[..n]);
      InsertSorted(InsertAll(s, t[..n]), t[n].coef, t[n].exp);
    }
  }

  lemma {:induction false} InsertAllAtMost(s: seq<Term>, t: seq<Term>, h: int)
    requires ExpsAtMost(s, h) && ExpsAtMost(t, h)
    ensures ExpsAtMost(InsertAll(s, t), h)
    decreases |t|
  {
    if t != [] {
      var n := |t| - 1;
      InsertAllAtMost(s, t[..n], h);
      if t[n].coef != 0 {
        MergeAtMost(InsertAll(s, t[..n]), t[n].coef, t[n].exp, h);
      }
    }
  }

  lemma {:induction false} InsertAllAtLeast(s: seq<Term>, t: seq<Term>, h: int)
    requires ExpsAtLeast(s, h) && ExpsAtLeast(t, h)
    ensures ExpsAtLeast(InsertAll(s, t), h)
    decreases |t|
  {
    if t != [] {
      var n := |t| - 1;
      InsertAllAtLeast(s, t[..n], h);
      if t[n].coef != 0 {
        MergeAtLeast(InsertAll(s, t[..n]), t[n].coef, t[n].exp, h);
      }
    }
  }

  /** Inserting terms no higher than the head keeps the head's exponent. */
  lemma {:induction false} InsertAllHead(s: seq<Term>, t: seq<Term>)
    requires s != [] && ExpsAtMost(t, s[0].exp)
    ensures InsertAll(s, t) != [] && InsertAll(s, t)[0].exp == s[0].exp
    decreases |t|
  {
    if t != [] {
      InsertAllHead(s, t[..|t| - 1]);
    }
  }

  /** Inserting only zero coefficients changes nothing. */
  lemma {:induction false} InsertAllZeros(s: seq<Term>, t: seq<Term>)
    requires forall i :: 0 <= i < |t| ==> t[i].coef == 0
    ensures InsertAll(s, t) == s
    decreases |t|
  {
    if t != [] {
      InsertAllZeros(s, t[..|t| - 1]);
    }
  }

  /** The nodes of s with a nonzero coefficient, in their order. */
  function NonZero(s: seq<Term>): seq<Term>
    decreases |s|
  {
    if s == [] then []
    else
      var n := |s| - 1;
      NonZero(s[..n]) + (if s[n].coef != 0 then [s[n]] else [])
  }

  lemma {:induction false} NonZeroMembers(s: seq<Term>)
    ensures ZeroFree(NonZero(s))
    ensures forall x :: x in NonZero(s) ==> x in s
    decreases |s|
  {
    if s != [] {
      var n := |s| - 1;
      NonZeroMembers(s[..n]);
      assert forall x :: x in s[..n] ==> x in s;
    }
  }

  /**
   * Re-inserting a sorted list node by node into an empty list (copiar)
   * gives the same nodes in the same order with the zero-coefficient nodes
   * removed.
   */
  lemma {:induction false} InsertAllDropsZeros(s: seq<Term>)
    requires Sorted(s)
    ensures InsertAll([], s) == NonZero(s)
    decreases |s|
  {
    if s != [] {
      var n := |s| - 1;
      InsertAllDropsZeros(s[..n]);
      if s[n].coef != 0 {
        var u := NonZero(s[..n]);
        NonZeroMembers(s[..n]);
        forall i | 0 <= i < |u|
          ensures u[i].exp > s[n].exp
        {
          assert u[i] in s[..n];
        }
        MergeAtEnd(u, s[n].coef, s[n].exp);
      }
    }
  }

  /** Filtering a list with a given first node. */
  lemma {:induction false} NonZeroCons(t: Term, s: seq<Term>)
    ensures NonZero([t] + s) == (if t.coef != 0 then [t] else []) + NonZero(s)
    decreases |s|
  {
    if s != [] {
      var n := |s| - 1;
      NonZeroCons(t, s[..n]);
      assert ([t] + s)[..n + 1] == [t] + s[..n];
    }
  }

  lemma {:induction false} NonZeroOfZeroFree(s: seq<Term>)
    requires ZeroFree(s)
    ensures NonZero(s) == s
    decreases |s|
  {
    if s != [] {
      NonZeroOfZeroFree(s[..|s| - 1]);
    }
  }

  /** Two sorted zero-free lists with the same value are the same list. */
  lemma {:induction false} CanonicalUnique(s: seq<Term>, t: seq<Term>)
    requires Sorted(s) && ZeroFree(s) && Sorted(t) && ZeroFree(t)
    requires forall f :: Coef(s, f) == Coef(t, f)
    ensures s == t
  {
    if s == [] && t == [] {
    } else if t == [] || (s != [] && s[0].exp > t[0].exp) {
      CoefAt(s, 0);
      CoefAbsent(t, s[0].exp);
      assert false;
    } else if s == [] || t[0].exp > s[0].exp {
      CoefAt(t, 0);
      CoefAbsent(s, t[0].exp);
      assert false;
    } else {
      CoefAt(s, 0);
      CoefAt(t, 0);
      assert Coef(t, t[0].exp) == Coef(s, s[0].exp);
      forall f ensures Coef(s[1..], f) == Coef(t[1..], f) {
        assert Coef(t, f) == Coef(s, f);
      }
      CanonicalUnique(s[1..], t[1..]);
      assert s == [s[0]] + s[1..] && t == [t[0]] + t[1..];
    }
  }
}
