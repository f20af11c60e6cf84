/**
 * The printer of the polynomial class (imprimir): the text a node list is
 * shown as, and the decimal rendering of Java's StringBuilder.append(int).
 */
module Printer {
  import opened Poly

  function Abs(x: int): nat {
    if x < 0 then -x else x
  }

  function Digit(d: nat): char
    requires d < 10
  {
    "0123456789"[d]
  }

  /** Decimal digits of n, most significant first, no leading zero. */
  function Decimal(n: nat): (s: string)
    ensures |s| >= 1
  {
    if n < 10 then [Digit(n)] else Decimal(n / 10) + [Digit(n % 10)]
  }

  /** The number a string of decimal digits stands for: the reading back of Decimal. */
  function DigitsValue(s: string): int
    decreases |s|
  {
    if s == [] then 0 else DigitsValue(s[..|s| - 1]) * 10 + (s[|s| - 1] as int - '0' as int)
  }

  /** Decimal writes n so that reading it back gives n, using the digits '0' to '9' only. */
  lemma {:induction false} DecimalRoundTrip(n: nat)
    ensures DigitsValue(Decimal(n)) == n
    ensures forall i :: 0 <= i < |Decimal(n)| ==> '0' <= Decimal(n)[i] <= '9'
  {
    if n >= 10 {
      DecimalRoundTrip(n / 10);
      assert Decimal(n)[..|Decimal(n)| - 1] == Decimal(n / 10);
    }
  }

  /**
   * The text appended for one node. `first` says the builder is still empty:
   * then only a negative coefficient gets a sign ("-"); otherwise the node is
   * joined by " + " when its coefficient is positive and " - " when it is not.
   * The magnitude is written unless it is 1 at a nonzero exponent; exponent 1
   * adds "x", a larger exponent "x^" and the exponent, and an exponent of 0 or
   * below adds nothing.
   */
  function Piece(first: bool, t: Term): string {
    (if !first then (if t.coef > 0 then " + " else " - ") else if t.coef < 0 then "-" else "")
    + (if Abs(t.coef) != 1 || t.exp == 0 then Decimal(Abs(t.coef)) else "")
    + (if t.exp > 0 then "x" + (if t.exp > 1 then "^" + Decimal(t.exp) else "") else "")
  }

  /** The builder's contents after visiting every node of s in order. */
  function Render(s: seq<Term>): string
    decreases |s|
  {
    if s == [] then ""
    else
      var b := Render(s[..|s| - 1]);
      b + Piece(b == "", s[|s| - 1])
  }

  /** One more node appends its piece, joined according to whether the builder is still empty. */
  lemma RenderSnoc(s: seq<Term>, t: Term)
    ensures Render(s + [t]) == Render(s) + Piece(Render(s) == "", t)
  {
    assert (s + [t])[..|s|] == s;
  }

  /** imprimir: the builder's contents, or "0" when nothing was written. */
  function Format(s: seq<Term>): string {
    var b := Render(s);
    if |b| > 0 then b else "0"
  }

  /** A node that writes nothing when it comes first: coefficient 1 at a negative exponent. */
  predicate Silent(t: Term) {
    t.coef == 1 && t.exp < 0
  }

  /** Reference reading of the printer: the first node unsigned unless negative, every later one with a separator. */
  function Joined(s: seq<Term>, first: bool): string
    decreases |s|
  {
    if s == [] then "" else Piece(first, s[0]) + Joined(s[1..], false)
  }

  lemma PieceNonEmpty(first: bool, t: Term)
    requires !first || !Silent(t)
    ensures Piece(first, t) != ""
  {
    if !first {
      assert |Piece(first, t)| >= 3;
    } else if Abs(t.coef) != 1 || t.exp == 0 {
      assert |Piece(first, t)| >= |Decimal(Abs(t.coef))|;
    } else if t.coef < 0 {
      assert Piece(first, t)[0] == '-';
    } else {
      assert Piece(first, t)[0] == 'x';
    }
  }

  lemma {:induction false} JoinedSnoc(s: seq<Term>, t: Term, first: bool)
    ensures Joined(s + [t], first) == Joined(s, first) + Piece(first && s == [], t)
    decreases |s|
  {
    if s == [] {
      assert [t][1..] == [];
    } else {
      assert (s + [t])[1..] == s[1..] + [t];
      JoinedSnoc(s[1..], t, false);
    }
  }

  /**
   * When no node is silent, the builder's emptiness test is the same as
   * "this is the first node": the printed text is the first node's piece
   * followed by the separated pieces of all later nodes.
   */
  lemma {:induction false} RenderJoined(s: seq<Term>)
    requires forall i :: 0 <= i < |s| ==> !Silent(s[i])
    ensures Render(s) == Joined(s, true)
    ensures s != [] ==> Render(s) != ""
    decreases |s|
  {
    if s != [] {
      var n := |s| - 1;
      RenderJoined(s[..n]);
      assert s == s[..n] + [s[n]];
      JoinedSnoc(s[..n], s[n], true);
      PieceNonEmpty(n == 0, s[n]);
    }
  }

  /**
   * With no silent node, "0" is printed for the empty list and otherwise only
   * for a lone zero-coefficient node at an exponent of 0 or below.
   */
  lemma FormatZero(s: seq<Term>)
    requires forall i :: 0 <= i < |s| ==> !Silent(s[i])
    ensures Format(s) == "0" <==> s == [] || (|s| == 1 && s[0].coef == 0 && s[0].exp <= 0)
  {
    RenderJoined(s);
    if s != [] {
      var n := |s| - 1;
      assert s == s[..n] + [s[n]];
      RenderJoined(s[..n]);
      if n > 0 {
        assert |Piece(Render(s[..n]) == "", s[n])| >= 3;
      } else {
        assert [s[0]][..0] == [];
        if !(s[0].coef == 0 && s[0].exp <= 0) {
          PieceOneCharacter(s[0]);
        }
      }
    }
  }

  /** Only a zero coefficient at an exponent of 0 or below prints exactly "0" as the first node. */
  lemma PieceOneCharacter(t: Term)
    requires !Silent(t) && !(t.coef == 0 && t.exp <= 0)
    ensures Piece(true, t) != "0"
  {
    if t.coef < 0 {
      assert Piece(true, t)[0] == '-';
    } else if t.exp > 0 {
      assert |Piece(true, t)| >= 2 || Piece(true, t) == "x";
    } else {
      assert Piece(true, t) == Decimal(t.coef);
      DecimalZero(t.coef);
    }
  }

  /** The only number written as "0" is 0. */
  lemma DecimalZero(n: nat)
    ensures Decimal(n) == "0" <==> n == 0
  {
    if n >= 10 {
      assert |Decimal(n)| >= 2;
    } else {
      assert Decimal(n) == [Digit(n)];
    }
  }

  // Reading a printed list back: with nonnegative exponents and no zero
  // coefficient, the text determines the list.

  /** The separator or leading minus written before a node. */
  function Sign(first: bool, t: Term): string {
    if !first then (if t.coef > 0 then " + " else " - ") else if t.coef < 0 then "-" else ""
  }

  /** The magnitude, written unless it is 1 at a nonzero exponent. */
  function Magnitude(t: Term): string {
    if Abs(t.coef) != 1 || t.exp == 0 then Decimal(Abs(t.coef)) else ""
  }

  /** What follows "x": "^" and the exponent when it is above 1. */
  function Raised(t: Term): string {
    if t.exp > 1 then "^" + Decimal(t.exp) else ""
  }

  /** A node's text after its sign. */
  function Body(t: Term): string {
    Magnitude(t) + (if t.exp > 0 then "x" + Raised(t) else "")
  }

  lemma PieceParts(first: bool, t: Term)
    ensures Piece(first, t) == Sign(first, t) + Body(t)
  {
    var a, b, c := Sign(first, t), Magnitude(t), if t.exp > 0 then "x" + Raised(t) else "";
    assert Piece(first, t) == a + b + c;
    assert a + b + c == a + (b + c);
  }

  /** Text holding neither a space nor a minus sign. */
  predicate Unsigned(s: string) {
    forall i :: 0 <= i < |s| ==> s[i] != ' ' && s[i] != '-'
  }

  lemma DecimalUnsigned(n: nat)
    ensures Unsigned(Decimal(n)) && 'x' !in Decimal(n)
  {
    DecimalRoundTrip(n);
  }

  lemma DecimalInjective(m: nat, n: nat)
    requires Decimal(m) == Decimal(n)
    ensures m == n
  {
    DecimalRoundTrip(m);
    DecimalRoundTrip(n);
  }

  /** A node with a nonnegative exponent prints a nonempty, unsigned body. */
  lemma BodyUnsigned(t: Term)
    requires t.exp >= 0
    ensures Body(t) != [] && Unsigned(Body(t))
  {
    DecimalUnsigned(Abs(t.coef));
    DecimalUnsigned(t.exp);
    var m, p := Magnitude(t), if t.exp > 0 then "x" + Raised(t) else "";
    assert Unsigned(m);
    assert Unsigned(p) by {
      if t.exp > 1 {
        assert p == "x^" + Decimal(t.exp);
      }
    }
    assert Body(t) == m + p;
    assert m != [] || p != [];
  }

  /** Splitting at the first occurrence of ch. */
  lemma SplitAt(a: string, b: string, a': string, b': string, ch: char)
    requires ch !in a && ch !in a'
    requires a + ([ch] + b) == a' + ([ch] + b')
    ensures a == a' && b == b'
  {
    var w := a + ([ch] + b);
    assert forall i :: 0 <= i < |a| ==> w[i] == a[i];
    assert forall i :: 0 <= i < |a'| ==> w[i] == a'[i];
    assert w[|a|] == ch && w[|a'|] == ch;
    assert |a| == |a'|;
    assert a == w[..|a|] == a';
    assert b == w[|a| + 1..] == b';
  }

  /** Splitting an unsigned text from a rest that is empty or starts with a space. */
  lemma SplitBeforeSpace(a: string, b: string, a': string, b': string)
    requires Unsigned(a) && Unsigned(a')
    requires (b == [] || b[0] == ' ') && (b' == [] || b'[0] == ' ')
    requires a + b == a' + b'
    ensures a == a' && b == b'
  {
    var w := a + b;
    assert forall i :: 0 <= i < |a| ==> w[i] == a[i];
    assert forall i :: 0 <= i < |a'| ==> w[i] == a'[i];
    assert |a| < |w| ==> w[|a|] == ' ';
    assert |a'| < |w| ==> w[|a'|] == ' ';
    assert |a| == |a'|;
    assert a == w[..|a|] == a';
    assert b == w[|a|..] == b';
  }

  /** The body holds an "x" exactly when the exponent is positive. */
  lemma BodyHasX(t: Term)
    requires t.exp >= 0
    ensures 'x' in Body(t) <==> t.exp > 0
  {
    DecimalUnsigned(Abs(t.coef));
    if t.exp > 0 {
      assert Body(t)[|Magnitude(t)|] == 'x';
    } else {
      assert Body(t) == Decimal(Abs(t.coef));
    }
  }

  /** Nodes with nonzero coefficients, the same sign and nonnegative exponents that print the same body are equal. */
  lemma BodyInjective(t: Term, u: Term)
    requires t.coef != 0 && u.coef != 0 && t.exp >= 0 && u.exp >= 0
    requires (t.coef < 0) == (u.coef < 0)
    requires Body(t) == Body(u)
    ensures t == u
  {
    BodyHasX(t);
    BodyHasX(u);
    DecimalUnsigned(Abs(t.coef));
    DecimalUnsigned(Abs(u.coef));
    if t.exp == 0 {
      assert Body(t) == Decimal(Abs(t.coef)) && Body(u) == Decimal(Abs(u.coef));
      DecimalInjective(Abs(t.coef), Abs(u.coef));
    } else {
      assert Body(t) == Magnitude(t) + (['x'] + Raised(t));
      assert Body(u) == Magnitude(u) + (['x'] + Raised(u));
      SplitAt(Magnitude(t), Raised(t), Magnitude(u), Raised(u), 'x');
      assert t.exp == u.exp by {
        if t.exp > 1 || u.exp > 1 {
          assert Raised(t) != [] && Raised(u) != [];
          assert Raised(t)[1..] == Decimal(t.exp) && Raised(u)[1..] == Decimal(u.exp);
          DecimalInjective(t.exp, u.exp);
        }
      }
      assert Abs(t.coef) == Abs(u.coef) by {
        if Abs(t.coef) != 1 || Abs(u.coef) != 1 {
          assert Magnitude(t) != [] && Magnitude(u) != [];
          DecimalInjective(Abs(t.coef), Abs(u.coef));
        }
      }
    }
  }

  /** The sign of a nonzero node is read at a fixed place of its printed text. */
  lemma SignRead(first: bool, t: Term, rest: string)
    requires t.coef != 0 && t.exp >= 0
    ensures var w := Sign(first, t) + Body(t) + rest;
      var k := if first then 0 else 1;
      k < |w| && (t.coef < 0 <==> w[k] == '-')
  {
    BodyUnsigned(t);
    var w := Sign(first, t) + Body(t) + rest;
    if first && t.coef > 0 {
      assert w[0] == Body(t)[0];
    }
  }

  /** Two nonzero nodes whose printed texts agree have the same sign. */
  lemma SameSign(first: bool, t: Term, u: Term, rt: string, ru: string)
    requires t.coef != 0 && u.coef != 0 && t.exp >= 0 && u.exp >= 0
    requires Sign(first, t) + Body(t) + rt == Sign(first, u) + Body(u) + ru
    ensures Sign(first, t) == Sign(first, u)
  {
    SignRead(first, t, rt);
    SignRead(first, u, ru);
  }

  /** A common prefix can be dropped. */
  lemma DropPrefix(a: string, b: string, c: string, b': string, c': string)
    requires a + b + c == a + b' + c'
    ensures b + c == b' + c'
  {
    assert b + c == (a + b + c)[|a|..];
    assert b' + c' == (a + b' + c')[|a|..];
  }

  /** A printed node followed by a rest that is empty or starts with a space determines both. */
  lemma PieceSplit(first: bool, t: Term, u: Term, rt: string, ru: string)
    requires t.coef != 0 && u.coef != 0 && t.exp >= 0 && u.exp >= 0
    requires (rt == [] || rt[0] == ' ') && (ru == [] || ru[0] == ' ')
    requires Piece(first, t) + rt == Piece(first, u) + ru
    ensures t == u && rt == ru
  {
    assert Sign(first, t) + Body(t) + rt == Sign(first, u) + Body(u) + ru by {
      PieceParts(first, t);
      PieceParts(first, u);
    }
    SameSign(first, t, u, rt, ru);
    DropPrefix(Sign(first, t), Body(t), rt, Body(u), ru);
    BodyUnsigned(t);
    BodyUnsigned(u);
    SplitBeforeSpace(Body(t), rt, Body(u), ru);
    BodyInjective(t, u);
  }

  /** A list printed after the first node is empty or starts with a space. */
  lemma JoinedLead(s: seq<Term>)
    ensures Joined(s, false) == [] || Joined(s, false)[0] == ' '
  {
    if s != [] {
      assert Joined(s, false) == Piece(false, s[0]) + Joined(s[1..], false);
    }
  }

  /** With nonnegative exponents, the joined pieces are empty only for the empty list. */
  lemma JoinedEmpty(s: seq<Term>, first: bool)
    requires ExpsAtLeast(s, 0)
    ensures Joined(s, first) == [] <==> s == []
  {
    if s != [] {
      PieceNonEmpty(first, s[0]);
    }
  }

  /**
   * With nonzero coefficients and nonnegative exponents, the joined pieces
   * determine the list: the sign is read from the separator and the body
   * runs up to the next space.
   */
  lemma {:induction false} JoinedInjective(s: seq<Term>, t: seq<Term>, first: bool)
    requires ZeroFree(s) && ZeroFree(t) && ExpsAtLeast(s, 0) && ExpsAtLeast(t, 0)
    requires Joined(s, first) == Joined(t, first)
    ensures s == t
    decreases |s|
  {
    JoinedEmpty(s, first);
    JoinedEmpty(t, first);
    if s != [] {
      JoinedLead(s[1..]);
      JoinedLead(t[1..]);
      PieceSplit(first, s[0], t[0], Joined(s[1..], false), Joined(t[1..], false));
      JoinedInjective(s[1..], t[1..], false);
      assert s == [s[0]] + s[1..] && t == [t[0]] + t[1..];
    }
  }

  /**
   * With no zero coefficient and no negative exponent, two lists that print
   * the same text are the same list.
   */
  lemma FormatInjective(s: seq<Term>, t: seq<Term>)
    requires ZeroFree(s) && ZeroFree(t) && ExpsAtLeast(s, 0) && ExpsAtLeast(t, 0)
    requires Format(s) == Format(t)
    ensures s == t
  {
    RenderJoined(s);
    RenderJoined(t);
    FormatZero(s);
    FormatZero(t);
    if s != [] && t != [] {
      JoinedInjective(s, t, true);
    }
  }
}
