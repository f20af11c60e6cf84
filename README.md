# Polynomial long division over linked lists

A Dafny model of the polynomial class `PolinomioLista` in `src/Main.java`. A
polynomial is a singly linked chain of nodes `(coeficiente, exponente)` with
strictly decreasing exponents. The class builds polynomials term by term
(`agregarTermino`) and prints them (`imprimir`). It copies, negates-and-adds,
scales and multiplies them (`copiar`, `restar`, `multiplicar`,
`multiplicarPolinomios`, `sumarPolinomios`), and it runs long division
(`dividir`). The program then checks the division by comparing
`comprobarDivision`'s printed `divisor·quotient + remainder` with the
printed dividend.

The project has one module per concern:

- `Poly` (`poly.dfy`): the node list as `seq<Term>`.
  - `Coef` gives its value, the coefficient at each exponent.
  - `Insert` is the insertion walk of `agregarTermino` as a function.
  - `InsertAll` inserts a whole sequence of terms in order. Every helper
    list-builder of the class is one.
  - `NonZero` drops zero-coefficient nodes.
- `Arith` (`arith.dfy`): `copiar`, `multiplicar`, `restar`,
  `sumarPolinomios` and `multiplicarPolinomios` as functions. Each has lemmas
  about the value it computes.
- `Printer` (`format.dfy`): the text `imprimir` builds, including the decimal
  writing of `StringBuilder.append(int)`.
- `Division` (`division.dfy`): the division loop as a recursive function on
  the running quotient and remainder. It includes Java's truncating `/`,
  the termination measure, the division identity and the check made by
  `comprobarDivision`.
- `PolyLists` (`polylist.dfy`): the class itself. It is a `class PolyList`
  whose node chain is a `seq<Term>` field, and each Java method becomes a
  method with its loops. Every method is proved to compute the matching
  function.
- `Examples` (`examples.dfy`): the two divisions from the program's menu and
  other fixed inputs, evaluated pass by pass.

## Model

| member | source | states |
|---|---|---|
| PolyLists.PolyList.AddTerm | src/Main.java:28-52 | The new node list is `Insert(old list, c, e)`. Sortedness is kept. The value changes by exactly c at exponent e and nowhere else. A node whose coefficient sums to 0 stays in the list. |
| Poly.InsertCoef | src/Main.java:28-52 | Inserting (c, e) adds c to the coefficient at e and leaves every other exponent's coefficient alone. |
| Poly.InsertSorted | src/Main.java:32-50 | Insertion keeps exponents strictly decreasing. |
| Poly.InsertPosition | src/Main.java:36-50 | With i the first position whose exponent is not above e, insertion either adds c to the node at i when its exponent is e, or splices a new node (c, e) in at i. All other nodes stay unchanged and in order. |
| Poly.InsertAllCoef | src/Main.java:123-131 | Inserting a sequence of terms one by one adds the value of the sequence to the value of the list. |
| Poly.InsertAllSorted | src/Main.java:123-131 | Inserting any sequence of terms into a sorted list leaves it sorted. |
| Poly.InsertAllDropsZeros | src/Main.java:29-30 | Inserting a sorted list into an empty one gives exactly its nonzero nodes, in order. |
| Poly.CanonicalUnique | src/Main.java:27 | Two sorted, zero-free lists with the same coefficient at every exponent are equal. |
| PolyLists.PolyList.Print | src/Main.java:55-74 | The returned text is `Format` of the node list. That is the builder loop's contents, or "0" when nothing was appended. |
| Printer.FormatZero | src/Main.java:55-74 | When no node is a silent `(1, negative exponent)` node, "0" is printed exactly for the empty list or for a lone zero-coefficient node at an exponent of 0 or below. |
| Printer.RenderJoined | src/Main.java:59-62 | When no node is silent, the builder's emptiness test agrees with "first node". The text is the first node's piece followed by the separated pieces of the others, and it is nonempty for a nonempty list. |
| Printer.DecimalRoundTrip | src/Main.java:65 | The decimal text appended for a number reads back as that number and uses only the digits 0 to 9. |
| Printer.DecimalZero | src/Main.java:65 | Only 0 is written as "0". |
| Printer.FormatInjective | src/Main.java:55-74 | Two lists with no zero coefficient and no negative exponent that print the same text are the same list: the sign of each node is read from its separator, and its body runs up to the next space. |
| PolyLists.Copy | src/Main.java:123-131 | The result is a fresh sorted list equal to `CopyOf(source)`. |
| Arith.CopyOfValue | src/Main.java:123-131 | A copy has the same value as its source and is sorted. |
| Arith.CopyOfSorted | src/Main.java:123-131 | Copying a sorted list gives its nonzero nodes in the same order, so the copy is sorted and zero-free. |
| PolyLists.MulMonomial | src/Main.java:101-109 | The result is a fresh sorted list equal to `MonomialProduct(p, c, k)`. |
| Arith.MonomialProductValue | src/Main.java:101-109 | The value is c·x^k times the value of p, and the result is sorted. For a sorted p it is exactly the nonzero scaled-and-shifted nodes, and it is empty when c = 0. |
| PolyLists.Subtract | src/Main.java:112-120 | The result is a fresh sorted list equal to `Difference(p1, p2)`. |
| Arith.DifferenceValue | src/Main.java:112-120 | The value of the result is p1 − p2, and the result is sorted. |
| PolyLists.Add | src/Main.java:150-158 | The result is a fresh sorted list equal to `Sum(p1, p2)`. |
| Arith.SumValue | src/Main.java:150-158 | The value of the result is p1 + p2, and the result is sorted. |
| PolyLists.Multiply | src/Main.java:134-147 | The result is a fresh sorted list equal to `Product(p1, p2)`, the cross terms inserted with p1's nodes outside and p2's inside. |
| Arith.ProductValue | src/Main.java:134-147 | The coefficient of the result at e is Σ over p1's nodes of coef · (p2's coefficient at e − exp). That is the product of the two values, and the result is sorted. |
| Arith.MulDistributes | src/Main.java:134-158 | `multiplicarPolinomios(a, sumarPolinomios(b, c))` and `sumarPolinomios(multiplicarPolinomios(a, b), multiplicarPolinomios(a, c))` have the same value at every exponent. |
| Division.JavaDivTruncates | src/Main.java:83 | The truncating quotient of the head coefficients leaves a remainder smaller than the divisor in magnitude and never of the opposite sign to the dividend. Division by 1 or −1 is exact. |
| Division.StepKeepsIdentity | src/Main.java:82-95 | One pass of the loop keeps dividend = divisor·quotient + remainder, even when the head-coefficient division truncates. |
| Division.StepDecreases | src/Main.java:82-95 | For a divisor led by ±1, a pass keeps the remainder sorted and lowers the termination measure: twice the rank of the highest nonzero exponent at or above the divisor's, plus one while a zero node is present. |
| Division.DivLoopCorrect | src/Main.java:82-95 | The loop ends with the identity kept, both lists sorted, and a remainder that is empty or led by an exponent below the divisor's. |
| Division.LongDivisionCorrect | src/Main.java:77-98 | Division from a copy of the dividend and an empty quotient gives the identity, sorted results and the remainder bound. |
| Division.LongDivisionZeroFree | src/Main.java:77-98 | For a sorted dividend, neither the quotient nor the remainder keeps a zero-coefficient node. |
| Division.StuckWhenInexact | src/Main.java:82-95 | When the loop guard holds and the remainder's head coefficient is nonzero and smaller in magnitude than the divisor's, a pass over a zero-free remainder returns exactly the state it started from. The guard then still holds, so the loop repeats that pass forever. |
| Division.XByTwoXLoops | src/Main.java:82-95 | Dividing x by 2x: the loop guard holds and a pass changes nothing. |
| PolyLists.Divide | src/Main.java:77-98 | For a divisor led by ±1, the fresh quotient and remainder equal `LongDivision`. When the loop guard fails at once, for any divisor, they are an empty quotient and the copied dividend. In both cases they satisfy the identity, are sorted, and the remainder is empty or led below the divisor. |
| Division.SkippedDivision | src/Main.java:78-82 | When the guard fails before any pass, the empty quotient and the copied dividend satisfy the identity for any divisor, and for a unit-led divisor they are LongDivision's result. |
| PolyLists.CheckDivision | src/Main.java:284-297 | The verdict is `CheckAsWritten`: the printed `sumarPolinomios(multiplicarPolinomios(divisor, quotient), remainder)` equals the printed dividend. |
| Division.CheckCanonicalAccepts | src/Main.java:284-297 | Comparing zero-stripped copies accepts every quotient and remainder that satisfy the identity for a sorted dividend. |
| Division.CheckCanonicalAcceptsDivision | src/Main.java:284-297 | The zero-stripped comparison accepts every result of the division. |
| Division.CheckCanonicalExact | src/Main.java:284-297 | For a sorted dividend and no negative exponent in any of the four lists, the zero-stripped comparison reports correct if and only if dividend = divisor·quotient + remainder. |
| Examples.CubicDivision | src/Main.java:201-206 | 2x^3 + 3x^2 − x + 5 divided by x^2 − 1 gives quotient 2x + 3 and remainder x + 8. |
| Examples.CubicPrinted | src/Main.java:55-74 | Those two results print as "2x + 3" and "x + 8". |
| Examples.QuarticDivision | src/Main.java:210-216 | 3x^4 − 2x^2 + x − 7 divided by x^2 − 2x + 1 gives quotient 3x^2 + 6x + 7 and remainder 9x − 14. |
| Examples.QuarticQuotientPrinted | src/Main.java:55-74 | That quotient prints as "3x^2 + 6x + 7". |
| Examples.QuarticRemainderPrinted | src/Main.java:55-74 | That remainder prints as "9x - 14". |
| Examples.SelfDivision | src/Main.java:77-98 | x^2 − 1 divided by itself gives quotient 1 and an empty remainder, after a pass that strips the two zero nodes the cancellation leaves. |
| Examples.SelfPrinted | src/Main.java:73 | That quotient and remainder print as "1" and "0". |
| Examples.ZeroNodeKept | src/Main.java:41-42 | Adding 2x^3 then −2x^3 leaves one node (0, 3). Its value is zero everywhere, and it prints as "0x^3". |
| Examples.CheckRejectsExactDivision | src/Main.java:294 | x^2 ÷ (x + 1) gives x − 1 and 1, which satisfy the identity. The comparison as written rejects them, while the zero-stripped comparison accepts them. |
| Examples.SkippedDivisions | src/Main.java:82 | 5 ÷ 2x and 0 ÷ 0 never enter the loop. The dividend comes back as the remainder with an empty quotient, and the identity holds. |
| Examples.CheckCanonicalNegativeExponent | src/Main.java:55-74 | With dividend x^-1, divisor 1 and an empty quotient and remainder, the identity fails, yet the zero-stripped comparison accepts them: a leading 1·x^-1 prints nothing, so both sides print "0". |

## Left out

- The node chain is a `seq<Term>` field, not linked nodes. Aliasing between nodes is not modelled. In the source no node is shared between two lists: every result is built from fresh nodes.
- Java `int` arithmetic is unbounded in the model. Overflow in the products at lines 105 and 140, the sums at line 42 and the negation at line 116 is not captured.
- PolyLists.Divide: requires the divisor sorted, and either led by 1 or −1 or such that the loop is never entered (`Skipped`: the copied dividend is empty or its head lies below the divisor's head). Without a pass, the source returns an empty quotient and the copied dividend for any divisor, and so does the model (SkippedDivision, SkippedDivisions). Runs that enter the loop with another divisor are excluded:
  - With an empty divisor, the guard at line 82 then fails with a null dereference.
  - With a zero head coefficient, line 83 throws `ArithmeticException`.
  - With any other head, the loop can run forever (StuckWhenInexact, XByTwoXLoops). When every head division is exact, as in 4x^2 ÷ 2x, it finishes. Those finished runs are not covered by Divide, though StepKeepsIdentity states the identity for every pass with a nonzero head.
- The `System.out.println` traces inside `dividir` and `comprobarDivision` are not modelled. They print values the model already computes.
- PolyLists.CheckDivision: returns the comparison as a boolean instead of printing one of two messages.
- `main` (lines 174-258) is not modelled: the menu, `Scanner` input and the fixed example inputs. The two menu examples are the lemmas in `Examples`.
- `ingresarPolinomio` (lines 261-281) is not modelled: line parsing and `NumberFormatException` handling. The parsed pairs only reach `agregarTermino`, which is modelled.
- Division.CheckCanonical: decides the identity in both directions only when no list has a negative exponent. A leading node 1·x^e with e < 0 prints nothing, so a wrong answer can print like a right one (CheckCanonicalNegativeExponent). With negative exponents only the accepting direction is proved (CheckCanonicalAccepts).
- `NodoPolinomio` and `DivisionResult` are data holders. `DivisionResult` is a datatype of two `PolyList` references.
- Three behaviours of the code that the model keeps as they are:
  - A node whose coefficient sums to 0 is kept in the list (ZeroNodeKept).
  - `multiplicarPolinomios` inserts every cross term from a nested loop, p1's nodes outside and p2's inside.
  - The number of passes can exceed the head-exponent difference plus one, because a pass over a zero head only strips zero nodes. SelfDivision takes two passes where the difference is 0.

## Findings

| source | as written | input that shows it | evidently intended | confidence | as-written member | corrected member |
|---|---|---|---|---|---|---|
| src/Main.java:294 | The check compares the printed `sumarPolinomios(multiplicarPolinomios(divisor, quotient), remainder)` with the printed dividend. `agregarTermino` keeps a node whose coefficient sums to 0 (lines 41-42). Adding the remainder onto the product at line 154 can therefore leave a (0, 0) node, which prints as " - 0". | Dividend x^2, divisor x + 1. The division gives quotient x − 1 and remainder 1. The product is x^2 + 0x − 1. The copy at line 151 drops its (0, 1) node, and adding the remainder's +1 onto −1 leaves (0, 0). The sum prints "x^2 - 0" and the dividend prints "x^2", so a correct division is reported incorrect. | Report correct exactly when dividend = divisor·quotient + remainder, by comparing zero-free forms. Proved in both directions when no exponent is negative; for negative exponents only correct divisions are proved accepted. | not executed | Division.CheckAsWritten, Examples.CheckRejectsExactDivision | Division.CheckCanonical, Division.CheckCanonicalAccepts, Division.CheckCanonicalExact |
