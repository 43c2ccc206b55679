/**
  The canonical comparator that keeps the operands of a sum in a
  deterministic order (functions/Comparator.java).

  Ranked classes, lowest first: PolyTerm, Exponential, Addition,
  Multiplication, Complex. Two PolyTerms compare by power; any other two
  values compare by rank, and a value whose class is not ranked (Log, Term,
  Subtraction) compares as 0 with everything.
 */
module Ordering {
  import opened Expr

  /** Index of the value's class in the comparator's order list; -1 when the
      class is absent from it (`indexOf` returning -1). */
  function Rank(f: Function): int
  {
    match f
    case Poly(_, _) => 0
    case Exp => 1
    case Add(_) => 2
    case Mul(_, _) => 3
    case Chain(_) => 4
    case _ => -1
  }

  predicate Ranked(f: Function)
  {
    Rank(f) >= 0
  }

  /** `Double.compare` on two reals (no NaN or signed zero among reals). */
  function CompareReal(a: real, b: real): (c: int)
    ensures c < 0 <==> a < b
    ensures c == 0 <==> a == b
    ensures -1 <= c <= 1
  {
    if a < b then -1 else if a == b then 0 else 1
  }

  /** `Integer.compare`. */
  function CompareInt(a: int, b: int): (c: int)
    ensures c < 0 <==> a < b
    ensures c == 0 <==> a == b
    ensures -1 <= c <= 1
  {
    if a < b then -1 else if a == b then 0 else 1
  }

  /** `Comparator.compare` on two non-null functions. The source's reference
      test `f == g` is value equality here; every later branch also yields 0
      for two equal values, so the answer is the same. */
  function Compare(f: Function, g: Function): (c: int)
    ensures -1 <= c <= 1
    ensures f == g ==> c == 0
    ensures f.Poly? && g.Poly? ==> (c < 0 <==> f.power < g.power) && (c == 0 <==> f.power == g.power)
    ensures !Ranked(f) || !Ranked(g) ==> c == 0
    ensures Ranked(f) && Ranked(g) && Rank(f) != Rank(g) ==> (c < 0 <==> Rank(f) < Rank(g)) && c != 0
  {
    if f == g then 0
    else if f.Poly? && g.Poly? then CompareReal(f.power, g.power)
    else if Rank(f) == -1 || Rank(g) == -1 then 0
    else CompareInt(Rank(f), Rank(g))
  }

  /** `compare` with possibly-null arguments: a null on either side gives 0. */
  function CompareNullable(f: Option<Function>, g: Option<Function>): (c: int)
    ensures f.None? || g.None? ==> c == 0
    ensures f.Some? && g.Some? ==> c == Compare(f.value, g.value)
  {
    match (f, g)
    case (Some(a), Some(b)) => Compare(a, b)
    case _ => 0
  }

  /** `f` sorts no later than `g`. */
  predicate Le(f: Function, g: Function)
  {
    Compare(f, g) <= 0
  }

  /** `f` and `g` are tied under the comparator. */
  predicate Tied(f: Function, g: Function)
  {
    Compare(f, g) == 0
  }

  // ---- An independent reference order: keys compared lexicographically ----

  /** The secondary key: the power of a PolyTerm, 0 for every other class. */
  function PowerKey(f: Function): real
  {
    if f.Poly? then f.power else 0.0
  }

  /** Strictly-before on (rank, power) keys. */
  predicate KeyBefore(f: Function, g: Function)
  {
    Rank(f) < Rank(g) || (Rank(f) == Rank(g) && PowerKey(f) < PowerKey(g))
  }

  predicate SameKey(f: Function, g: Function)
  {
    Rank(f) == Rank(g) && PowerKey(f) == PowerKey(g)
  }

  /** On ranked values the comparator is exactly the lexicographic order on
      (class rank, PolyTerm power). */
  lemma CompareIsKeyOrder(f: Function, g: Function)
    requires Ranked(f) && Ranked(g)
    ensures Compare(f, g) < 0 <==> KeyBefore(f, g)
    ensures Compare(f, g) == 0 <==> SameKey(f, g)
    ensures Compare(f, g) > 0 <==> KeyBefore(g, f)
  {
  }

  /** compare(f, g) == -compare(g, f) for every pair. */
  lemma CompareAntisymmetric(f: Function, g: Function)
    ensures Compare(f, g) == -Compare(g, f)
  {
  }

  /** Restricted to ranked values the comparator is a total preorder. */
  lemma CompareTotalPreorder(f: Function, g: Function, h: Function)
    requires Ranked(f) && Ranked(g) && Ranked(h)
    ensures Le(f, f)
    ensures Le(f, g) || Le(g, f)
    ensures Le(f, g) && Le(g, h) ==> Le(f, h)
  {
    CompareIsKeyOrder(f, g);
    CompareIsKeyOrder(g, h);
    CompareIsKeyOrder(f, h);
  }

  /** Ties among ranked values form an equivalence, and a tie can replace
      either side of an ordering. */
  lemma TiedCongruence(f: Function, g: Function, h: Function)
    requires Ranked(f) && Ranked(g) && Ranked(h)
    ensures Tied(f, g) ==> Tied(g, f)
    ensures Tied(f, g) && Tied(g, h) ==> Tied(f, h)
    ensures Tied(f, g) ==> (Le(f, h) <==> Le(g, h)) && (Le(h, f) <==> Le(h, g))
  {
    CompareIsKeyOrder(f, g);
    CompareIsKeyOrder(g, h);
    CompareIsKeyOrder(f, h);
    CompareIsKeyOrder(h, f);
    CompareIsKeyOrder(h, g);
    CompareIsKeyOrder(g, f);
  }

  /** With an unranked class in play transitivity fails: a Log ties with both
      x^2 and x^1, which do not tie with each other. */
  lemma UnrankedBreaksTransitivity()
    ensures Tied(Poly(1.0, 2.0), Log(E)) && Tied(Log(E), Poly(1.0, 1.0))
    ensures Compare(Poly(1.0, 2.0), Poly(1.0, 1.0)) == 1
  {
  }
}
