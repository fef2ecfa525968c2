/** Jaccard similarity kept as an exact fraction. */
module Similarity {

  /** The fraction `num / den`. */
  datatype Ratio = Ratio(num: nat, den: nat)

  /** `a <= b` as fractions, by cross-multiplication. */
  predicate AtMost(a: Ratio, b: Ratio) {
    a.num * b.den <= b.num * a.den
  }

  /** `a < b` as fractions, by cross-multiplication. */
  predicate Below(a: Ratio, b: Ratio) {
    a.num * b.den < b.num * a.den
  }

  /**
   * `jaccard_dist`: `|A & B| / |A | B|`. The division is only defined when the
   * union is not empty. The value lies in [0, 1]; it is 1 exactly when the
   * sets are equal and 0 exactly when they are disjoint.
   */
  function Jaccard(a: set<string>, b: set<string>): (r: Ratio)
    requires a + b != {}
    ensures 0 < r.den && r.num <= r.den
    ensures r.num == r.den <==> a == b
    ensures r.num == 0 <==> a * b == {}
  {
    SubsetCard(a * b, a + b);
    Ratio(|a * b|, |a + b|)
  }

  /** A subset is no larger, and a proper subset is smaller. */
  lemma {:induction false} SubsetCard(x: set<string>, y: set<string>)
    requires x <= y
    ensures |x| <= |y|
    ensures x != y ==> |x| < |y|
  {
    if x != {} {
      var e :| e in x;
      SubsetCard(x - {e}, y - {e});
    }
  }

  /** Two two-element sets sharing one element are one third similar. */
  lemma JaccardExample()
    ensures Jaccard({"x", "y"}, {"y", "z"}) == Ratio(1, 3)
  {
    assert {"x", "y"} * {"y", "z"} == {"y"};
    assert {"x", "y"} + {"y", "z"} == {"x", "y", "z"};
  }

  lemma MulLeft(x: nat, y: nat, z: nat)
    requires y <= z
    ensures x * y <= x * z
  {}

  lemma MulLeftStrict(x: nat, y: nat, z: nat)
    requires 0 < x && y < z
    ensures x * y < x * z
  {}

  /** The two comparisons are each other's negation with the arguments swapped. */
  lemma BelowExcludesAtMost(a: Ratio, b: Ratio)
    ensures Below(a, b) <==> !AtMost(b, a)
  {
  }

  /** Cross-multiplied comparison is transitive on fractions with positive denominators. */
  lemma AtMostTransitive(a: Ratio, b: Ratio, c: Ratio)
    requires 0 < a.den && 0 < b.den && 0 < c.den
    requires AtMost(a, b) && AtMost(b, c)
    ensures AtMost(a, c)
  {
    MulLeft(c.den, a.num * b.den, b.num * a.den);
    MulLeft(a.den, b.num * c.den, c.num * b.den);
    assert b.den * (a.num * c.den) <= b.den * (c.num * a.den);
    if a.num * c.den > c.num * a.den {
      MulLeftStrict(b.den, c.num * a.den, a.num * c.den);
    }
  }

  /** A fraction at most `b`, with `b` below `c`, is below `c`. */
  lemma AtMostBelowTransitive(a: Ratio, b: Ratio, c: Ratio)
    requires 0 < a.den && 0 < b.den && 0 < c.den
    requires AtMost(a, b) && Below(b, c)
    ensures Below(a, c)
  {
    MulLeft(c.den, a.num * b.den, b.num * a.den);
    MulLeftStrict(a.den, b.num * c.den, c.num * b.den);
    assert b.den * (a.num * c.den) < b.den * (c.num * a.den);
    if a.num * c.den >= c.num * a.den {
      MulLeft(b.den, c.num * a.den, a.num * c.den);
    }
  }

  /** A fraction below `b`, with `b` at most `c`, is below `c`. */
  lemma BelowAtMostTransitive(a: Ratio, b: Ratio, c: Ratio)
    requires 0 < a.den && 0 < b.den && 0 < c.den
    requires Below(a, b) && AtMost(b, c)
    ensures Below(a, c)
  {
    MulLeftStrict(c.den, a.num * b.den, b.num * a.den);
    MulLeft(a.den, b.num * c.den, c.num * b.den);
    assert b.den * (a.num * c.den) < b.den * (c.num * a.den);
    if a.num * c.den >= c.num * a.den {
      MulLeft(b.den, c.num * a.den, a.num * c.den);
    }
  }

  /** The cross-multiplied order agrees with the order of the quotients. */
  lemma AtMostIsQuotientOrder(a: Ratio, b: Ratio)
    requires 0 < a.den && 0 < b.den
    ensures AtMost(a, b) <==> (a.num as real) / (a.den as real) <= (b.num as real) / (b.den as real)
  {
    var p, q := (a.num as real) / (a.den as real), (b.num as real) / (b.den as real);
    assert a.num as real == p * (a.den as real);
    assert b.num as real == q * (b.den as real);
    assert (a.num * b.den) as real == p * (a.den as real) * (b.den as real);
    assert (b.num * a.den) as real == q * (a.den as real) * (b.den as real);
  }
}
