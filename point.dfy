/** The base point of point.py: two mutable integer coordinates, compared with each other
    only through their distance from the origin.

    The source compares `sqrt(x*x + y*y)`; this model compares the squared distance
    `x*x + y*y`, which orders points the same way because the square root is strictly
    monotone on non-negative numbers (lemma DistanceOrderAgrees). */
module Points {
  import Decimal

  /** `d` is the (real, non-negative) square root of `sq`. */
  ghost predicate IsSqrt(d: real, sq: int) {
    d >= 0.0 && d * d == sq as real
  }

  class Point {
    var x: int
    var y: int

    /** Stores both coordinates as given; there is no validation. */
    constructor (x: int, y: int)
      ensures this.x == x && this.y == y
    {
      this.x := x;
      this.y := y;
    }

    /** The square of `distance_to_orig`. */
    function SqDistToOrigin(): (d: int)
      reads this
      ensures d >= 0
      ensures d == 0 <==> x == 0 && y == 0
    {
      x * x + y * y
    }

    /** `self > other`: this point is strictly farther from the origin. Nothing is
        farther than itself, and a point farther than another is not the origin. */
    predicate Gt(other: Point): (r: bool)
      reads this, other
      ensures other == this ==> !r
      ensures r ==> x != 0 || y != 0
    {
      SqDistToOrigin() > other.SqDistToOrigin()
    }

    /** `self == other`: both points are equally far from the origin. Every point equals
        itself, and a point equals the origin only when it is the origin. */
    predicate Eq(other: Point): (r: bool)
      reads this, other
      ensures other == this ==> r
      ensures r ==> (x == 0 && y == 0 <==> other.x == 0 && other.y == 0)
    {
      SqDistToOrigin() == other.SqDistToOrigin()
    }

    /** `__str__`: the text `<x=X, y=Y>` with both coordinates in decimal. */
    function Str(): (s: string)
      reads this
      ensures |s| >= 9 && s[..3] == "<x=" && s[|s| - 1] == '>'
    {
      "<x=" + Decimal.IntToString(x) + ", y=" + Decimal.IntToString(y) + ">"
    }

    /** `__repr__` delegates to `__str__`. */
    function Repr(): (s: string)
      reads this
      ensures s == Str()
    {
      Str()
    }
  }

  /** The attribute assignment `p.x = v` of the demo. */
  method AssignX(p: Point, v: int)
    modifies p
    ensures p.x == v && p.y == old(p.y)
  {
    p.x := v;
  }

  lemma SquareMonotone(a: real, b: real)
    requires 0.0 <= b < a
    ensures b * b < a * a
  {
    var e := a - b;
    assert a * a == (b + e) * (b + e) == b * b + 2.0 * b * e + e * e;
    assert e * e > 0.0;
    assert b * e >= 0.0;
  }

  /** Comparing squared distances decides `>` and `==` exactly as comparing the real
      distances `sqrt(x*x + y*y)` does. */
  lemma DistanceOrderAgrees(p: Point, q: Point, dp: real, dq: real)
    requires IsSqrt(dp, p.SqDistToOrigin()) && IsSqrt(dq, q.SqDistToOrigin())
    ensures p.Gt(q) <==> dp > dq
    ensures p.Eq(q) <==> dp == dq
  {
    if dp > dq {
      SquareMonotone(dp, dq);
    } else if dq > dp {
      SquareMonotone(dq, dp);
    }
  }

  /** `==` is an equivalence relation. */
  lemma EqIsEquivalence(p: Point, q: Point, r: Point)
    ensures p.Eq(p)
    ensures p.Eq(q) <==> q.Eq(p)
    ensures p.Eq(q) && q.Eq(r) ==> p.Eq(r)
  {
  }

  /** `>` is a strict order: irreflexive, asymmetric and transitive. */
  lemma GtIsStrictOrder(p: Point, q: Point, r: Point)
    ensures !p.Gt(p)
    ensures p.Gt(q) ==> !q.Gt(p)
    ensures p.Gt(q) && q.Gt(r) ==> p.Gt(r)
  {
  }

  /** Exactly one of `p > q`, `p == q` and `q > p` holds. */
  lemma Trichotomy(p: Point, q: Point)
    ensures p.Gt(q) || p.Eq(q) || q.Gt(p)
    ensures !(p.Gt(q) && p.Eq(q)) && !(q.Gt(p) && p.Eq(q)) && !(p.Gt(q) && q.Gt(p))
  {
  }

  /** Equality ignores the coordinates themselves: (3, 4) equals (5, 0). */
  lemma EqualityIsNotStructural(p: Point, q: Point)
    requires p.x == 3 && p.y == 4 && q.x == 5 && q.y == 0
    ensures p.Eq(q) && (p.x != q.x || p.y != q.y)
  {
  }

  /** The demo's comparisons: (3, 4) is at distance 5, (3, 4) > (1, 1), and not (3, 4) == (1, 1). */
  lemma DemoComparisons(p: Point, p2: Point)
    requires p.x == 3 && p.y == 4 && p2.x == 1 && p2.y == 1
    ensures IsSqrt(5.0, p.SqDistToOrigin())
    ensures p.Gt(p2) && !p.Eq(p2)
  {
  }

  /** The assignment step of the demo: `p = Point(1, 2)`, then `p.x = 20`. The assigned
      value is seen by the comparisons and by the text form, and `y` keeps its value. */
  method DemoAssignment() returns (p: Point)
    ensures p.x == 20 && p.y == 2
    ensures p.SqDistToOrigin() == 404
    ensures p.Str() == "<x=20, y=2>"
  {
    p := new Point(1, 2);
    AssignX(p, 20);
  }

  lemma FirstSeparator(a: string, b: string, sep: char)
    requires sep !in a
    ensures (a + [sep] + b)[|a|] == sep
    ensures forall i :: 0 <= i < |a| ==> (a + [sep] + b)[i] != sep
  {
  }

  lemma SplitAtSeparator(a: string, b: string, c: string, d: string, sep: char)
    requires sep !in a && sep !in c
    requires a + [sep] + b == c + [sep] + d
    ensures a == c && b == d
  {
    var s := a + [sep] + b;
    FirstSeparator(a, b, sep);
    FirstSeparator(c, d, sep);
    assert |a| == |c|;
    assert a == s[..|a|] == c;
    assert b == s[|a| + 1..] == d;
  }

  lemma CancelPrefix(pre: string, u: string, v: string)
    requires pre + u == pre + v
    ensures u == v
  {
    assert u == (pre + u)[|pre|..];
    assert v == (pre + v)[|pre|..];
  }

  lemma CancelSuffix(u: string, v: string, post: string)
    requires u + post == v + post
    ensures u == v
  {
    assert u == (u + post)[..|u|];
    assert v == (v + post)[..|v|];
  }

  lemma Regroup(xs: string, ys: string)
    ensures "<x=" + xs + ", y=" + ys + ">" == "<x=" + (xs + [','] + (" y=" + (ys + ">")))
  {
  }

  /** The template `<x=…, y=…>` can be read back when the first part holds no comma. */
  lemma TemplateInjective(xp: string, yp: string, xq: string, yq: string)
    requires ',' !in xp && ',' !in xq
    requires "<x=" + xp + ", y=" + yp + ">" == "<x=" + xq + ", y=" + yq + ">"
    ensures xp == xq && yp == yq
  {
    Regroup(xp, yp);
    Regroup(xq, yq);
    CancelPrefix("<x=", xp + [','] + (" y=" + (yp + ">")), xq + [','] + (" y=" + (yq + ">")));
    SplitAtSeparator(xp, " y=" + (yp + ">"), xq, " y=" + (yq + ">"), ',');
    CancelPrefix(" y=", yp + ">", yq + ">");
    CancelSuffix(yp, yq, ">");
  }

  /** The text form determines the coordinates: two points print alike only when both
      coordinates agree. */
  lemma StrInjective(p: Point, q: Point)
    requires p.Str() == q.Str()
    ensures p.x == q.x && p.y == q.y
  {
    Decimal.NoSeparators(p.x);
    Decimal.NoSeparators(q.x);
    TemplateInjective(Decimal.IntToString(p.x), Decimal.IntToString(p.y),
                      Decimal.IntToString(q.x), Decimal.IntToString(q.y));
    Decimal.IntToStringInjective(p.x, q.x);
    Decimal.IntToStringInjective(p.y, q.y);
  }
}
