/** The `AdvancedPoint` of advanced_point.py: a point whose colour must be one of an
    allowed list at construction time, with a writable `x`, read-only `y` and `color`,
    and two forms of the distance between two points.

    The class-level list `COLORS`, shared by every caller, is a ColorRegistry object here;
    construction takes the registry it validates against. Distances are squared, as in
    point.dfy; IsSqrt relates them to the source's square roots. */
module AdvancedPoints {
  import opened Points

  /** The value `COLORS` starts with. */
  const InitialColors: seq<string> := ["red", "blue", "green", "yellow", "black", "white", "periwinkle"]

  /** The colour that `from_tuple` uses when none is given. */
  const DefaultColor: string := "red"

  /** The `TypeError` raised for a colour outside the registry; its message lists the
      colours allowed at that moment. */
  datatype ColorError = InvalidColor(allowed: seq<string>)

  datatype Result<T> = Ok(value: T) | Err(error: ColorError)

  /** The class attribute `COLORS`: an ordered list that only ever grows. */
  class ColorRegistry {
    var colors: seq<string>

    constructor ()
      ensures colors == InitialColors
    {
      colors := InitialColors;
    }

    /** `add_color`: appends, without removing duplicates. */
    method AddColor(color: string)
      modifies this
      ensures colors == old(colors) + [color]
      ensures old(colors) <= colors && color in colors
    {
      colors := colors + [color];
    }
  }

  class AdvancedPoint {
    /** `_x`, exposed through a property with a setter. */
    var x: int
    /** `_y` and `_color` have a getter and no setter, so they never change. */
    const y: int
    const color: string

    /** The field assignments of `__init__`, after its colour check has passed. */
    constructor (x: int, y: int, color: string)
      ensures this.x == x && this.y == y && this.color == color
    {
      this.x := x;
      this.y := y;
      this.color := color;
    }

    /** The `x` setter. It may write the field `x` and nothing else; `y` and `color`
        are constants. */
    method SetX(value: int)
      modifies this`x
      ensures x == value
    {
      x := value;
    }

    /** The square of `distance_to_other`. */
    function SqDistanceTo(p: AdvancedPoint): (d: int)
      reads this, p
      ensures d >= 0
    {
      (x - p.x) * (x - p.x) + (y - p.y) * (y - p.y)
    }

    /** The square of the static `distance_2_points`. */
    static function SqDistanceBetween(p1: AdvancedPoint, p2: AdvancedPoint): (d: int)
      reads p1, p2
      ensures d >= 0
    {
      (p1.x - p2.x) * (p1.x - p2.x) + (p1.y - p2.y) * (p1.y - p2.y)
    }
  }

  /** `AdvancedPoint(x, y, color)`: fails, leaving everything unchanged, when `color` is not
      in the registry now; otherwise a new point holding exactly the given values. */
  method New(registry: ColorRegistry, x: int, y: int, color: string) returns (r: Result<AdvancedPoint>)
    ensures r.Err? <==> color !in registry.colors
    ensures r.Err? ==> r.error == InvalidColor(registry.colors)
    ensures r.Ok? ==> fresh(r.value) && r.value.x == x && r.value.y == y && r.value.color == color
  {
    if color !in registry.colors {
      return Err(InvalidColor(registry.colors));
    }
    var p := new AdvancedPoint(x, y, color);
    r := Ok(p);
  }

  /** `from_tuple((x, y), color="red")`: construction from a pair, through the same check. */
  method FromTuple(registry: ColorRegistry, coordinate: (int, int), color: string := DefaultColor)
      returns (r: Result<AdvancedPoint>)
    ensures r.Err? <==> color !in registry.colors
    ensures r.Err? ==> r.error == InvalidColor(registry.colors)
    ensures r.Ok? ==> fresh(r.value) && r.value.x == coordinate.0 && r.value.y == coordinate.1
                      && r.value.color == color
  {
    var (x, y) := coordinate;
    r := New(registry, x, y, color);
  }

  /** A colour accepted before more colours are appended is still accepted afterwards. */
  lemma ValidityMonotone(colors: seq<string>, added: seq<string>, color: string)
    requires color in colors
    ensures color in colors + added
  {
  }

  /** The initial registry holds seven distinct colours, with "red" among them, so
      `from_tuple` with the default colour succeeds on a fresh registry. */
  lemma InitialRegistry()
    ensures |InitialColors| == 7 && DefaultColor in InitialColors
    ensures forall i, j :: 0 <= i < j < |InitialColors| ==> InitialColors[i] != InitialColors[j]
    ensures "ultraviolet" !in InitialColors && "rojo" !in InitialColors
  {
  }

  /** The static and the instance distance compute the same value. */
  lemma DistanceFormsAgree(p1: AdvancedPoint, p2: AdvancedPoint)
    ensures AdvancedPoint.SqDistanceBetween(p1, p2) == p1.SqDistanceTo(p2)
  {
  }

  /** The distance is symmetric. */
  lemma DistanceSymmetric(p1: AdvancedPoint, p2: AdvancedPoint)
    ensures p1.SqDistanceTo(p2) == p2.SqDistanceTo(p1)
  {
  }

  lemma SquareZero(a: int)
    ensures a * a >= 0
    ensures a * a == 0 <==> a == 0
  {
  }

  /** The distance is zero exactly when both coordinates coincide. */
  lemma DistanceZeroIffSame(p1: AdvancedPoint, p2: AdvancedPoint)
    ensures p1.SqDistanceTo(p2) == 0 <==> p1.x == p2.x && p1.y == p2.y
  {
    SquareZero(p1.x - p2.x);
    SquareZero(p1.y - p2.y);
  }

  /** The demo's value: from (0, 0) to (3, 4) the distance is 5. */
  lemma DemoDistance(p1: AdvancedPoint, p2: AdvancedPoint)
    requires p1.x == 0 && p1.y == 0 && p2.x == 3 && p2.y == 4
    ensures IsSqrt(5.0, p1.SqDistanceTo(p2)) && IsSqrt(5.0, AdvancedPoint.SqDistanceBetween(p1, p2))
  {
  }

  /** The module-level example of advanced_point.py with its printing left out, the
      call of the undefined `distance_orig` dropped, and one step added in front: a
      construction with "rojo" before `add_color`, which fails. After `add_color("rojo")`
      the same construction succeeds; `from_tuple((3, 2))` takes the default colour; and
      both distance forms give the squared distance 4 between the two points. */
  method ExampleUsage() returns (p: AdvancedPoint, p2: AdvancedPoint)
    ensures p.x == 1 && p.y == 2 && p.color == "rojo"
    ensures p2.x == 3 && p2.y == 2 && p2.color == "red"
    ensures AdvancedPoint.SqDistanceBetween(p, p2) == p.SqDistanceTo(p2) == 4
  {
    var registry := new ColorRegistry();
    var before := New(registry, 1, 2, "rojo");
    assert "rojo" !in registry.colors by { InitialRegistry(); }
    assert before.Err?;
    registry.AddColor("rojo");
    var r := New(registry, 1, 2, "rojo");
    p := r.value;
    var r2 := FromTuple(registry, (3, 2));
    assert DefaultColor in registry.colors by {
      InitialRegistry();
      ValidityMonotone(InitialColors, ["rojo"], DefaultColor);
    }
    p2 := r2.value;
  }
}
