# Points compared by distance, and colour-checked points

A model of the two classes of the repository Econ.Mod.Session1-2, with proofs about them.

- `Point` (point.py) holds two coordinates, which can be assigned. Two points are compared
  only by their distance from the origin: `p > q` means p lies farther out, and `p == q`
  means both lie equally far out. The demo of point.py sorts a list of points in place with
  these comparisons.
- `AdvancedPoint` (advanced_point.py) is a point with a writable `x`, a read-only `y` and a
  read-only `color`. The class keeps a list `COLORS` of allowed colours, and construction
  fails with a `TypeError` when the colour is not in it. `add_color` appends to that list,
  `from_tuple` builds a point from a pair, with `"red"` as the default colour, and there are
  two forms of the distance between two points.

The Dafny modules are:

- `Points` (point.dfy): the `Point` class, its comparisons and its text form.
- `Decimal` (decimal.dfy): Python's `str` of an integer, with its inverse.
- `KeyedSort` (keyed_sort.dfy): a stable insertion sort on values. It is the specification
  of the in-place sort.
- `PointSort` (point_sort.dfy): the in-place `points.sort()` and its properties.
- `AdvancedPoints` (advanced_point.dfy): the colour registry, `AdvancedPoint` and its
  construction.

Distances are squared, so the model compares `x*x + y*y` where the source compares
`(x**2 + y**2)**0.5`. The lemma `Points.DistanceOrderAgrees` shows that comparing the
squares decides `>` and `==` exactly as comparing the real square roots does.

The class attribute `COLORS` is shared by every caller. In the model it is a `ColorRegistry`
object, and construction takes the registry it checks against. Construction is a method
returning `Ok(point)` or `Err(InvalidColor(allowed))`, because Dafny constructors cannot fail.
That method has no `modifies` clause, so a failed (or successful) construction leaves the
registry as it was.

Python's `list.sort` calls only `<`. `Point` has no `__lt__`, so `a < b` becomes the
reflected `b.__gt__(a)`. The model, `PointSort.Sort`, is an insertion sort on an
`array<Point>` that calls only `Gt`. It is proved equal to a functional stable insertion sort
by distance. That result is proved sorted by distance, a permutation of the input, and
stable. `PointSort.StableSortIsUnique` then shows that any stable sort by distance, Python's
own included, returns exactly this sequence.

## Model

| member | source | states |
|---|---|---|
| Points.Point.constructor | point.py:8-18 | both coordinates are stored exactly as given, with no validation |
| Points.Point.SqDistToOrigin | point.py:36-42 | the squared distance from the origin is non-negative, and zero exactly at the origin |
| Points.Point.Gt | point.py:44-53 | `__gt__` compares squared distances from the origin (`DistanceOrderAgrees` relates this to the source's square roots); no point is `>` itself, and a point `>` another is not the origin |
| Points.Point.Eq | point.py:55-64 | `__eq__` compares squared distances from the origin (`DistanceOrderAgrees` relates this to the source's square roots); every point equals itself, and a point equals another only if both or neither are the origin |
| Points.DistanceOrderAgrees | point.py:42-64 | for the real square roots dp and dq of the squared distances, `p > q` holds iff dp > dq, and `p == q` holds iff dp == dq |
| Points.EqIsEquivalence | point.py:55-64 | `==` is reflexive, symmetric and transitive |
| Points.GtIsStrictOrder | point.py:44-53 | `>` is irreflexive, asymmetric and transitive |
| Points.Trichotomy | point.py:44-64 | exactly one of `p > q`, `p == q` and `q > p` holds |
| Points.EqualityIsNotStructural | point.py:55-64 | (3, 4) and (5, 0) compare equal although their coordinates differ |
| Points.DemoComparisons | point.py:94-99 | (3, 4) is at distance 5, `(3, 4) > (1, 1)` holds and `(3, 4) == (1, 1)` does not |
| Points.AssignX | point.py:76 | `p.x = v` sets x to v and leaves y unchanged |
| Points.DemoAssignment | point.py:68-79 | constructing (1, 2) and then assigning `p.x = 20` gives the point (20, 2), at squared distance 404, printed as `<x=20, y=2>` |
| Points.Point.Str | point.py:20-26 | the text form starts with `<x=` and ends with `>` |
| Points.StrInjective | point.py:20-26 | two points with the same text form have the same coordinates |
| Points.TemplateInjective | point.py:26 | the template `<x=…, y=…>` can be read back when its first field holds no comma |
| Points.Point.Repr | point.py:28-34 | `__repr__` returns the same string as `__str__` |
| Decimal.IntToString | point.py:26 | the decimal form of an integer is non-empty, starts with `-` iff the integer is negative, and otherwise consists of digits |
| Decimal.IntRoundTrip | point.py:26 | parsing the decimal form of an integer gives the integer back |
| Decimal.IntToStringInjective | point.py:26 | distinct integers have distinct decimal forms |
| Decimal.NoSeparators | point.py:26 | a decimal form never contains `,` or `>`, the characters that delimit the fields of the text form |
| PointSort.Sort | point.py:101-104 | the array becomes the stable sort by distance of its old contents: sorted by distance, a permutation, and with equally distant points in their old relative order |
| PointSort.InsertLast | point.py:103 | one pass moves `a[i]` left past every point that is `>` it, which inserts it into the sorted prefix; the rest of the array is unchanged |
| PointSort.SortIsSorted | point.py:103 | the specification's result is in non-decreasing distance order |
| PointSort.SortIsPermutation | point.py:103 | the specification's result is a permutation of its input |
| PointSort.SortIsStable | point.py:103 | for every distance, the points at that distance keep their relative order from the input |
| PointSort.StableSortIsUnique | point.py:103 | every sequence that is sorted by distance and stable with respect to the input equals the specification's result |
| KeyedSort.InsertAt | point.py:103 | insertion places the new element right after the last element whose key is not greater |
| KeyedSort.SortPermutation | point.py:103 | the keyed insertion sort returns a permutation of its input |
| KeyedSort.SortSorted | point.py:103 | the keyed insertion sort returns non-decreasing keys |
| KeyedSort.SortGroups | point.py:103 | the keyed insertion sort keeps the elements of each key in their input order |
| KeyedSort.SortedGroupsDetermine | point.py:103 | two sorted sequences with the same elements per key, in the same order, are equal |
| AdvancedPoints.ColorRegistry.constructor | advanced_point.py:9 | the registry starts as `["red", "blue", "green", "yellow", "black", "white", "periwinkle"]` |
| AdvancedPoints.InitialRegistry | advanced_point.py:9 | the initial registry holds seven distinct colours and includes the default `"red"` |
| AdvancedPoints.ColorRegistry.AddColor | advanced_point.py:40-48 | the new registry is the old one with the colour appended, duplicates included, so the old entries keep their order and the colour becomes valid |
| AdvancedPoints.ValidityMonotone | advanced_point.py:48 | a colour that is valid stays valid when colours are appended |
| AdvancedPoints.New | advanced_point.py:11-18 | construction fails exactly when the colour is not in the registry, and then reports the list of allowed colours; otherwise it returns a new point with exactly the given x, y and colour |
| AdvancedPoints.AdvancedPoint.constructor | advanced_point.py:16-18 | the three fields hold the given values |
| AdvancedPoints.AdvancedPoint.SetX | advanced_point.py:20-38 | the setter sets x and may write nothing else; y and colour are constants with no setter |
| AdvancedPoints.FromTuple | advanced_point.py:50-63 | construction from a pair behaves as `New(x, y, color)`, with the same validation and the default colour `"red"` |
| AdvancedPoints.AdvancedPoint.SqDistanceTo | advanced_point.py:79-89 | the squared distance to another point is non-negative |
| AdvancedPoints.AdvancedPoint.SqDistanceBetween | advanced_point.py:65-77 | the static squared distance is non-negative |
| AdvancedPoints.DistanceFormsAgree | advanced_point.py:65-89 | `distance_2_points(p1, p2)` equals `p1.distance_to_other(p2)` |
| AdvancedPoints.DistanceSymmetric | advanced_point.py:79-89 | the distance from p1 to p2 equals the distance from p2 to p1 |
| AdvancedPoints.DistanceZeroIffSame | advanced_point.py:79-89 | the distance is zero exactly when both coordinates coincide |
| AdvancedPoints.ExampleUsage | advanced_point.py:91-101 | the example script without line 96 and its prints, with one extra failing "rojo" construction before `add_color`: after `add_color("rojo")` the point (1, 2, "rojo") is built, `from_tuple((3, 2))` gives (3, 2, "red"), and both distance forms give squared distance 4 |
| AdvancedPoints.DemoDistance | advanced_point.py:65-89 | the points (0, 0) and (3, 4) are at distance 5 by both forms |

## Left out

- Floating-point square roots (point.py:42, advanced_point.py:77, advanced_point.py:89): the model keeps squared distances over `int` and relates them to real square roots by `IsSqrt`.
  - Rounding of `** 0.5` is not modelled.
  - Two large integer points with different squared distances could still get equal float distances in Python. The model's `==` is over the exact squared distance.
  - Once `x**2 + y**2` exceeds the largest float (about 1.8e308), `** 0.5` raises `OverflowError`, so `>` and `==` raise instead of answering, and a `points.sort()` that meets such a point stops with the list partly sorted. The model's comparisons always answer.
- Non-integer coordinates: the source accepts any number, but the model's coordinates are integers.
  - `__str__` is modelled only for integers, as Python's decimal `str(int)`.
  - CPython 3.11 and later raise `ValueError` when converting an integer of more than 4300 digits to a string; the model renders every integer.
  - The formatting of floats is not modelled.
- The `__main__` demo of point.py (point.py:66-104), except the sort: its prints and `random.randint` are I/O and randomness. The facts it prints are stated by the lemma `DemoComparisons` and the method `DemoAssignment`.
- The sort algorithm: CPython uses timsort, and the model an insertion sort. `PointSort.StableSortIsUnique` shows that both return the same list.
- The module-level example of advanced_point.py (advanced_point.py:91-101): `AdvancedPoints.ExampleUsage` is the script as evidently intended, without its prints and without line 96, plus one step in front (a construction with "rojo" before `add_color`, which fails). In Python the script stops at line 96 with `AttributeError`, so lines 98-101 never run.
- The call `p.distance_orig()` at advanced_point.py:96: it names a method not defined by `Point` or `AdvancedPoint` (`Point` defines `distance_to_orig`), so unless `ColorPoint` defines it, the call raises `AttributeError`. The model leaves it out and does not treat it as behaviour.
- `ColorPoint` and `PointException` (advanced_point.py:1) are not part of this model. `AdvancedPoint.__init__` never calls its parent's constructor, so `AdvancedPoint` is modelled on its own.
- The comparisons and text form that `AdvancedPoint` inherits through `ColorPoint` are not restated for it.
- The message text of the `TypeError` (advanced_point.py:14): the error value carries the list of allowed colours that the message shows.
- The sharing of `COLORS` between threads: the code is sequential.
