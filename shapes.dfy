/** The Open/Closed example: shapes that each compute their own area, and
    a calculator that sums the areas of a list of shapes without knowing
    which kinds of shape it holds. */
module OpenClosed {
  import opened Wrappers

  /** `Math.PI` as JavaScript prints it; only `PI > 0` is used below. */
  const PI: real := 3.141592653589793

  /** `Abstract` is an instance of the base class, which does not override
      `area`; the other two are the subclasses that do. Dimensions are not
      validated by the constructors, so any real is allowed. */
  datatype Shape =
    | Abstract
    | Rectangle(width: real, height: real)
    | Circle(radius: real)

  /** The error the base class's `area` throws. */
  datatype ShapeError = MethodNotImplemented(message: string)

  const AreaNotImplemented := MethodNotImplemented("Method 'area' must be implemented")

  /** The dimensions for which the area is a geometric area: a circle
      always qualifies (its radius is squared), a rectangle when neither
      side is negative. */
  predicate WellFormed(s: Shape) {
    s.Rectangle? ==> s.width >= 0.0 && s.height >= 0.0
  }

  function Area(s: Shape): (r: Result<real, ShapeError>)
    ensures r.Failure? <==> s.Abstract?
    ensures r.Failure? ==> r.error == AreaNotImplemented
    ensures s.Rectangle? ==> r.Success? && r.value == s.width * s.height
    ensures s.Circle? ==> r.Success? && r.value == PI * s.radius * s.radius
    ensures r.Success? && WellFormed(s) ==> r.value >= 0.0
  {
    match s
    case Abstract => Failure(AreaNotImplemented)
    case Rectangle(w, h) => Success(w * h)
    case Circle(radius) => Success(PI * radius * radius)
  }

  /** One step of the fold `total + shape.area()`: a failure in either
      operand is the result; the total is evaluated first. */
  function Plus(total: Result<real, ShapeError>, area: Result<real, ShapeError>): (r: Result<real, ShapeError>)
    ensures r.Success? <==> total.Success? && area.Success?
    ensures r.Success? ==> r.value == total.value + area.value
    ensures total.Failure? ==> r == total
    ensures total.Success? && area.Failure? ==> r == area
  {
    match total
    case Failure(e) => Failure(e)
    case Success(t) =>
      match area
      case Failure(e) => Failure(e)
      case Success(a) => Success(t + a)
  }

  /** `shapes.reduce((total, shape) => total + shape.area(), 0)`: shapes are
      visited from first to last and the first failing `area` ends the fold. */
  function TotalArea(shapes: seq<Shape>): (r: Result<real, ShapeError>)
    ensures r.Failure? <==> exists i | 0 <= i < |shapes| :: shapes[i].Abstract?
    ensures r.Failure? ==> r.error == AreaNotImplemented
    ensures r.Success? && (forall i | 0 <= i < |shapes| :: WellFormed(shapes[i])) ==> r.value >= 0.0
  {
    if shapes == [] then Success(0.0)
    else
      var init := shapes[..|shapes| - 1];
      assert forall i | 0 <= i < |init| :: init[i] == shapes[i];
      Plus(TotalArea(init), Area(shapes[|shapes| - 1]))
  }

  /** An independent reference: the areas added up from the last shape
      back to the first, defined only when every shape has an area. */
  function SumOfAreas(shapes: seq<Shape>): real
    requires forall i | 0 <= i < |shapes| :: !shapes[i].Abstract?
  {
    if shapes == [] then 0.0
    else Area(shapes[0]).value + SumOfAreas(shapes[1..])
  }

  lemma {:induction false} SumOfAreasSnoc(shapes: seq<Shape>, s: Shape)
    requires forall i | 0 <= i < |shapes| :: !shapes[i].Abstract?
    requires !s.Abstract?
    ensures SumOfAreas(shapes + [s]) == SumOfAreas(shapes) + Area(s).value
  {
    if shapes != [] {
      assert (shapes + [s])[1..] == shapes[1..] + [s];
      SumOfAreasSnoc(shapes[1..], s);
    }
  }

  /** When no shape is abstract, the fold is the plain sum of the areas. */
  lemma {:induction false} TotalAreaIsSum(shapes: seq<Shape>)
    requires forall i | 0 <= i < |shapes| :: !shapes[i].Abstract?
    ensures TotalArea(shapes) == Success(SumOfAreas(shapes))
  {
    if shapes != [] {
      var init, last := shapes[..|shapes| - 1], shapes[|shapes| - 1];
      TotalAreaIsSum(init);
      SumOfAreasSnoc(init, last);
      assert init + [last] == shapes;
    }
  }

  /** The total of two lists put together is the two totals added, with a
      failure in either part failing the whole: adding a shape to the list
      changes the total by exactly that shape's area. */
  lemma {:induction false} TotalAreaConcat(s: seq<Shape>, t: seq<Shape>)
    ensures TotalArea(s + t) == Plus(TotalArea(s), TotalArea(t))
  {
    if t == [] {
      assert s + t == s;
    } else {
      var init, last := t[..|t| - 1], t[|t| - 1];
      TotalAreaConcat(s, init);
      assert (s + t)[..|s + t| - 1] == s + init;
      assert (s + t)[|s + t| - 1] == last;
    }
  }

  /** The order of the list does not matter, for two halves swapped. */
  lemma TotalAreaSwap(s: seq<Shape>, t: seq<Shape>)
    ensures TotalArea(s + t) == TotalArea(t + s)
  {
    TotalAreaConcat(s, t);
    TotalAreaConcat(t, s);
  }

  /** Moving one shape from the middle of the list to its end leaves the
      total as it was. */
  lemma MoveToEnd(before: seq<Shape>, x: Shape, after: seq<Shape>)
    ensures TotalArea(before + [x] + after) == TotalArea(before + after + [x])
  {
    TotalAreaConcat(before + [x], after);
    TotalAreaConcat(before, [x]);
    TotalAreaConcat(before, after);
    TotalAreaConcat(before + after, [x]);
    assert TotalArea([x]) == Area(x) by {
      assert [x][..0] == [];
    }
  }

  lemma CancelLast(init: seq<Shape>, x: Shape, before: seq<Shape>, after: seq<Shape>)
    requires multiset(init + [x]) == multiset(before + [x] + after)
    ensures multiset(init) == multiset(before + after)
  {
    assert multiset(init) == multiset(init + [x]) - multiset{x};
    assert multiset(before + after) == multiset(before + [x] + after) - multiset{x};
  }

  /** The order of the list does not matter at all: any rearrangement of the
      shapes has the same total, or fails as well. */
  lemma {:induction false} TotalAreaPermutation(s: seq<Shape>, t: seq<Shape>)
    requires multiset(s) == multiset(t)
    ensures TotalArea(s) == TotalArea(t)
  {
    if s == [] {
      assert |t| == |multiset(t)| == 0;
    } else {
      var init, last := s[..|s| - 1], s[|s| - 1];
      assert s == init + [last];
      assert last in multiset(t);
      var j :| 0 <= j < |t| && t[j] == last;
      var before, after := t[..j], t[j + 1..];
      assert t == before + [last] + after;
      CancelLast(init, last, before, after);
      TotalAreaPermutation(init, before + after);
      MoveToEnd(before, last, after);
    }
  }

  /** A rectangle of 2 by 3 and a unit circle give 6 + PI. */
  lemma TwoShapesExample()
    ensures TotalArea([Rectangle(2.0, 3.0), Circle(1.0)]) == Success(6.0 + PI)
  {
  }
}
