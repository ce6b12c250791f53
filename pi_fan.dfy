/**
 The fan-curve engine of the pi-fan controller (src/main.rs): a curve of
 (temperature, speed) control points, the lookup that turns it into a speed for
 any integer temperature (exact hit, clamps, bracket scan, linear
 interpolation), and the fixed fallback speed for the sentinel temperature.

 Temperatures and speeds are mathematical integers; the speed the source
 computes as an `f32` is modelled by its exact value as a `real`.
 */
module PiFan {
  import opened SortedKeys

  /**
   The temperature the speed selection treats as a failed read. A real reading
   of -100 degrees selects it too.
   */
  const FailTemp: int := -100

  /** The speed used for the sentinel temperature, whatever the curve. */
  const FailSpeed: real := 50.0

  /**
   A fan curve: each control-point temperature maps to its speed. It is built
   once and only read afterwards.
   */
  datatype Curve = Curve(points: map<int, int>)

  // ---------------------------------------------------------------------------
  // Construction
  // ---------------------------------------------------------------------------

  /** The map obtained by inserting the pairs of `items` one after the other. */
  function Build(items: seq<(int, int)>): map<int, int>
  {
    if items == [] then map[]
    else
      var last := items[|items| - 1];
      Build(items[..|items| - 1])[last.0 := last.1]
  }

  /** The temperatures that appear in `items`. */
  function Temps(items: seq<(int, int)>): set<int>
  {
    set i | 0 <= i < |items| :: items[i].0
  }

  /** Entry `i` is the last entry of `items` with its temperature. */
  predicate IsLastWith(items: seq<(int, int)>, i: int)
  {
    0 <= i < |items| && forall j :: i < j < |items| ==> items[j].0 != items[i].0
  }

  /** Building a curve keeps exactly the temperatures that appear in the input. */
  lemma {:induction false} BuildKeys(items: seq<(int, int)>)
    ensures Build(items).Keys == Temps(items)
  {
    if items != [] {
      var init := items[..|items| - 1];
      BuildKeys(init);
      forall t | t in Temps(items) ensures t in Build(items) {
        var i :| 0 <= i < |items| && items[i].0 == t;
        if i < |items| - 1 {
          assert init[i].0 == t;
        }
      }
      forall t | t in Build(items) ensures t in Temps(items) {
        if t != items[|items| - 1].0 {
          assert t in Temps(init);
          var i :| 0 <= i < |init| && init[i].0 == t;
          assert items[i].0 == t;
        }
      }
    }
  }

  /** A later duplicate temperature overwrites an earlier one: the last entry wins. */
  lemma {:induction false} BuildLastWins(items: seq<(int, int)>, i: int)
    requires IsLastWith(items, i)
    ensures items[i].0 in Build(items) && Build(items)[items[i].0] == items[i].1
  {
    if i < |items| - 1 {
      var init := items[..|items| - 1];
      assert IsLastWith(init, i);
      BuildLastWins(init, i);
    }
  }

  /**
   Builds a curve by inserting the control points in order into an empty map,
   so a later duplicate temperature overwrites an earlier one.
   */
  method FromPairs(items: seq<(int, int)>) returns (c: Curve)
    ensures c.points == Build(items)
    ensures c.points.Keys == Temps(items)
    ensures forall i :: IsLastWith(items, i) ==> c.points[items[i].0] == items[i].1
  {
    var curve: map<int, int> := map[];
    for i := 0 to |items|
      invariant curve == Build(items[..i])
    {
      assert items[..i + 1][..i] == items[..i];
      curve := curve[items[i].0 := items[i].1];
    }
    assert items[..|items|] == items;
    c := Curve(curve);
    BuildKeys(items);
    forall i | IsLastWith(items, i) ensures c.points[items[i].0] == items[i].1 {
      BuildLastWins(items, i);
    }
  }

  // ---------------------------------------------------------------------------
  // Lookup
  // ---------------------------------------------------------------------------

  /**
   The point at `temp` on the straight line through the control points at `x1`
   and `x2`.
   */
  function GetValueBetweenPoints(c: Curve, x1: int, x2: int, temp: int): (y: real)
    requires x1 in c.points && x2 in c.points
    requires x1 != x2
    ensures (y - c.points[x1] as real) * (x2 - x1) as real
            == (c.points[x2] - c.points[x1]) as real * (temp - x1) as real
    ensures temp == x1 ==> y == c.points[x1] as real
    ensures temp == x2 ==> y == c.points[x2] as real
    ensures x1 < temp < x2 ==> InRange(y, c.points[x1], c.points[x2])
  {
    var y1 := c.points[x1];
    var y2 := c.points[x2];
    var slope := (y2 - y1) as real / (x2 - x1) as real;
    var y := slope * (temp - x1) as real + y1 as real;
    InterpolationBounds(y1, y2, x1, x2, temp, slope, y);
    y
  }

  /** `y` lies between `y1` and `y2`, whichever is the larger. */
  predicate InRange(y: real, y1: int, y2: int)
  {
    if y1 <= y2 then y1 as real <= y <= y2 as real else y2 as real <= y <= y1 as real
  }

  /** Linear interpolation strictly inside the bracket stays between the end speeds. */
  lemma InterpolationBounds(y1: int, y2: int, x1: int, x2: int, temp: int, slope: real, y: real)
    requires x1 != x2
    requires slope == (y2 - y1) as real / (x2 - x1) as real
    requires y == slope * (temp - x1) as real + y1 as real
    ensures (y - y1 as real) * (x2 - x1) as real == (y2 - y1) as real * (temp - x1) as real
    ensures x1 < temp < x2 ==> InRange(y, y1, y2)
  {
    var dy := (y2 - y1) as real;
    var d := (x2 - x1) as real;
    var u := (temp - x1) as real;
    assert slope * d == dy;
    assert (y - y1 as real) * d == (slope * u) * d == (slope * d) * u;
    if x1 < temp < x2 {
      assert 0.0 < u < d;
      assert slope * d - slope * u == slope * (d - u);
      if y1 <= y2 {
        assert slope >= 0.0;
        assert 0.0 <= slope * u;
        assert 0.0 <= slope * (d - u);
      } else {
        assert slope < 0.0;
        assert slope * u <= 0.0;
        assert slope * (d - u) <= 0.0;
      }
    }
  }

  /**
   The bracket scan: starting from the pair (`x1`, `x2`) = (keys[i-2], keys[i-1]),
   stop at the first pair with `x1 <= temp < x2`, otherwise advance by one key;
   when the keys run out, the last pair examined is the result.
   */
  function Scan(keys: seq<int>, temp: int, i: nat, x1: int, x2: int): (r: (int, int))
    requires 2 <= i <= |keys|
    requires x1 == keys[i - 2] && x2 == keys[i - 1]
    ensures exists j :: 0 <= j < |keys| - 1 && r == (keys[j], keys[j + 1])
    decreases |keys| - i
  {
    if i == |keys| || (x1 <= temp && temp < x2) then (x1, x2)
    else Scan(keys, temp, i + 1, x2, keys[i])
  }

  /**
   The speed the curve gives at `temp`: the stored speed on an exact hit;
   otherwise, over the keys in ascending order, the speed at the lowest key
   below the range and (as the source does) also above it, and the
   interpolation over the bracket the scan finds in between. The speed never
   leaves the range of the curve's own speeds.
   */
  ghost function ValueAt(c: Curve, temp: int): (v: real)
    requires |c.points| > 0
    ensures temp in c.points ==> v == c.points[temp] as real
    ensures WithinSpeeds(c, v)
  {
    if temp in c.points then c.points[temp] as real
    else
      var keys := Ascending(c.points.Keys);
      var first := keys[0];
      var last := keys[|keys| - 1];
      if temp <= first then c.points[first] as real
      else if temp >= last then c.points[first] as real
      else
        var r := Scan(keys, temp, 2, keys[0], keys[1]);
        AscendingSorted(c.points.Keys);
        ScanFindsBracket(keys, temp, 2, keys[0], keys[1]);
        var y := GetValueBetweenPoints(c, r.0, r.1, temp);
        assert InRange(y, c.points[r.0], c.points[r.1]);
        y
  }

  /** `v` lies between the speeds of two control points of `c`. */
  predicate WithinSpeeds(c: Curve, v: real)
  {
    exists lo, hi :: lo in c.points && hi in c.points && c.points[lo] as real <= v <= c.points[hi] as real
  }

  /**
   Looks up the speed at `temp`: an exact hit returns the stored speed;
   otherwise the keys are collected and sorted, the two clamps are applied, and
   a forward scan finds the bracket to interpolate over. The curve is only read.
   */
  method GetValueAt(c: Curve, temp: int) returns (v: real)
    requires |c.points| > 0
    ensures v == ValueAt(c, temp)
    ensures temp in c.points ==> v == c.points[temp] as real
  {
    if temp in c.points {
      return c.points[temp] as real;
    }
    var keys := CollectSorted(c.points);
    assert |keys| == |c.points.Keys| == |c.points|;
    var first := keys[0];
    var last := keys[|keys| - 1];
    if temp <= first {
      v := c.points[first] as real;
    } else if temp >= last {
      v := c.points[first] as real;
    } else {
      assert |keys| >= 2;
      ghost var bracket := Scan(keys, temp, 2, keys[0], keys[1]);
      var x1, x2 := keys[0], keys[1];
      for i := 2 to |keys|
        invariant x1 == keys[i - 2] && x2 == keys[i - 1]
        invariant Scan(keys, temp, i, x1, x2) == bracket
      {
        if x1 <= temp && temp < x2 {
          break;
        } else {
          x1 := x2;
          x2 := keys[i];
        }
      }
      assert (x1, x2) == bracket;
      assert x1 in c.points && x2 in c.points && x1 < x2 by {
        AscendingSorted(c.points.Keys);
        var j :| 0 <= j < |keys| - 1 && bracket == (keys[j], keys[j + 1]);
        assert keys[j] in keys && keys[j + 1] in keys;
      }
      v := GetValueBetweenPoints(c, x1, x2, temp);
    }
  }

  // ---------------------------------------------------------------------------
  // Properties of the lookup
  // ---------------------------------------------------------------------------

  /** At or below the lowest control point the curve gives that point's speed. */
  lemma LowClamp(c: Curve, temp: int, lo: int)
    requires IsMin(c.points.Keys, lo)
    requires temp !in c.points && temp <= lo
    ensures |c.points| > 0 && ValueAt(c, temp) == c.points[lo] as real
  {
    AscendingFirstIsMin(c.points.Keys, lo);
  }

  /**
   At or above the highest control point the curve gives the speed of the
   LOWEST control point, not of the highest one.
   */
  lemma HighClampQuirk(c: Curve, temp: int, lo: int, hi: int)
    requires IsMin(c.points.Keys, lo) && IsMax(c.points.Keys, hi)
    requires temp !in c.points && temp >= hi
    ensures |c.points| > 0 && ValueAt(c, temp) == c.points[lo] as real
  {
    AscendingFirstIsMin(c.points.Keys, lo);
    AscendingLastIsMax(c.points.Keys, hi);
  }

  /**
   The scan ends at the pair of adjacent keys around `temp`, whether it stops
   early or runs out of keys.
   */
  lemma {:induction false} ScanFindsBracket(keys: seq<int>, temp: int, i: nat, x1: int, x2: int)
    requires StrictlyIncreasing(keys)
    requires 2 <= i <= |keys| && x1 == keys[i - 2] && x2 == keys[i - 1]
    requires x1 < temp < keys[|keys| - 1] && temp !in keys
    ensures exists j :: 0 <= j < |keys| - 1 && Scan(keys, temp, i, x1, x2) == (keys[j], keys[j + 1])
                        && keys[j] < temp < keys[j + 1]
    decreases |keys| - i
  {
    if i == |keys| {
      assert Scan(keys, temp, i, x1, x2) == (keys[i - 2], keys[i - 1]);
    } else if x1 <= temp && temp < x2 {
      assert Scan(keys, temp, i, x1, x2) == (keys[i - 2], keys[i - 1]);
    } else {
      assert x2 < temp;
      ScanFindsBracket(keys, temp, i + 1, x2, keys[i]);
    }
  }

  /**
   Strictly between two control points (and not on one), the curve
   interpolates between the adjacent control points `x1 < temp < x2` around
   `temp`, and the result lies between their speeds.
   */
  lemma Bracket(c: Curve, temp: int, a: int, b: int) returns (x1: int, x2: int)
    requires a in c.points && b in c.points && a < temp < b
    requires temp !in c.points
    ensures x1 in c.points && x2 in c.points && x1 < temp < x2
    ensures forall k :: k in c.points ==> !(x1 < k < x2)
    ensures |c.points| > 0 && ValueAt(c, temp) == GetValueBetweenPoints(c, x1, x2, temp)
    ensures InRange(ValueAt(c, temp), c.points[x1], c.points[x2])
  {
    var keys := Ascending(c.points.Keys);
    AscendingSorted(c.points.Keys);
    AscendingContains(c.points.Keys, a);
    AscendingContains(c.points.Keys, b);
    ScanFindsBracket(keys, temp, 2, keys[0], keys[1]);
    var j :| 0 <= j < |keys| - 1 && Scan(keys, temp, 2, keys[0], keys[1]) == (keys[j], keys[j + 1])
             && keys[j] < temp < keys[j + 1];
    x1, x2 := keys[j], keys[j + 1];
    NoKeyBetween(keys, j);
  }

  /** Adjacent entries of a strictly increasing sequence have no entry between them. */
  lemma NoKeyBetween(keys: seq<int>, j: int)
    requires StrictlyIncreasing(keys) && 0 <= j < |keys| - 1
    ensures forall k :: k in keys ==> !(keys[j] < k < keys[j + 1])
  {
    forall k | k in keys ensures !(keys[j] < k < keys[j + 1]) {
      var n :| 0 <= n < |keys| && keys[n] == k;
      assert n <= j || j + 1 <= n;
    }
  }

  /**
   Between two adjacent control points (no control point strictly between them),
   the curve is the straight line through them.
   */
  lemma Interpolates(c: Curve, temp: int, x1: int, x2: int)
    requires x1 in c.points && x2 in c.points && x1 < temp < x2
    requires forall k :: k in c.points ==> !(x1 < k < x2)
    ensures |c.points| > 0 && ValueAt(c, temp) == GetValueBetweenPoints(c, x1, x2, temp)
  {
    var lo, hi := Bracket(c, temp, x1, x2);
    assert lo == x1 && hi == x2;
  }

  // ---------------------------------------------------------------------------
  // Control loop: the speed for one sensor reading
  // ---------------------------------------------------------------------------

  /**
   The target speed for a sensor reading: the fixed fallback for the sentinel
   temperature, the curve's speed otherwise. The curve need not have points
   when the sentinel is read.
   */
  ghost function Speed(temp: int, c: Curve): (s: real)
    requires temp != FailTemp ==> |c.points| > 0
    ensures temp == FailTemp ==> s == 50.0
    ensures temp != FailTemp && temp in c.points ==> s == c.points[temp] as real
    ensures temp != FailTemp ==> WithinSpeeds(c, s)
  {
    if temp == FailTemp then FailSpeed else ValueAt(c, temp)
  }

  /** Selects the speed for a sensor reading; the curve is consulted only off the sentinel. */
  method GetSpeed(temp: int, c: Curve) returns (s: real)
    requires temp != FailTemp ==> |c.points| > 0
    ensures s == Speed(temp, c)
    ensures temp == FailTemp ==> s == 50.0
  {
    if temp == FailTemp {
      s := FailSpeed;
    } else {
      s := GetValueAt(c, temp);
    }
  }

  // ---------------------------------------------------------------------------
  // Worked curves
  // ---------------------------------------------------------------------------

  /** Control points on a straight line, six of them. */
  function LinearPoints(): seq<(int, int)>
  {
    [(0, 0), (10, 100), (20, 200), (30, 300), (40, 400), (50, 500)]
  }

  /** The curve built from the straight-line control points. */
  function LinearCurve(): Curve
  {
    Curve(map[0 := 0, 10 := 100, 20 := 200, 30 := 300, 40 := 400, 50 := 500])
  }

  /** Control points whose slope doubles at every step. */
  function SteepeningPoints(): seq<(int, int)>
  {
    [(0, 0), (10, 100), (20, 300), (30, 700)]
  }

  /** The curve built from the steepening control points. */
  function SteepeningCurve(): Curve
  {
    Curve(map[0 := 0, 10 := 100, 20 := 300, 30 := 700])
  }

  /** Building from the straight-line control points gives the straight-line curve. */
  lemma LinearPointsBuild()
    ensures Curve(Build(LinearPoints())) == LinearCurve()
  {
    var s := LinearPoints();
    assert s[..1] == [(0, 0)];
    assert [(0, 0)][..0] == [];
    assert s[..2] == s[..1] + [(10, 100)];
    assert s[..3] == s[..2] + [(20, 200)];
    assert s[..4] == s[..3] + [(30, 300)];
    assert s[..5] == s[..4] + [(40, 400)];
    assert Build(s[..1]) == map[0 := 0];
    assert Build(s[..2]) == map[0 := 0, 10 := 100];
    assert Build(s[..3]) == map[0 := 0, 10 := 100, 20 := 200];
    assert Build(s[..4]) == map[0 := 0, 10 := 100, 20 := 200, 30 := 300];
    assert Build(s[..5]) == map[0 := 0, 10 := 100, 20 := 200, 30 := 300, 40 := 400];
  }

  /** Building from the steepening control points gives the steepening curve. */
  lemma SteepeningPointsBuild()
    ensures Curve(Build(SteepeningPoints())) == SteepeningCurve()
  {
    var s := SteepeningPoints();
    assert s[..1] == [(0, 0)];
    assert [(0, 0)][..0] == [];
    assert s[..2] == s[..1] + [(10, 100)];
    assert s[..3] == s[..2] + [(20, 300)];
    assert Build(s[..1]) == map[0 := 0];
    assert Build(s[..2]) == map[0 := 0, 10 := 100];
    assert Build(s[..3]) == map[0 := 0, 10 := 100, 20 := 300];
  }

  /** Building from two points gives the two-point curve. */
  lemma TwoPointsBuild()
    ensures Build([(0, 0), (50, 500)]) == map[0 := 0, 50 := 500]
  {
    assert [(0, 0), (50, 500)][..1] == [(0, 0)];
    assert [(0, 0)][..0] == [];
  }

  /** Every control point of the straight-line curve is hit exactly. */
  lemma LinearCurveExactHits()
    ensures var c := LinearCurve();
      && ValueAt(c, 0) == 0.0 && ValueAt(c, 10) == 100.0 && ValueAt(c, 20) == 200.0
      && ValueAt(c, 30) == 300.0 && ValueAt(c, 40) == 400.0 && ValueAt(c, 50) == 500.0
  {
  }

  // Each interpolated value of the worked curves is its own lemma: one
  // interpolation per proof keeps the real arithmetic small.

  /** The straight-line curve at 5 degrees is on the line through its points. */
  lemma LinearCurveAt5()
    ensures ValueAt(LinearCurve(), 5) == 50.0
  {
    assert |LinearCurve().points| == 6;
    Interpolates(LinearCurve(), 5, 0, 10);
  }

  /** The straight-line curve at 15 degrees is on the line through its points. */
  lemma LinearCurveAt15()
    ensures ValueAt(LinearCurve(), 15) == 150.0
  {
    assert |LinearCurve().points| == 6;
    Interpolates(LinearCurve(), 15, 10, 20);
  }

  /** The straight-line curve at 25 degrees is on the line through its points. */
  lemma LinearCurveAt25()
    ensures ValueAt(LinearCurve(), 25) == 250.0
  {
    assert |LinearCurve().points| == 6;
    Interpolates(LinearCurve(), 25, 20, 30);
  }

  /** The straight-line curve at 35 degrees is on the line through its points. */
  lemma LinearCurveAt35()
    ensures ValueAt(LinearCurve(), 35) == 350.0
  {
    assert |LinearCurve().points| == 6;
    Interpolates(LinearCurve(), 35, 30, 40);
  }

  /** The straight-line curve at 45 degrees is on the line through its points. */
  lemma LinearCurveAt45()
    ensures ValueAt(LinearCurve(), 45) == 450.0
  {
    assert |LinearCurve().points| == 6;
    Interpolates(LinearCurve(), 45, 40, 50);
  }

  /** The steepening curve at 5 degrees uses the slope of its own segment. */
  lemma SteepeningCurveAt5()
    ensures ValueAt(SteepeningCurve(), 5) == 50.0
  {
    assert |SteepeningCurve().points| == 4;
    Interpolates(SteepeningCurve(), 5, 0, 10);
  }

  /** The steepening curve at 15 degrees uses the slope of its own segment. */
  lemma SteepeningCurveAt15()
    ensures ValueAt(SteepeningCurve(), 15) == 200.0
  {
    assert |SteepeningCurve().points| == 4;
    Interpolates(SteepeningCurve(), 15, 10, 20);
  }

  /** The steepening curve at 25 degrees uses the slope of its own segment. */
  lemma SteepeningCurveAt25()
    ensures ValueAt(SteepeningCurve(), 25) == 500.0
  {
    assert |SteepeningCurve().points| == 4;
    Interpolates(SteepeningCurve(), 25, 20, 30);
  }

  /**
   One control tick with a working sensor: a two-point curve read halfway
   between its points gives the midpoint speed.
   */
  lemma TwoPointTick()
    ensures Speed(25, Curve(Build([(0, 0), (50, 500)]))) == 250.0
  {
    TwoPointsBuild();
    var c := Curve(map[0 := 0, 50 := 500]);
    assert |c.points| == 2;
    Interpolates(c, 25, 0, 50);
  }

  /**
   The high clamp makes the curve jump: one degree above the highest control
   point the speed falls back to the lowest point's speed.
   */
  lemma HighClampJump()
    ensures var c := Curve(map[0 := 0, 50 := 500]);
      ValueAt(c, 50) == 500.0 && ValueAt(c, 51) == 0.0
  {
    var c := Curve(map[0 := 0, 50 := 500]);
    HighClampQuirk(c, 51, 0, 50);
  }
}
