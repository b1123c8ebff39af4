/** `MeasureGesture`: the two-point measurement gesture that both viewers
    keep in their `pontoMedicao1` / `pontoMedicao2` state (no point, point
    A, points A and B). */
module MeasureGesture {
  import opened Common

  datatype Gesture = Gesture(first: Option<Point>, second: Option<Point>)

  const NoPoints: Gesture := Gesture(None, None)

  /** Point B is only ever stored after point A. */
  predicate WellFormed(g: Gesture) {
    g.second.Some? ==> g.first.Some?
  }

  /** Both points are stored: the gesture is stuck until measure mode is
      switched on again. */
  predicate Full(g: Gesture) {
    g.first.Some? && g.second.Some?
  }

  /** The state after a click, and the pair handed to `onMedicaoComplete`
      if that call happens. */
  datatype ClickResult = ClickResult(next: Gesture, completed: Option<(Point, Point)>)

  /** `handleMedicaoClick`; `hasCallback` says whether the parent passed
      `onMedicaoComplete`. */
  function Click(g: Gesture, p: Point, hasCallback: bool): ClickResult {
    if g.first.None? then ClickResult(Gesture(Some(p), g.second), None)
    else if g.second.None? then
      if hasCallback then ClickResult(NoPoints, Some((g.first.value, p)))
      else ClickResult(Gesture(g.first, Some(p)), None)
    else ClickResult(g, None)
  }

  /** The effect on `[modoMedicao]`: switching measure mode on clears both
      points, switching it off keeps them. */
  function ModeChanged(g: Gesture, modoMedicao: bool): Gesture {
    if modoMedicao then NoPoints else g
  }

  /** A run of clicks: the final gesture and every pair delivered, in order. */
  function Clicks(g: Gesture, ps: seq<Point>, hasCallback: bool): (Gesture, seq<(Point, Point)>)
    decreases |ps|
  {
    if ps == [] then (g, [])
    else
      var r := Click(g, ps[0], hasCallback);
      var rest := Clicks(r.next, ps[1..], hasCallback);
      (rest.0, (if r.completed.Some? then [r.completed.value] else []) + rest.1)
  }

  lemma ClickKeepsWellFormed(g: Gesture, p: Point, hasCallback: bool)
    requires WellFormed(g)
    ensures WellFormed(Click(g, p, hasCallback).next)
    ensures WellFormed(ModeChanged(g, true)) && WellFormed(ModeChanged(g, false))
  {
  }

  /** With no stored point, a click stores it as point A and delivers nothing. */
  lemma FirstClickStoresA(g: Gesture, p: Point, hasCallback: bool)
    requires WellFormed(g) && g.first.None?
    ensures Click(g, p, hasCallback) == ClickResult(Gesture(Some(p), None), None)
  {
  }

  /** The second click with a callback delivers (A, second point) and
      clears both points; without one it stores point B and delivers nothing. */
  lemma SecondClick(a: Point, q: Point, hasCallback: bool)
    ensures hasCallback ==> Click(Gesture(Some(a), None), q, hasCallback) == ClickResult(NoPoints, Some((a, q)))
    ensures !hasCallback ==> Click(Gesture(Some(a), None), q, hasCallback) == ClickResult(Gesture(Some(a), Some(q)), None)
  {
  }

  /** Once both points are stored, any number of further clicks changes
      nothing and delivers nothing. */
  lemma {:induction false} FullGestureIgnoresClicks(g: Gesture, ps: seq<Point>, hasCallback: bool)
    requires Full(g)
    ensures Clicks(g, ps, hasCallback) == (g, [])
    decreases |ps|
  {
    if ps != [] {
      assert Click(g, ps[0], hasCallback) == ClickResult(g, None);
      FullGestureIgnoresClicks(g, ps[1..], hasCallback);
      assert Clicks(g, ps, hasCallback).0 == g;
      assert Clicks(g, ps, hasCallback).1 == [];
    }
  }

  /** With a callback, every two clicks from the empty gesture make one
      measurement: clicks p0, p1, p2, p3 deliver exactly (p0, p1), (p2, p3). */
  lemma {:induction false} PairsOfClicksMeasure(ps: seq<Point>)
    requires |ps| % 2 == 0
    ensures Clicks(NoPoints, ps, true).0 == NoPoints
    ensures |Clicks(NoPoints, ps, true).1| == |ps| / 2
    ensures forall k :: 0 <= k < |ps| / 2 ==> Clicks(NoPoints, ps, true).1[k] == (ps[2 * k], ps[2 * k + 1])
    decreases |ps|
  {
    if ps != [] {
      PairsOfClicksMeasure(ps[2..]);
      assert ps[1..][1..] == ps[2..];
      var rest := Clicks(NoPoints, ps[2..], true);
      var g1 := Gesture(Some(ps[0]), None);
      assert Click(NoPoints, ps[0], true) == ClickResult(g1, None);
      assert Click(g1, ps[1], true) == ClickResult(NoPoints, Some((ps[0], ps[1])));
      assert Clicks(g1, ps[1..], true).0 == rest.0;
      assert Clicks(g1, ps[1..], true).1 == [(ps[0], ps[1])] + rest.1;
      assert Clicks(NoPoints, ps, true).0 == rest.0;
      assert Clicks(NoPoints, ps, true).1 == [(ps[0], ps[1])] + rest.1;
      forall k | 1 <= k < |ps| / 2
        ensures Clicks(NoPoints, ps, true).1[k] == (ps[2 * k], ps[2 * k + 1])
      {
        assert rest.1[k - 1] == (ps[2..][2 * (k - 1)], ps[2..][2 * (k - 1) + 1]);
      }
    }
  }

  /** Switching measure mode on always restarts the gesture; switching it
      off never touches it. */
  lemma ModeOnResets(g: Gesture, p: Point, hasCallback: bool)
    ensures ModeChanged(g, true) == NoPoints
    ensures ModeChanged(g, false) == g
    ensures Click(ModeChanged(g, true), p, hasCallback).next == Gesture(Some(p), None)
  {
  }

  /** The two `useState` points of a viewer, updated in place by the click
      handler and by the measure-mode effect. */
  class PointPicker {
    var pontoMedicao1: Option<Point>
    var pontoMedicao2: Option<Point>

    function Current(): Gesture
      reads this
    {
      Gesture(pontoMedicao1, pontoMedicao2)
    }

    constructor ()
      ensures Current() == NoPoints
    {
      pontoMedicao1 := None;
      pontoMedicao2 := None;
    }

    /** `handleMedicaoClick`; returns the pair passed to `onMedicaoComplete`. */
    method HandleMedicaoClick(point: Point, hasOnMedicaoComplete: bool) returns (completed: Option<(Point, Point)>)
      modifies this
      ensures Current() == Click(old(Current()), point, hasOnMedicaoComplete).next
      ensures completed == Click(old(Current()), point, hasOnMedicaoComplete).completed
    {
      completed := None;
      if pontoMedicao1.None? {
        pontoMedicao1 := Some(point);
      } else if pontoMedicao2.None? {
        pontoMedicao2 := Some(point);
        if hasOnMedicaoComplete {
          completed := Some((pontoMedicao1.value, point));
          pontoMedicao1 := None;
          pontoMedicao2 := None;
        }
      }
    }

    /** The `useEffect` on `[modoMedicao]`. */
    method MeasureModeEffect(modoMedicao: bool)
      modifies this
      ensures Current() == ModeChanged(old(Current()), modoMedicao)
    {
      if modoMedicao {
        pontoMedicao1 := None;
        pontoMedicao2 := None;
      }
    }
  }
}
