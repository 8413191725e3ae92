/**
 * `EdgeTracer` (mesh/src/renderer.rs:205-268): the integer edge walker the
 * rasterizer uses. It is a 4-connected Bresenham variant: each step moves
 * exactly one axis by one unit toward the target.
 *
 * The walk is specified on `TracerState` values; the `EdgeTracer` class
 * holds the same five fields and its methods are proved against those
 * functions.
 */
module EdgeTracing {
  import opened Wrappers
  import opened VecMath

  const I32_MIN: int := -0x8000_0000
  const I32_MAX: int := 0x7fff_ffff

  /** `x.ceil() as i32`: the ceiling, saturated to the `i32` range. */
  function CeilToI32(r: real): (n: int)
    ensures I32_MIN <= n <= I32_MAX
    ensures I32_MIN as real <= r <= I32_MAX as real ==> (n - 1) as real < r <= n as real
  {
    var c := -((-r).Floor);
    if c < I32_MIN then I32_MIN else if c > I32_MAX then I32_MAX else c
  }

  function Abs(x: int): nat {
    if x < 0 then -x else x
  }

  /** The five fields of an `EdgeTracer`. */
  datatype TracerState = TracerState(current: Vec2i, target: Vec2i, steps: Vec2i, deltas: Vec2i, error: int)

  /** The result of a step: the point returned, and the state after it. */
  datatype Stepped = Stepped(point: Option<Vec2i>, next: TracerState)

  /** `EdgeTracer::cons`: endpoints rounded up to integers, deltas
      dx = |tx - cx| and dy = -|ty - cy|, steps toward the target (or -1 on
      an axis where start and target agree), error dx + dy. */
  function Init(start: Vec3f, end: Vec3f): TracerState {
    var current := Vec2i(CeilToI32(start.x), CeilToI32(start.y));
    var target := Vec2i(CeilToI32(end.x), CeilToI32(end.y));
    var dx: int := Abs(target.x - current.x);
    var dy: int := -(Abs(target.y - current.y) as int);
    var sx := if current.x < target.x then 1 else -1;
    var sy := if current.y < target.y then 1 else -1;
    TracerState(current, target, Vec2i(sx, sy), Vec2i(dx, dy), dx + dy)
  }

  /** `step_once`. The last branch cannot be reached while `dy <= 0 <= dx`
      (see StepOnceProgress); it is kept as the source has it. */
  function StepOnce(s: TracerState): Stepped {
    var twice := 2 * s.error;
    if twice >= s.deltas.y then
      if s.current.x == s.target.x then Stepped(None, s)
      else
        var c := s.current.(x := s.current.x + s.steps.x);
        Stepped(Some(c), s.(error := s.error + s.deltas.y, current := c))
    else if twice <= s.deltas.x then
      if s.current.y == s.target.y then Stepped(None, s)
      else
        var c := s.current.(y := s.current.y + s.steps.y);
        Stepped(Some(c), s.(error := s.error + s.deltas.x, current := c))
    else Stepped(Some(s.current), s)
  }

  /** How far the walk still has to go. */
  function Distance(s: TracerState): nat {
    Abs(s.target.x - s.current.x) + Abs(s.target.y - s.current.y)
  }

  /** The step on one axis points toward the target whenever the walk is
      not yet level with it on that axis. */
  predicate Toward(c: int, t: int, step: int) {
    (step == 1 || step == -1) && (c < t ==> step == 1) && (t < c ==> step == -1)
  }

  /** The tracer invariant. With D = -dy, rx = |tx - cx| and
      ry = |ty - cy| the walk stays within the initial deltas and
      error == dx - D + rx * D - ry * dx, which is
      dx + dy + (x steps taken) * dy + (y steps taken) * dx. */
  predicate Inv(s: TracerState) {
    var dx, d := s.deltas.x, -s.deltas.y;
    var rx, ry := Abs(s.target.x - s.current.x), Abs(s.target.y - s.current.y);
    dx >= 0 && d >= 0
    && Toward(s.current.x, s.target.x, s.steps.x) && Toward(s.current.y, s.target.y, s.steps.y)
    && rx <= dx && ry <= d
    && s.error == dx - d + rx * d - ry * dx
  }

  /** The invariant's error term, counted in steps taken. */
  lemma ErrorCountsSteps(s: TracerState)
    requires Inv(s)
    ensures var xSteps, ySteps := s.deltas.x - Abs(s.target.x - s.current.x), -s.deltas.y - Abs(s.target.y - s.current.y);
      xSteps >= 0 && ySteps >= 0
      && s.error == s.deltas.x + s.deltas.y + xSteps * s.deltas.y + ySteps * s.deltas.x
  {
    var dx, dy := s.deltas.x, s.deltas.y;
    var rx, ry := Abs(s.target.x - s.current.x), Abs(s.target.y - s.current.y);
    assert (dx - rx) * dy == dx * dy - rx * dy;
    assert (-dy - ry) * dx == -(dy * dx) - ry * dx;
  }

  /** A freshly built tracer satisfies the invariant. */
  lemma InitInv(start: Vec3f, end: Vec3f)
    ensures Inv(Init(start, end))
    ensures Init(start, end).deltas.x >= 0 >= Init(start, end).deltas.y
    ensures Init(start, end).error == Init(start, end).deltas.x + Init(start, end).deltas.y
  {
    var s := Init(start, end);
    var dx, d := s.deltas.x, -s.deltas.y;
    assert Abs(s.target.x - s.current.x) == dx && Abs(s.target.y - s.current.y) == d;
    assert dx * d == d * dx;
  }

  /** `step_once` returns None exactly when the walk has reached its target,
      and then changes nothing. Otherwise it moves one axis one unit toward
      the target, brings the distance down by one and keeps the invariant;
      the target, steps and deltas never change. */
  lemma StepOnceProgress(s: TracerState)
    requires Inv(s)
    ensures var r := StepOnce(s);
      r.next.target == s.target && r.next.steps == s.steps && r.next.deltas == s.deltas
    ensures StepOnce(s).point.None? <==> s.current == s.target
    ensures StepOnce(s).point.None? ==> StepOnce(s).next == s
    ensures var r := StepOnce(s);
      r.point.Some? ==>
        r.point.value == r.next.current && Inv(r.next) && Distance(r.next) == Distance(s) - 1
        && (r.next.current == s.current.(x := s.current.x + s.steps.x)
            || r.next.current == s.current.(y := s.current.y + s.steps.y))
  {
    var dx, d := s.deltas.x, -s.deltas.y;
    var rx, ry := Abs(s.target.x - s.current.x), Abs(s.target.y - s.current.y);
    if 2 * s.error >= s.deltas.y {
      if s.current.x == s.target.x {
        XStuckMeansDone(dx, d, ry, s.error);
      } else {
        StepX(s);
      }
    } else if 2 * s.error <= s.deltas.x {
      if s.current.y == s.target.y {
        YStuckMeansDone(dx, d, rx, s.error);
      } else {
        StepY(s);
      }
    }
  }

  /** A step along x keeps the invariant. */
  lemma StepX(s: TracerState)
    requires Inv(s) && 2 * s.error >= s.deltas.y && s.current.x != s.target.x
    ensures var n := StepOnce(s).next;
      Inv(n) && Distance(n) == Distance(s) - 1 && n.current == s.current.(x := s.current.x + s.steps.x)
  {
    var dx, d := s.deltas.x, -s.deltas.y;
    var rx, ry := Abs(s.target.x - s.current.x), Abs(s.target.y - s.current.y);
    var n := StepOnce(s).next;
    assert Abs(n.target.x - n.current.x) == rx - 1;
    ErrorAfterStep(d, rx, ry * dx, dx, s.error);
  }

  /** A step along y keeps the invariant. */
  lemma StepY(s: TracerState)
    requires Inv(s) && 2 * s.error < s.deltas.y && 2 * s.error <= s.deltas.x && s.current.y != s.target.y
    ensures var n := StepOnce(s).next;
      Inv(n) && Distance(n) == Distance(s) - 1 && n.current == s.current.(y := s.current.y + s.steps.y)
  {
    var dx, d := s.deltas.x, -s.deltas.y;
    var rx, ry := Abs(s.target.x - s.current.x), Abs(s.target.y - s.current.y);
    var n := StepOnce(s).next;
    assert n.error == s.error + dx && n.deltas == s.deltas && n.target == s.target;
    assert Abs(n.target.x - n.current.x) == rx;
    assert Abs(n.target.y - n.current.y) == ry - 1;
    ErrorAfterYStep(d, rx, ry, dx, s.error);
  }

  lemma ErrorAfterYStep(d: int, rx: int, ry: int, dx: int, e: int)
    requires e == dx - d + rx * d - ry * dx
    ensures e + dx == dx - d + rx * d - (ry - 1) * dx
  {
    assert (ry - 1) * dx == ry * dx - dx;
  }

  lemma ErrorAfterStep(d: int, rx: int, other: int, dx: int, e: int)
    requires e == dx - d + rx * d - other
    ensures e - d == dx - d + (rx - 1) * d - other
  {
    assert (rx - 1) * d == rx * d - d;
  }

  /** Level with the target column and allowed an x step by the error, the
      walk has no rows left either. */
  lemma XStuckMeansDone(dx: int, d: int, ry: int, e: int)
    requires dx >= 0 && d >= 0 && 0 <= ry <= d
    requires e == dx - d + 0 * d - ry * dx && 2 * e >= -d
    ensures ry == 0
  {
    if ry >= 1 {
      MulGe(ry, dx);
    }
  }

  /** Level with the target row and denied an x step by the error, the walk
      has no columns left either. */
  lemma YStuckMeansDone(dx: int, d: int, rx: int, e: int)
    requires dx >= 0 && d >= 0 && 0 <= rx <= dx
    requires e == dx - d + rx * d - 0 * dx && 2 * e < -d
    ensures rx == 0
  {
    if rx >= 1 {
      MulGe(rx, d);
    }
  }

  lemma MulGe(k: int, a: int)
    requires k >= 1 && a >= 0
    ensures k * a >= a
  {
    assert k * a == a + (k - 1) * a;
  }

  /** `step_constant` from a walk that started on row `y0`: keep stepping
      while still on that row; a None from `step_once` ends it with None. */
  function StepConstantFrom(s: TracerState, y0: int): (r: Stepped)
    requires Inv(s)
    requires s.current.y == y0 || s.current.y == y0 + s.steps.y
    ensures Inv(r.next)
    ensures r.next.target == s.target && r.next.steps == s.steps && r.next.deltas == s.deltas
    ensures Distance(r.next) <= Distance(s)
    ensures r.point.None? ==> r.next.current == r.next.target && s.current.y == y0
    ensures r.point.Some? ==> r.point.value == r.next.current && r.next.current.y == y0 + s.steps.y
    ensures r.point.Some? && s.current.y == y0 ==> Distance(r.next) < Distance(s)
    decreases Distance(s)
  {
    if s.current.y != y0 then Stepped(Some(s.current), s)
    else
      var st := StepOnce(s);
      StepOnceProgress(s);
      if st.point.None? then Stepped(None, st.next)
      else StepConstantFrom(st.next, y0)
  }

  /** `step_constant`: advance to the next row. The point returned is one
      row on in the step direction (x may have moved several columns); None
      means the walk reached its target on this row. */
  function StepConstant(s: TracerState): (r: Stepped)
    requires Inv(s)
    ensures Inv(r.next)
    ensures r.next.target == s.target && r.next.steps == s.steps && r.next.deltas == s.deltas
    ensures r.point.None? ==> r.next.current == s.target
    ensures r.point.Some? ==> r.point.value == r.next.current
    ensures r.point.Some? ==> r.point.value.y == s.current.y + s.steps.y && Distance(r.next) < Distance(s)
  {
    StepConstantFrom(s, s.current.y)
  }

  /** Worked example: from (0, 0) to (0, 5) the first row step lands on
      (0, 1). */
  lemma StepConstantExample()
    ensures StepConstant(Init(Vec3f(0.0, 0.0, 0.0), Vec3f(0.0, 5.0, 0.0))).point == Some(Vec2i(0, 1))
  {
    var s := Init(Vec3f(0.0, 0.0, 0.0), Vec3f(0.0, 5.0, 0.0));
    assert s == TracerState(Vec2i(0, 0), Vec2i(0, 5), Vec2i(-1, 1), Vec2i(0, -5), -5);
    InitInv(Vec3f(0.0, 0.0, 0.0), Vec3f(0.0, 5.0, 0.0));
    var s1 := TracerState(Vec2i(0, 1), Vec2i(0, 5), Vec2i(-1, 1), Vec2i(0, -5), -5);
    assert StepOnce(s) == Stepped(Some(Vec2i(0, 1)), s1);
    StepOnceProgress(s);
    assert StepConstantFrom(s1, 0) == Stepped(Some(Vec2i(0, 1)), s1);
  }

  /** The box a walk is confined to, which depends only on the target, the
      steps and the deltas: both the start and the target lie in the `i32`
      range on each axis. */
  predicate Bounded(s: TracerState) {
    var dx, d := s.deltas.x, -s.deltas.y;
    (if s.steps.x == 1 then I32_MIN <= s.target.x - dx && s.target.x <= I32_MAX
     else I32_MIN <= s.target.x && s.target.x + dx <= I32_MAX)
    && (if s.steps.y == 1 then I32_MIN <= s.target.y - d && s.target.y <= I32_MAX
        else I32_MIN <= s.target.y && s.target.y + d <= I32_MAX)
  }

  /** A point both of whose coordinates fit an `i32`. */
  predicate InI32(p: Vec2i) {
    I32_MIN <= p.x <= I32_MAX && I32_MIN <= p.y <= I32_MAX
  }

  /** `v` lies between `a` and `b`, in either order. */
  predicate Between(v: int, a: int, b: int) {
    a <= v <= b || b <= v <= a
  }

  /** A fresh tracer is confined to its box. */
  lemma InitBounded(start: Vec3f, end: Vec3f)
    ensures Bounded(Init(start, end))
  {
  }

  /** Every point a confined walk reaches fits an `i32`. */
  lemma CurrentInRange(s: TracerState)
    requires Inv(s) && Bounded(s)
    ensures InI32(s.current)
  {
  }

  /** A row step is taken only while the walk is not yet on the target row,
      and lands on a row between the current row and the target row. */
  lemma StepConstantStaysBetween(s: TracerState)
    requires Inv(s)
    ensures var r := StepConstant(s);
      r.point.Some? ==> s.current.y != s.target.y && Between(r.point.value.y, s.current.y, s.target.y)
  {
  }

  /** The points a full walk visits through `step_once`: none of them is
      the start, and the last one is the target. */
  function Walk(s: TracerState): (ps: seq<Vec2i>)
    requires Inv(s)
    ensures |ps| == Distance(s)
    ensures |ps| > 0 ==> ps[|ps| - 1] == s.target
    decreases Distance(s)
  {
    var st := StepOnce(s);
    StepOnceProgress(s);
    if st.point.None? then [] else [st.point.value] + Walk(st.next)
  }

  /** A walk that still has ground to cover starts with the point
      `step_once` returns and goes on as the walk from the state after it. */
  lemma WalkStep(s: TracerState)
    requires Inv(s) && Distance(s) > 0
    ensures StepOnce(s).point.Some? && Inv(StepOnce(s).next)
    ensures Walk(s) == [StepOnce(s).point.value] + Walk(StepOnce(s).next)
  {
    StepOnceProgress(s);
  }

  // ---------------------------------------------------------------- the class

  /** `EdgeTracer`, updated in place by its two stepping methods. */
  class EdgeTracer {
    var current: Vec2i
    var target: Vec2i
    var steps: Vec2i
    var deltas: Vec2i
    var error: int

    function State(): TracerState
      reads this
    {
      TracerState(current, target, steps, deltas, error)
    }

    /** `EdgeTracer::cons`. */
    constructor (start: Vec3f, end: Vec3f)
      ensures State() == Init(start, end) && Inv(State())
    {
      var s := Init(start, end);
      current := s.current;
      target := s.target;
      steps := s.steps;
      deltas := s.deltas;
      error := s.error;
      InitInv(start, end);
    }

    /** `step_once`. */
    method StepOnceMut() returns (point: Option<Vec2i>)
      modifies this
      ensures Stepped(point, State()) == StepOnce(old(State()))
    {
      var twice := 2 * error;
      if twice >= deltas.y {
        if current.x == target.x {
          return None;
        }
        error := error + deltas.y;
        current := current.(x := current.x + steps.x);
      } else if twice <= deltas.x {
        if current.y == target.y {
          return None;
        }
        error := error + deltas.x;
        current := current.(y := current.y + steps.y);
      }
      return Some(current);
    }

    /** `step_constant`. */
    method StepConstantMut() returns (point: Option<Vec2i>)
      requires Inv(State())
      modifies this
      ensures Stepped(point, State()) == StepConstant(old(State()))
    {
      var startingY := current.y;
      while current.y == startingY
        invariant Inv(State())
        invariant current.y == startingY || current.y == startingY + steps.y
        invariant StepConstantFrom(State(), startingY) == StepConstant(old(State()))
        decreases Distance(State())
      {
        var before := State();
        StepOnceProgress(before);
        var p := StepOnceMut();
        if p.None? {
          return None;
        }
      }
      return Some(current);
    }
  }
}
