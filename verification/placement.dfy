/**
  Placement of a new flag on the cake top. Each attempt draws a candidate
  polar position from an annulus and accepts it when it keeps at least
  `MinDist` from every existing flag; after `MaxAttempts` rejections one more
  unchecked candidate is taken, so placement never fails.

  Randomness is a draw function (the `k`-th candidate the sampler produces),
  and trigonometry is a projection `proj(angle, radius)` standing for
  `(cos(angle) * radius, sin(angle) * radius)`. The id of the new flag is a
  parameter.
 */
module Placement {
  import opened Types

  const MinRadius: real := 0.15
  const MaxRadius: real := 1.85
  const MinDist: real := 0.34
  const MaxAttempts: nat := 60
  const PickHeight: real := 0.6

  /** A Cartesian point on the cake top. */
  datatype Point = Point(x: real, z: real)

  /** One sampled polar position. */
  datatype Candidate = Candidate(angle: real, radius: real)

  /**
    Two points are closer than the minimum distance. Over the reals,
    `hypot(dx, dz) < MinDist` is the same as comparing squares.
   */
  predicate TooClose(p: Point, q: Point) {
    var dx := p.x - q.x;
    var dz := p.z - q.z;
    dx * dx + dz * dz < MinDist * MinDist
  }

  /** The candidate keeps the minimum distance from every existing flag. */
  predicate Clears(existing: seq<Pick>, c: Candidate, proj: (real, real) -> Point) {
    forall i :: 0 <= i < |existing| ==>
      !TooClose(proj(existing[i].angle, existing[i].radius), proj(c.angle, c.radius))
  }

  /**
    The attempt whose candidate is used, searching from attempt `k`: the first
    clearing attempt below `MaxAttempts`, or `MaxAttempts` itself (the
    unchecked fall-back draw) when none clears.
   */
  function ChosenAttempt(existing: seq<Pick>, draw: nat -> Candidate, proj: (real, real) -> Point, k: nat): (r: nat)
    requires k <= MaxAttempts
    ensures k <= r <= MaxAttempts
    ensures forall j :: k <= j < r ==> !Clears(existing, draw(j), proj)
    ensures r < MaxAttempts ==> Clears(existing, draw(r), proj)
    decreases MaxAttempts - k
  {
    if k == MaxAttempts then k
    else if Clears(existing, draw(k), proj) then k
    else ChosenAttempt(existing, draw, proj, k + 1)
  }

  /**
    The flag placement produces, as a reference definition: its position is
    one of the `MaxAttempts + 1` draws, and it keeps the minimum distance
    whenever any of the checked draws does.
   */
  function Place(existing: seq<Pick>, text: string, id: string, draw: nat -> Candidate, proj: (real, real) -> Point): (r: Pick)
    ensures r.id == id && r.text == text && r.height == PickHeight
    ensures exists k :: 0 <= k <= MaxAttempts && draw(k) == Candidate(r.angle, r.radius)
    ensures (exists k :: 0 <= k < MaxAttempts && Clears(existing, draw(k), proj)) ==>
      Clears(existing, Candidate(r.angle, r.radius), proj)
  {
    var c := draw(ChosenAttempt(existing, draw, proj, 0));
    Pick(id, text, c.angle, c.radius, PickHeight)
  }

  /** The inner loop: scan the existing flags, stopping at the first one too close. */
  method CheckClear(existing: seq<Pick>, c: Candidate, proj: (real, real) -> Point) returns (ok: bool)
    ensures ok <==> Clears(existing, c, proj)
  {
    var here := proj(c.angle, c.radius);
    ok := true;
    var i := 0;
    while i < |existing|
      invariant 0 <= i <= |existing|
      invariant ok <==> forall j :: 0 <= j < i ==> !TooClose(proj(existing[j].angle, existing[j].radius), here)
    {
      var p := existing[i];
      if TooClose(proj(p.angle, p.radius), here) {
        ok := false;
        break;
      }
      i := i + 1;
    }
  }

  /**
    The bounded rejection-sampling loop. `used` is the number of candidates
    drawn: the accepted attempt plus those rejected before it, or all
    `MaxAttempts` rejected ones plus the fall-back draw.
   */
  method PlaceNewPick(existing: seq<Pick>, text: string, id: string, draw: nat -> Candidate, proj: (real, real) -> Point)
    returns (r: Pick, used: nat)
    ensures 1 <= used <= MaxAttempts + 1
    ensures r.id == id && r.text == text && r.height == PickHeight
    ensures r.angle == draw(used - 1).angle && r.radius == draw(used - 1).radius
    ensures forall k :: 0 <= k < used - 1 ==> !Clears(existing, draw(k), proj)
    ensures used <= MaxAttempts ==> Clears(existing, draw(used - 1), proj)
  {
    var attempt := 0;
    while attempt < MaxAttempts
      invariant 0 <= attempt <= MaxAttempts
      invariant forall k :: 0 <= k < attempt ==> !Clears(existing, draw(k), proj)
    {
      var c := draw(attempt);
      var ok := CheckClear(existing, c, proj);
      if ok {
        r := Pick(id, text, c.angle, c.radius, PickHeight);
        used := attempt + 1;
        return;
      }
      attempt := attempt + 1;
    }
    var c := draw(MaxAttempts);
    r := Pick(id, text, c.angle, c.radius, PickHeight);
    used := MaxAttempts + 1;
  }

  /**
    `ChosenAttempt` picks attempt `a` whenever every earlier attempt was
    rejected and `a` clears (or is the fall-back). With `a := used - 1` these
    are exactly the postconditions of `PlaceNewPick`, so the loop and the
    reference definition `Place` choose the same candidate.
   */
  lemma {:induction false} AttemptIsChosen(existing: seq<Pick>, draw: nat -> Candidate, proj: (real, real) -> Point, a: nat)
    requires a <= MaxAttempts
    requires forall k :: 0 <= k < a ==> !Clears(existing, draw(k), proj)
    requires a < MaxAttempts ==> Clears(existing, draw(a), proj)
    ensures ChosenAttempt(existing, draw, proj, 0) == a
  {
  }

  /** The squared radius `sampleRadius` takes the square root of, for a uniform `u`. */
  function RadiusSquared(u: real): real {
    u * (MaxRadius * MaxRadius - MinRadius * MinRadius) + MinRadius * MinRadius
  }

  /**
    Area-preserving radius sampling stays inside the annulus: a non-negative
    `r` with `r * r == RadiusSquared(u)` for `u` in [0, 1) lies in
    [MinRadius, MaxRadius).
   */
  lemma SampledRadiusInAnnulus(u: real, r: real)
    requires 0.0 <= u < 1.0
    requires 0.0 <= r && r * r == RadiusSquared(u)
    ensures MinRadius <= r < MaxRadius
  {
    var lo := MinRadius * MinRadius;
    var hi := MaxRadius * MaxRadius;
    assert lo <= r * r by {
      assert u * (hi - lo) >= 0.0;
    }
    assert r * r < hi by {
      assert u * (hi - lo) < hi - lo;
    }
    if r < MinRadius {
      ProductStrictlyBelow(r, MinRadius);
    }
    if r >= MaxRadius {
      ProductAtLeast(MaxRadius, r);
    }
  }

  lemma ProductStrictlyBelow(a: real, b: real)
    requires 0.0 <= a < b
    ensures a * a < b * b
  {
    var d := b - a;
    assert b * b == (a + d) * (a + d) == a * a + 2.0 * a * d + d * d;
    assert d * d > 0.0;
    assert a * d >= 0.0;
  }

  lemma ProductAtLeast(a: real, b: real)
    requires 0.0 <= a <= b
    ensures a * a <= b * b
  {
    assert a * a <= a * b;
    assert a * b <= b * b;
  }

  /** A candidate inside the annulus the sampler draws from. */
  predicate InAnnulus(c: Candidate) {
    MinRadius <= c.radius < MaxRadius
  }

  /**
    When the sampler only produces positions inside the annulus, the placed
    flag lies inside it too, whichever attempt was used.
   */
  lemma PlacedInAnnulus(existing: seq<Pick>, text: string, id: string, draw: nat -> Candidate, proj: (real, real) -> Point)
    requires forall k :: 0 <= k <= MaxAttempts ==> InAnnulus(draw(k))
    ensures MinRadius <= Place(existing, text, id, draw, proj).radius < MaxRadius
  {
    var a := ChosenAttempt(existing, draw, proj, 0);
    assert InAnnulus(draw(a));
  }
}
