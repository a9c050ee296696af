/**
 * One concrete line on which the walk of `densify_linestring` loses its last
 * subsegment: rounding slack accumulated at two cuts leaves the walk short of
 * the last cut position when it runs out of legs, and the open subsegment
 * holding the rest of the line is never emitted.
 */
module TailDrop {
  import opened Wrappers
  import opened Geometry
  import opened Densify

  /** A planar stand-in for the haversine distance, used to exhibit one concrete line. */
  function Manhattan(): DistFn
  {
    (p: Point, q: Point) =>
      (if p.lon < q.lon then q.lon - p.lon else p.lon - q.lon) + (if p.lat < q.lat then q.lat - p.lat else p.lat - q.lat)
  }

  /**
   * A line of three legs, 1 + e, 1 + e and 1 - 2e metres with e = 0.0000009,
   * densified at a target of 1 metre. Each of the first two cuts lands within
   * the slack of its leg's end, so the walk skips the rest of the leg and its
   * distance count falls e behind. At the third cut the walk then needs 1
   * metre where 1 - 2e is left, more than the slack allows, so it runs out
   * of legs. The last subsegment, which holds the line's last vertex, is never
   * emitted: two subsegments come back instead of three.
   */
  function DriftLine(): seq<Point>
  {
    [Point(0.0, 0.0), Point(1.0000009, 0.0), Point(2.0000018, 0.0), Point(3.0, 0.0)]
  }

  function DriftLegs(): seq<real>
  {
    [1.0000009, 1.0000009, 0.9999982]
  }

  lemma DriftLineCuts()
    ensures Legs(Manhattan(), DriftLine()) == DriftLegs() && ChainLength(Manhattan(), DriftLine()) == 3.0
    ensures PieceCount(3.0, 1.0) == 3 && CutPositions(3.0, 3) == [0.0, 1.0, 2.0, 3.0]
  {
    DriftLegsAre();
    DriftLength();
  }

  lemma DriftLegsAre()
    ensures Legs(Manhattan(), DriftLine()) == DriftLegs()
  {
    var coords := DriftLine();
    var legs := Legs(Manhattan(), coords);
    assert |coords| == 4 && |legs| == 3;
    assert coords[0] == Point(0.0, 0.0) && coords[1] == Point(1.0000009, 0.0);
    assert coords[2] == Point(2.0000018, 0.0) && coords[3] == Point(3.0, 0.0);
    assert legs[0] == Manhattan()(coords[0], coords[1]) == 1.0000009;
    assert legs[1] == Manhattan()(coords[1], coords[2]) == 1.0000009;
    assert legs[2] == Manhattan()(coords[2], coords[3]) == 0.9999982;
  }

  lemma DriftLength()
    ensures Sum(DriftLegs()) == 3.0
  {
    var legs := DriftLegs();
    var a, b := [1.0000009], [1.0000009, 1.0000009];
    assert a[..0] == [];
    assert b[..1] == a;
    assert legs[..2] == b;
    assert Sum(a) == 1.0000009;
    assert Sum(b) == Sum(a) + (1.0000009);
    assert Sum(legs) == Sum(b) + legs[2];
  }

  /** The cut positions of the drifting line. */
  function DriftCuts(): seq<real>
  {
    [0.0, 1.0, 2.0, 3.0]
  }

  /** The vertices, leg lengths and cut positions of the drifting line, one by one. */
  lemma DriftPoints()
    ensures |DriftLine()| == 4 && |DriftLegs()| == 3 && |DriftCuts()| == 4
    ensures DriftLine()[0] == Point(0.0, 0.0) && DriftLine()[1] == Point(1.0000009, 0.0)
    ensures DriftLine()[2] == Point(2.0000018, 0.0) && DriftLine()[3] == Point(3.0, 0.0)
    ensures DriftLegs()[0] == 1.0000009 && DriftLegs()[1] == 1.0000009 && DriftLegs()[2] == 0.9999982
    ensures DriftCuts()[1] == 1.0 && DriftCuts()[2] == 2.0 && DriftCuts()[3] == 3.0
  {
  }

  /** The step of the walk over the drifting line from cursor `w`. */
  function DriftStep(w: Walk): Result<Walk, DensifyError>
    requires 1 <= w.k < 4 && w.seg <= 3
  {
    Step(DriftLine(), DriftLegs(), DriftCuts(), Tolerance, w)
  }

  /** The cursor `w` seeks cut `k` on leg `seg` after `last` metres, holding `nout` closed pieces of two points and an open piece of `nacc` points. */
  ghost predicate DriftAt(w: Walk, k: nat, seg: nat, into: real, last: real, nout: nat, nacc: nat)
  {
    && w.k == k && w.seg == seg && w.into == into && w.last == last
    && |w.out| == nout && (forall i :: 0 <= i < nout ==> |w.out[i]| == 2) && |w.acc| == nacc
  }

  /** The first cut lands within the slack of the first leg's end: the walk snaps to the second leg. */
  lemma DriftFirstCut(w: Walk)
    requires DriftAt(w, 1, 0, 0.0, 0.0, 0, 1)
    ensures DriftStep(w).Success? && DriftAt(DriftStep(w).value, 1, 1, 0.0, 1.0, 1, 1)
  {
    DriftPoints();
    assert Abs(1.0 - 1.0000009) < Tolerance;
  }

  /** The second cut lands within the slack of the second leg's end: the walk snaps to the third leg. */
  lemma DriftSecondCut(w: Walk)
    requires DriftAt(w, 2, 1, 0.0, 1.0, 1, 1)
    ensures DriftStep(w).Success? && DriftAt(DriftStep(w).value, 2, 2, 0.0, 2.0, 2, 1)
    ensures LastOf(DriftStep(w).value.out[1]) != DriftLine()[3]
  {
    DriftPoints();
    assert Abs(1.0 - 1.0000009) < Tolerance;
    ShortOfEnd(1.0000009);
  }

  /** The cut point a fraction `1 / x` along a leg of length `x` starting at `x` lies at 1 + x, short of 3. */
  lemma ShortOfEnd(x: real)
    requires x == 1.0000009
    ensures x + x * ((0.0 + 1.0) / x) < 3.0
  {
    assert x * (1.0 / x) == 1.0;
  }

  /** The third cut needs more than the last leg holds: the walk skips the leg and runs out of legs. */
  lemma DriftRunsOut(w: Walk)
    requires DriftAt(w, 3, 2, 0.0, 2.0, 2, 1)
    ensures DriftStep(w).Success? && DriftAt(DriftStep(w).value, 3, 3, 0.0, 2.9999982, 2, 2)
    ensures DriftStep(w).value.acc[1] == DriftLine()[3] && DriftStep(w).value.out == w.out
  {
    DriftPoints();
    assert !(3.0 - 2.0 <= (0.9999982 - 0.0) + Tolerance);
  }

  /**
   * The walk over the drifting line ends holding two closed pieces and an
   * open one that reaches the last vertex.
   */
  lemma DriftWalk()
    ensures var f := Final(DriftLine(), DriftLegs(), DriftCuts(), Tolerance, Start(DriftLine()));
      && f.Success? && |f.value.out| == 2 && (forall i :: 0 <= i < 2 ==> |f.value.out[i]| == 2)
      && |f.value.acc| == 2 && f.value.acc[1] == DriftLine()[3] && LastOf(f.value.out[1]) != DriftLine()[3]
  {
    var coords, legs, cuts := DriftLine(), DriftLegs(), DriftCuts();
    DriftPoints();
    var w0 := Start(coords);
    DriftFirstCut(w0);
    var w1 := DriftStep(w0).value;
    var w2 := w1.(k := 2);
    assert DriftStep(w1) == Success(w2);
    DriftSecondCut(w2);
    var w3 := DriftStep(w2).value;
    var w4 := w3.(k := 3);
    assert DriftStep(w3) == Success(w4);
    DriftRunsOut(w4);
    var w5 := DriftStep(w4).value;
    var w6 := w5.(k := 4);
    assert DriftStep(w5) == Success(w6);
    assert Final(coords, legs, cuts, Tolerance, w6) == Success(w6);
    assert Final(coords, legs, cuts, Tolerance, w5) == Final(coords, legs, cuts, Tolerance, w6);
    assert Final(coords, legs, cuts, Tolerance, w4) == Final(coords, legs, cuts, Tolerance, w5);
    assert Final(coords, legs, cuts, Tolerance, w3) == Final(coords, legs, cuts, Tolerance, w4);
    assert Final(coords, legs, cuts, Tolerance, w2) == Final(coords, legs, cuts, Tolerance, w3);
    assert Final(coords, legs, cuts, Tolerance, w1) == Final(coords, legs, cuts, Tolerance, w2);
    assert Final(coords, legs, cuts, Tolerance, w0) == Final(coords, legs, cuts, Tolerance, w1);
  }

  /** Both densifiers run the walk over the drifting line's legs and cut positions. */
  lemma DriftRuns()
    ensures PieceCount(ChainLength(Manhattan(), DriftLine()), 1.0) == 3
    ensures DensifySpec(Manhattan(), DriftLine(), 1.0, Tolerance)
      == Run(DriftLine(), DriftLegs(), DriftCuts(), Tolerance, Start(DriftLine()))
    ensures DensifyClosed(Manhattan(), DriftLine(), 1.0, Tolerance)
      == RunClosed(DriftLine(), DriftLegs(), DriftCuts(), Tolerance, Start(DriftLine()))
  {
    DriftLineCuts();
  }

  /**
   * On the drifting line the walk as written returns two subsegments where the
   * piece count is three, the last stopping short of the line's last vertex;
   * the corrected walk returns all three, the last one ending there.
   */
  lemma TailDropped()
    ensures PieceCount(ChainLength(Manhattan(), DriftLine()), 1.0) == 3
    ensures DensifySpec(Manhattan(), DriftLine(), 1.0, Tolerance).Success?
    ensures var pieces := DensifySpec(Manhattan(), DriftLine(), 1.0, Tolerance).value;
      |pieces| == 2 && LastOf(pieces[1]) != DriftLine()[3]
    ensures DensifyClosed(Manhattan(), DriftLine(), 1.0, Tolerance).Success?
    ensures var pieces := DensifyClosed(Manhattan(), DriftLine(), 1.0, Tolerance).value;
      |pieces| == 3 && LastOf(pieces[2]) == DriftLine()[3]
  {
    DriftRuns();
    DriftWalk();
    var coords, legs, cuts := DriftLine(), DriftLegs(), DriftCuts();
    var f := Final(coords, legs, cuts, Tolerance, Start(coords)).value;
    ProperKeepsProper(f.out);
    assert Close(coords, f.acc) == f.acc;
    ProperKeepsProper(f.out + [f.acc]);
  }
}
