/**
 * The polyline densifier `densify_linestring`: a vertex chain is cut at
 * `n = max(1, ceil(total / target))` equally spaced distances along it, by a
 * single walk with a cursor (current leg, distance into that leg, last cut
 * position) that interpolates a cut vertex whenever a cut is reached.
 *
 * `Final` is the walk stated as a function of the cursor and `Run` its
 * result; `Densify` is the walk as the source writes it, two nested loops
 * that update the cursor, and is proved to compute `DensifySpec`. The lemmas state what the walk
 * promises: the piece count, the shape of every piece, how consecutive pieces
 * join, and when the walk can divide by zero.
 */
module Densify {
  import opened Wrappers
  import opened Geometry

  /** The absolute slack (metres) of the two floating-point comparisons of the walk. */
  const Tolerance: real := 0.000001

  /** The walk divides by the length of the current leg; a zero-length leg raises there. */
  datatype DensifyError = ZeroLengthLeg(leg: nat)

  /** Python's `math.ceil` on a real. */
  function Ceil(x: real): (c: int)
    ensures (c - 1) as real < x <= c as real
  {
    -((-x).Floor)
  }

  /** `n = max(1, int(math.ceil(total / target_len_m)))`. */
  function PieceCount(total: real, targetLen: real): (n: nat)
    requires targetLen != 0.0
    ensures n >= 1
  {
    var c := Ceil(total / targetLen);
    if c < 1 then 1 else c
  }

  /**
   * For a positive target length, `n` equal pieces are each at most the target
   * long, and one piece fewer would make them longer than the target. A
   * negative target length gives a single piece.
   */
  lemma PieceCountBounds(total: real, targetLen: real)
    requires targetLen != 0.0 && total > 0.0
    ensures var n := PieceCount(total, targetLen);
      && (targetLen > 0.0 ==> (n - 1) as real * targetLen < total <= n as real * targetLen)
      && (targetLen < 0.0 ==> n == 1)
  {
  }

  /** `cut_positions`: `i * total / n` for `i` in `0 .. n-1`, then `total` itself. */
  function CutPositions(total: real, n: nat): (cuts: seq<real>)
    requires n >= 1
    ensures |cuts| == n + 1 && cuts[0] == 0.0 && cuts[n] == total
  {
    seq(n, i requires 0 <= i < n => (i as real) * total / (n as real)) + [total]
  }

  /** The cut positions strictly increase along a line of positive length. */
  lemma CutsIncrease(total: real, n: nat)
    requires n >= 1 && total > 0.0
    ensures var cuts := CutPositions(total, n);
      forall i, j :: 0 <= i < j < |cuts| ==> cuts[i] < cuts[j]
  {
    var cuts := CutPositions(total, n);
    forall i, j | 0 <= i < j < |cuts| ensures cuts[i] < cuts[j] {
      ScaledSlicesIncrease(i as real, j as real, total, n as real);
      if j == n {
        assert (n as real) * total / (n as real) == total;
      }
    }
  }

  lemma ScaledSlicesIncrease(a: real, b: real, total: real, m: real)
    requires a < b && total > 0.0 && m > 0.0
    ensures a * total / m < b * total / m
  {
    assert (b - a) * total > 0.0;
    assert (b - a) * total / m > 0.0;
    assert b * total / m - a * total / m == (b - a) * total / m;
  }

  /** The walk's cursor: the cut being sought (index into the cut positions), the current leg, the distance walked into it, the position of the last cut, the open subsegment and the closed ones. */
  datatype Walk = Walk(k: nat, seg: nat, into: real, last: real, acc: seq<Point>, out: seq<seq<Point>>)

  /** `[seg for seg in out if len(seg) >= 2]`. */
  function Proper(pieces: seq<seq<Point>>): (r: seq<seq<Point>>)
    ensures |r| <= |pieces|
    ensures forall i :: 0 <= i < |r| ==> |r[i]| >= 2
  {
    if pieces == [] then []
    else
      var p := pieces[|pieces| - 1];
      Proper(pieces[..|pieces| - 1]) + (if |p| >= 2 then [p] else [])
  }

  lemma {:induction false} ProperKeepsProper(pieces: seq<seq<Point>>)
    requires forall i :: 0 <= i < |pieces| ==> |pieces[i]| >= 2
    ensures Proper(pieces) == pieces
  {
    if pieces != [] {
      ProperKeepsProper(pieces[..|pieces| - 1]);
      assert pieces[..|pieces| - 1] + [pieces[|pieces| - 1]] == pieces;
    }
  }

  ghost predicate Cursor(legs: seq<real>, cuts: seq<real>, w: Walk)
  {
    1 <= w.k <= |cuts| && w.seg <= |legs|
  }

  /** 1 while the walk still seeks cut `w.k` (it has not closed a subsegment there), 0 once it has. */
  function Seeking(cuts: seq<real>, w: Walk): nat
  {
    if w.k < |cuts| && w.last < cuts[w.k] then 1 else 0
  }

  /** `w2` is strictly closer to the end of the walk than `w1`: a later cut, else a later leg, else the sought cut reached. */
  ghost predicate Advances(legs: seq<real>, cuts: seq<real>, w2: Walk, w1: Walk)
    requires Cursor(legs, cuts, w1) && Cursor(legs, cuts, w2)
  {
    || w2.k > w1.k
    || (w2.k == w1.k && w2.seg > w1.seg)
    || (w2.k == w1.k && w2.seg == w1.seg && Seeking(cuts, w2) < Seeking(cuts, w1))
  }

  /**
   * One iteration of the walk: inside the `while` loop for cut `w.k` (close a
   * subsegment at the cut, or move on to the next leg), or, once that loop
   * exits, on to the next cut position.
   */
  function Step(coords: seq<Point>, legs: seq<real>, cuts: seq<real>, eps: real, w: Walk)
    : (r: Result<Walk, DensifyError>)
    requires |coords| == |legs| + 1 && Cursor(legs, cuts, w) && w.k < |cuts|
    ensures r.Success? ==> Cursor(legs, cuts, r.value) && Advances(legs, cuts, r.value, w)
  {
    var cut := cuts[w.k];
    if w.last < cut && w.seg < |legs| then
      var segLen := legs[w.seg];
      var remaining := segLen - w.into;
      var needed := cut - w.last;
      if needed <= remaining + eps then
        if segLen == 0.0 then Failure(ZeroLengthLeg(w.seg))
        else
          var p := Interpolate(coords[w.seg], coords[w.seg + 1], (w.into + needed) / segLen);
          var into := w.into + needed;
          var out := w.out + [w.acc + [p]];
          if Abs(into - segLen) < eps then Success(Walk(w.k, w.seg + 1, 0.0, cut, [p], out))
          else Success(Walk(w.k, w.seg, into, cut, [p], out))
      else
        Success(Walk(w.k, w.seg + 1, 0.0, w.last + remaining, w.acc + [coords[w.seg + 1]], w.out))
    else
      Success(w.(k := w.k + 1))
  }

  /** The cursor at the end of the walk from `w`: every cut position has been sought. */
  function Final(coords: seq<Point>, legs: seq<real>, cuts: seq<real>, eps: real, w: Walk)
    : (r: Result<Walk, DensifyError>)
    requires |coords| == |legs| + 1 && Cursor(legs, cuts, w)
    ensures r.Success? ==> Cursor(legs, cuts, r.value) && r.value.k == |cuts|
    decreases |cuts| - w.k, |legs| - w.seg, Seeking(cuts, w)
  {
    if w.k == |cuts| then Success(w)
    else
      match Step(coords, legs, cuts, eps, w)
      case Failure(e) => Failure(e)
      case Success(next) => Final(coords, legs, cuts, eps, next)
  }

  /** The walk from cursor `w` to the end, followed by the filter of degenerate pieces. */
  function Run(coords: seq<Point>, legs: seq<real>, cuts: seq<real>, eps: real, w: Walk)
    : Result<seq<seq<Point>>, DensifyError>
    requires |coords| == |legs| + 1 && Cursor(legs, cuts, w)
  {
    match Final(coords, legs, cuts, eps, w)
    case Failure(e) => Failure(e)
    case Success(f) => Success(Proper(f.out))
  }

  function LastOf(s: seq<Point>): Point
    requires |s| >= 1
  {
    s[|s| - 1]
  }

  /** The points of a subsegment strictly between its two ends. */
  function Interior(piece: seq<Point>): seq<Point>
    requires |piece| >= 2
  {
    piece[1..|piece| - 1]
  }

  /** The vertices `coords[lo..hi]`. */
  datatype Span = Span(lo: nat, hi: nat)

  /**
   * The interior of piece `i` is the run of vertices `coords[spans[i].lo ..
   * spans[i].hi]`, which holds neither the first nor the last vertex of the
   * line, and each run starts at or after the end of the one before it: the
   * pieces follow the line forward and no vertex lies inside two of them.
   */
  ghost predicate Spans(coords: seq<Point>, pieces: seq<seq<Point>>, spans: seq<Span>)
  {
    && |spans| == |pieces|
    && (forall i :: 0 <= i < |pieces| ==> SpanOf(coords, pieces[i], spans[i]))
    && (forall i :: 0 < i < |spans| ==> spans[i - 1].hi <= spans[i].lo)
  }

  /** The interior of `piece` is the vertices `coords[sp.lo .. sp.hi]`, neither the line's first nor its last. */
  ghost predicate SpanOf(coords: seq<Point>, piece: seq<Point>, sp: Span)
  {
    |piece| >= 2 && 1 <= sp.lo <= sp.hi < |coords| && Interior(piece) == coords[sp.lo .. sp.hi]
  }

  /** The pieces follow the line forward, and none of their interiors reaches vertex `from` or beyond. */
  ghost predicate Advancing(coords: seq<Point>, pieces: seq<seq<Point>>, from: nat)
  {
    exists spans: seq<Span> :: Spans(coords, pieces, spans) && (|spans| > 0 ==> spans[|spans| - 1].hi <= from)
  }

  /**
   * Pieces of at least two points each; the first starts at `start` and each
   * later piece starts at the last point of the one before it.
   */
  ghost predicate Chained(start: Point, pieces: seq<seq<Point>>)
  {
    && (forall i :: 0 <= i < |pieces| ==> |pieces[i]| >= 2)
    && (|pieces| > 0 ==> pieces[0][0] == start)
    && (forall i :: 0 < i < |pieces| ==> pieces[i][0] == LastOf(pieces[i - 1]))
  }

  /**
   * What the walk promises of its subsegments: chained from the first vertex
   * of the line, and between their two ends they follow consecutive original
   * vertices, piece after piece forward along the line without overlap.
   */
  ghost predicate Shaped(coords: seq<Point>, pieces: seq<seq<Point>>)
  {
    && (|pieces| > 0 ==> |coords| > 0 && Chained(coords[0], pieces))
    && (exists spans: seq<Span> :: Spans(coords, pieces, spans))
  }

  /** A second subsegment that walks back over a vertex inside the first is not a division of the line. */
  lemma ShapedNoBacktrack(a: Point, b: Point, c: Point)
    requires a != b && b != c
    ensures !Shaped([a, b, c], [[a, b, c], [c, b, c]])
  {
    var coords, pieces := [a, b, c], [[a, b, c], [c, b, c]];
    assert Interior(pieces[0]) == [b] && Interior(pieces[1]) == [b];
    assert forall lo: nat, hi: nat :: 1 <= lo <= hi < 3 && coords[lo..hi] == [b] ==> lo == 1 && hi == 2;
  }

  /** The cursor invariant of the walk for any non-negative slack. */
  ghost predicate Inv(coords: seq<Point>, legs: seq<real>, cuts: seq<real>, eps: real, w: Walk)
  {
    && |coords| == |legs| + 1 && Cursor(legs, cuts, w) && eps >= 0.0
    && (forall i :: 0 < i < |cuts| ==> cuts[i - 1] <= cuts[i])
    // the open subsegment: its first point, then the vertices walked past since
    && 1 <= |w.acc| <= w.seg + 1
    && w.acc[1..] == coords[w.seg + 2 - |w.acc| .. w.seg + 1]
    && Chained(coords[0], w.out)
    && w.acc[0] == (if w.out == [] then coords[0] else LastOf(w.out[|w.out| - 1]))
    // at most one subsegment closed per cut position
    && (w.k < |cuts| ==> w.last <= cuts[w.k])
    && |w.out| <= w.k - 1 + (if w.k < |cuts| && w.last >= cuts[w.k] then 1 else 0)
  }

  lemma StepKeepsInv(coords: seq<Point>, legs: seq<real>, cuts: seq<real>, eps: real, w: Walk)
    requires Inv(coords, legs, cuts, eps, w) && w.k < |cuts|
    requires Step(coords, legs, cuts, eps, w).Success?
    ensures Inv(coords, legs, cuts, eps, Step(coords, legs, cuts, eps, w).value)
  {
    if w.last < cuts[w.k] && w.seg < |legs| {
      if cuts[w.k] - w.last <= legs[w.seg] - w.into + eps {
        StepCutKeepsInv(coords, legs, cuts, eps, w);
      } else {
        SkipKeepsInv(coords, legs, cuts, eps, w);
      }
    } else {
      NextCutKeepsInv(coords, legs, cuts, eps, w);
    }
  }

  lemma StepCutKeepsInv(coords: seq<Point>, legs: seq<real>, cuts: seq<real>, eps: real, w: Walk)
    requires Inv(coords, legs, cuts, eps, w) && w.k < |cuts|
    requires w.last < cuts[w.k] && w.seg < |legs| && cuts[w.k] - w.last <= legs[w.seg] - w.into + eps
    requires Step(coords, legs, cuts, eps, w).Success?
    ensures Inv(coords, legs, cuts, eps, Step(coords, legs, cuts, eps, w).value)
  {
    var next := Step(coords, legs, cuts, eps, w).value;
    var needed := cuts[w.k] - w.last;
    var p := next.acc[0];
    var snap := next.seg != w.seg;
    assert next == Walk(w.k, if snap then w.seg + 1 else w.seg, if snap then 0.0 else w.into + needed,
                        cuts[w.k], [p], w.out + [w.acc + [p]]);
    CutKeepsInv(coords, legs, cuts, eps, w, p, snap);
  }

  /** Moving on to the next cut position once the sought one is reached or the legs have run out. */
  lemma NextCutKeepsInv(coords: seq<Point>, legs: seq<real>, cuts: seq<real>, eps: real, w: Walk)
    requires Inv(coords, legs, cuts, eps, w) && w.k < |cuts|
    requires !(w.last < cuts[w.k] && w.seg < |legs|)
    ensures Step(coords, legs, cuts, eps, w) == Success(w.(k := w.k + 1))
    ensures Inv(coords, legs, cuts, eps, Step(coords, legs, cuts, eps, w).value)
  {
  }

  /** Closing a subsegment at the sought cut, whatever the cut point and whether or not the leg is finished. */
  lemma CutKeepsInv(coords: seq<Point>, legs: seq<real>, cuts: seq<real>, eps: real, w: Walk, p: Point, snap: bool)
    requires Inv(coords, legs, cuts, eps, w) && w.k < |cuts|
    requires w.last < cuts[w.k] && w.seg < |legs|
    ensures var needed := cuts[w.k] - w.last;
      Inv(coords, legs, cuts, eps,
          Walk(w.k, if snap then w.seg + 1 else w.seg, if snap then 0.0 else w.into + needed,
               cuts[w.k], [p], w.out + [w.acc + [p]]))
  {
  }

  /**
   * The closed subsegments move forward along the line and stop short of the
   * vertices walked past in the open one.
   */
  ghost predicate Forward(coords: seq<Point>, w: Walk)
    requires |w.acc| <= w.seg + 2
  {
    Advancing(coords, w.out, w.seg + 2 - |w.acc|)
  }

  /** An iteration of the walk keeps the closed subsegments moving forward along the line. */
  lemma StepForward(coords: seq<Point>, legs: seq<real>, cuts: seq<real>, eps: real, w: Walk)
    requires Inv(coords, legs, cuts, eps, w) && Forward(coords, w) && w.k < |cuts|
    requires Step(coords, legs, cuts, eps, w).Success?
    ensures |Step(coords, legs, cuts, eps, w).value.acc| <= Step(coords, legs, cuts, eps, w).value.seg + 2
    ensures Forward(coords, Step(coords, legs, cuts, eps, w).value)
  {
    if w.last < cuts[w.k] && w.seg < |legs| && cuts[w.k] - w.last <= legs[w.seg] - w.into + eps {
      CutForward(coords, legs, cuts, eps, w);
    } else {
      var next := Step(coords, legs, cuts, eps, w).value;
      assert next.out == w.out && next.seg + 2 - |next.acc| == w.seg + 2 - |w.acc|;
    }
  }

  lemma CutForward(coords: seq<Point>, legs: seq<real>, cuts: seq<real>, eps: real, w: Walk)
    requires Inv(coords, legs, cuts, eps, w) && Forward(coords, w) && w.k < |cuts|
    requires w.last < cuts[w.k] && w.seg < |legs| && cuts[w.k] - w.last <= legs[w.seg] - w.into + eps
    requires Step(coords, legs, cuts, eps, w).Success?
    ensures |Step(coords, legs, cuts, eps, w).value.acc| <= Step(coords, legs, cuts, eps, w).value.seg + 2
    ensures Forward(coords, Step(coords, legs, cuts, eps, w).value)
  {
    var next := Step(coords, legs, cuts, eps, w).value;
    var lo, hi := w.seg + 2 - |w.acc|, w.seg + 1;
    var piece := w.acc + [next.acc[0]];
    assert next.out == w.out + [piece] && hi <= next.seg + 1 && |next.acc| == 1;
    assert Interior(piece) == w.acc[1..] == coords[lo..hi];
    AdvancingAppend(coords, w.out, piece, lo, hi);
    AdvancingWeaken(coords, next.out, hi, next.seg + 1);
  }

  lemma AdvancingWeaken(coords: seq<Point>, pieces: seq<seq<Point>>, from: nat, to: nat)
    requires Advancing(coords, pieces, from) && from <= to
    ensures Advancing(coords, pieces, to)
  {
    var spans: seq<Span> :| Spans(coords, pieces, spans) && (|spans| > 0 ==> spans[|spans| - 1].hi <= from);
  }

  /** A piece whose interior is the vertices from `lo` to `hi` extends pieces that stop short of `lo`. */
  lemma AdvancingAppend(coords: seq<Point>, pieces: seq<seq<Point>>, piece: seq<Point>, lo: nat, hi: nat)
    requires Advancing(coords, pieces, lo) && |piece| >= 2 && 1 <= lo <= hi < |coords|
    requires Interior(piece) == coords[lo..hi]
    ensures Advancing(coords, pieces + [piece], hi)
  {
    var spans: seq<Span> :| Spans(coords, pieces, spans) && (|spans| > 0 ==> spans[|spans| - 1].hi <= lo);
    SpansAppend(coords, pieces, spans, piece, Span(lo, hi));
  }

  lemma SpansAppend(coords: seq<Point>, pieces: seq<seq<Point>>, spans: seq<Span>, piece: seq<Point>, sp: Span)
    requires Spans(coords, pieces, spans) && SpanOf(coords, piece, sp)
    requires |spans| > 0 ==> spans[|spans| - 1].hi <= sp.lo
    ensures Spans(coords, pieces + [piece], spans + [sp])
  {
    var pieces', spans' := pieces + [piece], spans + [sp];
    forall i | 0 <= i < |pieces'|
      ensures SpanOf(coords, pieces'[i], spans'[i])
    {
      if i < |pieces| {
        assert pieces'[i] == pieces[i] && spans'[i] == spans[i];
      }
    }
    forall i | 0 < i < |spans'| ensures spans'[i - 1].hi <= spans'[i].lo {
      if i < |spans| {
        assert spans'[i - 1] == spans[i - 1] && spans'[i] == spans[i];
      }
    }
  }

  /** Moving past the rest of the current leg without reaching the sought cut. */
  lemma SkipKeepsInv(coords: seq<Point>, legs: seq<real>, cuts: seq<real>, eps: real, w: Walk)
    requires Inv(coords, legs, cuts, eps, w) && w.k < |cuts|
    requires w.last < cuts[w.k] && w.seg < |legs|
    requires cuts[w.k] - w.last > legs[w.seg] - w.into + eps
    ensures Step(coords, legs, cuts, eps, w)
      == Success(Walk(w.k, w.seg + 1, 0.0, w.last + (legs[w.seg] - w.into), w.acc + [coords[w.seg + 1]], w.out))
    ensures Inv(coords, legs, cuts, eps, Step(coords, legs, cuts, eps, w).value)
  {
    var acc := w.acc + [coords[w.seg + 1]];
    assert acc[1..] == w.acc[1..] + [coords[w.seg + 1]];
    assert coords[w.seg + 3 - |acc| .. w.seg + 2]
        == coords[w.seg + 2 - |w.acc| .. w.seg + 1] + [coords[w.seg + 1]];
  }

  /** The walk keeps the cursor invariant to its end. */
  lemma {:induction false} FinalKeepsInv(coords: seq<Point>, legs: seq<real>, cuts: seq<real>, eps: real, w: Walk)
    requires Inv(coords, legs, cuts, eps, w) && Forward(coords, w)
    ensures Final(coords, legs, cuts, eps, w).Success? ==>
      var f := Final(coords, legs, cuts, eps, w).value;
      Inv(coords, legs, cuts, eps, f) && Forward(coords, f)
    decreases |cuts| - w.k, |legs| - w.seg, Seeking(cuts, w)
  {
    if w.k < |cuts| && Step(coords, legs, cuts, eps, w).Success? {
      StepKeepsInv(coords, legs, cuts, eps, w);
      StepForward(coords, legs, cuts, eps, w);
      FinalKeepsInv(coords, legs, cuts, eps, Step(coords, legs, cuts, eps, w).value);
    }
  }

  /** Every subsegment the walk closes has at least two points, so the filter of degenerate pieces removes none. */
  lemma FilterRemovesNone(coords: seq<Point>, legs: seq<real>, cuts: seq<real>, eps: real, w: Walk)
    requires Inv(coords, legs, cuts, eps, w) && Forward(coords, w)
    ensures Final(coords, legs, cuts, eps, w).Success? ==>
      var out := Final(coords, legs, cuts, eps, w).value.out;
      (forall i :: 0 <= i < |out| ==> |out[i]| >= 2) && Proper(out) == out
  {
    FinalKeepsInv(coords, legs, cuts, eps, w);
    if Final(coords, legs, cuts, eps, w).Success? {
      ProperKeepsProper(Final(coords, legs, cuts, eps, w).value.out);
    }
  }

  /** Every run of the walk from an invariant cursor ends in shaped pieces, one per cut position at most. */
  lemma RunShaped(coords: seq<Point>, legs: seq<real>, cuts: seq<real>, eps: real, w: Walk)
    requires Inv(coords, legs, cuts, eps, w) && Forward(coords, w)
    ensures Run(coords, legs, cuts, eps, w).Success? ==>
      var pieces := Run(coords, legs, cuts, eps, w).value;
      |pieces| <= |cuts| - 1 && Shaped(coords, pieces)
  {
    FinalKeepsInv(coords, legs, cuts, eps, w);
    if Final(coords, legs, cuts, eps, w).Success? {
      var f := Final(coords, legs, cuts, eps, w).value;
      ProperKeepsProper(f.out);
      InvShaped(coords, legs, cuts, eps, f);
    }
  }

  /** The closed subsegments of an invariant cursor that move forward along the line are shaped. */
  lemma InvShaped(coords: seq<Point>, legs: seq<real>, cuts: seq<real>, eps: real, w: Walk)
    requires Inv(coords, legs, cuts, eps, w) && Forward(coords, w)
    ensures Shaped(coords, w.out)
  {
    var spans: seq<Span> :| Spans(coords, w.out, spans) && (|spans| > 0 ==> spans[|spans| - 1].hi <= w.seg + 2 - |w.acc|);
  }

  /** The walk's starting cursor: before the first cut, at the start of the first leg. */
  function Start(coords: seq<Point>): Walk
    requires |coords| >= 1
  {
    Walk(1, 0, 0.0, 0.0, [coords[0]], [])
  }

  /** `densify_linestring` with comparison slack `eps` (the source uses `Tolerance`). */
  function DensifySpec(dist: DistFn, coords: seq<Point>, targetLen: real, eps: real)
    : Result<seq<seq<Point>>, DensifyError>
    requires targetLen != 0.0
  {
    if |coords| < 2 then Success([])
    else
      var legs := Legs(dist, coords);
      var total := Sum(legs);
      if total == 0.0 then Success([])
      else
        var n := PieceCount(total, targetLen);
        Run(coords, legs, CutPositions(total, n), eps, Start(coords))
  }

  /**
   * `densify_linestring` returns no subsegments for fewer than two points or
   * for a line of length zero; otherwise at most `n` of them, chained from the
   * first vertex and following the original vertices between their ends,
   * with no original vertex skipped except the end vertex of a leg whose cut
   * snapped to it.
   */
  lemma DensifyShaped(dist: DistFn, coords: seq<Point>, targetLen: real, eps: real)
    requires targetLen != 0.0 && eps >= 0.0
    ensures |coords| < 2 || ChainLength(dist, coords) == 0.0 ==>
      DensifySpec(dist, coords, targetLen, eps) == Success([])
    ensures DensifySpec(dist, coords, targetLen, eps).Success? ==>
      var pieces := DensifySpec(dist, coords, targetLen, eps).value;
      && |pieces| <= PieceCount(ChainLength(dist, coords), targetLen) && Shaped(coords, pieces)
      && Tiled(coords, Legs(dist, coords), eps, pieces)
  {
    DensifyTiled(dist, coords, targetLen, eps);
    assert Spans(coords, [], []);
    if |coords| >= 2 {
      var legs := Legs(dist, coords);
      var total := Sum(legs);
      SumNonNegative(legs);
      if total != 0.0 {
        var n := PieceCount(total, targetLen);
        var cuts := CutPositions(total, n);
        CutsIncrease(total, n);
        StartInv(coords, legs, cuts, eps);
        RunShaped(coords, legs, cuts, eps, Start(coords));
      }
    }
  }

  /** The walk starts from an invariant cursor when the cut positions increase from zero. */
  lemma StartInv(coords: seq<Point>, legs: seq<real>, cuts: seq<real>, eps: real)
    requires |coords| == |legs| + 1 && |cuts| >= 2 && cuts[0] == 0.0 && eps >= 0.0
    requires forall i, j :: 0 <= i < j < |cuts| ==> cuts[i] < cuts[j]
    ensures Inv(coords, legs, cuts, eps, Start(coords)) && Forward(coords, Start(coords))
  {
    forall i | 0 < i < |cuts| ensures cuts[i - 1] <= cuts[i] {
      assert cuts[i - 1] < cuts[i];
    }
    assert Spans(coords, [], []);
  }

  /** The walk raises only on a leg of length zero. */
  lemma {:induction false} FinalFailsOnZeroLeg(coords: seq<Point>, legs: seq<real>, cuts: seq<real>, eps: real, w: Walk)
    requires |coords| == |legs| + 1 && Cursor(legs, cuts, w)
    ensures Final(coords, legs, cuts, eps, w).Failure? ==>
      var leg := Final(coords, legs, cuts, eps, w).error.leg;
      leg < |legs| && legs[leg] == 0.0
    decreases |cuts| - w.k, |legs| - w.seg, Seeking(cuts, w)
  {
    if w.k < |cuts| && Step(coords, legs, cuts, eps, w).Success? {
      FinalFailsOnZeroLeg(coords, legs, cuts, eps, Step(coords, legs, cuts, eps, w).value);
    }
  }

  /** `densify_linestring` raises only on a line with a leg of length zero. */
  lemma DensifyFailsOnZeroLeg(dist: DistFn, coords: seq<Point>, targetLen: real, eps: real)
    requires targetLen != 0.0
    ensures DensifySpec(dist, coords, targetLen, eps).Failure? ==>
      var leg := DensifySpec(dist, coords, targetLen, eps).error.leg;
      leg + 1 < |coords| && dist(coords[leg], coords[leg + 1]) == 0.0
  {
    if |coords| >= 2 && ChainLength(dist, coords) != 0.0 {
      var legs, total := Legs(dist, coords), ChainLength(dist, coords);
      ChainLengthNonNegative(dist, coords);
      SpecRuns(dist, coords, targetLen, eps);
      FinalFailsOnZeroLeg(coords, legs, CutPositions(total, PieceCount(total, targetLen)), eps, Start(coords));
    }
  }

  /** `p` is a vertex after which the line has no more length. */
  ghost predicate AtLineEnd(coords: seq<Point>, legs: seq<real>, p: Point)
  {
    exists j :: 1 <= j < |coords| && j <= |legs| && p == coords[j] && Sum(legs[..j]) == Sum(legs)
  }

  /**
   * The cursor invariant of the walk in exact arithmetic with no slack: the
   * last cut position is exactly the distance walked, so a subsegment is
   * closed at every cut position.
   */
  ghost predicate ExactInv(coords: seq<Point>, legs: seq<real>, cuts: seq<real>, w: Walk)
  {
    && |coords| == |legs| + 1 && Cursor(legs, cuts, w)
    && (forall i :: 0 <= i < |legs| ==> legs[i] >= 0.0)
    && (forall i, j :: 0 <= i < j < |cuts| ==> cuts[i] < cuts[j])
    && cuts[|cuts| - 1] == Sum(legs)
    && w.last == Sum(legs[..w.seg]) + w.into
    && 0.0 <= w.into
    && (w.seg < |legs| ==> w.into <= legs[w.seg])
    && (w.seg == |legs| ==> w.into == 0.0)
    && |w.acc| >= 1 && (forall i :: 0 <= i < |w.out| ==> |w.out[i]| >= 2)
    && (w.k < |cuts| ==> w.last <= cuts[w.k])
    && |w.out| == w.k - 1 + (if w.k < |cuts| && w.last >= cuts[w.k] then 1 else 0)
    && ((w.k == |cuts| - 1 && w.last >= cuts[w.k]) || w.k == |cuts| ==>
          |w.out| > 0 && |w.out[|w.out| - 1]| > 0 && AtLineEnd(coords, legs, LastOf(w.out[|w.out| - 1])))
  }

  lemma ExactStep(coords: seq<Point>, legs: seq<real>, cuts: seq<real>, w: Walk)
    requires ExactInv(coords, legs, cuts, w) && w.k < |cuts|
    ensures Step(coords, legs, cuts, 0.0, w).Success?
    ensures ExactInv(coords, legs, cuts, Step(coords, legs, cuts, 0.0, w).value)
  {
    var cut := cuts[w.k];
    if w.last < cut && w.seg < |legs| {
      var segLen := legs[w.seg];
      var needed := cut - w.last;
      if needed <= segLen - w.into {
        ExactCut(coords, legs, cuts, w);
      } else {
        SumPrefixStep(legs, w.seg);
      }
    } else {
      // the cut is reached: the walk moves on to the next cut position, not yet reached
      if w.seg == |legs| {
        assert legs[..w.seg] == legs;
      }
      assert w.last >= cut;
      if w.k + 1 < |cuts| {
        assert cut < cuts[w.k + 1];
      }
    }
  }

  lemma DivSelf(x: real)
    requires x != 0.0
    ensures x / x == 1.0
  {
  }

  lemma ExactCut(coords: seq<Point>, legs: seq<real>, cuts: seq<real>, w: Walk)
    requires ExactInv(coords, legs, cuts, w) && w.k < |cuts|
    requires w.last < cuts[w.k] && w.seg < |legs|
    requires cuts[w.k] - w.last <= legs[w.seg] - w.into
    ensures Step(coords, legs, cuts, 0.0, w).Success?
    ensures ExactInv(coords, legs, cuts, Step(coords, legs, cuts, 0.0, w).value)
  {
    var segLen := legs[w.seg];
    var needed := cuts[w.k] - w.last;
    assert segLen != 0.0;
    var next := Step(coords, legs, cuts, 0.0, w).value;
    assert next.seg == w.seg && next.into == w.into + needed;
    if w.k == |cuts| - 1 {
      // the last cut lies at the end of the line, so it is closed at the end of its leg
      SumPrefixStep(legs, w.seg);
      SumPrefixBounded(legs, w.seg + 1);
      assert w.into + needed == segLen;
      DivSelf(segLen);
      assert LastOf(next.out[|next.out| - 1]) == coords[w.seg + 1];
    }
  }

  lemma {:induction false} FinalExact(coords: seq<Point>, legs: seq<real>, cuts: seq<real>, w: Walk)
    requires ExactInv(coords, legs, cuts, w)
    ensures Final(coords, legs, cuts, 0.0, w).Success?
    ensures ExactInv(coords, legs, cuts, Final(coords, legs, cuts, 0.0, w).value)
    decreases |cuts| - w.k, |legs| - w.seg, Seeking(cuts, w)
  {
    if w.k < |cuts| {
      ExactStep(coords, legs, cuts, w);
      FinalExact(coords, legs, cuts, Step(coords, legs, cuts, 0.0, w).value);
    }
  }

  /**
   * In exact arithmetic with no slack the walk never raises, closes exactly
   * `n` subsegments, and the last one ends at a vertex after which the line
   * has no more length (the last vertex, unless the line ends in
   * zero-length legs).
   */
  lemma DensifyExact(dist: DistFn, coords: seq<Point>, targetLen: real)
    requires targetLen != 0.0 && |coords| >= 2 && ChainLength(dist, coords) > 0.0
    ensures ClosesAll(coords, Legs(dist, coords), PieceCount(ChainLength(dist, coords), targetLen),
                      DensifySpec(dist, coords, targetLen, 0.0))
  {
    var legs := Legs(dist, coords);
    var total := Sum(legs);
    SpecRuns(dist, coords, targetLen, 0.0);
    RunExactOnCuts(coords, legs, total, PieceCount(total, targetLen));
  }

  /** On a line of positive length, `densify_linestring` is the walk over its legs and cut positions. */
  lemma SpecRuns(dist: DistFn, coords: seq<Point>, targetLen: real, eps: real)
    requires targetLen != 0.0 && |coords| >= 2 && ChainLength(dist, coords) > 0.0
    ensures var legs, total := Legs(dist, coords), ChainLength(dist, coords);
      DensifySpec(dist, coords, targetLen, eps)
        == Run(coords, legs, CutPositions(total, PieceCount(total, targetLen)), eps, Start(coords))
  {
  }

  /** The walk returned `n` subsegments, the last of which ends at the line's last vertex. */
  ghost predicate ClosesAll(coords: seq<Point>, legs: seq<real>, n: nat, r: Result<seq<seq<Point>>, DensifyError>)
  {
    r.Success? && |r.value| == n && n > 0 && |r.value[n - 1]| > 0 && AtLineEnd(coords, legs, LastOf(r.value[n - 1]))
  }

  /** The exact walk over the cut positions of `n` pieces closes `n` subsegments, the last at the line's end. */
  lemma RunExactOnCuts(coords: seq<Point>, legs: seq<real>, total: real, n: nat)
    requires |coords| == |legs| + 1 && n >= 1 && total > 0.0 && Sum(legs) == total
    requires forall i :: 0 <= i < |legs| ==> legs[i] >= 0.0
    ensures ClosesAll(coords, legs, n, Run(coords, legs, CutPositions(total, n), 0.0, Start(coords)))
  {
    CutsIncrease(total, n);
    RunExactFromStart(coords, legs, CutPositions(total, n));
  }

  lemma RunExactFromStart(coords: seq<Point>, legs: seq<real>, cuts: seq<real>)
    requires |coords| == |legs| + 1 && |cuts| >= 2
    requires forall i :: 0 <= i < |legs| ==> legs[i] >= 0.0
    requires forall i, j :: 0 <= i < j < |cuts| ==> cuts[i] < cuts[j]
    requires cuts[0] == 0.0 && cuts[|cuts| - 1] == Sum(legs)
    ensures Run(coords, legs, cuts, 0.0, Start(coords)).Success?
    ensures var pieces := Run(coords, legs, cuts, 0.0, Start(coords)).value;
      && |pieces| == |cuts| - 1
      && |pieces[|pieces| - 1]| > 0 && AtLineEnd(coords, legs, LastOf(pieces[|pieces| - 1]))
  {
    assert legs[..0] == [];
    assert ExactInv(coords, legs, cuts, Start(coords));
    FinalExact(coords, legs, cuts, Start(coords));
    ProperKeepsProper(Final(coords, legs, cuts, 0.0, Start(coords)).value.out);
  }

  /**
   * `p` is the point at distance `d` along the line: on the leg `s` whose
   * stretch of distances `(Sum(legs[..s]), Sum(legs[..s]) + legs[s]]` holds
   * `d`, at the fraction of that leg that `d` reaches into it.
   */
  ghost predicate AtDistance(coords: seq<Point>, legs: seq<real>, d: real, p: Point)
  {
    exists s: nat :: AtDistanceOn(coords, legs, d, p, s)
  }

  /** `p` is the point at distance `d` along the line, on leg `s`. */
  ghost predicate AtDistanceOn(coords: seq<Point>, legs: seq<real>, d: real, p: Point, s: nat)
  {
    && s < |legs| && s + 1 < |coords|
    && Sum(legs[..s]) < d <= Sum(legs[..s]) + legs[s]
    && p == Interpolate(coords[s], coords[s + 1], (d - Sum(legs[..s])) / legs[s])
  }

  /** Prefix sums of non-negative reals never decrease. */
  lemma SumPrefixMono(legs: seq<real>, i: nat, j: nat)
    requires i <= j <= |legs|
    requires forall m :: 0 <= m < |legs| ==> legs[m] >= 0.0
    ensures Sum(legs[..i]) <= Sum(legs[..j])
  {
    assert legs[..j][..i] == legs[..i];
    SumPrefixBounded(legs[..j], i);
  }

  /** On non-negative legs, at most one point lies at a given distance along the line. */
  lemma AtDistanceUnique(coords: seq<Point>, legs: seq<real>, d: real, p: Point, q: Point)
    requires forall m :: 0 <= m < |legs| ==> legs[m] >= 0.0
    requires AtDistance(coords, legs, d, p) && AtDistance(coords, legs, d, q)
    ensures p == q
  {
    var s1: nat :| AtDistanceOn(coords, legs, d, p, s1);
    var s2: nat :| AtDistanceOn(coords, legs, d, q, s2);
    SameLeg(legs, d, s1, s2);
  }

  /** On non-negative legs, the stretches of distances of two legs do not overlap. */
  lemma SameLeg(legs: seq<real>, d: real, s1: nat, s2: nat)
    requires forall m :: 0 <= m < |legs| ==> legs[m] >= 0.0
    requires s1 < |legs| && Sum(legs[..s1]) < d <= Sum(legs[..s1]) + legs[s1]
    requires s2 < |legs| && Sum(legs[..s2]) < d <= Sum(legs[..s2]) + legs[s2]
    ensures s1 == s2
  {
    if s1 < s2 {
      SumPrefixStep(legs, s1);
      SumPrefixMono(legs, s1 + 1, s2);
    } else if s2 < s1 {
      SumPrefixStep(legs, s2);
      SumPrefixMono(legs, s2 + 1, s1);
    }
  }

  /** Every distance in `(0, Sum(legs)]` has a point at that distance along the line. */
  lemma {:induction false} AtDistanceExists(coords: seq<Point>, legs: seq<real>, d: real)
    requires |coords| == |legs| + 1
    requires 0.0 < d <= Sum(legs)
    ensures exists p :: AtDistance(coords, legs, d, p)
  {
    var m := |legs| - 1;
    assert legs[..m + 1] == legs;
    if d <= Sum(legs[..m]) {
      AtDistanceExists(coords[..m + 1], legs[..m], d);
      var p :| AtDistance(coords[..m + 1], legs[..m], d, p);
      AtDistanceOnPrefix(coords, legs, m, d, p);
    } else {
      AtDistanceOnLastLeg(coords, legs, d);
    }
  }

  /** A point at distance `d` along the line's first `m` legs is at distance `d` along the whole line. */
  lemma AtDistanceOnPrefix(coords: seq<Point>, legs: seq<real>, m: nat, d: real, p: Point)
    requires |coords| == |legs| + 1 && m <= |legs|
    requires AtDistance(coords[..m + 1], legs[..m], d, p)
    ensures AtDistance(coords, legs, d, p)
  {
    var before := legs[..m];
    var s: nat :| AtDistanceOn(coords[..m + 1], before, d, p, s);
    assert before[..s] == legs[..s];
    assert AtDistanceOn(coords, legs, d, p, s);
  }

  /** A distance past the first legs but within the whole line lies on the last leg. */
  lemma AtDistanceOnLastLeg(coords: seq<Point>, legs: seq<real>, d: real)
    requires |coords| == |legs| + 1 && |legs| >= 1
    requires Sum(legs[..|legs| - 1]) < d <= Sum(legs)
    ensures exists p :: AtDistance(coords, legs, d, p)
  {
    var m := |legs| - 1;
    assert legs[..m + 1] == legs;
    var p := Interpolate(coords[m], coords[m + 1], (d - Sum(legs[..m])) / legs[m]);
    assert AtDistanceOn(coords, legs, d, p, m);
    assert AtDistance(coords, legs, d, p);
  }

  /** With no slack, every closed subsegment `i` ends at the point at cut position `i + 1`. */
  ghost predicate ExactPlaced(coords: seq<Point>, legs: seq<real>, cuts: seq<real>, w: Walk)
  {
    PlacedAtCuts(coords, legs, cuts, w.out)
  }

  /** A piece ending at the point at the next cut position keeps the pieces placed at their cuts. */
  lemma PlacedAppend(coords: seq<Point>, legs: seq<real>, cuts: seq<real>, pieces: seq<seq<Point>>, piece: seq<Point>)
    requires PlacedAtCuts(coords, legs, cuts, pieces) && |pieces| + 1 < |cuts| && |piece| >= 1
    requires AtDistance(coords, legs, cuts[|pieces| + 1], LastOf(piece))
    ensures PlacedAtCuts(coords, legs, cuts, pieces + [piece])
  {
  }

  lemma ExactStepPlaced(coords: seq<Point>, legs: seq<real>, cuts: seq<real>, w: Walk)
    requires ExactInv(coords, legs, cuts, w) && ExactPlaced(coords, legs, cuts, w) && w.k < |cuts|
    ensures Step(coords, legs, cuts, 0.0, w).Success?
    ensures ExactPlaced(coords, legs, cuts, Step(coords, legs, cuts, 0.0, w).value)
  {
    ExactStep(coords, legs, cuts, w);
    var cut := cuts[w.k];
    if w.last < cut && w.seg < |legs| && cut - w.last <= legs[w.seg] - w.into {
      ExactCutPlaced(coords, legs, cuts, w);
    }
  }

  /** The cut point closed at cut position `k` lies at that distance along the line. */
  lemma ExactCutPlaced(coords: seq<Point>, legs: seq<real>, cuts: seq<real>, w: Walk)
    requires |coords| == |legs| + 1 && Cursor(legs, cuts, w) && w.k < |cuts|
    requires w.last == Sum(legs[..w.seg]) + w.into && 0.0 <= w.into && |w.out| + 1 == w.k
    requires ExactPlaced(coords, legs, cuts, w)
    requires w.last < cuts[w.k] && w.seg < |legs| && cuts[w.k] - w.last <= legs[w.seg] - w.into
    ensures Step(coords, legs, cuts, 0.0, w).Success?
    ensures ExactPlaced(coords, legs, cuts, Step(coords, legs, cuts, 0.0, w).value)
  {
    var cut := cuts[w.k];
    var p := Interpolate(coords[w.seg], coords[w.seg + 1], (w.into + (cut - w.last)) / legs[w.seg]);
    assert Step(coords, legs, cuts, 0.0, w).Success? && Step(coords, legs, cuts, 0.0, w).value.out == w.out + [w.acc + [p]] by {
      assert legs[w.seg] > 0.0;
      CutStep(coords, legs, cuts, 0.0, w);
    }
    assert PlacedAtCuts(coords, legs, cuts, w.out + [w.acc + [p]]) by {
      CutAtDistance(coords, legs, w.seg, w.into, w.last, cut);
      PlacedAppend(coords, legs, cuts, w.out, w.acc + [p]);
    }
  }

  /** Walking `into + needed` metres into leg `seg`, which starts `Sum(legs[..seg])` metres along the line, reaches the point at distance `last + needed`. */
  lemma CutAtDistance(coords: seq<Point>, legs: seq<real>, seg: nat, into: real, last: real, cut: real)
    requires |coords| == |legs| + 1 && seg < |legs|
    requires last == Sum(legs[..seg]) + into && 0.0 <= into
    requires last < cut && cut - last <= legs[seg] - into
    ensures AtDistance(coords, legs, cut, Interpolate(coords[seg], coords[seg + 1], (into + (cut - last)) / legs[seg]))
  {
    assert cut - Sum(legs[..seg]) == into + (cut - last);
    assert AtDistanceOn(coords, legs, cut, Interpolate(coords[seg], coords[seg + 1], (into + (cut - last)) / legs[seg]), seg);
  }

  /** An iteration that reaches the sought cut on a leg of positive length closes the open subsegment at the cut point. */
  lemma CutStep(coords: seq<Point>, legs: seq<real>, cuts: seq<real>, eps: real, w: Walk)
    requires |coords| == |legs| + 1 && Cursor(legs, cuts, w) && w.k < |cuts|
    requires w.last < cuts[w.k] && w.seg < |legs| && cuts[w.k] - w.last <= legs[w.seg] - w.into + eps
    requires legs[w.seg] > 0.0 && w.into >= 0.0
    ensures Step(coords, legs, cuts, eps, w).Success?
    ensures Step(coords, legs, cuts, eps, w).value.out
      == w.out + [w.acc + [Interpolate(coords[w.seg], coords[w.seg + 1], (w.into + (cuts[w.k] - w.last)) / legs[w.seg])]]
    ensures Step(coords, legs, cuts, eps, w).value.into >= 0.0
  {
  }

  lemma {:induction false} FinalExactPlaced(coords: seq<Point>, legs: seq<real>, cuts: seq<real>, w: Walk)
    requires ExactInv(coords, legs, cuts, w) && ExactPlaced(coords, legs, cuts, w)
    ensures Final(coords, legs, cuts, 0.0, w).Success?
    ensures ExactPlaced(coords, legs, cuts, Final(coords, legs, cuts, 0.0, w).value)
    decreases |cuts| - w.k, |legs| - w.seg, Seeking(cuts, w)
  {
    if w.k < |cuts| {
      ExactStepPlaced(coords, legs, cuts, w);
      ExactStep(coords, legs, cuts, w);
      FinalExactPlaced(coords, legs, cuts, Step(coords, legs, cuts, 0.0, w).value);
    }
  }

  /** The exact walk from the start closes one subsegment per cut position, each ending at the point at its cut. */
  lemma RunExactPlaced(coords: seq<Point>, legs: seq<real>, cuts: seq<real>)
    requires |coords| == |legs| + 1 && |cuts| >= 2
    requires forall i :: 0 <= i < |legs| ==> legs[i] >= 0.0
    requires forall i, j :: 0 <= i < j < |cuts| ==> cuts[i] < cuts[j]
    requires cuts[0] == 0.0 && cuts[|cuts| - 1] == Sum(legs)
    ensures Run(coords, legs, cuts, 0.0, Start(coords)).Success?
    ensures var pieces := Run(coords, legs, cuts, 0.0, Start(coords)).value;
      |pieces| == |cuts| - 1 && PlacedAtCuts(coords, legs, cuts, pieces)
  {
    assert legs[..0] == [];
    assert ExactInv(coords, legs, cuts, Start(coords));
    FinalExact(coords, legs, cuts, Start(coords));
    FinalExactPlaced(coords, legs, cuts, Start(coords));
    ProperKeepsProper(Final(coords, legs, cuts, 0.0, Start(coords)).value.out);
  }

  /**
   * In exact arithmetic with no slack, subsegment `i` (from 0) of
   * `densify_linestring` ends at the point at cut position `i + 1`, the
   * distance `(i + 1) * total / n` along the line (the last at `total`).
   */
  lemma DensifyExactPlaced(dist: DistFn, coords: seq<Point>, targetLen: real)
    requires targetLen != 0.0 && |coords| >= 2 && ChainLength(dist, coords) > 0.0
    ensures DensifySpec(dist, coords, targetLen, 0.0).Success?
    ensures var pieces, total := DensifySpec(dist, coords, targetLen, 0.0).value, ChainLength(dist, coords);
      var n := PieceCount(total, targetLen);
      && |pieces| == n
      && (forall i :: 0 <= i < n ==>
            && |pieces[i]| >= 1
            && AtDistance(coords, Legs(dist, coords), CutPositions(total, n)[i + 1], LastOf(pieces[i])))
  {
    var legs := Legs(dist, coords);
    var total := Sum(legs);
    var n := PieceCount(total, targetLen);
    var cuts := CutPositions(total, n);
    var r := DensifySpec(dist, coords, targetLen, 0.0);
    assert r == Run(coords, legs, cuts, 0.0, Start(coords)) by {
      SpecRuns(dist, coords, targetLen, 0.0);
    }
    assert r.Success? && |r.value| == n && PlacedAtCuts(coords, legs, cuts, r.value) by {
      CutsIncrease(total, n);
      RunExactPlaced(coords, legs, cuts);
    }
  }

  /** Piece `i` ends at the point at cut position `i + 1`. */
  ghost predicate PlacedAtCuts(coords: seq<Point>, legs: seq<real>, cuts: seq<real>, pieces: seq<seq<Point>>)
  {
    forall i :: 0 <= i < |pieces| ==>
      i + 1 < |cuts| && |pieces[i]| >= 1 && AtDistance(coords, legs, cuts[i + 1], LastOf(pieces[i]))
  }

  /**
   * `p` is interpolated on leg `s` of positive length, a positive fraction `t`
   * of the way along it and at most `eps` metres past its far end.
   */
  ghost predicate OnLeg(coords: seq<Point>, legs: seq<real>, eps: real, p: Point)
  {
    exists s: nat, t: real :: s < |legs| && s + 1 < |coords| && legs[s] > 0.0
      && 0.0 < t && t * legs[s] <= legs[s] + eps
      && p == LegPoint(coords, s, t)
  }

  /** The point a fraction `t` of the way along leg `s`. */
  function LegPoint(coords: seq<Point>, s: nat, t: real): Point
    requires s + 1 < |coords|
  {
    Interpolate(coords[s], coords[s + 1], t)
  }

  /** Every piece ends at a point on a leg. */
  ghost predicate EndsOnLegs(coords: seq<Point>, legs: seq<real>, eps: real, pieces: seq<seq<Point>>)
  {
    forall i :: 0 <= i < |pieces| ==> |pieces[i]| >= 1 && OnLeg(coords, legs, eps, LastOf(pieces[i]))
  }

  /** Every closed subsegment ends at a cut point on a leg; the distance into the current leg is never negative. */
  ghost predicate CutsOnLegs(coords: seq<Point>, legs: seq<real>, eps: real, w: Walk)
  {
    0.0 <= w.into && EndsOnLegs(coords, legs, eps, w.out)
  }

  lemma EndsOnLegsAppend(coords: seq<Point>, legs: seq<real>, eps: real, pieces: seq<seq<Point>>, piece: seq<Point>)
    requires EndsOnLegs(coords, legs, eps, pieces) && |piece| >= 1 && OnLeg(coords, legs, eps, LastOf(piece))
    ensures EndsOnLegs(coords, legs, eps, pieces + [piece])
  {
  }

  lemma StepOnLegs(coords: seq<Point>, legs: seq<real>, cuts: seq<real>, eps: real, w: Walk)
    requires Inv(coords, legs, cuts, eps, w) && CutsOnLegs(coords, legs, eps, w) && w.k < |cuts|
    requires forall i :: 0 <= i < |legs| ==> legs[i] >= 0.0
    requires Step(coords, legs, cuts, eps, w).Success?
    ensures CutsOnLegs(coords, legs, eps, Step(coords, legs, cuts, eps, w).value)
  {
    if w.last < cuts[w.k] && w.seg < |legs| && cuts[w.k] - w.last <= legs[w.seg] - w.into + eps {
      CutOnLeg(coords, legs, cuts, eps, w);
    }
  }

  /** The cut point of an iteration that closes a subsegment lies on the current leg. */
  lemma CutOnLeg(coords: seq<Point>, legs: seq<real>, cuts: seq<real>, eps: real, w: Walk)
    requires Inv(coords, legs, cuts, eps, w) && CutsOnLegs(coords, legs, eps, w) && w.k < |cuts|
    requires forall i :: 0 <= i < |legs| ==> legs[i] >= 0.0
    requires w.last < cuts[w.k] && w.seg < |legs| && cuts[w.k] - w.last <= legs[w.seg] - w.into + eps
    requires Step(coords, legs, cuts, eps, w).Success?
    ensures CutsOnLegs(coords, legs, eps, Step(coords, legs, cuts, eps, w).value)
  {
    var segLen := legs[w.seg];
    assert segLen > 0.0 by {
      assert segLen != 0.0;
    }
    var reach := w.into + (cuts[w.k] - w.last);
    var t := reach / segLen;
    var p := LegPoint(coords, w.seg, t);
    LegPointOnLeg(coords, legs, eps, w.seg, reach);
    CutStep(coords, legs, cuts, eps, w);
    EndsOnLegsAppend(coords, legs, eps, w.out, w.acc + [p]);
  }

  /** A cut `reach` metres into a leg of positive length, with `0 < reach <= legs[s] + eps`, lies on that leg. */
  lemma LegPointOnLeg(coords: seq<Point>, legs: seq<real>, eps: real, s: nat, reach: real)
    requires |coords| == |legs| + 1 && s < |legs| && legs[s] > 0.0
    requires 0.0 < reach <= legs[s] + eps
    ensures OnLeg(coords, legs, eps, LegPoint(coords, s, reach / legs[s]))
  {
    assert (reach / legs[s]) * legs[s] == reach;
  }

  lemma {:induction false} FinalOnLegs(coords: seq<Point>, legs: seq<real>, cuts: seq<real>, eps: real, w: Walk)
    requires Inv(coords, legs, cuts, eps, w) && CutsOnLegs(coords, legs, eps, w)
    requires forall i :: 0 <= i < |legs| ==> legs[i] >= 0.0
    ensures Final(coords, legs, cuts, eps, w).Success? ==>
      CutsOnLegs(coords, legs, eps, Final(coords, legs, cuts, eps, w).value)
    decreases |cuts| - w.k, |legs| - w.seg, Seeking(cuts, w)
  {
    if w.k < |cuts| && Step(coords, legs, cuts, eps, w).Success? {
      StepKeepsInv(coords, legs, cuts, eps, w);
      StepOnLegs(coords, legs, cuts, eps, w);
      FinalOnLegs(coords, legs, cuts, eps, Step(coords, legs, cuts, eps, w).value);
    }
  }

  /**
   * Every subsegment of `densify_linestring` ends at a cut point interpolated
   * on a leg of positive length, at most the slack `eps` past that leg's end.
   */
  lemma DensifyCutsOnLegs(dist: DistFn, coords: seq<Point>, targetLen: real, eps: real)
    requires targetLen != 0.0 && eps >= 0.0
    ensures DensifySpec(dist, coords, targetLen, eps).Success? ==>
      var pieces := DensifySpec(dist, coords, targetLen, eps).value;
      forall i :: 0 <= i < |pieces| ==> |pieces[i]| >= 1 && OnLeg(coords, Legs(dist, coords), eps, LastOf(pieces[i]))
  {
    if |coords| >= 2 && ChainLength(dist, coords) != 0.0 {
      var legs := Legs(dist, coords);
      var total := Sum(legs);
      SumNonNegative(legs);
      var n := PieceCount(total, targetLen);
      var cuts := CutPositions(total, n);
      CutsIncrease(total, n);
      StartInv(coords, legs, cuts, eps);
      FinalOnLegs(coords, legs, cuts, eps, Start(coords));
      FilterRemovesNone(coords, legs, cuts, eps, Start(coords));
    }
  }

  /**
   * `piece` ends on leg `sp.hi - 1`, the leg after its last interior vertex,
   * a distance `d` along it, past the leg's start and at most the slack past its end.
   */
  ghost predicate EndsAt(coords: seq<Point>, legs: seq<real>, eps: real, piece: seq<Point>, sp: Span, d: real)
  {
    && |coords| == |legs| + 1 && 1 <= sp.hi < |coords|
    && legs[sp.hi - 1] > 0.0 && 0.0 < d <= legs[sp.hi - 1] + eps
    && |piece| >= 1 && LastOf(piece) == LegPoint(coords, sp.hi - 1, d / legs[sp.hi - 1])
  }

  /** A cut a distance `d` along leg `leg` within the slack of the leg's end vertex: there the walk snaps to the next leg. */
  ghost predicate Snapped(legs: seq<real>, eps: real, leg: nat, d: real)
    requires leg < |legs|
  {
    Abs(d - legs[leg]) < eps
  }

  /** A run after piece `sp`, cut at distance `d`, starts where its run ended, or one vertex later when its cut snapped. */
  ghost predicate Follows(legs: seq<real>, eps: real, sp: Span, d: real, lo: nat)
  {
    lo == sp.hi || (lo == sp.hi + 1 && 1 <= sp.hi <= |legs| && Snapped(legs, eps, sp.hi - 1, d))
  }

  /**
   * The pieces tile the line from its first vertex with no gap: the first
   * run of interior vertices starts at vertex 1, each piece ends on the leg
   * after its run, and each run starts at the vertex where the one before
   * ended, or one vertex later only where that piece's cut snapped to the
   * end vertex of its leg.
   */
  ghost predicate Tiles(coords: seq<Point>, legs: seq<real>, eps: real, pieces: seq<seq<Point>>, spans: seq<Span>, ds: seq<real>)
  {
    && Spans(coords, pieces, spans) && |ds| == |spans|
    && (forall i :: 0 <= i < |spans| ==> EndsAt(coords, legs, eps, pieces[i], spans[i], ds[i]))
    && (|spans| > 0 ==> spans[0].lo == 1)
    && (forall i :: 0 < i < |spans| ==> Follows(legs, eps, spans[i - 1], ds[i - 1], spans[i].lo))
  }

  ghost predicate Tiled(coords: seq<Point>, legs: seq<real>, eps: real, pieces: seq<seq<Point>>)
  {
    exists spans: seq<Span>, ds: seq<real> :: Tiles(coords, legs, eps, pieces, spans, ds)
  }

  /** The next run starts at `from`: vertex 1 before any piece, else where the last piece lets it follow. */
  ghost predicate NextRun(legs: seq<real>, eps: real, spans: seq<Span>, ds: seq<real>, from: nat)
  {
    if spans == [] then from == 1
    else |ds| == |spans| && Follows(legs, eps, spans[|spans| - 1], ds[|ds| - 1], from)
  }

  /** The closed subsegments tile the line up to the open one, whose run starts at vertex `seg + 2 - |acc|`. */
  ghost predicate Tiling(coords: seq<Point>, legs: seq<real>, eps: real, w: Walk)
  {
    && 0.0 <= w.into && |w.acc| <= w.seg + 2
    && exists spans: seq<Span>, ds: seq<real> ::
         Tiles(coords, legs, eps, w.out, spans, ds) && NextRun(legs, eps, spans, ds, w.seg + 2 - |w.acc|)
  }

  /** A piece whose run starts where the next run may start extends a tiling. */
  lemma TilesAppend(coords: seq<Point>, legs: seq<real>, eps: real, pieces: seq<seq<Point>>, spans: seq<Span>, ds: seq<real>,
                    piece: seq<Point>, sp: Span, d: real, newPieces: seq<seq<Point>>, newSpans: seq<Span>, newDs: seq<real>)
    requires Tiles(coords, legs, eps, pieces, spans, ds) && NextRun(legs, eps, spans, ds, sp.lo)
    requires SpanOf(coords, piece, sp) && EndsAt(coords, legs, eps, piece, sp, d)
    requires newPieces == pieces + [piece] && newSpans == spans + [sp] && newDs == ds + [d]
    ensures Tiles(coords, legs, eps, newPieces, newSpans, newDs)
  {
    SpansAppend(coords, pieces, spans, piece, sp);
    forall i | 0 <= i < |newSpans| ensures EndsAt(coords, legs, eps, newPieces[i], newSpans[i], newDs[i]) {
      if i < |spans| {
        assert newPieces[i] == pieces[i] && newSpans[i] == spans[i] && newDs[i] == ds[i];
      }
    }
    forall i | 0 < i < |newSpans| ensures Follows(legs, eps, newSpans[i - 1], newDs[i - 1], newSpans[i].lo) {
      if i < |spans| {
        assert newSpans[i - 1] == spans[i - 1] && newDs[i - 1] == ds[i - 1] && newSpans[i] == spans[i];
      }
    }
  }

  /** An iteration that closes a subsegment starts the open one afresh at the cut point, on the next leg exactly when it snaps. */
  lemma CutStepCursor(coords: seq<Point>, legs: seq<real>, cuts: seq<real>, eps: real, w: Walk)
    requires |coords| == |legs| + 1 && Cursor(legs, cuts, w) && w.k < |cuts|
    requires w.last < cuts[w.k] && w.seg < |legs| && cuts[w.k] - w.last <= legs[w.seg] - w.into + eps
    requires legs[w.seg] > 0.0
    ensures Step(coords, legs, cuts, eps, w).Success?
    ensures var reach := w.into + (cuts[w.k] - w.last);
      && Step(coords, legs, cuts, eps, w).value.acc == [LegPoint(coords, w.seg, reach / legs[w.seg])]
      && Step(coords, legs, cuts, eps, w).value.seg == (if Abs(reach - legs[w.seg]) < eps then w.seg + 1 else w.seg)
  {
  }

  /** The cut branch of an iteration, a distance `d` along the current leg, appends a piece that continues the tiling. */
  lemma CutTiling(coords: seq<Point>, legs: seq<real>, eps: real, w: Walk, d: real, next: Walk)
    requires |coords| == |legs| + 1 && w.seg < |legs| && legs[w.seg] > 0.0
    requires 1 <= |w.acc| <= w.seg + 1 && w.acc[1..] == coords[w.seg + 2 - |w.acc| .. w.seg + 1]
    requires Tiling(coords, legs, eps, w)
    requires 0.0 < d <= legs[w.seg] + eps
    requires next.out == w.out + [w.acc + [LegPoint(coords, w.seg, d / legs[w.seg])]] && |next.acc| == 1 && next.into >= 0.0
    requires next.seg == (if Snapped(legs, eps, w.seg, d) then w.seg + 1 else w.seg)
    ensures Tiling(coords, legs, eps, next)
  {
    var spans: seq<Span>, ds: seq<real> :|
      Tiles(coords, legs, eps, w.out, spans, ds) && NextRun(legs, eps, spans, ds, w.seg + 2 - |w.acc|);
    var newSpans, newDs := spans + [Span(w.seg + 2 - |w.acc|, w.seg + 1)], ds + [d];
    TilingAfterCut(coords, legs, eps, w.out, spans, ds, w.acc, w.seg, d, next.seg, next.out, newSpans, newDs);
    TilingIntro(coords, legs, eps, next, newSpans, newDs);
  }

  /** A walk whose closed pieces tile with a run that goes on where the next open one starts is tiling. */
  lemma TilingIntro(coords: seq<Point>, legs: seq<real>, eps: real, w: Walk, spans: seq<Span>, ds: seq<real>)
    requires 0.0 <= w.into && |w.acc| <= w.seg + 2
    requires Tiles(coords, legs, eps, w.out, spans, ds) && NextRun(legs, eps, spans, ds, w.seg + 2 - |w.acc|)
    ensures Tiling(coords, legs, eps, w)
  {
  }

  /**
   * The cut branch of an iteration closes the open subsegment at the point a
   * distance `d` along the current leg, past its start and within the leg and
   * its slack, and moves on to the next leg exactly when that point snaps to
   * the leg's end vertex.
   */
  lemma CutReach(coords: seq<Point>, legs: seq<real>, cuts: seq<real>, eps: real, w: Walk)
    requires |coords| == |legs| + 1 && Cursor(legs, cuts, w) && w.k < |cuts|
    requires w.last < cuts[w.k] && w.seg < |legs| && cuts[w.k] - w.last <= legs[w.seg] - w.into + eps
    requires legs[w.seg] > 0.0 && w.into >= 0.0
    ensures Step(coords, legs, cuts, eps, w).Success?
    ensures var next := Step(coords, legs, cuts, eps, w).value;
      var d := w.into + (cuts[w.k] - w.last);
      && 0.0 < d <= legs[w.seg] + eps
      && next.out == w.out + [w.acc + [LegPoint(coords, w.seg, d / legs[w.seg])]] && |next.acc| == 1 && next.into >= 0.0
      && next.seg == (if Snapped(legs, eps, w.seg, d) then w.seg + 1 else w.seg)
  {
    CutStep(coords, legs, cuts, eps, w);
    CutStepCursor(coords, legs, cuts, eps, w);
  }

  /**
   * Closing the open subsegment (first point, then the vertices from `seg + 2 - |acc|`
   * to `seg`) at a cut a distance `d` along leg `seg` extends the tiling, and the
   * next run starts after the leg's end vertex exactly when the cut snaps.
   */
  lemma TilingAfterCut(coords: seq<Point>, legs: seq<real>, eps: real, pieces: seq<seq<Point>>, spans: seq<Span>, ds: seq<real>,
                       acc: seq<Point>, seg: nat, d: real, nextSeg: nat,
                       newPieces: seq<seq<Point>>, newSpans: seq<Span>, newDs: seq<real>)
    requires |coords| == |legs| + 1 && seg < |legs| && legs[seg] > 0.0
    requires 0.0 < d <= legs[seg] + eps
    requires 1 <= |acc| <= seg + 1 && acc[1..] == coords[seg + 2 - |acc| .. seg + 1]
    requires Tiles(coords, legs, eps, pieces, spans, ds) && NextRun(legs, eps, spans, ds, seg + 2 - |acc|)
    requires nextSeg == (if Snapped(legs, eps, seg, d) then seg + 1 else seg)
    requires newPieces == pieces + [acc + [LegPoint(coords, seg, d / legs[seg])]]
    requires newSpans == spans + [Span(seg + 2 - |acc|, seg + 1)] && newDs == ds + [d]
    ensures Tiles(coords, legs, eps, newPieces, newSpans, newDs) && NextRun(legs, eps, newSpans, newDs, nextSeg + 1)
  {
    var piece, sp := acc + [LegPoint(coords, seg, d / legs[seg])], Span(seg + 2 - |acc|, seg + 1);
    assert SpanOf(coords, piece, sp) by {
      assert Interior(piece) == acc[1..];
    }
    assert EndsAt(coords, legs, eps, piece, sp, d);
    TilesAppend(coords, legs, eps, pieces, spans, ds, piece, sp, d, newPieces, newSpans, newDs);
    assert Follows(legs, eps, sp, d, nextSeg + 1);
  }

  lemma StepTiling(coords: seq<Point>, legs: seq<real>, cuts: seq<real>, eps: real, w: Walk)
    requires Inv(coords, legs, cuts, eps, w) && Tiling(coords, legs, eps, w) && w.k < |cuts|
    requires forall i :: 0 <= i < |legs| ==> legs[i] >= 0.0
    requires Step(coords, legs, cuts, eps, w).Success?
    ensures Tiling(coords, legs, eps, Step(coords, legs, cuts, eps, w).value)
  {
    if w.last < cuts[w.k] && w.seg < |legs| && cuts[w.k] - w.last <= legs[w.seg] - w.into + eps {
      assert legs[w.seg] > 0.0 by {
        assert legs[w.seg] != 0.0;
      }
      CutReach(coords, legs, cuts, eps, w);
      var d := w.into + (cuts[w.k] - w.last);
      CutTiling(coords, legs, eps, w, d, Step(coords, legs, cuts, eps, w).value);
    } else {
      var next := Step(coords, legs, cuts, eps, w).value;
      assert next.out == w.out && next.seg + 2 - |next.acc| == w.seg + 2 - |w.acc| && next.into >= 0.0;
    }
  }

  lemma {:induction false} FinalTiling(coords: seq<Point>, legs: seq<real>, cuts: seq<real>, eps: real, w: Walk)
    requires Inv(coords, legs, cuts, eps, w) && Tiling(coords, legs, eps, w)
    requires forall i :: 0 <= i < |legs| ==> legs[i] >= 0.0
    ensures Final(coords, legs, cuts, eps, w).Success? ==>
      Tiling(coords, legs, eps, Final(coords, legs, cuts, eps, w).value)
    decreases |cuts| - w.k, |legs| - w.seg, Seeking(cuts, w)
  {
    if w.k < |cuts| && Step(coords, legs, cuts, eps, w).Success? {
      StepKeepsInv(coords, legs, cuts, eps, w);
      StepTiling(coords, legs, cuts, eps, w);
      FinalTiling(coords, legs, cuts, eps, Step(coords, legs, cuts, eps, w).value);
    }
  }

  /**
   * For any slack, the subsegments of `densify_linestring` tile the line from
   * its first vertex: no original vertex between the first and the last cut is
   * left out, except the end vertex of a leg whose cut snapped to it.
   */
  lemma DensifyTiled(dist: DistFn, coords: seq<Point>, targetLen: real, eps: real)
    requires targetLen != 0.0 && eps >= 0.0
    ensures DensifySpec(dist, coords, targetLen, eps).Success? ==>
      Tiled(coords, Legs(dist, coords), eps, DensifySpec(dist, coords, targetLen, eps).value)
  {
    var legs := Legs(dist, coords);
    assert Tiles(coords, legs, eps, [], [], []);
    if |coords| >= 2 && ChainLength(dist, coords) != 0.0 {
      var total := Sum(legs);
      SumNonNegative(legs);
      var n := PieceCount(total, targetLen);
      var cuts := CutPositions(total, n);
      CutsIncrease(total, n);
      StartInv(coords, legs, cuts, eps);
      assert Tiling(coords, legs, eps, Start(coords)) by {
        assert NextRun(legs, eps, [], [], 1);
      }
      FinalTiling(coords, legs, cuts, eps, Start(coords));
      FilterRemovesNone(coords, legs, cuts, eps, Start(coords));
    }
  }

  /** Each run starts exactly where the one before ended, the first at vertex 1. */
  ghost predicate Contiguous(spans: seq<Span>)
  {
    && (|spans| > 0 ==> spans[0].lo == 1)
    && (forall i :: 0 < i < |spans| ==> spans[i].lo == spans[i - 1].hi)
  }

  /** With no slack no cut snaps, so a tiling's runs are contiguous. */
  lemma TilesExactContiguous(coords: seq<Point>, legs: seq<real>, pieces: seq<seq<Point>>, spans: seq<Span>, ds: seq<real>)
    requires Tiles(coords, legs, 0.0, pieces, spans, ds)
    ensures Contiguous(spans)
  {
    forall i | 0 < i < |spans| ensures spans[i].lo == spans[i - 1].hi {
      assert Follows(legs, 0.0, spans[i - 1], ds[i - 1], spans[i].lo);
    }
  }

  /**
   * In exact arithmetic with no slack, the `n` subsegments of
   * `densify_linestring` tile the line with contiguous runs: each piece is the
   * cut point before it, every original vertex up to the leg of its own cut,
   * and that cut point.
   */
  lemma DensifyExactTiled(dist: DistFn, coords: seq<Point>, targetLen: real)
    requires targetLen != 0.0 && |coords| >= 2 && ChainLength(dist, coords) > 0.0
    ensures DensifySpec(dist, coords, targetLen, 0.0).Success?
    ensures exists spans: seq<Span>, ds: seq<real> ::
      Tiles(coords, Legs(dist, coords), 0.0, DensifySpec(dist, coords, targetLen, 0.0).value, spans, ds)
      && Contiguous(spans)
  {
    DensifyExact(dist, coords, targetLen);
    DensifyTiled(dist, coords, targetLen, 0.0);
    var pieces := DensifySpec(dist, coords, targetLen, 0.0).value;
    var spans: seq<Span>, ds: seq<real> :| Tiles(coords, Legs(dist, coords), 0.0, pieces, spans, ds);
    TilesExactContiguous(coords, Legs(dist, coords), pieces, spans, ds);
  }

  /**
   * The open subsegment with the line's last vertex appended unless it already
   * ends there: the fix-up after the walk.
   */
  function Close(coords: seq<Point>, acc: seq<Point>): (c: seq<Point>)
    requires |coords| >= 1
    ensures |c| >= 1 && LastOf(c) == coords[|coords| - 1]
    ensures |acc| <= |c| <= |acc| + 1 && c[..|acc|] == acc
  {
    if |acc| >= 1 && LastOf(acc) == coords[|coords| - 1] then acc else acc + [coords[|coords| - 1]]
  }

  /**
   * The end of the walk as evidently intended, for `n` pieces: the open
   * subsegment, closed at the line's last vertex, is the missing last piece
   * when the walk closed fewer than `n`; otherwise it extends the last piece
   * to that vertex.
   */
  function Finish(coords: seq<Point>, n: nat, out: seq<seq<Point>>, acc: seq<Point>): seq<seq<Point>>
    requires |coords| >= 1
  {
    var c := Close(coords, acc);
    if |out| < n || out == [] then out + [c]
    else out[..|out| - 1] + [out[|out| - 1] + c[1..]]
  }

  /**
   * The walk as evidently intended: the fixed-up open subsegment is kept
   * before the filter of degenerate pieces, so a walk that runs out of legs
   * short of the last cut position keeps the rest of the line.
   */
  function RunClosed(coords: seq<Point>, legs: seq<real>, cuts: seq<real>, eps: real, w: Walk)
    : Result<seq<seq<Point>>, DensifyError>
    requires |coords| == |legs| + 1 && Cursor(legs, cuts, w)
  {
    match Final(coords, legs, cuts, eps, w)
    case Failure(e) => Failure(e)
    case Success(f) => Success(Proper(Finish(coords, |cuts| - 1, f.out, f.acc)))
  }

  /** `densify_linestring` with the open subsegment emitted at the end of the walk. */
  function DensifyClosed(dist: DistFn, coords: seq<Point>, targetLen: real, eps: real)
    : Result<seq<seq<Point>>, DensifyError>
    requires targetLen != 0.0
  {
    if |coords| < 2 then Success([])
    else
      var legs := Legs(dist, coords);
      var total := Sum(legs);
      if total == 0.0 then Success([])
      else RunClosed(coords, legs, CutPositions(total, PieceCount(total, targetLen)), eps, Start(coords))
  }

  /** Once the walk has moved, it has closed a subsegment or walked past a vertex. */
  ghost predicate Begun(legs: seq<real>, cuts: seq<real>, w: Walk)
  {
    && |w.acc| >= 1
    && (w.out == [] && |w.acc| == 1 ==> w.last == 0.0 && w.seg == 0 && w.k < |cuts|)
  }

  lemma {:induction false} FinalBegun(coords: seq<Point>, legs: seq<real>, cuts: seq<real>, eps: real, w: Walk)
    requires |coords| == |legs| + 1 && |legs| >= 1 && Cursor(legs, cuts, w) && Begun(legs, cuts, w)
    requires forall i :: 1 <= i < |cuts| ==> cuts[i] > 0.0
    ensures Final(coords, legs, cuts, eps, w).Success? ==> Begun(legs, cuts, Final(coords, legs, cuts, eps, w).value)
    decreases |cuts| - w.k, |legs| - w.seg, Seeking(cuts, w)
  {
    if w.k < |cuts| && Step(coords, legs, cuts, eps, w).Success? {
      FinalBegun(coords, legs, cuts, eps, Step(coords, legs, cuts, eps, w).value);
    }
  }

  /**
   * With the open subsegment kept, a successful densification of a line of
   * positive length yields between one and `n` subsegments, and the last one
   * ends at the line's last vertex.
   */
  lemma DensifyClosedEndsAtLastVertex(dist: DistFn, coords: seq<Point>, targetLen: real, eps: real)
    requires targetLen != 0.0 && eps >= 0.0 && |coords| >= 2 && ChainLength(dist, coords) > 0.0
    ensures DensifyClosed(dist, coords, targetLen, eps).Success? ==>
      var pieces := DensifyClosed(dist, coords, targetLen, eps).value;
      && 1 <= |pieces| <= PieceCount(ChainLength(dist, coords), targetLen)
      && LastOf(pieces[|pieces| - 1]) == coords[|coords| - 1]
  {
    var legs := Legs(dist, coords);
    var total := Sum(legs);
    var n := PieceCount(total, targetLen);
    var cuts := CutPositions(total, n);
    assert DensifyClosed(dist, coords, targetLen, eps) == RunClosed(coords, legs, cuts, eps, Start(coords));
    CutsIncrease(total, n);
    ClosedEndsAtLastVertex(coords, legs, cuts, eps);
  }

  lemma ClosedEndsAtLastVertex(coords: seq<Point>, legs: seq<real>, cuts: seq<real>, eps: real)
    requires |coords| == |legs| + 1 && |legs| >= 1 && |cuts| >= 2 && eps >= 0.0
    requires cuts[0] == 0.0 && forall i, j :: 0 <= i < j < |cuts| ==> cuts[i] < cuts[j]
    ensures RunClosed(coords, legs, cuts, eps, Start(coords)).Success? ==>
      var pieces := RunClosed(coords, legs, cuts, eps, Start(coords)).value;
      1 <= |pieces| <= |cuts| - 1 && LastOf(pieces[|pieces| - 1]) == coords[|coords| - 1]
  {
    var w := Start(coords);
    assert Inv(coords, legs, cuts, eps, w) && Forward(coords, w) by {
      StartInv(coords, legs, cuts, eps);
    }
    assert forall i :: 1 <= i < |cuts| ==> cuts[i] > 0.0 by {
      CutsPositive(cuts);
    }
    ClosedFrom(coords, legs, cuts, eps, w);
  }

  lemma CutsPositive(cuts: seq<real>)
    requires |cuts| >= 1 && cuts[0] == 0.0 && forall i, j :: 0 <= i < j < |cuts| ==> cuts[i] < cuts[j]
    ensures forall i :: 1 <= i < |cuts| ==> cuts[i] > 0.0
  {
    forall i | 1 <= i < |cuts| ensures cuts[i] > 0.0 {
      assert cuts[0] < cuts[i];
    }
  }

  /** The corrected walk from an invariant cursor that has begun ends its last subsegment at the last vertex. */
  lemma ClosedFrom(coords: seq<Point>, legs: seq<real>, cuts: seq<real>, eps: real, w: Walk)
    requires Inv(coords, legs, cuts, eps, w) && Forward(coords, w) && |legs| >= 1 && |cuts| >= 2 && Begun(legs, cuts, w)
    requires forall i :: 1 <= i < |cuts| ==> cuts[i] > 0.0
    ensures RunClosed(coords, legs, cuts, eps, w).Success? ==>
      var pieces := RunClosed(coords, legs, cuts, eps, w).value;
      1 <= |pieces| <= |cuts| - 1 && LastOf(pieces[|pieces| - 1]) == coords[|coords| - 1]
  {
    FinalKeepsInv(coords, legs, cuts, eps, w);
    FinalBegun(coords, legs, cuts, eps, w);
    if Final(coords, legs, cuts, eps, w).Success? {
      ClosedPieces(coords, legs, cuts, eps, Final(coords, legs, cuts, eps, w).value);
    }
  }

  /** The pieces emitted at the end of a walk that has begun: at most one per cut position, the last ending at the last vertex. */
  lemma ClosedPieces(coords: seq<Point>, legs: seq<real>, cuts: seq<real>, eps: real, f: Walk)
    requires Inv(coords, legs, cuts, eps, f) && Begun(legs, cuts, f) && f.k == |cuts| && |cuts| >= 2
    ensures var pieces := Proper(Finish(coords, |cuts| - 1, f.out, f.acc));
      1 <= |pieces| <= |cuts| - 1 && LastOf(pieces[|pieces| - 1]) == coords[|coords| - 1]
  {
    assert |f.out| <= |cuts| - 1;
    assert f.out == [] ==> |f.acc| >= 2;
    FinishPieces(coords, |cuts| - 1, f.out, f.acc);
  }

  /** The corrected end of a walk that closed at most `n` pieces and has begun. */
  lemma FinishPieces(coords: seq<Point>, n: nat, out: seq<seq<Point>>, acc: seq<Point>)
    requires |coords| >= 1 && 1 <= n && |out| <= n && |acc| >= 1
    requires forall i :: 0 <= i < |out| ==> |out[i]| >= 2
    requires out != [] ==> acc[0] == LastOf(out[|out| - 1])
    requires out == [] ==> |acc| >= 2
    ensures var pieces := Proper(Finish(coords, n, out, acc));
      1 <= |pieces| <= n && LastOf(pieces[|pieces| - 1]) == coords[|coords| - 1]
  {
    var c := Close(coords, acc);
    if |out| < n || out == [] {
      if |c| >= 2 {
        ProperKeepsProper(out + [c]);
      } else {
        ProperKeepsProper(out);
        ProperAppendShort(out, c);
      }
    } else {
      ExtendLast(coords, out, acc);
    }
  }

  /** Extending the last of the closed pieces by the closed-up open subsegment that starts where it ends. */
  lemma ExtendLast(coords: seq<Point>, out: seq<seq<Point>>, acc: seq<Point>)
    requires |coords| >= 1 && |out| >= 1 && |acc| >= 1
    requires forall i :: 0 <= i < |out| ==> |out[i]| >= 2
    requires acc[0] == LastOf(out[|out| - 1])
    ensures var c := Close(coords, acc);
      var pieces := Proper(out[..|out| - 1] + [out[|out| - 1] + c[1..]]);
      |pieces| == |out| && LastOf(pieces[|pieces| - 1]) == coords[|coords| - 1]
  {
    var c := Close(coords, acc);
    var last := out[|out| - 1] + c[1..];
    var all := out[..|out| - 1] + [last];
    assert LastOf(last) == coords[|coords| - 1] by {
      if |c| == 1 {
        assert c == acc && last == out[|out| - 1];
      }
    }
    assert forall i :: 0 <= i < |all| ==> |all[i]| >= 2 by {
      forall i | 0 <= i < |all| ensures |all[i]| >= 2 {
        if i < |out| - 1 {
          assert all[i] == out[i];
        }
      }
    }
    ProperKeepsProper(all);
  }

  lemma ProperAppendShort(pieces: seq<seq<Point>>, c: seq<Point>)
    requires |c| < 2
    ensures Proper(pieces + [c]) == Proper(pieces)
  {
    assert (pieces + [c])[..|pieces|] == pieces;
  }

  /**
   * The walk of `densify_linestring` (its lines 51-89) over precomputed leg
   * lengths and cut positions, as the source writes it.
   */
  method WalkCuts(coords: seq<Point>, legs: seq<real>, cuts: seq<real>)
    returns (r: Result<seq<seq<Point>>, DensifyError>)
    requires |coords| == |legs| + 1 && |cuts| >= 1
    ensures r == Run(coords, legs, cuts, Tolerance, Start(coords))
  {
    var out: seq<seq<Point>> := [];
    var seg: nat, into, last := 0, 0.0, 0.0;
    var acc := [coords[0]];
    ghost var outcome := Final(coords, legs, cuts, Tolerance, Start(coords));
    for k := 1 to |cuts|
      invariant seg <= |legs| && |acc| >= 1
      invariant Final(coords, legs, cuts, Tolerance, Walk(k, seg, into, last, acc, out)) == outcome
    {
      var cutAbs := cuts[k];
      while last < cutAbs && seg < |legs|
        invariant seg <= |legs| && |acc| >= 1
        invariant Final(coords, legs, cuts, Tolerance, Walk(k, seg, into, last, acc, out)) == outcome
        decreases |legs| - seg, if last < cutAbs then 1 else 0
      {
        ghost var w := Walk(k, seg, into, last, acc, out);
        var segLen := legs[seg];
        var remaining := segLen - into;
        var needed := cutAbs - last;
        if needed <= remaining + Tolerance {
          if segLen == 0.0 {
            return Failure(ZeroLengthLeg(seg));
          }
          var t := (into + needed) / segLen;
          var cutPt := Interpolate(coords[seg], coords[seg + 1], t);
          acc := acc + [cutPt];
          out := out + [acc];
          acc := [cutPt];
          last := cutAbs;
          into := into + needed;
          if Abs(into - segLen) < Tolerance {
            seg := seg + 1;
            into := 0.0;
          }
        } else {
          last := last + remaining;
          seg := seg + 1;
          into := 0.0;
          acc := acc + [coords[seg]];
        }
        assert Step(coords, legs, cuts, Tolerance, w) == Success(Walk(k, seg, into, last, acc, out));
      }
      assert Step(coords, legs, cuts, Tolerance, Walk(k, seg, into, last, acc, out))
          == Success(Walk(k + 1, seg, into, last, acc, out));
    }
    // The closing vertex is added to the open subsegment, which is never emitted.
    if acc[|acc| - 1] != coords[|coords| - 1] {
      acc := acc + [coords[|coords| - 1]];
    }
    return Success(Proper(out));
  }

  /** `densify_linestring`: leg lengths, piece count and cut positions, then the walk. */
  method Densify(dist: DistFn, coords: seq<Point>, targetLen: real)
    returns (r: Result<seq<seq<Point>>, DensifyError>)
    requires targetLen != 0.0
    ensures r == DensifySpec(dist, coords, targetLen, Tolerance)
    ensures r.Success? ==>
      |r.value| <= PieceCount(ChainLength(dist, coords), targetLen) && Shaped(coords, r.value)
    ensures r.Success? ==> Tiled(coords, Legs(dist, coords), Tolerance, r.value)
    ensures r.Success? ==> forall i :: 0 <= i < |r.value| ==>
      |r.value[i]| >= 1 && OnLeg(coords, Legs(dist, coords), Tolerance, LastOf(r.value[i]))
    ensures r.Failure? ==> r.error.leg + 1 < |coords| && dist(coords[r.error.leg], coords[r.error.leg + 1]) == 0.0
  {
    DensifyShaped(dist, coords, targetLen, Tolerance);
    DensifyCutsOnLegs(dist, coords, targetLen, Tolerance);
    DensifyFailsOnZeroLeg(dist, coords, targetLen, Tolerance);
    if |coords| < 2 {
      return Success([]);
    }
    var legs := Legs(dist, coords);
    var total := Sum(legs);
    if total == 0.0 {
      return Success([]);
    }
    var n := PieceCount(total, targetLen);
    var cuts := CutPositions(total, n);
    r := WalkCuts(coords, legs, cuts);
  }
}
