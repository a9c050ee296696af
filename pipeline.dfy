/**
 * One pass of the traffic ETL (`run_once`): every LineString feature of the
 * road network is cut into subsegments, the subsegments are sent to the
 * routing service in consecutive batches, and each one comes back as an
 * output feature carrying its speed, distance, duration, timestamp and
 * colour, with the routing data when the service reported it and a
 * geometric fallback otherwise.
 *
 * The routing service and the clock are parameters: `upstream(b, origins,
 * destinations)` is the reply to the `b`-th request and `clock(j)` the
 * timestamp read for the `j`-th output feature.
 */
module Pipeline {
  import opened Wrappers
  import opened Geometry
  import opened Densify
  import opened Speed
  import Batching

  /** A JSON scalar in a feature's properties. */
  datatype Value = Null | Bool(b: bool) | Num(n: real) | Str(s: string)

  type Props = map<string, Value>

  /** The `geometry` member of a feature: absent, `null`, or an object. */
  datatype GeomField = GeomAbsent | GeomNull | GeomPresent(kind: Option<string>, coords: seq<Point>)

  /** An entry of the input `features` array: not a JSON object, or a feature with its geometry and its properties (absent, `null` or empty as `None`). */
  datatype Feature = NonObject | Feature(geometry: GeomField, properties: Option<Props>)

  /** Why a run stops: a feature with a `null` geometry, or a line with a zero-length leg. */
  datatype PipelineError = NullGeometryAt(feature: nat) | DensifyFailedAt(feature: nat, error: DensifyError)

  /** A subsegment with its two ends and the properties of the feature it was cut from. */
  datatype Sub = Sub(origin: Point, dest: Point, coords: seq<Point>, props: Props)

  ghost predicate WellFormed(s: Sub)
  {
    |s.coords| >= 2 && s.origin == s.coords[0] && s.dest == LastOf(s.coords)
  }

  function MakeSub(piece: seq<Point>, props: Props): (s: Sub)
    requires |piece| >= 2
    ensures WellFormed(s) && s.coords == piece && s.props == props
  {
    Sub(piece[0], LastOf(piece), piece, props)
  }

  /** One subsegment per piece of a densified line, in order, each with the feature's properties. */
  function PiecesToSubs(pieces: seq<seq<Point>>, props: Props): (subs: seq<Sub>)
    requires forall i :: 0 <= i < |pieces| ==> |pieces[i]| >= 2
    ensures |subs| == |pieces|
    ensures forall i :: 0 <= i < |subs| ==> subs[i] == MakeSub(pieces[i], props)
  {
    if pieces == [] then []
    else PiecesToSubs(pieces[..|pieces| - 1], props) + [MakeSub(pieces[|pieces| - 1], props)]
  }

  /** The properties of a feature as the run reads them, `{}` when absent or `null`. */
  function PropsOf(f: Feature): Props
    requires f.Feature?
  {
    f.properties.GetOr(map[])
  }

  /** `f` is a LineString feature whose line densifies without error. */
  ghost predicate DensifiedLine(dist: DistFn, f: Feature, targetLen: real)
    requires targetLen != 0.0
  {
    && f.Feature? && f.geometry.GeomPresent? && f.geometry.kind == Some("LineString")
    && DensifySpec(dist, f.geometry.coords, targetLen, Tolerance).Success?
  }

  /** `s` is one of the subsegments of the line of feature `f`, with that feature's properties. */
  ghost predicate PieceOf(dist: DistFn, s: Sub, f: Feature, targetLen: real)
    requires targetLen != 0.0
  {
    && WellFormed(s) && DensifiedLine(dist, f, targetLen)
    && s.coords in DensifySpec(dist, f.geometry.coords, targetLen, Tolerance).value
    && s.props == PropsOf(f)
  }

  /** The subsegments of the `index`-th feature: none unless it is a LineString feature. */
  function FeatureSubs(dist: DistFn, f: Feature, index: nat, targetLen: real): (r: Result<seq<Sub>, PipelineError>)
    requires targetLen != 0.0
    ensures r.Success? ==> forall i :: 0 <= i < |r.value| ==> PieceOf(dist, r.value[i], f, targetLen)
    ensures r.Failure? ==> r.error.feature == index
  {
    match f
    case NonObject => Success([])
    case Feature(geometry, _) =>
      match geometry
      case GeomAbsent => Success([])
      case GeomNull => Failure(NullGeometryAt(index))
      case GeomPresent(kind, coords) =>
        if kind != Some("LineString") then Success([])
        else
          match DensifySpec(dist, coords, targetLen, Tolerance)
          case Failure(e) => Failure(DensifyFailedAt(index, e))
          case Success(pieces) => Success(PiecesToSubs(pieces, PropsOf(f)))
  }

  /** The subsegments of all features, in feature order; the first feature that raises stops the run. */
  function SubsOf(dist: DistFn, features: seq<Feature>, targetLen: real): Result<seq<Sub>, PipelineError>
    requires targetLen != 0.0
  {
    if features == [] then Success([])
    else
      var n := |features| - 1;
      match SubsOf(dist, features[..n], targetLen)
      case Failure(e) => Failure(e)
      case Success(subs) =>
        match FeatureSubs(dist, features[n], n, targetLen)
        case Failure(e) => Failure(e)
        case Success(more) => Success(subs + more)
  }

  /** Every subsegment is a piece of the densified line of some LineString feature of `features`, with its properties. */
  ghost predicate FromFeatures(dist: DistFn, subs: seq<Sub>, features: seq<Feature>, targetLen: real)
    requires targetLen != 0.0
  {
    forall i :: 0 <= i < |subs| ==> CutFromSome(dist, subs[i], features, targetLen)
  }

  /** `s` is a piece of the densified line of some LineString feature of `features`, with its properties. */
  ghost predicate CutFromSome(dist: DistFn, s: Sub, features: seq<Feature>, targetLen: real)
    requires targetLen != 0.0
  {
    exists f :: 0 <= f < |features| && PieceOf(dist, s, features[f], targetLen)
  }

  /**
   * Every subsegment collected has at least two points and its two ends, and
   * it is one of the pieces of the densified line of a LineString feature of
   * the input, whose properties it carries.
   */
  lemma {:induction false} SubsOfSound(dist: DistFn, features: seq<Feature>, targetLen: real)
    requires targetLen != 0.0
    ensures SubsOf(dist, features, targetLen).Success? ==>
      FromFeatures(dist, SubsOf(dist, features, targetLen).value, features, targetLen)
  {
    if features != [] {
      var n := |features| - 1;
      SubsOfSound(dist, features[..n], targetLen);
      var prefix := SubsOf(dist, features[..n], targetLen);
      var r := FeatureSubs(dist, features[n], n, targetLen);
      if prefix.Success? && r.Success? {
        AppendFromFeatures(dist, prefix.value, r.value, features, targetLen);
      }
    }
  }

  lemma AppendFromFeatures(dist: DistFn, subs: seq<Sub>, more: seq<Sub>, features: seq<Feature>, targetLen: real)
    requires targetLen != 0.0 && |features| >= 1
    requires FromFeatures(dist, subs, features[..|features| - 1], targetLen)
    requires forall i :: 0 <= i < |more| ==> PieceOf(dist, more[i], features[|features| - 1], targetLen)
    ensures FromFeatures(dist, subs + more, features, targetLen)
  {
    var n := |features| - 1;
    var all := subs + more;
    forall i | 0 <= i < |all|
      ensures CutFromSome(dist, all[i], features, targetLen)
    {
      if i < |subs| {
        var f :| 0 <= f < n && PieceOf(dist, subs[i], features[..n][f], targetLen);
        assert features[f] == features[..n][f];
      } else {
        assert all[i] == more[i - |subs|];
        assert PieceOf(dist, all[i], features[n], targetLen);
      }
    }
  }

  /** A run that stops names a feature whose geometry is `null`, or a LineString with a zero-length leg. */
  lemma {:induction false} SubsOfFailure(dist: DistFn, features: seq<Feature>, targetLen: real)
    requires targetLen != 0.0
    ensures SubsOf(dist, features, targetLen).Failure? ==>
      var e := SubsOf(dist, features, targetLen).error;
      && e.feature < |features| && features[e.feature].Feature?
      && (e.NullGeometryAt? ==> features[e.feature].geometry.GeomNull?)
      && (e.DensifyFailedAt? ==>
            features[e.feature].geometry.GeomPresent?
            && DensifySpec(dist, features[e.feature].geometry.coords, targetLen, Tolerance) == Failure(e.error))
  {
    if features != [] {
      var n := |features| - 1;
      SubsOfFailure(dist, features[..n], targetLen);
      var prefix := SubsOf(dist, features[..n], targetLen);
      if prefix.Failure? {
        assert features[prefix.error.feature] == features[..n][prefix.error.feature];
      }
    }
  }

  /** One more feature: its subsegments are appended, or it stops the run. */
  lemma SubsOfStep(dist: DistFn, features: seq<Feature>, i: nat, targetLen: real, subs: seq<Sub>)
    requires targetLen != 0.0 && i < |features|
    requires SubsOf(dist, features[..i], targetLen) == Success(subs)
    ensures SubsOf(dist, features[..i + 1], targetLen) ==
      match FeatureSubs(dist, features[i], i, targetLen)
      case Failure(e) => Failure(e)
      case Success(more) => Success(subs + more)
  {
    assert features[..i + 1][..i] == features[..i];
  }

  /** Once a prefix of the features stops the run, the whole run stops there. */
  lemma {:induction false} SubsOfStops(dist: DistFn, features: seq<Feature>, k: nat, targetLen: real)
    requires targetLen != 0.0 && k <= |features|
    requires SubsOf(dist, features[..k], targetLen).Failure?
    ensures SubsOf(dist, features, targetLen) == SubsOf(dist, features[..k], targetLen)
    decreases |features|
  {
    if k == |features| {
      assert features[..k] == features;
    } else {
      var n := |features| - 1;
      assert features[..n][..k] == features[..k];
      SubsOfStops(dist, features[..n], k, targetLen);
    }
  }

  /**
   * The body of the feature loop of `run_once` for the `index`-th feature:
   * a LineString feature is densified and one subsegment appended per piece,
   * with its ends and the feature's properties.
   */
  method FeatureSubsegments(dist: DistFn, f: Feature, index: nat, targetLen: real)
    returns (r: Result<seq<Sub>, PipelineError>)
    requires targetLen != 0.0
    ensures r == FeatureSubs(dist, f, index, targetLen)
  {
    if f.NonObject? {
      return Success([]);
    }
    var props := f.properties.GetOr(map[]);
    match f.geometry
    case GeomAbsent =>
      return Success([]);
    case GeomNull =>
      return Failure(NullGeometryAt(index));
    case GeomPresent(kind, coords) =>
      if kind != Some("LineString") {
        return Success([]);
      }
      r := LineSubsegments(dist, coords, props, index, targetLen);
  }

  /** A LineString feature's line densified, one subsegment per piece, or the feature's error. */
  method LineSubsegments(dist: DistFn, coords: seq<Point>, props: Props, index: nat, targetLen: real)
    returns (r: Result<seq<Sub>, PipelineError>)
    requires targetLen != 0.0
    ensures DensifySpec(dist, coords, targetLen, Tolerance).Failure? ==>
      r == Failure(DensifyFailedAt(index, DensifySpec(dist, coords, targetLen, Tolerance).error))
    ensures DensifySpec(dist, coords, targetLen, Tolerance).Success? ==>
      r == Success(PiecesToSubs(DensifySpec(dist, coords, targetLen, Tolerance).value, props))
  {
    var pieces := Densify.Densify(dist, coords, targetLen);
    if pieces.Failure? {
      return Failure(DensifyFailedAt(index, pieces.error));
    }
    var subs := PiecesSubsegments(pieces.value, props);
    return Success(subs);
  }

  /** The subsegments of a densified line: one per piece, with its two ends and the feature's properties. */
  method PiecesSubsegments(pieces: seq<seq<Point>>, props: Props) returns (subs: seq<Sub>)
    requires forall i :: 0 <= i < |pieces| ==> |pieces[i]| >= 2
    ensures subs == PiecesToSubs(pieces, props)
  {
    subs := [];
    for j := 0 to |pieces|
      invariant subs == PiecesToSubs(pieces[..j], props)
    {
      var seg := pieces[j];
      assert pieces[..j + 1][..j] == pieces[..j];
      subs := subs + [Sub(seg[0], seg[|seg| - 1], seg, props)];
    }
    assert pieces[..|pieces|] == pieces;
  }

  /** The feature loop of `run_once`: the subsegments of every feature, in feature order. */
  method CollectSubsegments(dist: DistFn, features: seq<Feature>, targetLen: real)
    returns (r: Result<seq<Sub>, PipelineError>)
    requires targetLen != 0.0
    ensures r == SubsOf(dist, features, targetLen)
  {
    var subs: seq<Sub> := [];
    for i := 0 to |features|
      invariant SubsOf(dist, features[..i], targetLen) == Success(subs)
    {
      SubsOfStep(dist, features, i, targetLen, subs);
      var more := FeatureSubsegments(dist, features[i], i, targetLen);
      if more.Failure? {
        SubsOfStops(dist, features, i + 1, targetLen);
        return Failure(more.error);
      }
      subs := subs + more.value;
    }
    assert features[..|features|] == features;
    return Success(subs);
  }

  /** The routing service's entry for one origin/destination pair of a batch. */
  datatype Cell = Cell(
    originIndex: Option<int>,
    destinationIndex: Option<int>,
    status: Option<string>,
    duration: Option<string>,
    distanceMeters: Option<real>)

  /** The outcome of one matrix request: it raised, or it returned its cells. */
  datatype Reply = Failed | Cells(cells: seq<Cell>)

  /** The reply to the `b`-th request, given that batch's origins and destinations. */
  type Upstream = (nat, seq<Point>, seq<Point>) -> Reply

  predicate SelfPaired(c: Cell, idx: nat)
  {
    c.originIndex == Some(idx as int) && c.destinationIndex == Some(idx as int)
  }

  /** The position of the first cell pairing origin `idx` with destination `idx`, if any. */
  function FirstSelfPaired(cells: seq<Cell>, idx: nat): (r: Option<nat>)
    ensures r.Some? ==> r.value < |cells| && SelfPaired(cells[r.value], idx)
    ensures r.Some? ==> forall i :: 0 <= i < r.value ==> !SelfPaired(cells[i], idx)
    ensures r.None? ==> forall i :: 0 <= i < |cells| ==> !SelfPaired(cells[i], idx)
  {
    if cells == [] then None
    else if SelfPaired(cells[0], idx) then Some(0)
    else match FirstSelfPaired(cells[1..], idx)
      case None => None
      case Some(i) => Some(i + 1)
  }

  /** An output feature: the subsegment's points and its annotated properties. */
  datatype OutFeature = OutFeature(coords: seq<Point>, props: Props)

  const SpeedKey := "speed_kmh"
  const DistanceKey := "distance_m"
  const DurationKey := "duration"
  const UpdatedKey := "updated_at"
  const ColorKey := "color"

  function AddedKeys(): set<string>
  {
    {SpeedKey, DistanceKey, DurationKey, UpdatedKey, ColorKey}
  }

  /** The parent properties overridden by the five keys of the output. */
  function Annotate(props: Props, speed: Option<real>, distM: real, duration: Option<string>, stamp: string): Props
  {
    props[SpeedKey := if speed.None? then Null else Num(Round1(speed.value))]
         [DistanceKey := Num(Round1(distM))]
         [DurationKey := if duration.None? then Null else Str(duration.value)]
         [UpdatedKey := Str(stamp)]
         [ColorKey := Str(GradeColor(speed))]
  }

  /** The output of a subsegment without routing data: no speed, no duration, its own length. */
  function Fallback(dist: DistFn, s: Sub, stamp: string): OutFeature
  {
    OutFeature(s.coords, Annotate(s.props, None, ChainLength(dist, s.coords), None, stamp))
  }

  /** The output of the subsegment at position `idx` of its batch, given the batch's reply. */
  function Emit(dist: DistFn, s: Sub, reply: Reply, idx: nat, stamp: string): OutFeature
  {
    match reply
    case Failed => Fallback(dist, s, stamp)
    case Cells(cells) =>
      match FirstSelfPaired(cells, idx)
      case None => Fallback(dist, s, stamp)
      case Some(i) =>
        var c := cells[i];
        if c.status != Some("OK") then Fallback(dist, s, stamp)
        else
          var d := c.distanceMeters.GetOr(ChainLength(dist, s.coords));
          OutFeature(s.coords, Annotate(s.props, EstimateSpeed(d, c.duration), d, c.duration, stamp))
  }

  function Origins(batch: seq<Sub>): seq<Point>
  {
    seq(|batch|, i requires 0 <= i < |batch| => batch[i].origin)
  }

  function Dests(batch: seq<Sub>): seq<Point>
  {
    seq(|batch|, i requires 0 <= i < |batch| => batch[i].dest)
  }

  /** The request of the `b`-th batch: the batch's origins and destinations sent upstream. */
  function Ask(upstream: Upstream): (nat, seq<Sub>) -> Reply
  {
    (b: nat, batch: seq<Sub>) => upstream(b, Origins(batch), Dests(batch))
  }

  /** The output of a subsegment at position `k` of its batch, stamped by clock read number `j`. */
  function Emitter(dist: DistFn, clock: nat -> string): (Sub, Reply, nat, nat) -> OutFeature
  {
    (s: Sub, reply: Reply, k: nat, j: nat) => Emit(dist, s, reply, k, clock(j))
  }

  /** The output features of a whole run: batch after batch, one per subsegment. */
  function Reconciled(dist: DistFn, subs: seq<Sub>, size: nat, upstream: Upstream, clock: nat -> string): seq<OutFeature>
    requires size > 0
  {
    Batching.Reconciled(Emitter(dist, clock), Ask(upstream), subs, size)
  }

  /**
   * The body of the batch loop of `run_once` for one batch, given the reply to
   * its request: every subsegment falls back when the request raised, and is
   * otherwise matched to its self-paired cell.
   */
  method EmitBatch(dist: DistFn, batch: seq<Sub>, reply: Reply, clock: nat -> string, base: nat)
    returns (outs: seq<OutFeature>)
    ensures outs == Batching.BatchOutputs(Emitter(dist, clock), batch, reply, base)
  {
    outs := [];
    if reply.Failed? {
      for idx := 0 to |batch|
        invariant outs == Batching.BatchOutputs(Emitter(dist, clock), batch[..idx], reply, base)
      {
        var s := batch[idx];
        var o := OutFeature(s.coords, Annotate(s.props, None, ChainLength(dist, s.coords), None, clock(base + idx)));
        assert o == Emitter(dist, clock)(s, reply, idx, base + idx);
        Batching.BatchOutputsStep(Emitter(dist, clock), batch, reply, base, idx);
        outs := outs + [o];
      }
    } else {
      var cells := reply.cells;
      for idx := 0 to |batch|
        invariant outs == Batching.BatchOutputs(Emitter(dist, clock), batch[..idx], reply, base)
      {
        var s := batch[idx];
        var found := FirstSelfPaired(cells, idx);
        var speed, duration, distM;
        if found.None? || cells[found.value].status != Some("OK") {
          speed, duration := None, None;
          distM := ChainLength(dist, s.coords);
        } else {
          var cell := cells[found.value];
          duration := cell.duration;
          distM := cell.distanceMeters.GetOr(ChainLength(dist, s.coords));
          speed := EstimateSpeed(distM, duration);
        }
        var o := OutFeature(s.coords, Annotate(s.props, speed, distM, duration, clock(base + idx)));
        assert o == Emitter(dist, clock)(s, reply, idx, base + idx);
        Batching.BatchOutputsStep(Emitter(dist, clock), batch, reply, base, idx);
        outs := outs + [o];
      }
    }
    assert batch[..|batch|] == batch;
  }

  /**
   * One round of the batch loop of `run_once`: the batch starting at
   * subsegment `i` is sent upstream with its origins and destinations, and
   * its outputs are appended to `out`.
   */
  method ReconcileRound(dist: DistFn, subs: seq<Sub>, size: nat, upstream: Upstream, clock: nat -> string,
                        b: nat, i: nat, out: seq<OutFeature>)
    returns (next: seq<OutFeature>)
    requires size > 0 && i == Batching.BatchStart(size, b) && i < |subs|
    ensures Batching.BatchStart(size, b + 1) == i + size
    ensures next + Batching.ReconciledFrom(Emitter(dist, clock), Ask(upstream), subs, size, b + 1)
      == out + Batching.ReconciledFrom(Emitter(dist, clock), Ask(upstream), subs, size, b)
  {
    var batch := subs[i .. Batching.Min(i + size, |subs|)];
    var origins := Origins(batch);
    var dests := Dests(batch);
    var reply := upstream(b, origins, dests);
    var outs := EmitBatch(dist, batch, reply, clock, i);
    assert reply == Ask(upstream)(b, batch);
    Batching.ReconciledFromStep(Emitter(dist, clock), Ask(upstream), subs, size, b, i);
    next := out + outs;
  }

  /**
   * The batch loop of `run_once`: consecutive batches of `size` subsegments
   * are sent upstream, and one output feature is appended per subsegment.
   */
  method Reconcile(dist: DistFn, subs: seq<Sub>, size: nat, upstream: Upstream, clock: nat -> string)
    returns (out: seq<OutFeature>)
    requires size > 0
    ensures out == Reconciled(dist, subs, size, upstream, clock)
  {
    out := [];
    var i, b := 0, 0;
    while i < |subs|
      invariant i == Batching.BatchStart(size, b)
      invariant out + Batching.ReconciledFrom(Emitter(dist, clock), Ask(upstream), subs, size, b)
        == Reconciled(dist, subs, size, upstream, clock)
    {
      out := ReconcileRound(dist, subs, size, upstream, clock, b, i, out);
      i, b := i + size, b + 1;
    }
    assert out + [] == out;
  }

  /** The annotated properties are the parent's with the five keys added or overridden. */
  lemma AnnotateKeeps(props: Props, speed: Option<real>, distM: real, duration: Option<string>, stamp: string)
    ensures var r := Annotate(props, speed, distM, duration, stamp);
      && r.Keys == props.Keys + AddedKeys()
      && forall k :: k in props && k !in AddedKeys() ==> r[k] == props[k]
  {
  }

  /** The output keeps the subsegment's points and every parent property except the five keys it sets. */
  lemma EmitKeepsProps(dist: DistFn, s: Sub, reply: Reply, idx: nat, stamp: string)
    ensures var o := Emit(dist, s, reply, idx, stamp);
      && o.coords == s.coords
      && o.props.Keys == s.props.Keys + AddedKeys()
      && forall k :: k in s.props && k !in AddedKeys() ==> o.props[k] == s.props[k]
  {
    var o := Emit(dist, s, reply, idx, stamp);
    var geo := ChainLength(dist, s.coords);
    match reply
    case Failed =>
      AnnotateKeeps(s.props, None, geo, None, stamp);
    case Cells(cells) =>
      match FirstSelfPaired(cells, idx)
      case None =>
        AnnotateKeeps(s.props, None, geo, None, stamp);
      case Some(i) =>
        var c := cells[i];
        var d := c.distanceMeters.GetOr(geo);
        if c.status != Some("OK") {
          AnnotateKeeps(s.props, None, geo, None, stamp);
        } else {
          AnnotateKeeps(s.props, EstimateSpeed(d, c.duration), d, c.duration, stamp);
        }
  }

  /** The five keys of a fallback output: no speed, no duration, the geometric length, grey, the timestamp. */
  ghost predicate IsFallback(dist: DistFn, s: Sub, o: OutFeature, stamp: string)
  {
    && o.coords == s.coords && AddedKeys() <= o.props.Keys
    && o.props[SpeedKey] == Null && o.props[DurationKey] == Null
    && o.props[DistanceKey] == Num(Round1(ChainLength(dist, s.coords)))
    && o.props[UpdatedKey] == Str(stamp) && o.props[ColorKey] == Str(Unknown)
  }

  /** A failed request, a missing self-paired cell, or a cell whose status is not `OK` gives the fallback. */
  lemma EmitFallback(dist: DistFn, s: Sub, reply: Reply, idx: nat, stamp: string)
    requires || reply.Failed?
             || FirstSelfPaired(reply.cells, idx).None?
             || reply.cells[FirstSelfPaired(reply.cells, idx).value].status != Some("OK")
    ensures IsFallback(dist, s, Emit(dist, s, reply, idx, stamp), stamp)
    ensures Emit(dist, s, reply, idx, stamp) == Fallback(dist, s, stamp)
  {
  }

  /**
   * A self-paired cell with status `OK` gives the reported distance when the
   * cell has one, even zero, and the geometric length only when it has none;
   * the reported duration; and the speed estimated from the two.
   */
  lemma EmitReported(dist: DistFn, s: Sub, cells: seq<Cell>, idx: nat, stamp: string)
    requires FirstSelfPaired(cells, idx).Some?
    requires cells[FirstSelfPaired(cells, idx).value].status == Some("OK")
    ensures var c := cells[FirstSelfPaired(cells, idx).value];
      var d := if c.distanceMeters.Some? then c.distanceMeters.value else ChainLength(dist, s.coords);
      var speed := EstimateSpeed(d, c.duration);
      var o := Emit(dist, s, Cells(cells), idx, stamp);
      && o.props[DistanceKey] == Num(Round1(d))
      && o.props[DurationKey] == (if c.duration.Some? then Str(c.duration.value) else Null)
      && o.props[SpeedKey] == (if speed.Some? then Num(Round1(speed.value)) else Null)
      && o.props[ColorKey] == Str(GradeColor(speed))
  {
  }

  /**
   * The outputs of a run follow the subsegments one for one, in order: the
   * output at `j` is the one subsegment `j` gets from the reply to its batch,
   * at its position there (batch `j / size`, position `j % size`, by
   * `Batching.BatchOfIsDivision`). It has its subsegment's
   * points and its parent properties with the five keys set, and it is the
   * fallback when its batch's request raised.
   */
  lemma ReconciledOneForOne(dist: DistFn, subs: seq<Sub>, size: nat, upstream: Upstream, clock: nat -> string, j: nat)
    requires size > 0 && j < |subs|
    ensures var o := Reconciled(dist, subs, size, upstream, clock)[j];
      var reply := Batching.ReplyAt(Ask(upstream), subs, size, j);
      && o == Emit(dist, subs[j], reply, Batching.PositionAt(size, j), clock(j))
      && o.coords == subs[j].coords
      && o.props.Keys == subs[j].props.Keys + AddedKeys()
      && (forall k :: k in subs[j].props && k !in AddedKeys() ==> o.props[k] == subs[j].props[k])
      && (reply.Failed? ==> IsFallback(dist, subs[j], o, clock(j)))
  {
    var emit, ask := Emitter(dist, clock), Ask(upstream);
    Batching.ReconciledAt(emit, ask, subs, size, j);
    var reply := Batching.ReplyAt(ask, subs, size, j);
    var k := Batching.PositionAt(size, j);
    assert Batching.Expected(emit, ask, subs, size, j) == Emit(dist, subs[j], reply, k, clock(j));
    EmitKeepsProps(dist, subs[j], reply, k, clock(j));
    if reply.Failed? {
      EmitFallback(dist, subs[j], reply, k, clock(j));
    }
  }

  /**
   * A batch's reply reaches only that batch's outputs: two routing services
   * that answer every other batch alike give the same output for every
   * subsegment outside it.
   */
  lemma BatchIsolated(dist: DistFn, subs: seq<Sub>, size: nat, up1: Upstream, up2: Upstream, clock: nat -> string, b: nat, j: nat)
    requires size > 0 && j < |subs| && j / size != b
    requires forall c: nat, o: seq<Point>, d: seq<Point> :: c != b ==> up1(c, o, d) == up2(c, o, d)
    ensures Reconciled(dist, subs, size, up1, clock)[j] == Reconciled(dist, subs, size, up2, clock)[j]
  {
    forall c: nat, batch: seq<Sub> | c != b
      ensures Ask(up1)(c, batch) == Ask(up2)(c, batch)
    {
      assert up1(c, Origins(batch), Dests(batch)) == up2(c, Origins(batch), Dests(batch));
    }
    Batching.BatchIsolated(Emitter(dist, clock), Ask(up1), Ask(up2), subs, size, b, j);
  }

  /** `run_once` without its file and network plumbing: the result of the run, as a function. */
  function RunSpec(dist: DistFn, features: seq<Feature>, targetLen: real, size: nat, upstream: Upstream, clock: nat -> string)
    : Result<seq<OutFeature>, PipelineError>
    requires targetLen != 0.0 && size > 0
  {
    match SubsOf(dist, features, targetLen)
    case Failure(e) => Failure(e)
    case Success(subs) => Success(Reconciled(dist, subs, size, upstream, clock))
  }

  /** `run_once`: collect the subsegments of every LineString feature, then reconcile them batch by batch. */
  method RunOnce(dist: DistFn, features: seq<Feature>, targetLen: real, size: nat, upstream: Upstream, clock: nat -> string)
    returns (r: Result<seq<OutFeature>, PipelineError>)
    requires targetLen != 0.0 && size > 0
    ensures r == RunSpec(dist, features, targetLen, size, upstream, clock)
  {
    var subs := CollectSubsegments(dist, features, targetLen);
    if subs.Failure? {
      return Failure(subs.error);
    }
    var out := Reconcile(dist, subs.value, size, upstream, clock);
    return Success(out);
  }

  /**
   * `o` is the output of one piece of the densified line of feature `f`: the
   * piece's points, and the feature's properties with the five keys set and
   * every other key keeping its value.
   */
  ghost predicate OutputOf(dist: DistFn, o: OutFeature, f: Feature, targetLen: real)
    requires targetLen != 0.0
  {
    && |o.coords| >= 2 && DensifiedLine(dist, f, targetLen)
    && o.coords in DensifySpec(dist, f.geometry.coords, targetLen, Tolerance).value
    && o.props.Keys == PropsOf(f).Keys + AddedKeys()
    && (forall k :: k in PropsOf(f) && k !in AddedKeys() ==> o.props[k] == PropsOf(f)[k])
  }

  ghost predicate OutputOfSome(dist: DistFn, o: OutFeature, features: seq<Feature>, targetLen: real)
    requires targetLen != 0.0
  {
    exists f :: 0 <= f < |features| && OutputOf(dist, o, features[f], targetLen)
  }

  /**
   * A run completes exactly when collecting the subsegments does, and then
   * emits one output feature per subsegment: each is a piece of the
   * densified line of a LineString feature of the input, with that feature's
   * properties, the five keys set.
   */
  lemma RunOutputs(dist: DistFn, features: seq<Feature>, targetLen: real, size: nat, upstream: Upstream, clock: nat -> string)
    requires targetLen != 0.0 && size > 0
    ensures RunSpec(dist, features, targetLen, size, upstream, clock).Success? <==> SubsOf(dist, features, targetLen).Success?
    ensures RunSpec(dist, features, targetLen, size, upstream, clock).Success? ==>
      var out := RunSpec(dist, features, targetLen, size, upstream, clock).value;
      && |out| == |SubsOf(dist, features, targetLen).value|
      && forall j :: 0 <= j < |out| ==> OutputOfSome(dist, out[j], features, targetLen)
  {
    SubsOfSound(dist, features, targetLen);
    if SubsOf(dist, features, targetLen).Success? {
      var subs := SubsOf(dist, features, targetLen).value;
      var out := Reconciled(dist, subs, size, upstream, clock);
      forall j | 0 <= j < |out|
        ensures OutputOfSome(dist, out[j], features, targetLen)
      {
        ReconciledOneForOne(dist, subs, size, upstream, clock, j);
        assert CutFromSome(dist, subs[j], features, targetLen);
        var f :| 0 <= f < |features| && PieceOf(dist, subs[j], features[f], targetLen);
        assert OutputOf(dist, out[j], features[f], targetLen);
      }
    }
  }
}
