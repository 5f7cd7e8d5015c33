/**
 * The per-minute analysis of a merged trajectory: for every bucket, count the
 * frames in each half and each third of the tank and report them as
 * percentages of the bucket's frames, one column per minute.
 */
module MinuteAnalysis {

  import opened Wrappers
  import opened TrackMerge
  import opened Regions
  import opened Buckets
  import Arena

  /** The mode argument, already parsed: a trial length in minutes, or a frame rate given as frames per minute. */
  datatype Mode = Time(minutes: int) | Fps(framesPerMinute: nat) | Unrecognised

  /** Column labels of the time mode: 1 .. minutes. */
  function TimeLabels(minutes: nat): seq<real>
  {
    seq(minutes, i => (i + 1) as real)
  }

  predicate SpansWithin(spans: seq<Span>, frames: nat)
  {
    forall t :: 0 <= t < |spans| ==> spans[t].lo <= spans[t].hi <= frames
  }

  /** The column one bucket produces. */
  function BucketColumn(track: seq<Point>, l: Lines, s: Span, minute: real): Column
    requires s.lo <= s.hi <= |track|
  {
    ColumnOf(minute, Tally(track[s.lo..s.hi], l), s.hi - s.lo)
  }

  function Columns(track: seq<Point>, l: Lines, spans: seq<Span>, minutes: seq<real>): seq<Column>
    requires |minutes| == |spans| && SpansWithin(spans, |track|)
  {
    seq(|spans|, t requires 0 <= t < |spans| => BucketColumn(track, l, spans[t], minutes[t]))
  }

  lemma TimeSpansWithin(frames: nat, minutes: nat)
    requires minutes > 0
    ensures SpansWithin(TimeSpans(frames, minutes), frames)
  {
    TimeSpansShape(frames, minutes);
  }

  lemma FpsSpansWithin(frames: nat, fpm: nat)
    requires fpm > 0
    ensures SpansWithin(FpsSpans(frames, fpm), frames)
    ensures |FpsMinutes(frames, fpm)| == |FpsSpans(frames, fpm)|
  {
    FpsSpansShape(frames, fpm);
  }

  /** The columns of the time mode. */
  function TimeColumns(track: seq<Point>, l: Lines, minutes: nat): seq<Column>
    requires minutes > 0
  {
    TimeSpansWithin(|track|, minutes);
    Columns(track, l, TimeSpans(|track|, minutes), TimeLabels(minutes))
  }

  /** The columns of the fps mode. */
  function FpsColumns(track: seq<Point>, l: Lines, fpm: nat): seq<Column>
    requires fpm > 0
  {
    FpsSpansWithin(|track|, fpm);
    Columns(track, l, FpsSpans(|track|, fpm), FpsMinutes(|track|, fpm))
  }

  /** What min_by_min_top_bottom_analysis returns, or the exception it raises. */
  function Analysis(track: seq<Point>, top: real, bottom: real, mode: Mode): Result<seq<Column>>
  {
    var l := DividingLines(top, bottom);
    match mode
    case Time(minutes) =>
      if minutes == 0 then Err(DivisionByZero)
      else if minutes < 0 then Ok([])
      else if FramesPerMinute(|track|, minutes) == 0 then Err(DivisionByZero)
      else Ok(TimeColumns(track, l, minutes))
    case Fps(fpm) =>
      if fpm == 0 then Err(DivisionByZero)
      else Ok(FpsColumns(track, l, fpm))
    case Unrecognised => Err(UnknownMode)
  }

  /** The inner loop of one bucket: classify every frame of range(lo, hi) and count it. */
  method CountFrames(track: seq<Point>, lo: nat, hi: nat, l: Lines) returns (c: Counts)
    requires lo <= hi <= |track|
    ensures c == Tally(track[lo..hi], l)
  {
    c := NoCounts;
    var frame := lo;
    while frame < hi
      invariant lo <= frame <= hi
      invariant c == Tally(track[lo..frame], l)
    {
      var y := track[frame].y;
      TallyStep(track, lo, frame, l);
      if y >= l.half && y >= l.twoThirds {
        assert Classify(y, l) == Some(Zone(TopHalf, TopThird));
        c := c.(topHalf := c.topHalf + 1, topThird := c.topThird + 1);
      } else if y >= l.half && y < l.twoThirds {
        assert Classify(y, l) == Some(Zone(TopHalf, MiddleThird));
        c := c.(topHalf := c.topHalf + 1, middleThird := c.middleThird + 1);
      } else if y < l.half && y >= l.oneThird {
        assert Classify(y, l) == Some(Zone(BottomHalf, MiddleThird));
        c := c.(bottomHalf := c.bottomHalf + 1, middleThird := c.middleThird + 1);
      } else if y < l.half && y < l.oneThird {
        assert Classify(y, l) == Some(Zone(BottomHalf, BottomThird));
        c := c.(bottomHalf := c.bottomHalf + 1, bottomThird := c.bottomThird + 1);
      }
      frame := frame + 1;
    }
  }

  /** Counting one more frame of the bucket records that frame's zone. */
  lemma TallyStep(track: seq<Point>, lo: nat, frame: nat, l: Lines)
    requires lo <= frame < |track|
    ensures Tally(track[lo..frame + 1], l) == Record(Tally(track[lo..frame], l), Classify(track[frame].y, l))
  {
    assert track[lo..frame + 1][..frame - lo] == track[lo..frame];
  }

  lemma ColumnsEqual(cols: seq<Column>, track: seq<Point>, l: Lines, spans: seq<Span>, minutes: seq<real>)
    requires |minutes| == |spans| == |cols| && SpansWithin(spans, |track|)
    requires forall k :: 0 <= k < |cols| ==> cols[k] == BucketColumn(track, l, spans[k], minutes[k])
    ensures cols == Columns(track, l, spans, minutes)
  {
  }

  /** The time branch: `minutes` buckets of len(track) / minutes frames each. */
  method TimeModeColumns(track: seq<Point>, l: Lines, minutes: nat) returns (r: Result<seq<Column>>)
    requires minutes > 0
    ensures FramesPerMinute(|track|, minutes) == 0 ==> r == Err(DivisionByZero)
    ensures FramesPerMinute(|track|, minutes) > 0 ==> r == Ok(TimeColumns(track, l, minutes))
  {
    var fpm := |track| / minutes;
    var frameIndex := TimeMarks(fpm, minutes);
    TimeSpansWithin(|track|, minutes);
    if fpm == 0 {
      assert frameIndex[0] == frameIndex[1] by {
        TimeSpanAt(|track|, minutes, 0);
      }
    } else {
      forall t | 0 <= t < minutes
        ensures frameIndex[t] < frameIndex[t + 1]
      {
        TimeSpanAt(|track|, minutes, t);
      }
    }
    r := BoundaryColumns(track, l, frameIndex);
  }

  /**
   * The loop of the time branch: one column per pair of consecutive frame
   * boundaries, labelled 1, 2, ...; the first empty bucket raises a division by zero.
   */
  method BoundaryColumns(track: seq<Point>, l: Lines, frameIndex: seq<nat>) returns (r: Result<seq<Column>>)
    requires |frameIndex| > 0 && SpansWithin(Between(frameIndex), |track|)
    ensures (forall t :: 0 <= t < |frameIndex| - 1 ==> frameIndex[t] < frameIndex[t + 1]) ==>
              r == Ok(Columns(track, l, Between(frameIndex), TimeLabels(|frameIndex| - 1)))
    ensures (exists t :: 0 <= t < |frameIndex| - 1 && frameIndex[t] == frameIndex[t + 1]) ==>
              r == Err(DivisionByZero)
  {
    ghost var spans := Between(frameIndex);
    var out: seq<Column> := [];
    var i := 0;
    while i < |frameIndex| - 1
      invariant 0 <= i <= |frameIndex| - 1
      invariant |out| == i
      invariant forall k :: 0 <= k < i ==> frameIndex[k] < frameIndex[k + 1]
      invariant forall k :: 0 <= k < i ==> out[k] == BucketColumn(track, l, spans[k], (k + 1) as real)
    {
      var lo, hi := frameIndex[i], frameIndex[i + 1];
      assert spans[i] == Span(lo, hi);
      var counts := CountFrames(track, lo, hi, l);
      if hi - lo == 0 {
        // the percentage step divides by the empty bucket's size, 0.0
        return Err(DivisionByZero);
      }
      out := out + [ColumnOf((i + 1) as real, counts, hi - lo)];
      i := i + 1;
    }
    ColumnsEqual(out, track, l, spans, TimeLabels(|frameIndex| - 1));
    r := Ok(out);
  }

  /** The fps branch: whole minutes of fpm frames, then the partial last minute. */
  method FpsModeColumns(track: seq<Point>, l: Lines, fpm: nat) returns (cols: seq<Column>)
    requires fpm > 0
    ensures cols == FpsColumns(track, l, fpm)
  {
    var timeIntervals := FpsMinutes(|track|, fpm);
    timeIntervals := [0.0] + timeIntervals;
    FpsSpansWithin(|track|, fpm);
    cols := IntervalColumns(track, l, fpm, timeIntervals);
    assert timeIntervals[1..] == FpsMinutes(|track|, fpm);
  }

  /** The loop of the fps branch: one bucket for each pair of consecutive time intervals. */
  method IntervalColumns(track: seq<Point>, l: Lines, fpm: nat, timeIntervals: seq<real>) returns (cols: seq<Column>)
    requires |timeIntervals| > 0 && SpansWithin(SpansOf(fpm, timeIntervals), |track|)
    ensures cols == Columns(track, l, SpansOf(fpm, timeIntervals), timeIntervals[1..])
  {
    ghost var spans := SpansOf(fpm, timeIntervals);
    cols := [];
    var t := 0;
    while t < |timeIntervals| - 1
      invariant 0 <= t <= |spans| == |timeIntervals| - 1
      invariant |cols| == t
      invariant forall k :: 0 <= k < t ==> cols[k] == BucketColumn(track, l, spans[k], timeIntervals[k + 1])
    {
      // with an integral frames-per-minute, truncating fpm to a whole number leaves it unchanged
      var lo := NatFloor(timeIntervals[t]) * fpm;
      var hi := NatFloor(timeIntervals[t + 1] * fpm as real);
      assert spans[t] == Span(lo, hi);
      var counts := CountFrames(track, lo, hi, l);
      cols := cols + [ColumnOf(timeIntervals[t + 1], counts, hi - lo)];
      t := t + 1;
    }
    ColumnsEqual(cols, track, l, spans, timeIntervals[1..]);
  }

  /** min_by_min_top_bottom_analysis: the half and third lines, then the branch of the mode. */
  method MinByMinAnalysis(track: seq<Point>, top: real, bottom: real, mode: Mode) returns (r: Result<seq<Column>>)
    ensures r == Analysis(track, top, bottom, mode)
  {
    var l := DividingLines(top, bottom);
    match mode {
      case Time(minutes) =>
        if minutes == 0 {
          // the frames per minute divide by a zero trial length
          r := Err(DivisionByZero);
        } else if minutes < 0 {
          // no minute labels: a table without columns
          r := Ok([]);
        } else {
          r := TimeModeColumns(track, l, minutes);
        }
      case Fps(fpm) =>
        if fpm == 0 {
          // the trial length divides by zero frames per minute
          r := Err(DivisionByZero);
        } else {
          var cols := FpsModeColumns(track, l, fpm);
          r := Ok(cols);
        }
      case Unrecognised =>
        r := Err(UnknownMode);
    }
  }

  // ------------------------------------------------------------- properties

  /**
   * Time mode with a positive length: the analysis fails with a division by
   * zero exactly when there are fewer frames than minutes; otherwise it yields
   * one column per minute, labelled 1 .. minutes, each holding well-formed percentages.
   */
  lemma TimeModeOutcome(track: seq<Point>, top: real, bottom: real, minutes: nat)
    requires minutes > 0
    ensures Analysis(track, top, bottom, Time(minutes)) == Err(DivisionByZero) <==> |track| < minutes
    ensures |track| >= minutes ==>
              && Analysis(track, top, bottom, Time(minutes)).Ok?
              && var cols := Analysis(track, top, bottom, Time(minutes)).value;
                 && |cols| == minutes
                 && forall i :: 0 <= i < minutes ==> cols[i].minute == (i + 1) as real && WellFormedPercentages(cols[i])
  {
    assert FramesPerMinute(|track|, minutes) == 0 <==> |track| < minutes;
    if |track| >= minutes {
      var l := DividingLines(top, bottom);
      var spans := TimeSpans(|track|, minutes);
      TimeSpansShape(|track|, minutes);
      var cols := TimeColumns(track, l, minutes);
      forall i | 0 <= i < minutes
        ensures cols[i].minute == (i + 1) as real && WellFormedPercentages(cols[i])
      {
        ColumnPercentages((i + 1) as real, track[spans[i].lo..spans[i].hi], l);
      }
    }
  }

  /**
   * Time mode never reads a frame at or after minutes * (frames / minutes):
   * two trajectories of the same length that agree up to there give the same table.
   */
  lemma TimeModeIgnoresTail(track: seq<Point>, other: seq<Point>, top: real, bottom: real, minutes: nat)
    requires minutes > 0 && |other| == |track|
    requires var end := minutes * FramesPerMinute(|track|, minutes);
             end <= |track| && track[..end] == other[..end]
    ensures Analysis(track, top, bottom, Time(minutes)) == Analysis(other, top, bottom, Time(minutes))
  {
    if FramesPerMinute(|track|, minutes) > 0 {
      var l := DividingLines(top, bottom);
      var spans := TimeSpans(|track|, minutes);
      var end := minutes * FramesPerMinute(|track|, minutes);
      TimeSpansShape(|track|, minutes);
      TimeSpanAt(|track|, minutes, minutes - 1);
      assert spans[minutes - 1].hi == end;
      var a, b := TimeColumns(track, l, minutes), TimeColumns(other, l, minutes);
      forall i | 0 <= i < minutes ensures a[i] == b[i] {
        BucketBeforeEnd(track, other, l, spans[i], (i + 1) as real, end);
      }
      assert a == b;
    }
  }

  lemma BucketBeforeEnd(track: seq<Point>, other: seq<Point>, l: Lines, s: Span, minute: real, end: nat)
    requires s.lo <= s.hi <= end <= |track| == |other| && track[..end] == other[..end]
    ensures BucketColumn(track, l, s, minute) == BucketColumn(other, l, s, minute)
  {
    assert track[s.lo..s.hi] == track[..end][s.lo..s.hi];
    assert other[s.lo..s.hi] == other[..end][s.lo..s.hi];
  }

  /**
   * Fps mode: one column per whole minute, labelled 1 .. q and holding
   * well-formed percentages, then the partial-minute column labelled
   * FinalMinute, which is well formed when at least two frames are left over
   * and entirely NaN (an empty bucket) otherwise.
   */
  lemma FpsModeOutcome(track: seq<Point>, top: real, bottom: real, fpm: nat)
    requires fpm > 0
    ensures Analysis(track, top, bottom, Fps(fpm)).Ok?
    ensures var cols := Analysis(track, top, bottom, Fps(fpm)).value;
            var q, r := |track| / fpm, |track| % fpm;
            && |cols| == q + 1
            && (forall i :: 0 <= i < q ==> cols[i].minute == (i + 1) as real && WellFormedPercentages(cols[i]))
            && cols[q].minute == FinalMinute(|track|, fpm)
            && (r >= 2 ==> WellFormedPercentages(cols[q]))
            && (r <= 1 ==> AllNaN(cols[q]))
  {
    var l := DividingLines(top, bottom);
    var q := |track| / fpm;
    var cols := FpsColumns(track, l, fpm);
    FpsSpansWithin(|track|, fpm);
    forall i | 0 <= i < q
      ensures cols[i].minute == (i + 1) as real && WellFormedPercentages(cols[i])
    {
      FpsWholeMinuteColumn(track, l, fpm, i);
    }
    FpsLastColumn(track, l, fpm);
  }

  lemma FpsWholeMinuteColumn(track: seq<Point>, l: Lines, fpm: nat, i: nat)
    requires fpm > 0 && i < |track| / fpm
    ensures var cols := FpsColumns(track, l, fpm);
            cols[i].minute == (i + 1) as real && WellFormedPercentages(cols[i])
  {
    FpsSpansWithin(|track|, fpm);
    var s := FpsSpans(|track|, fpm)[i];
    assert s.lo < s.hi by {
      FpsSpanAt(|track|, fpm, i);
    }
    assert FpsColumns(track, l, fpm)[i] == BucketColumn(track, l, s, (i + 1) as real);
    ColumnPercentages((i + 1) as real, track[s.lo..s.hi], l);
  }

  lemma FpsLastColumn(track: seq<Point>, l: Lines, fpm: nat)
    requires fpm > 0
    ensures var cols := FpsColumns(track, l, fpm);
            var q, r := |track| / fpm, |track| % fpm;
            && cols[q].minute == FinalMinute(|track|, fpm)
            && (r >= 2 ==> WellFormedPercentages(cols[q]))
            && (r <= 1 ==> AllNaN(cols[q]))
  {
    FpsSpansWithin(|track|, fpm);
    FpsSpansShape(|track|, fpm);
    var q, r := |track| / fpm, |track| % fpm;
    var s := FpsSpans(|track|, fpm)[q];
    if r >= 2 {
      ColumnPercentages(FinalMinute(|track|, fpm), track[s.lo..s.hi], l);
    } else {
      assert track[s.lo..s.hi] == [];
      EmptyColumn(FinalMinute(|track|, fpm), l);
    }
  }

  /**
   * A fish that never moves from the middle of a 100-pixel tank, 600 frames
   * analysed as a one-minute trial: y = 50 lies on the half line, so the
   * ">=" tests put every frame in the top half and the middle third.
   */
  lemma StationaryExample()
    ensures Analysis(seq(600, _ => Point(50.0, 50.0)), 100.0, 0.0, Time(1))
            == Ok([Column(1.0, Num(100.0), Num(0.0), Num(0.0), Num(100.0), Num(0.0))])
  {
    var track := seq(600, _ => Point(50.0, 50.0));
    var l := DividingLines(100.0, 0.0);
    var frames := track[0..600];
    assert TimeSpans(600, 1) == [Span(0, 600)];
    assert TimeColumns(track, l, 1) == [ColumnOf(1.0, Tally(frames, l), 600)];
    TallyUniform(frames, l, Zone(TopHalf, MiddleThird));
    assert Tally(frames, l) == Counts(600, 0, 0, 600, 0);
    PercentBounds(600, 600);
    PercentBounds(0, 600);
  }

  /**
   * With the top and bottom taken from the tank outline (and the tank of
   * positive height), a fish at the highest vertex counts in the top half and
   * top third, one at the lowest vertex in the bottom half and bottom third.
   */
  lemma ExtremeVerticesClassified(outline: seq<Arena.Vertex>)
    requires Arena.ArenaExtents(outline).Ok?
    requires Arena.ArenaExtents(outline).value.bottom < Arena.ArenaExtents(outline).value.top
    ensures var e := Arena.ArenaExtents(outline).value;
            var l := DividingLines(e.top, e.bottom);
            && Classify(e.top, l) == Some(Zone(TopHalf, TopThird))
            && Classify(e.bottom, l) == Some(Zone(BottomHalf, BottomThird))
  {
  }
}
