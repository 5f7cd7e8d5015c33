/**
 * The frame ranges of the per-minute buckets and their column labels, in the
 * two modes of the analysis: "time" (a fixed number of minutes shares the
 * frames evenly) and "fps" (a frame rate fixes the frames per minute).
 */
module Buckets {

  /** A half-open range [lo, hi) of frame indices, as built by Python's range(lo, hi). */
  datatype Span = Span(lo: nat, hi: nat)

  function Size(s: Span): nat
  {
    if s.lo <= s.hi then s.hi - s.lo else 0
  }

  /** The spans follow one another without gap or overlap, starting at frame 0. */
  predicate Contiguous(spans: seq<Span>)
  {
    && (|spans| > 0 ==> spans[0].lo == 0)
    && (forall t :: 0 <= t < |spans| ==> spans[t].lo <= spans[t].hi)
    && (forall t :: 0 <= t < |spans| - 1 ==> spans[t].hi == spans[t + 1].lo)
  }

  lemma MulMonotone(a: nat, b: nat, c: nat)
    requires a <= b
    ensures a * c <= b * c
  {
  }

  lemma DivMod(a: nat, b: nat)
    requires b > 0
    ensures a == (a / b) * b + a % b && 0 <= a % b < b
  {
  }

  // ---------------------------------------------------------------- time mode

  /** The frames every minute gets; Python 2 integer division, so the remainder is dropped. */
  function FramesPerMinute(frames: nat, minutes: nat): nat
    requires minutes > 0
  {
    frames / minutes
  }

  /** The frame index at each minute boundary: multiples of the frames per minute, from 0 to minutes times it. */
  function TimeMarks(fpm: nat, minutes: nat): (m: seq<nat>)
    ensures |m| == minutes + 1 && m[0] == 0 && m[minutes] == minutes * fpm
  {
    seq(minutes + 1, x => x * fpm)
  }

  /** The buckets of the time mode: minute i covers the frames from boundary i up to boundary i + 1. */
  function TimeSpans(frames: nat, minutes: nat): (s: seq<Span>)
    requires minutes > 0
    ensures |s| == minutes
    ensures s[0].lo == 0 && s[minutes - 1].hi == minutes * FramesPerMinute(frames, minutes)
  {
    Between(TimeMarks(FramesPerMinute(frames, minutes), minutes))
  }

  /** One bucket from each boundary up to the next. */
  function Between(marks: seq<nat>): (s: seq<Span>)
    requires |marks| > 0
    ensures |s| == |marks| - 1
  {
    seq(|marks| - 1, t requires 0 <= t < |marks| - 1 => Span(marks[t], marks[t + 1]))
  }

  /** Bucket t of the time mode runs from boundary t up to boundary t + 1, FramesPerMinute frames. */
  lemma TimeSpanAt(frames: nat, minutes: nat, t: nat)
    requires t < minutes
    ensures var m := TimeMarks(FramesPerMinute(frames, minutes), minutes);
            && TimeSpans(frames, minutes)[t] == Span(m[t], m[t + 1])
            && m[t + 1] - m[t] == FramesPerMinute(frames, minutes)
  {
    MulSucc(t, FramesPerMinute(frames, minutes));
  }

  lemma MulSucc(t: nat, c: nat)
    ensures (t + 1) * c == t * c + c
  {
  }

  /**
   * The time mode has exactly `minutes` contiguous buckets of FramesPerMinute
   * frames each; the frames after the last one (fewer than `minutes` of them)
   * are never read.
   */
  lemma TimeSpansShape(frames: nat, minutes: nat)
    requires minutes > 0
    ensures var s := TimeSpans(frames, minutes);
            && |s| == minutes
            && Contiguous(s)
            && (forall t :: 0 <= t < |s| ==> Size(s[t]) == FramesPerMinute(frames, minutes))
            && (forall t :: 0 <= t < |s| ==> s[t].hi <= s[|s| - 1].hi)
            && s[|s| - 1].hi <= frames < s[|s| - 1].hi + minutes
  {
    var s := TimeSpans(frames, minutes);
    var fpm := FramesPerMinute(frames, minutes);
    forall t | 0 <= t < minutes
      ensures s[t] == Span(t * fpm, t * fpm + fpm)
      ensures s[t].hi <= minutes * fpm
    {
      MulSucc(t, fpm);
      MulMonotone(t + 1, minutes, fpm);
    }
    assert s[minutes - 1].hi == minutes * fpm by {
      MulSucc(minutes - 1, fpm);
    }
    DivMod(frames, minutes);
    assert frames == fpm * minutes + frames % minutes;
  }

  // ----------------------------------------------------------------- fps mode

  lemma FloorOfQuotient(a: nat, b: nat)
    requires b > 0
    ensures (a as real / b as real).Floor == a / b
    ensures a as real / b as real - (a / b) as real == (a % b) as real / b as real
  {
    DivMod(a, b);
    var q, r := a / b, a % b;
    var rb := b as real;
    assert a as real == q as real * rb + r as real;
    assert a as real / rb == q as real + r as real / rb;
    assert 0.0 <= r as real / rb < 1.0;
  }

  /**
   * The label of the trailing partial minute: whole minutes plus the
   * fractional minute multiplied by 60/100, computed from the trial length
   * in minutes (the frame count divided by the frames per minute).
   */
  function FinalMinute(frames: nat, fpm: nat): (m: real)
    requires fpm > 0
    ensures (frames / fpm) as real <= m < (frames / fpm) as real + 0.6
  {
    FloorOfQuotient(frames, fpm);
    var length := frames as real / fpm as real;
    length.Floor as real + (length - length.Floor as real) * 60.0 / 100.0
  }

  /**
   * The final label is q + 0.6 r / fpm for q whole minutes and r leftover
   * frames: it lies in [q, q + 0.6), and equals q exactly when no frame is left over.
   */
  lemma FinalMinuteValue(frames: nat, fpm: nat)
    requires fpm > 0
    ensures FinalMinute(frames, fpm) == (frames / fpm) as real + 0.6 * (frames % fpm) as real / fpm as real
    ensures (frames / fpm) as real <= FinalMinute(frames, fpm) < (frames / fpm) as real + 0.6
    ensures FinalMinute(frames, fpm) == (frames / fpm) as real <==> frames % fpm == 0
  {
    FloorOfQuotient(frames, fpm);
    var frac := (frames % fpm) as real / fpm as real;
    assert 0.0 <= frac < 1.0;
    assert frac == 0.0 <==> frames % fpm == 0;
  }

  /** time_intervals: the whole minutes 1 .. q (the length truncated to whole minutes), then the final label. */
  function FpsMinutes(frames: nat, fpm: nat): (m: seq<real>)
    requires fpm > 0
    ensures |m| == frames / fpm + 1
    ensures forall i :: 0 <= i < frames / fpm ==> m[i] == (i + 1) as real
    ensures m[frames / fpm] == FinalMinute(frames, fpm)
  {
    var whole := (frames as real / fpm as real).Floor;
    FloorOfQuotient(frames, fpm);
    seq(if whole < 0 then 0 else whole, i => (i + 1) as real) + [FinalMinute(frames, fpm)]
  }

  /** time_intervals after 0 is inserted in front of it. */
  function FpsMarks(frames: nat, fpm: nat): seq<real>
    requires fpm > 0
  {
    [0.0] + FpsMinutes(frames, fpm)
  }

  function NatFloor(x: real): nat
  {
    if x.Floor < 0 then 0 else x.Floor
  }

  /** The buckets of the fps mode, one per entry of time_intervals after the leading 0. */
  function FpsSpans(frames: nat, fpm: nat): seq<Span>
    requires fpm > 0
  {
    SpansOf(fpm, FpsMarks(frames, fpm))
  }

  /** One bucket between each two consecutive time marks. */
  function SpansOf(fpm: nat, marks: seq<real>): (s: seq<Span>)
    requires |marks| > 0
    ensures |s| == |marks| - 1
  {
    seq(|marks| - 1, t requires 0 <= t < |marks| - 1 => FpsSpan(fpm, marks, t))
  }

  /** A bucket between a whole-minute mark a and a mark b runs from a * fpm to b * fpm truncated to a whole frame. */
  lemma SpanOfMarks(fpm: nat, marks: seq<real>, t: nat, a: nat, b: real)
    requires t + 1 < |marks| && marks[t] == a as real && marks[t + 1] == b
    ensures SpansOf(fpm, marks)[t] == Span(a * fpm, NatFloor(b * fpm as real))
  {
    NatFloorOfNat(a);
  }

  /**
   * Each whole minute is a full bucket of fpm frames; the last bucket starts
   * at q * fpm (q whole minutes) but, because its label scales the r leftover
   * frames by 0.6, it ends after only 3r/5 (rounded down) of them: it misses
   * the last r - 3r/5 frames and is empty when r <= 1.
   */
  lemma FpsSpansShape(frames: nat, fpm: nat)
    requires fpm > 0
    ensures |FpsSpans(frames, fpm)| == frames / fpm + 1
    ensures Contiguous(FpsSpans(frames, fpm))
    ensures forall t :: 0 <= t < frames / fpm ==> Size(FpsSpans(frames, fpm)[t]) == fpm
    ensures FpsSpans(frames, fpm)[frames / fpm] ==
              Span((frames / fpm) * fpm, (frames / fpm) * fpm + (3 * (frames % fpm)) / 5)
    ensures frames - FpsSpans(frames, fpm)[frames / fpm].hi == frames % fpm - (3 * (frames % fpm)) / 5
    ensures Size(FpsSpans(frames, fpm)[frames / fpm]) == 0 <==> frames % fpm <= 1
    ensures forall t :: 0 <= t <= frames / fpm ==> FpsSpans(frames, fpm)[t].hi <= frames
  {
    var s := FpsSpans(frames, fpm);
    var q := frames / fpm;
    forall t | 0 <= t <= q
      ensures s[t].lo <= s[t].hi <= frames
    {
      FpsSpanAt(frames, fpm, t);
    }
    forall t | 0 <= t < q
      ensures s[t].hi == s[t + 1].lo && Size(s[t]) == fpm
    {
      FpsSpanAt(frames, fpm, t);
      FpsSpanAt(frames, fpm, t + 1);
      MulSucc(t, fpm);
    }
    assert s[0].lo == 0 by {
      FpsSpanAt(frames, fpm, 0);
    }
    FinalBucket(frames, fpm);
  }

  /** The last fps bucket starts at q * fpm and holds floor(3r / 5) of the r leftover frames. */
  lemma FinalBucket(frames: nat, fpm: nat)
    requires fpm > 0
    ensures FpsSpans(frames, fpm)[frames / fpm] ==
              Span((frames / fpm) * fpm, (frames / fpm) * fpm + (3 * (frames % fpm)) / 5)
    ensures (3 * (frames % fpm)) / 5 <= frames % fpm
    ensures frames - FpsSpans(frames, fpm)[frames / fpm].hi == frames % fpm - (3 * (frames % fpm)) / 5
    ensures Size(FpsSpans(frames, fpm)[frames / fpm]) == 0 <==> frames % fpm <= 1
  {
    var q, r := frames / fpm, frames % fpm;
    var n := q * fpm;
    var k := (3 * r) / 5;
    var final := FinalMinute(frames, fpm);
    FpsMarksValues(frames, fpm);
    SpanOfMarks(fpm, FpsMarks(frames, fpm), q, q, final);
    FinalMinuteValue(frames, fpm);
    LastEnd(q, r, fpm, final);
    assert FpsSpans(frames, fpm)[q] == Span(n, n + k);
    DivMod(frames, fpm);
    assert frames == n + r;
  }

  /**
   * Bucket t of the fps mode: it starts at time mark t scaled to frames and
   * ends at time mark t + 1 scaled to frames and truncated to a whole frame.
   */
  function FpsSpan(fpm: nat, marks: seq<real>, t: nat): (s: Span)
    requires t + 1 < |marks|
    ensures 0.0 <= marks[t + 1] ==> s.hi as real <= marks[t + 1] * fpm as real < s.hi as real + 1.0
  {
    Span(NatFloor(marks[t]) * fpm, NatFloor(marks[t + 1] * fpm as real))
  }

  lemma FpsMarksValues(frames: nat, fpm: nat)
    requires fpm > 0
    ensures |FpsMarks(frames, fpm)| == frames / fpm + 2
    ensures forall t :: 0 <= t <= frames / fpm ==> FpsMarks(frames, fpm)[t] == t as real
    ensures FpsMarks(frames, fpm)[frames / fpm + 1] == FinalMinute(frames, fpm)
  {
    FloorOfQuotient(frames, fpm);
  }

  lemma NatFloorOfNat(n: nat)
    ensures NatFloor(n as real) == n
  {
  }

  lemma RealMul(a: nat, b: nat)
    ensures a as real * b as real == (a * b) as real
  {
  }

  lemma FpsSpanAt(frames: nat, fpm: nat, t: nat)
    requires fpm > 0 && t <= frames / fpm
    ensures t < frames / fpm ==> FpsSpans(frames, fpm)[t] == Span(t * fpm, t * fpm + fpm)
    ensures t == frames / fpm ==>
              FpsSpans(frames, fpm)[t] == Span(t * fpm, t * fpm + (3 * (frames % fpm)) / 5)
    ensures FpsSpans(frames, fpm)[t].hi <= frames
  {
    var q, r := frames / fpm, frames % fpm;
    DivMod(frames, fpm);
    if t < q {
      WholeMinuteSpan(frames, fpm, t);
      MulSucc(t, fpm);
      MulMonotone(t + 1, q, fpm);
    } else {
      FinalBucket(frames, fpm);
    }
  }

  lemma WholeMinuteSpan(frames: nat, fpm: nat, t: nat)
    requires fpm > 0 && t < frames / fpm
    ensures FpsSpans(frames, fpm)[t] == Span(t * fpm, (t + 1) * fpm)
  {
    FpsMarksValues(frames, fpm);
    SpanOfMarks(fpm, FpsMarks(frames, fpm), t, t, (t + 1) as real);
    RealMul(t + 1, fpm);
    NatFloorOfNat((t + 1) * fpm);
  }


  /** The final label times fpm, truncated to a whole frame, is q * fpm + floor(3r / 5). */
  lemma LastEnd(q: nat, r: nat, fpm: nat, final: real)
    requires fpm > 0 && r < fpm
    requires final == q as real + 0.6 * r as real / fpm as real
    ensures NatFloor(final * fpm as real) == q * fpm + (3 * r) / 5
    ensures (3 * r) / 5 <= r && ((3 * r) / 5 == r <==> r == 0)
    ensures (3 * r) / 5 == 0 <==> r <= 1
  {
    var f := fpm as real;
    assert final * f == q as real * f + 0.6 * r as real;
    RealMul(q, fpm);
    var k := (3 * r) / 5;
    FloorOfQuotient(3 * r, 5);
    assert 0.6 * r as real == (3 * r) as real / 5.0;
    assert ((q * fpm) as real + (3 * r) as real / 5.0).Floor == q * fpm + k;
  }

  /**
   * A 30 frames-per-second recording of 165000 frames lasts 91 2/3 minutes: 91
   * full buckets, then a bucket labelled 91.4 that stops 480 frames short of the end.
   */
  lemma FpsExample()
    ensures FinalMinute(165000, 1800) == 91.4
    ensures |FpsSpans(165000, 1800)| == 92
    ensures FpsSpans(165000, 1800)[91] == Span(163800, 164520)
  {
  }
}
