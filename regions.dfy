/**
 * Vertical classification of a frame against the half and third lines of the
 * tank, the per-bucket hit counters and their conversion into percentages.
 */
module Regions {

  import opened Wrappers
  import opened TrackMerge

  /** The three horizontal lines drawn between the bottom and the top of the tank. */
  datatype Lines = Lines(half: real, twoThirds: real, oneThird: real)

  function DividingLines(top: real, bottom: real): (l: Lines)
    ensures l.half - bottom == top - l.half
    ensures l.oneThird - bottom == l.twoThirds - l.oneThird == top - l.twoThirds
    ensures bottom <= top ==> bottom <= l.oneThird <= l.half <= l.twoThirds <= top
  {
    Lines((top - bottom) / 2.0 + bottom, 2.0 * (top - bottom) / 3.0 + bottom, (top - bottom) / 3.0 + bottom)
  }

  datatype Half = TopHalf | BottomHalf
  datatype Third = TopThird | MiddleThird | BottomThird
  datatype Zone = Zone(half: Half, third: Third)

  /**
   * The four-branch test of one frame. The chain has no final `else`, so a
   * frame matching no branch would count nowhere; the postcondition shows that
   * this never happens, and that the top (bottom) third is only ever reached
   * together with the top (bottom) half.
   */
  function Classify(y: real, l: Lines): (z: Option<Zone>)
    ensures z.Some?
    ensures z.value.half == TopHalf <==> y >= l.half
    ensures z.value.third == TopThird ==> z.value.half == TopHalf
    ensures z.value.third == BottomThird ==> z.value.half == BottomHalf
  {
    if y >= l.half && y >= l.twoThirds then Some(Zone(TopHalf, TopThird))
    else if y >= l.half && y < l.twoThirds then Some(Zone(TopHalf, MiddleThird))
    else if y < l.half && y >= l.oneThird then Some(Zone(BottomHalf, MiddleThird))
    else if y < l.half && y < l.oneThird then Some(Zone(BottomHalf, BottomThird))
    else None
  }

  /** For a tank whose top is not below its bottom the thirds follow the third lines alone. */
  lemma ThirdsFollowLines(y: real, top: real, bottom: real)
    requires bottom <= top
    ensures var l := DividingLines(top, bottom);
            var z := Classify(y, l).value;
            && (z.third == TopThird <==> y >= l.twoThirds)
            && (z.third == MiddleThird <==> l.oneThird <= y < l.twoThirds)
            && (z.third == BottomThird <==> y < l.oneThird)
  {
  }

  /** The `Output` dictionary of one bucket: one hit counter per parameter. */
  datatype Counts = Counts(topHalf: nat, bottomHalf: nat, topThird: nat, middleThird: nat, bottomThird: nat)

  const NoCounts := Counts(0, 0, 0, 0, 0)

  /** Increment the counters of the branch a frame falls into. */
  function Record(c: Counts, z: Option<Zone>): Counts
  {
    match z
    case None => c
    case Some(Zone(h, t)) =>
      var c1 := if h == TopHalf then c.(topHalf := c.topHalf + 1) else c.(bottomHalf := c.bottomHalf + 1);
      match t
      case TopThird => c1.(topThird := c1.topThird + 1)
      case MiddleThird => c1.(middleThird := c1.middleThird + 1)
      case BottomThird => c1.(bottomThird := c1.bottomThird + 1)
  }

  /**
   * Recording a frame adds one to the counter of its half and one to the
   * counter of its third, and leaves the other three counters as they were.
   */
  lemma RecordIncrements(c: Counts, z: Zone)
    ensures var r := Record(c, Some(z));
            && r.topHalf == c.topHalf + (if z.half == TopHalf then 1 else 0)
            && r.bottomHalf == c.bottomHalf + (if z.half == BottomHalf then 1 else 0)
            && r.topThird == c.topThird + (if z.third == TopThird then 1 else 0)
            && r.middleThird == c.middleThird + (if z.third == MiddleThird then 1 else 0)
            && r.bottomThird == c.bottomThird + (if z.third == BottomThird then 1 else 0)
  {
  }

  /** The counters after one pass over the frames of a bucket, in order. */
  function Tally(frames: seq<Point>, l: Lines): Counts
  {
    if frames == [] then NoCounts
    else Record(Tally(frames[..|frames| - 1], l), Classify(frames[|frames| - 1].y, l))
  }

  /** Reference count: how many frames lie on or above a given line. */
  function OnOrAbove(frames: seq<Point>, line: real): nat
  {
    if frames == [] then 0
    else OnOrAbove(frames[..|frames| - 1], line) + (if frames[|frames| - 1].y >= line then 1 else 0)
  }

  /**
   * Every frame increments exactly one half counter and exactly one third
   * counter, and a third counter only together with the matching half.
   */
  lemma {:induction false} TallyTotals(frames: seq<Point>, l: Lines)
    ensures var c := Tally(frames, l);
            && c.topHalf + c.bottomHalf == |frames|
            && c.topThird + c.middleThird + c.bottomThird == |frames|
            && c.topThird <= c.topHalf
            && c.bottomThird <= c.bottomHalf
  {
    if frames != [] {
      TallyTotals(frames[..|frames| - 1], l);
    }
  }

  /**
   * The counters agree with counting frames against the lines directly: top
   * half means on or above the half line, and in an upright tank top third
   * means on or above the two-thirds line and bottom third below the one-third line.
   */
  lemma {:induction false} TallyAgainstLines(frames: seq<Point>, top: real, bottom: real)
    ensures var l := DividingLines(top, bottom);
            var c := Tally(frames, l);
            && c.topHalf == OnOrAbove(frames, l.half)
            && c.bottomHalf == |frames| - OnOrAbove(frames, l.half)
            && (bottom <= top ==> c.topThird == OnOrAbove(frames, l.twoThirds))
            && (bottom <= top ==> c.bottomThird == |frames| - OnOrAbove(frames, l.oneThird))
  {
    if frames != [] {
      var l := DividingLines(top, bottom);
      TallyAgainstLines(frames[..|frames| - 1], top, bottom);
      TallyTotals(frames[..|frames| - 1], l);
      if bottom <= top {
        ThirdsFollowLines(frames[|frames| - 1].y, top, bottom);
      }
    }
  }

  /** A bucket whose frames all fall into one zone counts all of them in that zone's two counters. */
  lemma {:induction false} TallyUniform(frames: seq<Point>, l: Lines, z: Zone)
    requires forall i :: 0 <= i < |frames| ==> Classify(frames[i].y, l) == Some(z)
    ensures Tally(frames, l).topHalf == (if z.half == TopHalf then |frames| else 0)
    ensures Tally(frames, l).bottomHalf == (if z.half == BottomHalf then |frames| else 0)
    ensures Tally(frames, l).topThird == (if z.third == TopThird then |frames| else 0)
    ensures Tally(frames, l).middleThird == (if z.third == MiddleThird then |frames| else 0)
    ensures Tally(frames, l).bottomThird == (if z.third == BottomThird then |frames| else 0)
  {
    if frames != [] {
      var init := frames[..|frames| - 1];
      assert forall i :: 0 <= i < |init| ==> init[i] == frames[i];
      TallyUniform(init, l, z);
    }
  }

  /** A cell of the output table: a float, or NaN where numpy divided 0 by 0. */
  datatype Cell = Num(v: real) | NaN

  /** A count as a percentage of a bucket's frames; numpy gives NaN for 0 / 0. */
  function Percent(count: nat, frames: nat): (c: Cell)
    ensures c.NaN? <==> frames == 0
  {
    if frames == 0 then NaN else Num(count as real / frames as real * 100.0)
  }

  /** A percentage scaled back by the bucket's size gives 100 times the count. */
  lemma PercentScale(count: nat, frames: nat)
    requires frames > 0
    ensures Percent(count, frames).v * frames as real == 100.0 * count as real
  {
  }

  lemma PercentBounds(count: nat, frames: nat)
    ensures frames > 0 && count <= frames ==> 0.0 <= Percent(count, frames).v <= 100.0
    ensures frames > 0 && count == frames ==> Percent(count, frames).v == 100.0
    ensures frames > 0 && count == 0 ==> Percent(count, frames).v == 0.0
  {
    if frames > 0 {
      var r := frames as real;
      assert count <= frames ==> count as real / r <= 1.0;
      assert count == frames ==> count as real / r == 1.0;
    }
  }

  /** One column of the per-minute table: its minute and the five parameter rows. */
  datatype Column = Column(minute: real, topHalf: Cell, bottomHalf: Cell, topThird: Cell, middleThird: Cell, bottomThird: Cell)

  function ColumnOf(minute: real, c: Counts, frames: nat): Column
  {
    Column(minute, Percent(c.topHalf, frames), Percent(c.bottomHalf, frames),
           Percent(c.topThird, frames), Percent(c.middleThird, frames), Percent(c.bottomThird, frames))
  }

  /** Every cell of the column is a number (not NaN). */
  predicate Numeric(col: Column)
  {
    col.topHalf.Num? && col.bottomHalf.Num? && col.topThird.Num? && col.middleThird.Num? && col.bottomThird.Num?
  }

  /** Every cell of the column is NaN. */
  predicate AllNaN(col: Column)
  {
    col.topHalf.NaN? && col.bottomHalf.NaN? && col.topThird.NaN? && col.middleThird.NaN? && col.bottomThird.NaN?
  }

  /** The percentages of a non-empty bucket: in [0, 100], complementary ones summing to 100. */
  predicate WellFormedPercentages(col: Column)
  {
    && Numeric(col)
    && 0.0 <= col.topHalf.v <= 100.0 && 0.0 <= col.bottomHalf.v <= 100.0
    && 0.0 <= col.topThird.v <= 100.0 && 0.0 <= col.middleThird.v <= 100.0 && 0.0 <= col.bottomThird.v <= 100.0
    && col.topHalf.v + col.bottomHalf.v == 100.0
    && col.topThird.v + col.middleThird.v + col.bottomThird.v == 100.0
    && col.topThird.v <= col.topHalf.v
    && col.bottomThird.v <= col.bottomHalf.v
  }

  lemma PercentSum(a: nat, b: nat, c: nat, n: nat)
    requires n > 0 && a + b + c == n
    ensures Percent(a, n).v + Percent(b, n).v + Percent(c, n).v == 100.0
  {
    var r := n as real;
    calc {
      Percent(a, n).v + Percent(b, n).v + Percent(c, n).v;
      (a as real + b as real + c as real) / r * 100.0;
      r / r * 100.0;
    }
  }

  lemma PercentMonotone(a: nat, b: nat, n: nat)
    requires n > 0 && a <= b
    ensures Percent(a, n).v <= Percent(b, n).v
  {
    var r := n as real;
    assert a as real / r <= b as real / r;
  }

  /** A non-empty bucket yields well-formed percentages. */
  lemma ColumnPercentages(minute: real, frames: seq<Point>, l: Lines)
    requires |frames| > 0
    ensures ColumnOf(minute, Tally(frames, l), |frames|).minute == minute
    ensures WellFormedPercentages(ColumnOf(minute, Tally(frames, l), |frames|))
  {
    TallyTotals(frames, l);
    CountsPercentages(minute, Tally(frames, l), |frames|);
  }

  lemma CountsPercentages(minute: real, c: Counts, n: nat)
    requires n > 0
    requires c.topHalf + c.bottomHalf == n && c.topThird + c.middleThird + c.bottomThird == n
    requires c.topThird <= c.topHalf && c.bottomThird <= c.bottomHalf
    ensures ColumnOf(minute, c, n).minute == minute
    ensures WellFormedPercentages(ColumnOf(minute, c, n))
  {
    var th, bh := Percent(c.topHalf, n), Percent(c.bottomHalf, n);
    var tt, mt, bt := Percent(c.topThird, n), Percent(c.middleThird, n), Percent(c.bottomThird, n);
    assert 0.0 <= th.v <= 100.0 by { PercentBounds(c.topHalf, n); }
    assert 0.0 <= bh.v <= 100.0 by { PercentBounds(c.bottomHalf, n); }
    assert 0.0 <= tt.v <= 100.0 by { PercentBounds(c.topThird, n); }
    assert 0.0 <= mt.v <= 100.0 by { PercentBounds(c.middleThird, n); }
    assert 0.0 <= bt.v <= 100.0 by { PercentBounds(c.bottomThird, n); }
    assert th.v + bh.v == 100.0 by {
      PercentSum(c.topHalf, c.bottomHalf, 0, n);
      PercentBounds(0, n);
    }
    assert tt.v + mt.v + bt.v == 100.0 by { PercentSum(c.topThird, c.middleThird, c.bottomThird, n); }
    assert tt.v <= th.v by { PercentMonotone(c.topThird, c.topHalf, n); }
    assert bt.v <= bh.v by { PercentMonotone(c.bottomThird, c.bottomHalf, n); }
    assert ColumnOf(minute, c, n) == Column(minute, th, bh, tt, mt, bt);
  }

  /** An empty bucket yields a column of NaN only. */
  lemma EmptyColumn(minute: real, l: Lines)
    ensures AllNaN(ColumnOf(minute, Tally([], l), 0))
  {
  }
}
