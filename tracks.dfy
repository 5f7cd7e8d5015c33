/**
 * Track merging: the raw tracking table has one row per video frame and its
 * columns come in groups of six (track id, x, y and three fields that are
 * never read). For every frame the merged trajectory keeps the (x, y) of the
 * LAST group whose id is non-negative; a frame without such a group is dropped.
 */
module TrackMerge {

  import opened Wrappers

  datatype Point = Point(x: real, y: real)

  /** Number of column groups the scan visits: the starts 0, 6, 12, ... below |row|. */
  function GroupCount(row: seq<real>): nat
  {
    (|row| + 5) / 6
  }

  /** The id field of group k marks a detection (a negative id means "nothing tracked"). */
  predicate HasId(row: seq<real>, k: nat)
    requires k < GroupCount(row)
  {
    row[6 * k] >= 0.0
  }

  /**
   * combine_df reads the x and y columns of a group only when its id is
   * non-negative, and those columns must exist (otherwise pandas raises a
   * KeyError): a truncated last group is harmless unless its id is valid.
   */
  predicate Readable(row: seq<real>)
  {
    forall k :: 0 <= k < GroupCount(row) ==> HasId(row, k) ==> 6 * k + 2 < |row|
  }

  predicate AllReadable(table: seq<seq<real>>)
  {
    forall i :: 0 <= i < |table| ==> Readable(table[i])
  }

  function PointOf(row: seq<real>, k: nat): Point
    requires Readable(row) && k < GroupCount(row) && HasId(row, k)
  {
    Point(row[6 * k + 1], row[6 * k + 2])
  }

  /** The detections of the first k groups, in column order. */
  function Candidates(row: seq<real>, k: nat): seq<Point>
    requires Readable(row) && k <= GroupCount(row)
  {
    if k == 0 then []
    else Candidates(row, k - 1) + (if HasId(row, k - 1) then [PointOf(row, k - 1)] else [])
  }

  /** The point a frame contributes: the last of its detections, if any. */
  function Pick(row: seq<real>): (p: Option<Point>)
    requires Readable(row)
    ensures p.Some? ==> exists g :: 0 <= g < GroupCount(row) && HasId(row, g) && p.value == PointOf(row, g)
  {
    var c := Candidates(row, GroupCount(row));
    CandidatesLast(row, GroupCount(row));
    if |c| > 0 then Some(c[|c| - 1]) else None
  }

  /** Group g is the highest-offset group of the row whose id is valid. */
  predicate IsLastDetection(row: seq<real>, g: nat)
  {
    && g < GroupCount(row)
    && HasId(row, g)
    && forall j :: g < j < GroupCount(row) ==> !HasId(row, j)
  }

  /** The merged trajectory of a whole table, in frame order. */
  function Merged(table: seq<seq<real>>): seq<Point>
    requires AllReadable(table)
  {
    if table == [] then []
    else
      var last := table[|table| - 1];
      Merged(table[..|table| - 1]) + (match Pick(last) case Some(p) => [p] case None => [])
  }

  /** Number of frames that have at least one valid id. */
  function DetectedFrames(table: seq<seq<real>>): nat
    requires AllReadable(table)
  {
    if table == [] then 0
    else DetectedFrames(table[..|table| - 1]) + (if Pick(table[|table| - 1]).Some? then 1 else 0)
  }

  lemma {:induction false} CandidatesLast(row: seq<real>, k: nat)
    requires Readable(row) && k <= GroupCount(row)
    ensures |Candidates(row, k)| == 0 <==> forall j :: 0 <= j < k ==> !HasId(row, j)
    ensures |Candidates(row, k)| > 0 ==>
              exists g :: 0 <= g < k && HasId(row, g) && Candidates(row, k)[|Candidates(row, k)| - 1] == PointOf(row, g)
                          && forall j :: g < j < k ==> !HasId(row, j)
  {
    if k > 0 {
      CandidatesLast(row, k - 1);
      if HasId(row, k - 1) {
        var c := Candidates(row, k);
        assert c[|c| - 1] == PointOf(row, k - 1);
      } else {
        assert Candidates(row, k) == Candidates(row, k - 1);
      }
    }
  }

  /**
   * The point picked for a frame is that of its last valid group; earlier
   * valid groups are ignored, and a frame without valid group yields nothing.
   */
  lemma PickIsLastDetection(row: seq<real>)
    requires Readable(row)
    ensures Pick(row).None? <==> forall j :: 0 <= j < GroupCount(row) ==> !HasId(row, j)
    ensures Pick(row).Some? ==> exists g :: IsLastDetection(row, g) && Pick(row).value == PointOf(row, g)
  {
    CandidatesLast(row, GroupCount(row));
  }

  /** Merging works frame by frame: it distributes over concatenation of tables. */
  lemma {:induction false} MergedAppend(a: seq<seq<real>>, b: seq<seq<real>>)
    requires AllReadable(a) && AllReadable(b)
    ensures AllReadable(a + b)
    ensures Merged(a + b) == Merged(a) + Merged(b)
    decreases |b|
  {
    if b == [] {
      assert a + b == a;
    } else {
      var b' := b[..|b| - 1];
      assert (a + b)[..|a + b| - 1] == a + b';
      assert (a + b)[|a + b| - 1] == b[|b| - 1];
      MergedAppend(a, b');
    }
  }

  /** One output point per frame with a detection, so never more than there are frames. */
  lemma {:induction false} MergedLength(table: seq<seq<real>>)
    requires AllReadable(table)
    ensures |Merged(table)| == DetectedFrames(table) <= |table|
    ensures |Merged(table)| == |table| <==> forall i :: 0 <= i < |table| ==> Pick(table[i]).Some?
  {
    if table != [] {
      var init, last := table[..|table| - 1], table[|table| - 1];
      MergedLength(init);
      assert forall i :: 0 <= i < |init| ==> init[i] == table[i];
      assert |Merged(table)| == |Merged(init)| + (if Pick(last).Some? then 1 else 0);
    }
  }

  /** combine_df: scan every frame, collect its detections, keep the last one. */
  method CombineFrames(table: seq<seq<real>>) returns (track: seq<Point>)
    requires AllReadable(table)
    ensures track == Merged(table)
  {
    track := [];
    var frame := 0;
    while frame < |table|
      invariant frame <= |table|
      invariant track == Merged(table[..frame])
    {
      var row := table[frame];
      // the collected x and y coordinates, kept as one list of points
      var found: seq<Point> := [];
      var k := 0;
      while k < GroupCount(row)
        invariant k <= GroupCount(row)
        invariant found == Candidates(row, k)
      {
        var ids := 6 * k;
        if row[ids] >= 0.0 {
          found := found + [Point(row[ids + 1], row[ids + 2])];
        }
        k := k + 1;
      }
      if |found| > 0 {
        track := track + [found[|found| - 1]];
      }
      assert table[..frame + 1][..frame] == table[..frame];
      frame := frame + 1;
    }
    assert table[..frame] == table;
  }
}
