/**
 * The extents of the tank: the outline drawn in the tracker's annotation file
 * is a polygon, reduced here to its top, bottom, left and right coordinates.
 */
module Arena {

  import opened Wrappers

  /** A vertex of the outline, (x, y), as in the unpickled coordinate array. */
  type Vertex = (real, real)

  datatype Extents = Extents(top: real, bottom: real, left: real, right: real)

  /** Python's max() of a non-empty list. */
  function Largest(s: seq<real>): (m: real)
    requires |s| > 0
    ensures exists i :: 0 <= i < |s| && s[i] == m
    ensures forall i :: 0 <= i < |s| ==> s[i] <= m
  {
    if |s| == 1 then s[0]
    else
      var rest := Largest(s[1..]);
      assert forall i :: 1 <= i < |s| ==> s[i] == s[1..][i - 1];
      if s[0] >= rest then s[0] else rest
  }

  /** Python's min() of a non-empty list. */
  function Smallest(s: seq<real>): (m: real)
    requires |s| > 0
    ensures exists i :: 0 <= i < |s| && s[i] == m
    ensures forall i :: 0 <= i < |s| ==> m <= s[i]
  {
    if |s| == 1 then s[0]
    else
      var rest := Smallest(s[1..]);
      assert forall i :: 1 <= i < |s| ==> s[i] == s[1..][i - 1];
      if s[0] <= rest then s[0] else rest
  }

  function Xs(outline: seq<Vertex>): seq<real>
  {
    seq(|outline|, i requires 0 <= i < |outline| => outline[i].0)
  }

  function Ys(outline: seq<Vertex>): seq<real>
  {
    seq(|outline|, i requires 0 <= i < |outline| => outline[i].1)
  }

  /**
   * The extent computation of get_top_and_bottom: top and bottom are the
   * largest and smallest y of the outline, left and right the smallest and
   * largest x. Every vertex lies inside the box, each side touches a vertex,
   * and an empty outline makes max() raise.
   */
  function ArenaExtents(outline: seq<Vertex>): (e: Result<Extents>)
    ensures e.Err? <==> outline == []
    ensures e.Err? ==> e.failure == EmptySequence
    ensures e.Ok? ==> e.value.bottom <= e.value.top && e.value.left <= e.value.right
    ensures e.Ok? ==>
              forall i :: 0 <= i < |outline| ==>
                e.value.bottom <= outline[i].1 <= e.value.top && e.value.left <= outline[i].0 <= e.value.right
    ensures e.Ok? ==> exists i :: 0 <= i < |outline| && outline[i].1 == e.value.top
    ensures e.Ok? ==> exists i :: 0 <= i < |outline| && outline[i].1 == e.value.bottom
    ensures e.Ok? ==> exists i :: 0 <= i < |outline| && outline[i].0 == e.value.left
    ensures e.Ok? ==> exists i :: 0 <= i < |outline| && outline[i].0 == e.value.right
  {
    if outline == [] then Err(EmptySequence)
    else
      var xs, ys := Xs(outline), Ys(outline);
      assert forall i :: 0 <= i < |outline| ==> ys[i] == outline[i].1 && xs[i] == outline[i].0;
      Ok(Extents(Largest(ys), Smallest(ys), Smallest(xs), Largest(xs)))
  }
}
