/** time_per_frame: the duration of one frame of a trial of known length. */
module Timing {

  import opened Wrappers

  /** Python's `//` (and `/` on two ints in Python 2): rounds toward minus infinity. */
  function FloorDiv(a: int, b: int): (q: int)
    requires b != 0
    ensures q as real <= a as real / b as real < q as real + 1.0
  {
    if b > 0 then
      DivBounds(a, b);
      a / b
    else
      DivBounds(-a, -b);
      assert (-a) as real / (-b) as real == a as real / b as real;
      (-a) / (-b)
  }

  lemma DivBounds(a: int, b: int)
    requires b > 0
    ensures (a / b) as real <= a as real / b as real < (a / b) as real + 1.0
  {
    var q, r := a / b, a % b;
    assert a == q * b + r && 0 <= r < b;
    assert a as real / b as real == q as real + r as real / b as real;
  }

  /** Seconds per frame of a trial of `frames` frames lasting `minutes` minutes. */
  function TimePerFrame(frames: nat, minutes: int): (r: Result<real>)
    ensures minutes == 0 ==> r == Err(DivisionByZero)
    ensures r.Ok? ==> minutes != 0 && r.value * FloorDiv(frames, minutes * 60) as real == 1.0
    ensures r.Ok? && minutes > 0 ==> 0.0 < r.value <= 1.0
  {
    var secs := minutes * 60;
    if secs == 0 then Err(DivisionByZero)
    else
      var fps := FloorDiv(frames, secs);
      if fps == 0 then Err(DivisionByZero) else Ok(1.0 / fps as real)
  }

  /**
   * The frame rate is an integer division, so for a positive length the
   * result is never below the true frame duration and equals it when the
   * division is exact; a frame rate that rounds down to 0 (fewer frames than
   * seconds) or a zero length raises.
   */
  lemma TimePerFrameBounds(frames: nat, minutes: int)
    ensures minutes == 0 ==> TimePerFrame(frames, minutes) == Err(DivisionByZero)
    ensures minutes > 0 ==> (TimePerFrame(frames, minutes).Ok? <==> frames >= minutes * 60)
    ensures minutes > 0 && TimePerFrame(frames, minutes).Ok? ==>
              TimePerFrame(frames, minutes).value >= (minutes * 60) as real / frames as real
    ensures minutes > 0 && frames > 0 && frames % (minutes * 60) == 0 ==>
              && TimePerFrame(frames, minutes).Ok?
              && TimePerFrame(frames, minutes).value * frames as real == (minutes * 60) as real
  {
    if minutes > 0 {
      var secs := minutes * 60;
      assert secs > 0;
      var fps := frames / secs;
      assert FloorDiv(frames, secs) == fps;
      DivPositive(frames, secs);
      if fps != 0 {
        FrameDuration(frames, secs, fps);
      }
    }
  }

  lemma DivPositive(a: nat, b: nat)
    requires b > 0
    ensures a / b == 0 <==> a < b
    ensures a > 0 && a % b == 0 ==> a / b > 0
  {
  }

  lemma FrameDuration(frames: nat, secs: int, fps: int)
    requires secs > 0 && fps == frames / secs && fps != 0
    ensures fps > 0
    ensures 1.0 / fps as real >= secs as real / frames as real
    ensures frames % secs == 0 ==> 1.0 / fps as real * frames as real == secs as real
  {
    DivBounds(frames, secs);
    var f, s, p := frames as real, secs as real, fps as real;
    assert p <= f / s;
    assert p * s <= f;
    assert s / f <= 1.0 / p by {
      assert s * p <= f;
    }
    if frames % secs == 0 {
      assert frames == fps * secs;
      assert f == p * s;
    }
  }
}
