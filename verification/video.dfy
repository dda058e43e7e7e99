/** The part of the `ShowVideo` thread that decides what happens to a
    camera frame: the two button flags, toggled with Python's bitwise `~`,
    and the gate that sends a frame through `get_frame` only while the
    recognition flag is truthy. */
module Video {
  import Recog
  import Overlay

  /** Python's `~x` on an integer (`False` counts as 0). */
  function Invert(x: int): int {
    -x - 1
  }

  /** Python truthiness of an integer flag. */
  predicate Truthy(x: int) {
    x != 0
  }

  /** The values a flag takes when it starts at 0 and is only ever
      inverted. */
  predicate IsSwitch(x: int) {
    x == 0 || x == -1
  }

  datatype Video = Video(flag: int, mosaicFlag: int, recog: Recog.State)

  /** A new video thread: both flags start at 0 / `False`. */
  function Start(recog: Recog.State): Video {
    Video(0, 0, recog)
  }

  /** The recognition button. */
  function ToggleDetection(v: Video): (r: Video)
    ensures r.mosaicFlag == v.mosaicFlag && r.recog == v.recog
    ensures IsSwitch(v.flag) ==> IsSwitch(r.flag) && Truthy(r.flag) == !Truthy(v.flag)
  {
    v.(flag := Invert(v.flag))
  }

  /** The mosaic button. */
  function ToggleMosaic(v: Video): (r: Video)
    ensures r.flag == v.flag && r.recog == v.recog
    ensures IsSwitch(v.mosaicFlag) ==> IsSwitch(r.mosaicFlag) && Truthy(r.mosaicFlag) == !Truthy(v.mosaicFlag)
  {
    v.(mosaicFlag := Invert(v.mosaicFlag))
  }

  /** `~` is a truthiness flip only on the switch values: on 1 it gives -2,
      which is truthy as well. */
  lemma InvertIsNotNegation()
    ensures Truthy(1) && Truthy(Invert(1))
  {
  }

  /** A flag pressed n times from 0 is 0 or -1, and on exactly when n is odd. */
  function Pressed(n: nat): (x: int)
    ensures IsSwitch(x)
    ensures Truthy(x) == (n % 2 == 1)
  {
    if n == 0 then 0 else Invert(Pressed(n - 1))
  }

  /** One camera frame: while the recognition flag is off the frame passes
      through untouched and the recogniser does not advance; while it is on,
      one `get_frame` call runs with the mosaic flag's truthiness and the
      frame carries the plan of the recogniser's new cache. */
  function Cycle(v: Video, det: Recog.Detection, distance: Recog.Metric): (r: (Video, seq<Overlay.DrawCmd>))
    requires Truthy(v.flag) ==> Recog.CanStep(v.recog, det)
    ensures r.0.flag == v.flag && r.0.mosaicFlag == v.mosaicFlag
    ensures !Truthy(v.flag) ==> r.0 == v && r.1 == []
    ensures Truthy(v.flag) ==>
      && r.0.recog == Recog.Step(v.recog, det, distance)
      && r.1 == Recog.Drawn(r.0.recog, Truthy(v.mosaicFlag))
    ensures forall i :: 0 <= i < |r.1| && r.1[i].Mosaic? ==> Truthy(v.mosaicFlag)
  {
    if Truthy(v.flag) then
      var (next, cmds) := Recog.GetFrame(v.recog, det, Truthy(v.mosaicFlag), distance);
      (v.(recog := next), cmds)
    else
      (v, [])
  }

  /** Frames shown while recognition is paused do not use up a compute
      turn: resuming after a paused frame behaves exactly as resuming
      straight away. */
  lemma PausedFrameKeepsSchedule(v: Video, paused: Recog.Detection, det: Recog.Detection, distance: Recog.Metric)
    requires v.flag == 0 && Recog.CanStep(v.recog, det)
    ensures Cycle(ToggleDetection(Cycle(v, paused, distance).0), det, distance)
         == Cycle(ToggleDetection(v), det, distance)
  {
  }
}
