/** The `FaceRecog` object: its gallery, the alternating
    `process_this_frame` switch and the per-face cache that `get_frame`
    fills on compute calls and redraws on reuse calls. Face location and
    encoding on the shrunken frame are opaque; their output for one frame
    arrives as a `Detection`. */
module Recog {
  import opened Wrappers
  import Gallery
  import Matcher
  import Overlay

  /** What the library finds on one shrunken frame: the face boxes and one
      encoding per box. */
  datatype Detection = Detection(locations: seq<Overlay.Box>, encodings: seq<Gallery.Encoding>)

  datatype State = State(
    knownEncodings: seq<Gallery.Encoding>,
    knownNames: seq<string>,
    processThisFrame: bool,
    locations: seq<Overlay.Box>,
    faceEncodings: seq<Gallery.Encoding>,
    faceNames: seq<string>,
    faceDist: seq<real>)

  type Metric = (Gallery.Encoding, Gallery.Encoding) -> real

  /** Every gallery encoding has a name at its index. */
  predicate Valid(s: State) {
    |s.knownEncodings| <= |s.knownNames|
  }

  /** `min` of an empty distance list raises: a detected face can only be
      matched against a non-empty gallery. */
  predicate Serves(s: State, det: Detection) {
    |det.encodings| == 0 || |s.knownEncodings| > 0
  }

  /** The caller's obligation for one `get_frame` call. */
  predicate CanStep(s: State, det: Detection) {
    Valid(s) && (s.processThisFrame ==> Serves(s, det))
  }

  /** A freshly constructed recogniser: empty gallery, first call computes. */
  function Init(): (s: State)
    ensures s.processThisFrame && Valid(s)
    ensures s.knownNames == [] && s.knownEncodings == []
    ensures s.locations == [] && s.faceNames == [] && s.faceDist == []
  {
    State([], [], true, [], [], [], [])
  }

  /** Loading the gallery as `call_face` is written: every `.jpg` row's
      stem joins the names, only rows that decode add an encoding, and the
      location, encoding and name caches are emptied; the score cache is
      left as it was. */
  method LoadGallery(s: State, rows: seq<Gallery.Row>, encode: Gallery.Bytes -> Option<Gallery.Encoding>)
    returns (r: State)
    ensures r.knownNames == s.knownNames + Gallery.JpgStems(rows)
    ensures r.knownEncodings == s.knownEncodings + Gallery.Decoded(rows, encode)
    ensures |r.knownEncodings| - |s.knownEncodings| == |r.knownNames| - |s.knownNames|
        <==> Gallery.AllDecode(rows, encode)
    ensures Valid(s) ==> Valid(r)
    ensures r.locations == [] && r.faceEncodings == [] && r.faceNames == []
    ensures r.faceDist == s.faceDist && r.processThisFrame == s.processThisFrame
  {
    var names, encodings := Gallery.CallFace(s.knownNames, s.knownEncodings, rows, encode);
    r := s.(knownNames := names, knownEncodings := encodings,
            locations := [], faceEncodings := [], faceNames := []);
  }

  /** The same load with the corrected build: a name joins the gallery only
      together with its encoding, so both lists grow in step. */
  method LoadGalleryAligned(s: State, rows: seq<Gallery.Row>, encode: Gallery.Bytes -> Option<Gallery.Encoding>)
    returns (r: State)
    ensures r.knownNames == s.knownNames + Gallery.DecodedStems(rows, encode)
    ensures r.knownEncodings == s.knownEncodings + Gallery.Decoded(rows, encode)
    ensures |r.knownNames| - |s.knownNames| == |r.knownEncodings| - |s.knownEncodings|
    ensures Valid(s) ==> Valid(r)
    ensures r.locations == [] && r.faceEncodings == [] && r.faceNames == []
    ensures r.faceDist == s.faceDist && r.processThisFrame == s.processThisFrame
  {
    var names, encodings := Gallery.CallFaceAligned(s.knownNames, s.knownEncodings, rows, encode);
    r := s.(knownNames := names, knownEncodings := encodings,
            locations := [], faceEncodings := [], faceNames := []);
  }

  /** The matching loop of a compute call, a helper of `Step`: one label
      and one score per detected encoding, in detection order. */
  function MatchFaces(known: seq<Gallery.Encoding>, names: seq<string>,
                      encodings: seq<Gallery.Encoding>, distance: Metric): (r: (seq<string>, seq<real>))
    requires |encodings| == 0 || 0 < |known| <= |names|
    ensures |r.0| == |encodings| && |r.1| == |encodings|
    ensures forall i :: 0 <= i < |encodings| ==>
      && r.0[i] == Matcher.Label(Matcher.Distances(known, encodings[i], distance), names)
      && r.1[i] == Matcher.Score(Matcher.Distances(known, encodings[i], distance))
  {
    (seq(|encodings|, i requires 0 <= i < |encodings| =>
       Matcher.Label(Matcher.Distances(known, encodings[i], distance), names)),
     seq(|encodings|, i requires 0 <= i < |encodings| =>
       Matcher.Score(Matcher.Distances(known, encodings[i], distance))))
  }

  /** The state effect of one `get_frame` call. A compute call replaces the
      whole face cache with this frame's detections and their matches; a
      reuse call keeps it untouched. Either way the switch flips and the
      gallery stays as it was. */
  function Step(s: State, det: Detection, distance: Metric): (r: State)
    requires CanStep(s, det)
    ensures r.processThisFrame == !s.processThisFrame
    ensures r.knownEncodings == s.knownEncodings && r.knownNames == s.knownNames
    ensures Valid(r)
    ensures !s.processThisFrame ==>
      r.locations == s.locations && r.faceEncodings == s.faceEncodings
      && r.faceNames == s.faceNames && r.faceDist == s.faceDist
    ensures s.processThisFrame ==>
      && r.locations == det.locations && r.faceEncodings == det.encodings
      && |r.faceNames| == |det.encodings| && |r.faceDist| == |det.encodings|
      && forall i :: 0 <= i < |det.encodings| ==>
           var d := Matcher.Distances(s.knownEncodings, det.encodings[i], distance);
           r.faceNames[i] == Matcher.Label(d, s.knownNames) && r.faceDist[i] == Matcher.Score(d)
  {
    if s.processThisFrame then
      var m := MatchFaces(s.knownEncodings, s.knownNames, det.encodings, distance);
      s.(locations := det.locations, faceEncodings := det.encodings,
         faceNames := m.0, faceDist := m.1, processThisFrame := false)
    else
      s.(processThisFrame := true)
  }

  /** The drawing commands for a state's face cache. */
  function Drawn(s: State, mosaic: bool): seq<Overlay.DrawCmd> {
    Overlay.Plan(s.locations, s.faceNames, s.faceDist, mosaic)
  }

  /** One `get_frame` call: step the state, then draw its (new or kept)
      cache. A reuse call draws exactly the cache it was handed. */
  function GetFrame(s: State, det: Detection, mosaic: bool, distance: Metric): (r: (State, seq<Overlay.DrawCmd>))
    requires CanStep(s, det)
    ensures r.0 == Step(s, det, distance)
    ensures !s.processThisFrame ==> r.1 == Drawn(s, mosaic)
    ensures s.processThisFrame ==> r.1 == Overlay.Plan(det.locations, r.0.faceNames, r.0.faceDist, mosaic)
  {
    var next := Step(s, det, distance);
    (next, Drawn(next, mosaic))
  }

  /** Call i of a run starting in `s` computes exactly when i has the
      parity of the starting switch; only those calls run the detector. */
  predicate Computes(s: State, i: nat) {
    s.processThisFrame == (i % 2 == 0)
  }

  /** Every detection of a compute call of the run can be matched against
      `s`'s gallery; the detections handed to reuse calls are ignored. */
  predicate ServesAll(s: State, dets: seq<Detection>) {
    forall i :: 0 <= i < |dets| && Computes(s, i) ==> Serves(s, dets[i])
  }

  lemma ParityStep(n: nat)
    ensures ((n + 1) % 2 == 0) == (n % 2 != 0)
  {
  }

  lemma ServesAllTail(s: State, next: State, dets: seq<Detection>)
    requires ServesAll(s, dets) && |dets| > 0
    requires next.knownEncodings == s.knownEncodings
    requires next.processThisFrame == !s.processThisFrame
    ensures ServesAll(next, dets[1..])
  {
    forall i | 0 <= i < |dets[1..]| && Computes(next, i)
      ensures Serves(next, dets[1..][i])
    {
      ParityStep(i);
      assert Computes(s, i + 1);
    }
  }

  /** A sequence of `get_frame` calls, one per detection. */
  function Run(s: State, dets: seq<Detection>, distance: Metric): (r: State)
    requires Valid(s) && ServesAll(s, dets)
    ensures Valid(r)
    ensures r.knownEncodings == s.knownEncodings && r.knownNames == s.knownNames
    ensures r.processThisFrame == (s.processThisFrame == (|dets| % 2 == 0))
    decreases |dets|
  {
    if |dets| == 0 then s
    else
      assert Computes(s, 0) ==> Serves(s, dets[0]);
      var next := Step(s, dets[0], distance);
      ServesAllTail(s, next, dets);
      ParityStep(|dets| - 1);
      Run(next, dets[1..], distance)
  }

  /** The states in which the calls of a run begin. */
  function Trace(s: State, dets: seq<Detection>, distance: Metric): (t: seq<State>)
    requires Valid(s) && ServesAll(s, dets)
    ensures |t| == |dets|
    decreases |dets|
  {
    if |dets| == 0 then []
    else
      assert Computes(s, 0) ==> Serves(s, dets[0]);
      var next := Step(s, dets[0], distance);
      ServesAllTail(s, next, dets);
      [s] + Trace(next, dets[1..], distance)
  }

  /** How many calls of a run detect and match. */
  function ComputeCalls(s: State, dets: seq<Detection>, distance: Metric): nat
    requires Valid(s) && ServesAll(s, dets)
  {
    |set i | 0 <= i < |dets| && Trace(s, dets, distance)[i].processThisFrame|
  }

  /** Call i (counting from 0) computes exactly when i has the parity of
      the starting switch: from a fresh recogniser, the 1st, 3rd, 5th, ...
      calls compute. */
  lemma {:induction false} TraceAlternates(s: State, dets: seq<Detection>, distance: Metric)
    requires Valid(s) && ServesAll(s, dets)
    ensures forall i :: 0 <= i < |dets| ==>
      Trace(s, dets, distance)[i].processThisFrame == (s.processThisFrame == (i % 2 == 0))
    decreases |dets|
  {
    if |dets| > 0 {
      assert Computes(s, 0) ==> Serves(s, dets[0]);
      var next := Step(s, dets[0], distance);
      ServesAllTail(s, next, dets);
      TraceAlternates(next, dets[1..], distance);
      var t := Trace(s, dets, distance);
      assert t == [s] + Trace(next, dets[1..], distance);
      forall i | 0 < i < |dets|
        ensures t[i].processThisFrame == (s.processThisFrame == (i % 2 == 0))
      {
        assert t[i] == Trace(next, dets[1..], distance)[i - 1];
        ParityStep(i - 1);
      }
    }
  }

  /** Over N calls from a computing state, exactly ceil(N/2) compute. */
  lemma AlternationCount(s: State, dets: seq<Detection>, distance: Metric)
    requires Valid(s) && ServesAll(s, dets)
    ensures ComputeCalls(s, dets, distance)
         == if s.processThisFrame then (|dets| + 1) / 2 else |dets| / 2
  {
    TraceAlternates(s, dets, distance);
    var t := Trace(s, dets, distance);
    var parity := if s.processThisFrame then 0 else 1;
    assert (set i | 0 <= i < |dets| && t[i].processThisFrame)
        == (set i | 0 <= i < |dets| && i % 2 == parity);
    ParityCount(|dets|, parity);
  }

  /** The number of indices below n with a given parity. */
  lemma {:induction false} ParityCount(n: nat, parity: int)
    requires parity == 0 || parity == 1
    ensures |set i | 0 <= i < n && i % 2 == parity| == (n + 1 - parity) / 2
  {
    if n > 0 {
      ParityCount(n - 1, parity);
      var below := set i | 0 <= i < n - 1 && i % 2 == parity;
      if (n - 1) % 2 == parity {
        assert (set i | 0 <= i < n && i % 2 == parity) == below + {n - 1};
      } else {
        assert (set i | 0 <= i < n && i % 2 == parity) == below;
      }
    }
  }

  /** A reuse call redraws exactly what the preceding compute call drew,
      whatever the detector reports on the reuse frame. */
  lemma ReuseRedrawsLastCompute(s: State, det1: Detection, det2: Detection, mosaic: bool, distance: Metric)
    requires CanStep(s, det1) && s.processThisFrame
    ensures CanStep(GetFrame(s, det1, mosaic, distance).0, det2)
    ensures GetFrame(GetFrame(s, det1, mosaic, distance).0, det2, mosaic, distance).1
         == GetFrame(s, det1, mosaic, distance).1
  {
  }
}
