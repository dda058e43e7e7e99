/** The inner loop of `FaceRecog.get_frame`: from the distances between one
    detected face and every gallery encoding to a label and a score. */
module Matcher {
  import Gallery

  /** A face matches only when its nearest distance is strictly below this. */
  const Threshold: real := 0.45

  /** The label of a face that matched nobody. */
  const NotFound: string := "NotFound"

  /** `face_recognition.face_distance(known, face)`: one distance per gallery
      encoding, in gallery order; the metric itself is an opaque input. */
  function Distances(known: seq<Gallery.Encoding>, face: Gallery.Encoding,
                     distance: (Gallery.Encoding, Gallery.Encoding) -> real): (d: seq<real>)
    ensures |d| == |known|
    ensures forall i :: 0 <= i < |d| ==> d[i] == distance(known[i], face)
  {
    seq(|known|, i requires 0 <= i < |known| => distance(known[i], face))
  }

  /** Python's `min` over a non-empty list. */
  function Min(d: seq<real>): (m: real)
    requires |d| > 0
    ensures forall j :: 0 <= j < |d| ==> m <= d[j]
    ensures exists k :: 0 <= k < |d| && d[k] == m
  {
    if |d| == 1 then d[0]
    else
      var t := Min(d[1..]);
      assert forall j :: 1 <= j < |d| ==> d[j] == d[1..][j - 1];
      var k :| 0 <= k < |d[1..]| && d[1..][k] == t;
      assert d[k + 1] == t;
      if d[0] <= t then d[0] else t
  }

  function Max(d: seq<real>): (m: real)
    requires |d| > 0
    ensures forall j :: 0 <= j < |d| ==> d[j] <= m
    ensures exists k :: 0 <= k < |d| && d[k] == m
  {
    if |d| == 1 then d[0]
    else
      var t := Max(d[1..]);
      assert forall j :: 1 <= j < |d| ==> d[j] == d[1..][j - 1];
      var k :| 0 <= k < |d[1..]| && d[1..][k] == t;
      assert d[k + 1] == t;
      if d[0] >= t then d[0] else t
  }

  /** `k` is the first index at which `d` takes its minimum. */
  predicate IsFirstMin(d: seq<real>, k: int) {
    && 0 <= k < |d|
    && (forall j :: 0 <= j < |d| ==> d[k] <= d[j])
    && (forall j :: 0 <= j < k ==> d[k] < d[j])
  }

  /** `np.argmin`: the first index of the minimum. */
  function ArgMin(d: seq<real>): (k: nat)
    requires |d| > 0
    ensures IsFirstMin(d, k)
  {
    if |d| == 1 then 0
    else
      var k' := ArgMin(d[1..]);
      assert forall j :: 1 <= j < |d| ==> d[j] == d[1..][j - 1];
      if d[0] <= d[1..][k'] then 0 else k' + 1
  }

  /** The mean of the distances is computed from their sum. */
  function Sum(d: seq<real>): real {
    if |d| == 0 then 0.0 else d[0] + Sum(d[1..])
  }

  lemma {:induction false} SumBounds(d: seq<real>, lo: real, hi: real)
    requires forall j :: 0 <= j < |d| ==> lo <= d[j] <= hi
    ensures |d| as real * lo <= Sum(d) <= |d| as real * hi
  {
    if |d| > 0 {
      SumBounds(d[1..], lo, hi);
      assert (|d| - 1) as real * lo + lo == |d| as real * lo;
      assert (|d| - 1) as real * hi + hi == |d| as real * hi;
    }
  }

  /** The stored score: the arithmetic mean of ALL distances (not one minus
      it). */
  function Score(d: seq<real>): real
    requires |d| > 0
  {
    Sum(d) / |d| as real
  }

  /** Being a mean, the score lies between the nearest and the farthest
      distance. */
  lemma ScoreBetweenNearestAndFarthest(d: seq<real>)
    requires |d| > 0
    ensures Min(d) <= Score(d) <= Max(d)
  {
    MeanBounds(d, Min(d), Max(d));
  }

  lemma MeanBounds(d: seq<real>, lo: real, hi: real)
    requires |d| > 0
    requires forall j :: 0 <= j < |d| ==> lo <= d[j] <= hi
    ensures lo <= Sum(d) / |d| as real <= hi
  {
    var n := |d| as real;
    SumBounds(d, lo, hi);
    var s := Sum(d);
    DivBounds(s, n, lo, hi);
  }

  lemma DivBounds(s: real, n: real, lo: real, hi: real)
    requires n > 0.0 && n * lo <= s <= n * hi
    ensures lo <= s / n <= hi
  {
  }

  /** The label of one face: the gallery name at the first nearest index
      when that distance is below the threshold, `NotFound` otherwise.
      `names` may be longer than the distances (the as-written gallery
      keeps names of images that failed to decode). */
  function Label(d: seq<real>, names: seq<string>): (who: string)
    requires 0 < |d| <= |names|
    ensures (exists j :: 0 <= j < |d| && d[j] < Threshold) ==>
      exists k :: IsFirstMin(d, k) && d[k] < Threshold && who == names[k]
    ensures (forall j :: 0 <= j < |d| ==> d[j] >= Threshold) ==> who == NotFound
  {
    if Min(d) < Threshold then names[ArgMin(d)] else NotFound
  }

  /** The threshold is exclusive: a face at exactly 0.45 is not matched,
      just below it is. */
  lemma ThresholdIsExclusive(names: seq<string>)
    requires |names| > 0
    ensures Label([0.45], names) == NotFound
    ensures Label([0.449], names) == names[0]
  {
  }

  /** Ties go to the first gallery entry. */
  lemma TieGoesToFirst(names: seq<string>)
    requires |names| >= 3
    ensures Label([0.3, 0.2, 0.2], names) == names[1]
  {
  }

  lemma {:induction false} SumConcat(a: seq<real>, b: seq<real>)
    ensures Sum(a + b) == Sum(a) + Sum(b)
  {
    if |a| > 0 {
      assert (a + b)[0] == a[0];
      assert (a + b)[1..] == a[1..] + b;
      SumConcat(a[1..], b);
    } else {
      assert a + b == b;
    }
  }

  /** The score depends only on the multiset of distances: reordering the
      gallery, and with it the identity chosen, leaves it unchanged. */
  lemma {:induction false} ScorePermutationInvariant(a: seq<real>, b: seq<real>)
    requires |a| > 0 && multiset(a) == multiset(b)
    ensures |b| == |a|
    ensures Score(a) == Score(b)
  {
    assert |a| == |multiset(a)| == |multiset(b)| == |b|;
    SumPermutationInvariant(a, b);
  }

  lemma {:induction false} SumPermutationInvariant(a: seq<real>, b: seq<real>)
    requires multiset(a) == multiset(b)
    ensures Sum(a) == Sum(b)
    decreases |a|
  {
    assert |a| == |multiset(a)| == |multiset(b)| == |b|;
    if |a| > 0 {
      assert a[0] in multiset(b);
      var i :| 0 <= i < |b| && b[i] == a[0];
      var rest := b[..i] + b[i + 1..];
      SumRemoveAt(b, i);
      MultisetRemoveAt(b, i);
      assert a == [a[0]] + a[1..];
      assert multiset(a[1..]) == multiset(a) - multiset{a[0]};
      SumPermutationInvariant(a[1..], rest);
    }
  }

  /** Taking out the element at `i` removes it from the sum. */
  lemma {:induction false} SumRemoveAt(b: seq<real>, i: nat)
    requires i < |b|
    ensures Sum(b) == b[i] + Sum(b[..i] + b[i + 1..])
  {
    var front, mid, back := b[..i], [b[i]] + b[i + 1..], b[i + 1..];
    assert b == front + mid;
    SumConcat(front, mid);
    SumCons(b[i], back);
    SumConcat(front, back);
  }

  lemma {:induction false} SumCons(x: real, d: seq<real>)
    ensures Sum([x] + d) == x + Sum(d)
  {
    assert ([x] + d)[1..] == d;
  }

  /** Taking out the element at `i` removes one copy of it from the
      multiset. */
  lemma {:induction false} MultisetRemoveAt(b: seq<real>, i: nat)
    requires i < |b|
    ensures multiset(b[..i] + b[i + 1..]) == multiset(b) - multiset{b[i]}
  {
    var front, back := b[..i], b[i + 1..];
    assert b == front + [b[i]] + back;
    assert multiset(b) == multiset(front) + multiset{b[i]} + multiset(back);
  }

  /** A face left unmatched always carries a score of at least the threshold;
      a matched face need not score below it. */
  lemma UnmatchedScoreAtLeastThreshold(d: seq<real>, names: seq<string>)
    requires 0 < |d| <= |names|
    requires forall j :: 0 <= j < |d| ==> d[j] >= Threshold
    ensures Label(d, names) == NotFound && Score(d) >= Threshold
  {
    MeanBounds(d, Threshold, Max(d));
  }

  lemma MatchedScoreCanExceedThreshold(names: seq<string>)
    requires |names| >= 2
    ensures Label([0.1, 1.0], names) == names[0]
    ensures Score([0.1, 1.0]) == 0.55
  {
  }
}
