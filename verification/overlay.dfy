/** The drawing loop at the end of `FaceRecog.get_frame`, as a plan of
    drawing commands instead of pixel writes. Each cached face contributes
    an optional mosaic of its region, then a box outline, a filled caption
    strip and a caption, all at four times the detector's coordinates. */
module Overlay {
  import Matcher
  import Text
  import opened Wrappers

  /** A detector box in the library's `(top, right, bottom, left)` order,
      in quarter-size frame coordinates. */
  datatype Box = Box(top: int, right: int, bottom: int, left: int)

  datatype Point = Point(x: int, y: int)

  /** OpenCV colours are blue, green, red. */
  datatype Color = Color(b: int, g: int, r: int)

  /** A pixel region `frame[top:bottom, left:right]`. */
  datatype Region = Region(top: int, bottom: int, left: int, right: int)

  datatype DrawCmd =
    | Mosaic(region: Region, shrink: real, width: int, height: int)
    | Rect(corner1: Point, corner2: Point, color: Color, thickness: int)
    | FilledStrip(corner1: Point, corner2: Point, color: Color)
    | Text(text: string, origin: Point, scale: real, color: Color, thickness: int)

  /** The frame was shrunk by 0.25 before detection. */
  const Upscale: int := 4
  const Red: Color := Color(0, 0, 255)
  const Blue: Color := Color(255, 0, 0)
  const White: Color := Color(255, 255, 255)
  const BoxThickness: int := 2
  const TextThickness: int := 1
  const StripHeight: int := 35
  const TextInset: int := 6
  const MosaicShrink: real := 0.10
  const UnmatchedFontScale: real := 1.0
  const MatchedFontScale: real := 0.75

  /** The caption: the bare label for an unmatched face, otherwise
      `"%s(%d%s)" % (name, int(dist * 100), "%")`. */
  function Caption(name: string, dist: real): string {
    if name == Matcher.NotFound then name
    else name + "(" + Text.FormatInt(Text.Trunc(dist * 100.0)) + "%)"
  }

  /** An unmatched caption is the bare label; a matched one is the name,
      then the percentage in parentheses. The number between them reads
      back as `int(dist * 100)` and is written as `%d` writes it: a lone
      `0`, or digits (after a minus sign for a negative value) starting
      with a non-zero digit. */
  lemma CaptionReadsBack(name: string, dist: real)
    ensures var c := Caption(name, dist);
      && (name == Matcher.NotFound ==> c == name)
      && (name != Matcher.NotFound ==>
           && |c| >= |name| + 4
           && c[..|name|] == name
           && c[|name|] == '('
           && c[|c| - 2..] == "%)"
           && var number := c[|name| + 1..|c| - 2];
              && Text.ParseInt(number) == Some(Text.Trunc(dist * 100.0))
              && (number[0] == '0' ==> number == "0")
              && (number[0] == '-' ==> |number| >= 2 && number[1] != '0'))
  {
    if name != Matcher.NotFound {
      var number := Text.FormatInt(Text.Trunc(dist * 100.0));
      var c := Caption(name, dist);
      assert c == name + "(" + number + "%)";
      assert c[|name| + 1..|c| - 2] == number;
    }
  }

  /** Every coordinate of `cmd` is the detector coordinate of `b` times
      four, plus the fixed strip and text offsets; a mosaic is written back
      at exactly the size of the region it was read from. */
  predicate AnchoredAt(cmd: DrawCmd, b: Box) {
    var top, right, bottom, left := Upscale * b.top, Upscale * b.right, Upscale * b.bottom, Upscale * b.left;
    match cmd
    case Mosaic(r, _, w, h) =>
      r == Region(top, bottom, left, right) && w == r.right - r.left && h == r.bottom - r.top
    case Rect(p1, p2, _, _) =>
      p1 == Point(left, top) && p2 == Point(right, bottom)
    case FilledStrip(p1, p2, _) =>
      p1 == Point(left, bottom - StripHeight) && p2 == Point(right, bottom)
    case Text(_, o, _, _, _) =>
      o == Point(left + TextInset, bottom - TextInset)
  }

  /** The commands for one cached face: a mosaic first, and only for an
      unmatched face with the flag on; the three decorations after it. */
  function FacePlan(b: Box, name: string, dist: real, mosaic: bool): (cmds: seq<DrawCmd>)
    ensures |cmds| == if name == Matcher.NotFound && mosaic then 4 else 3
    ensures cmds[0].Mosaic? <==> name == Matcher.NotFound && mosaic
    ensures forall i :: 0 < i < |cmds| ==> !cmds[i].Mosaic?
  {
    var top, right, bottom, left := Upscale * b.top, Upscale * b.right, Upscale * b.bottom, Upscale * b.left;
    var unmatched := name == Matcher.NotFound;
    var color := if unmatched then Red else Blue;
    var pixelate :=
      if unmatched && mosaic
      then [Mosaic(Region(top, bottom, left, right), MosaicShrink, right - left, bottom - top)]
      else [];
    pixelate + [
      Rect(Point(left, top), Point(right, bottom), color, BoxThickness),
      FilledStrip(Point(left, bottom - StripHeight), Point(right, bottom), color),
      Text(Caption(name, dist), Point(left + TextInset, bottom - TextInset),
           if unmatched then UnmatchedFontScale else MatchedFontScale, White, TextThickness)
    ]
  }

  /** Outline, strip and caption come last and in that order, red with the
      large font for an unmatched face, blue with the small font otherwise. */
  lemma FacePlanLayout(b: Box, name: string, dist: real, mosaic: bool)
    ensures var cmds := FacePlan(b, name, dist, mosaic);
      && cmds[|cmds| - 3].Rect? && cmds[|cmds| - 2].FilledStrip? && cmds[|cmds| - 1].Text?
      && cmds[|cmds| - 3].color == (if name == Matcher.NotFound then Red else Blue)
      && cmds[|cmds| - 2].color == cmds[|cmds| - 3].color
      && cmds[|cmds| - 3].thickness == BoxThickness
      && cmds[|cmds| - 1].text == Caption(name, dist)
      && cmds[|cmds| - 1].color == White
      && cmds[|cmds| - 1].scale
         == (if name == Matcher.NotFound then UnmatchedFontScale else MatchedFontScale)
  {
  }

  /** `cmd` belongs to the face with box `b`, label `name` and score
      `dist`: it is anchored at that box, it is a mosaic only if the face is
      unmatched, an outline or strip has the face's colour, and a caption
      shows the face's own caption. */
  predicate DrawsFace(cmd: DrawCmd, b: Box, name: string, dist: real) {
    var color := if name == Matcher.NotFound then Red else Blue;
    && AnchoredAt(cmd, b)
    && (cmd.Mosaic? ==> name == Matcher.NotFound)
    && (cmd.Rect? ==> cmd.color == color)
    && (cmd.FilledStrip? ==> cmd.color == color)
    && (cmd.Text? ==> cmd.text == Caption(name, dist))
  }

  /** Every command for a face belongs to that face: anchored at four times
      its detector box, a mosaic written back at its region's own size, in
      the face's colour and with the face's caption. */
  lemma FacePlanAnchored(b: Box, name: string, dist: real, mosaic: bool)
    ensures forall i :: 0 <= i < |FacePlan(b, name, dist, mosaic)| ==>
      DrawsFace(FacePlan(b, name, dist, mosaic)[i], b, name, dist)
  {
  }

  /** The face with box `b` appears in `cmds`: its outline and its caption
      are drawn at its box, and so is a mosaic when the flag is on and the
      face is unmatched. */
  predicate FaceShown(cmds: seq<DrawCmd>, b: Box, name: string, dist: real, mosaic: bool) {
    && (exists i :: 0 <= i < |cmds| && cmds[i].Rect? && AnchoredAt(cmds[i], b))
    && (exists i :: 0 <= i < |cmds| && cmds[i].Text? && AnchoredAt(cmds[i], b)
                    && cmds[i].text == Caption(name, dist))
    && (mosaic && name == Matcher.NotFound ==>
          exists i :: 0 <= i < |cmds| && cmds[i].Mosaic? && AnchoredAt(cmds[i], b))
  }

  lemma FacePlanShown(b: Box, name: string, dist: real, mosaic: bool)
    ensures FaceShown(FacePlan(b, name, dist, mosaic), b, name, dist, mosaic)
  {
    var cmds := FacePlan(b, name, dist, mosaic);
    FacePlanLayout(b, name, dist, mosaic);
    FacePlanAnchored(b, name, dist, mosaic);
    assert AnchoredAt(cmds[|cmds| - 3], b) && AnchoredAt(cmds[|cmds| - 1], b);
    if mosaic && name == Matcher.NotFound {
      assert cmds[0].Mosaic? && AnchoredAt(cmds[0], b);
    }
  }

  /** A face shown by some commands is still shown when more commands are
      drawn before them. */
  lemma ShownAfter(head: seq<DrawCmd>, tail: seq<DrawCmd>, b: Box, name: string, dist: real, mosaic: bool)
    requires FaceShown(tail, b, name, dist, mosaic)
    ensures FaceShown(head + tail, b, name, dist, mosaic)
  {
    var cmds := head + tail;
    var i :| 0 <= i < |tail| && tail[i].Rect? && AnchoredAt(tail[i], b);
    assert cmds[|head| + i] == tail[i];
    var k :| 0 <= k < |tail| && tail[k].Text? && AnchoredAt(tail[k], b) && tail[k].text == Caption(name, dist);
    assert cmds[|head| + k] == tail[k];
    if mosaic && name == Matcher.NotFound {
      var m :| 0 <= m < |tail| && tail[m].Mosaic? && AnchoredAt(tail[m], b);
      assert cmds[|head| + m] == tail[m];
    }
  }

  /** ... and when more commands are drawn after them. */
  lemma ShownBefore(head: seq<DrawCmd>, tail: seq<DrawCmd>, b: Box, name: string, dist: real, mosaic: bool)
    requires FaceShown(head, b, name, dist, mosaic)
    ensures FaceShown(head + tail, b, name, dist, mosaic)
  {
    var cmds := head + tail;
    var i :| 0 <= i < |head| && head[i].Rect? && AnchoredAt(head[i], b);
    assert cmds[i] == head[i];
    var k :| 0 <= k < |head| && head[k].Text? && AnchoredAt(head[k], b) && head[k].text == Caption(name, dist);
    assert cmds[k] == head[k];
    if mosaic && name == Matcher.NotFound {
      var m :| 0 <= m < |head| && head[m].Mosaic? && AnchoredAt(head[m], b);
      assert cmds[m] == head[m];
    }
  }

  /** The mosaic never moves the outline or the caption: with the flag on,
      an unmatched face gets the same box, strip and text, preceded by the
      mosaic; a matched face gets exactly the same commands. */
  lemma MosaicLeavesGeometryAlone(b: Box, name: string, dist: real)
    ensures name == Matcher.NotFound ==>
      FacePlan(b, name, dist, true) == [FacePlan(b, name, dist, true)[0]] + FacePlan(b, name, dist, false)
    ensures name != Matcher.NotFound ==>
      FacePlan(b, name, dist, true) == FacePlan(b, name, dist, false)
  {
  }

  /** Python's `zip` stops at the shortest of the three cached lists. */
  function ZipLength(locations: seq<Box>, names: seq<string>, dists: seq<real>): (n: nat)
    ensures n <= |locations| && n <= |names| && n <= |dists|
    ensures n == |locations| || n == |names| || n == |dists|
  {
    if |locations| <= |names| && |locations| <= |dists| then |locations|
    else if |names| <= |dists| then |names|
    else |dists|
  }

  /** The commands for all cached faces, in cache order. */
  function Plan(locations: seq<Box>, names: seq<string>, dists: seq<real>, mosaic: bool): (cmds: seq<DrawCmd>)
    ensures 3 * ZipLength(locations, names, dists) <= |cmds| <= 4 * ZipLength(locations, names, dists)
    ensures !mosaic ==> |cmds| == 3 * ZipLength(locations, names, dists)
    ensures forall i :: 0 <= i < |cmds| && cmds[i].Mosaic? ==> mosaic
  {
    if |locations| == 0 || |names| == 0 || |dists| == 0 then []
    else
      FacePlan(locations[0], names[0], dists[0], mosaic)
      + Plan(locations[1..], names[1..], dists[1..], mosaic)
  }

  /** How many of the labels are `NotFound`. */
  function CountNotFound(names: seq<string>): nat {
    if |names| == 0 then 0
    else (if names[0] == Matcher.NotFound then 1 else 0) + CountNotFound(names[1..])
  }

  /** Exactly three commands per drawn face, plus one mosaic for each
      unmatched drawn face while the flag is on. */
  lemma {:induction false} PlanLength(locations: seq<Box>, names: seq<string>, dists: seq<real>, mosaic: bool)
    ensures var n := ZipLength(locations, names, dists);
      |Plan(locations, names, dists, mosaic)|
        == 3 * n + (if mosaic then CountNotFound(names[..n]) else 0)
  {
    var n := ZipLength(locations, names, dists);
    if !(|locations| == 0 || |names| == 0 || |dists| == 0) {
      PlanLength(locations[1..], names[1..], dists[1..], mosaic);
      var m := ZipLength(locations[1..], names[1..], dists[1..]);
      assert n == m + 1;
      assert names[..n][0] == names[0];
      assert names[..n][1..] == names[1..][..m];
    }
  }

  /** The plan of the whole cache is the plan of the faces before face `j`,
      then face `j`'s own commands (its mosaic first, then its outline,
      strip and caption), then the plan of the faces after it. */
  lemma PlanSplitsAtFace(locations: seq<Box>, names: seq<string>, dists: seq<real>, mosaic: bool, j: nat)
    requires j < ZipLength(locations, names, dists)
    ensures Plan(locations, names, dists, mosaic)
         == Plan(locations[..j], names[..j], dists[..j], mosaic)
          + FacePlan(locations[j], names[j], dists[j], mosaic)
          + Plan(locations[j + 1..], names[j + 1..], dists[j + 1..], mosaic)
  {
    var before := Plan(locations[..j], names[..j], dists[..j], mosaic);
    var face := FacePlan(locations[j], names[j], dists[j], mosaic);
    var after := Plan(locations[j + 1..], names[j + 1..], dists[j + 1..], mosaic);
    var rest := Plan(locations[j..], names[j..], dists[j..], mosaic);
    assert Plan(locations, names, dists, mosaic) == before + rest by {
      SplitAt(locations, j);
      SplitAt(names, j);
      SplitAt(dists, j);
      PlanAppend(locations[..j], names[..j], dists[..j], locations[j..], names[j..], dists[j..], mosaic);
    }
    assert rest == face + after by {
      SplitAt(locations, j);
      SplitAt(names, j);
      SplitAt(dists, j);
      PlanCons(locations[j..], names[j..], dists[j..], mosaic);
    }
    ConcatAssoc(before, face, after);
  }

  /** Drawing two caches one after the other, the first with its three
      lists of equal length, draws the plan of their concatenation. */
  lemma {:induction false} PlanAppend(l1: seq<Box>, n1: seq<string>, d1: seq<real>,
                                      l2: seq<Box>, n2: seq<string>, d2: seq<real>, mosaic: bool)
    requires |l1| == |n1| == |d1|
    ensures Plan(l1 + l2, n1 + n2, d1 + d2, mosaic) == Plan(l1, n1, d1, mosaic) + Plan(l2, n2, d2, mosaic)
    decreases |l1|
  {
    if |l1| == 0 {
      EmptyConcat(l1, l2);
      EmptyConcat(n1, n2);
      EmptyConcat(d1, d2);
    } else {
      var face := FacePlan(l1[0], n1[0], d1[0], mosaic);
      var tail := Plan(l1[1..] + l2, n1[1..] + n2, d1[1..] + d2, mosaic);
      assert Plan(l1 + l2, n1 + n2, d1 + d2, mosaic) == face + tail by {
        PlanCons(l1 + l2, n1 + n2, d1 + d2, mosaic);
        TailOfConcat(l1, l2);
        TailOfConcat(n1, n2);
        TailOfConcat(d1, d2);
      }
      PlanAppend(l1[1..], n1[1..], d1[1..], l2, n2, d2, mosaic);
      PlanCons(l1, n1, d1, mosaic);
      ConcatAssoc(face, Plan(l1[1..], n1[1..], d1[1..], mosaic), Plan(l2, n2, d2, mosaic));
    }
  }

  lemma ConcatAssoc<T>(a: seq<T>, b: seq<T>, c: seq<T>)
    ensures a + (b + c) == (a + b) + c
  {
  }

  lemma EmptyConcat<T>(a: seq<T>, b: seq<T>)
    requires |a| == 0
    ensures a + b == b
  {
  }

  lemma TailOfConcat<T>(a: seq<T>, b: seq<T>)
    requires |a| > 0
    ensures (a + b)[0] == a[0] && (a + b)[1..] == a[1..] + b
  {
  }

  lemma SplitAt<T>(s: seq<T>, j: nat)
    requires j < |s|
    ensures s == s[..j] + s[j..] && s[j..][0] == s[j] && s[j..][1..] == s[j + 1..]
  {
  }

  /** The plan of a non-empty cache is its first face's commands followed
      by the plan of the rest. */
  lemma PlanCons(locations: seq<Box>, names: seq<string>, dists: seq<real>, mosaic: bool)
    requires |locations| > 0 && |names| > 0 && |dists| > 0
    ensures Plan(locations, names, dists, mosaic)
         == FacePlan(locations[0], names[0], dists[0], mosaic)
          + Plan(locations[1..], names[1..], dists[1..], mosaic)
  {
  }

  /** Some face is pixelated exactly when the mosaic flag is on and some
      drawn face is unmatched. */
  lemma PlanMosaicIff(locations: seq<Box>, names: seq<string>, dists: seq<real>, mosaic: bool)
    ensures HasMosaic(Plan(locations, names, dists, mosaic))
        <==> mosaic && SomeUnmatched(names, ZipLength(locations, names, dists))
  {
    PlanMosaicOnlyIfUnmatched(locations, names, dists, mosaic);
    PlanMosaicIfUnmatched(locations, names, dists, mosaic);
  }

  predicate HasMosaic(cmds: seq<DrawCmd>) {
    exists i :: 0 <= i < |cmds| && cmds[i].Mosaic?
  }

  predicate SomeUnmatched(names: seq<string>, n: nat)
    requires n <= |names|
  {
    exists j :: 0 <= j < n && names[j] == Matcher.NotFound
  }

  lemma {:induction false} PlanMosaicOnlyIfUnmatched(locations: seq<Box>, names: seq<string>, dists: seq<real>, mosaic: bool)
    ensures HasMosaic(Plan(locations, names, dists, mosaic))
        ==> mosaic && SomeUnmatched(names, ZipLength(locations, names, dists))
  {
    if !(|locations| == 0 || |names| == 0 || |dists| == 0) && HasMosaic(Plan(locations, names, dists, mosaic)) {
      var cmds := Plan(locations, names, dists, mosaic);
      var head := FacePlan(locations[0], names[0], dists[0], mosaic);
      var tail := Plan(locations[1..], names[1..], dists[1..], mosaic);
      var m := ZipLength(locations[1..], names[1..], dists[1..]);
      assert cmds == head + tail;
      var i :| 0 <= i < |cmds| && cmds[i].Mosaic?;
      IndexConcat(head, tail, i);
      if i < |head| {
        assert names[0] == Matcher.NotFound;
      } else {
        assert HasMosaic(tail);
        PlanMosaicOnlyIfUnmatched(locations[1..], names[1..], dists[1..], mosaic);
        var j :| 0 <= j < m && names[1..][j] == Matcher.NotFound;
        assert names[j + 1] == Matcher.NotFound;
      }
    }
  }

  lemma IndexConcat<T>(a: seq<T>, b: seq<T>, i: nat)
    requires i < |a| + |b|
    ensures (a + b)[i] == if i < |a| then a[i] else b[i - |a|]
  {
  }

  lemma {:induction false} PlanMosaicIfUnmatched(locations: seq<Box>, names: seq<string>, dists: seq<real>, mosaic: bool)
    ensures mosaic && SomeUnmatched(names, ZipLength(locations, names, dists))
        ==> HasMosaic(Plan(locations, names, dists, mosaic))
  {
    var n := ZipLength(locations, names, dists);
    if mosaic && SomeUnmatched(names, n) {
      var j :| 0 <= j < n && names[j] == Matcher.NotFound;
      var cmds := Plan(locations, names, dists, mosaic);
      var head := FacePlan(locations[0], names[0], dists[0], mosaic);
      var tail := Plan(locations[1..], names[1..], dists[1..], mosaic);
      assert cmds == head + tail;
      if j == 0 {
        assert cmds[0] == head[0];
      } else {
        assert names[1..][j - 1] == Matcher.NotFound;
        PlanMosaicIfUnmatched(locations[1..], names[1..], dists[1..], mosaic);
        var i :| 0 <= i < |tail| && tail[i].Mosaic?;
        assert cmds[|head| + i] == tail[i];
      }
    }
  }

  /** The command belongs to one of the first `n` cached faces. */
  predicate DrawsSomeFace(cmd: DrawCmd, locations: seq<Box>, names: seq<string>, dists: seq<real>, n: nat)
    requires n <= |locations| && n <= |names| && n <= |dists|
  {
    exists j :: 0 <= j < n && DrawsFace(cmd, locations[j], names[j], dists[j])
  }

  /** Every drawn command belongs to one face of the `zip` of the caches:
      it sits at that face's box, a mosaic only on an unmatched face, and a
      caption shows that face's own label and score. */
  lemma {:induction false} PlanAnchored(locations: seq<Box>, names: seq<string>, dists: seq<real>, mosaic: bool)
    ensures forall i :: 0 <= i < |Plan(locations, names, dists, mosaic)| ==>
      DrawsSomeFace(Plan(locations, names, dists, mosaic)[i], locations, names, dists,
                    ZipLength(locations, names, dists))
  {
    if !(|locations| == 0 || |names| == 0 || |dists| == 0) {
      var cmds := Plan(locations, names, dists, mosaic);
      var n := ZipLength(locations, names, dists);
      var m := ZipLength(locations[1..], names[1..], dists[1..]);
      var head := FacePlan(locations[0], names[0], dists[0], mosaic);
      var tail := Plan(locations[1..], names[1..], dists[1..], mosaic);
      PlanAnchored(locations[1..], names[1..], dists[1..], mosaic);
      assert cmds == head + tail;
      assert n == m + 1;
      forall i | 0 <= i < |cmds|
        ensures DrawsSomeFace(cmds[i], locations, names, dists, n)
      {
        if i < |head| {
          assert cmds[i] == head[i];
          FacePlanAnchored(locations[0], names[0], dists[0], mosaic);
          assert DrawsFace(cmds[i], locations[0], names[0], dists[0]);
        } else {
          assert cmds[i] == tail[i - |head|];
          assert DrawsSomeFace(tail[i - |head|], locations[1..], names[1..], dists[1..], m);
          var j :| 0 <= j < m && DrawsFace(tail[i - |head|], locations[1..][j], names[1..][j], dists[1..][j]);
          assert DrawsFace(cmds[i], locations[j + 1], names[j + 1], dists[j + 1]);
        }
      }
    }
  }

  /** Conversely, every face of the `zip` of the caches is drawn: its
      outline and its caption at its box, and a mosaic over it whenever the
      flag is on and the face is unmatched. */
  lemma {:induction false} PlanShowsEveryFace(locations: seq<Box>, names: seq<string>, dists: seq<real>, mosaic: bool)
    ensures forall j :: 0 <= j < ZipLength(locations, names, dists) ==>
      FaceShown(Plan(locations, names, dists, mosaic), locations[j], names[j], dists[j], mosaic)
  {
    if !(|locations| == 0 || |names| == 0 || |dists| == 0) {
      var cmds := Plan(locations, names, dists, mosaic);
      var n := ZipLength(locations, names, dists);
      var head := FacePlan(locations[0], names[0], dists[0], mosaic);
      var tail := Plan(locations[1..], names[1..], dists[1..], mosaic);
      PlanShowsEveryFace(locations[1..], names[1..], dists[1..], mosaic);
      assert cmds == head + tail;
      assert n == ZipLength(locations[1..], names[1..], dists[1..]) + 1;
      forall j | 0 <= j < n
        ensures FaceShown(cmds, locations[j], names[j], dists[j], mosaic)
      {
        if j == 0 {
          FacePlanShown(locations[0], names[0], dists[0], mosaic);
          ShownBefore(head, tail, locations[0], names[0], dists[0], mosaic);
        } else {
          assert locations[1..][j - 1] == locations[j] && names[1..][j - 1] == names[j]
              && dists[1..][j - 1] == dists[j];
          ShownAfter(head, tail, locations[j], names[j], dists[j], mosaic);
        }
      }
    }
  }
}
