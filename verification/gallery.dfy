/** `FaceRecog.call_face`: turning the stored `(name, data)` rows into the
    parallel lists `known_names` and `known_encodings`. Decoding an image
    and extracting its first face encoding is an opaque library step,
    passed in as `encode`: `None` stands for every exception it can raise
    (an undecodable image, or no face found so that `[0]` fails). */
module Gallery {
  import opened Wrappers
  import Path

  newtype byte = x: int | 0 <= x < 256

  type Bytes = seq<byte>

  /** A face embedding produced by the recognition library. */
  type Encoding = seq<real>

  /** One stored row: the file's base name and the image bytes. */
  datatype Row = Row(fileName: string, data: Bytes)

  /** The only extension the gallery accepts, compared case-sensitively. */
  const JpgExt: string := ".jpg"

  predicate IsJpg(row: Row) {
    Path.SplitExt(row.fileName).1 == JpgExt
  }

  function Stem(row: Row): string {
    Path.SplitExt(row.fileName).0
  }

  /** A row is a gallery image exactly when its name ends in the four
      characters `.jpg` (lower case) after something that is not all dots. */
  lemma IsJpgIff(row: Row)
    ensures IsJpg(row) <==>
      var f := row.fileName;
      |f| > 4 && f[|f| - 4..] == JpgExt && !Path.AllDots(f[..|f| - 4])
  {
    var f := row.fileName;
    if |f| > 4 && f[|f| - 4..] == JpgExt && !Path.AllDots(f[..|f| - 4]) {
      var d := Path.LastIndexOf(f, Path.ExtSep);
      assert f[|f| - 4] == Path.ExtSep;
      assert f[|f| - 3] == 'j' && f[|f| - 2] == 'p' && f[|f| - 1] == 'g';
      assert d == |f| - 4;
    }
  }

  /** The comparison is case-sensitive: an upper-case extension is skipped. */
  lemma UpperCaseJpgSkipped(data: Bytes)
    ensures !IsJpg(Row("face.JPG", data))
    ensures IsJpg(Row("face.jpg", data)) && Stem(Row("face.jpg", data)) == "face"
  {
    IsJpgIff(Row("face.JPG", data));
    Path.SplitExtOfStemAndExt("face", ".jpg");
    assert "face" + ".jpg" == "face.jpg";
  }

  /** Reference: the stems of the `.jpg` rows, in row order. */
  function JpgStems(rows: seq<Row>): seq<string> {
    if |rows| == 0 then []
    else
      var last := rows[|rows| - 1];
      JpgStems(rows[..|rows| - 1]) + (if IsJpg(last) then [Stem(last)] else [])
  }

  /** Reference: the encodings of the `.jpg` rows that decode, in row order. */
  function Decoded(rows: seq<Row>, encode: Bytes -> Option<Encoding>): seq<Encoding> {
    if |rows| == 0 then []
    else
      var last := rows[|rows| - 1];
      Decoded(rows[..|rows| - 1], encode)
      + (if IsJpg(last) && encode(last.data).Some? then [encode(last.data).value] else [])
  }

  /** Reference: the stems of the `.jpg` rows that decode, in row order. */
  function DecodedStems(rows: seq<Row>, encode: Bytes -> Option<Encoding>): seq<string> {
    if |rows| == 0 then []
    else
      var last := rows[|rows| - 1];
      DecodedStems(rows[..|rows| - 1], encode)
      + (if IsJpg(last) && encode(last.data).Some? then [Stem(last)] else [])
  }

  /** Every `.jpg` row decodes. */
  predicate AllDecode(rows: seq<Row>, encode: Bytes -> Option<Encoding>) {
    forall i :: 0 <= i < |rows| && IsJpg(rows[i]) ==> encode(rows[i].data).Some?
  }

  /** Names never fall behind encodings, and keep pace exactly when every
      `.jpg` row decodes. */
  lemma {:induction false} DecodedAtMostStems(rows: seq<Row>, encode: Bytes -> Option<Encoding>)
    ensures |Decoded(rows, encode)| <= |JpgStems(rows)|
    ensures |Decoded(rows, encode)| == |JpgStems(rows)| ==> AllDecode(rows, encode)
    ensures AllDecode(rows, encode) ==> |Decoded(rows, encode)| == |JpgStems(rows)|
  {
    if |rows| > 0 {
      var init := rows[..|rows| - 1];
      var last := rows[|rows| - 1];
      DecodedAtMostStems(init, encode);
      assert init + [last] == rows;
      AllDecodeSnoc(init, last, encode);
      if IsJpg(last) && encode(last.data).None? {
        assert |Decoded(rows, encode)| == |Decoded(init, encode)|;
        assert |JpgStems(rows)| == |JpgStems(init)| + 1;
      } else if IsJpg(last) {
        assert |Decoded(rows, encode)| == |Decoded(init, encode)| + 1;
        assert |JpgStems(rows)| == |JpgStems(init)| + 1;
      } else {
        assert |Decoded(rows, encode)| == |Decoded(init, encode)|;
        assert |JpgStems(rows)| == |JpgStems(init)|;
      }
    }
  }

  lemma AllDecodeSnoc(init: seq<Row>, last: Row, encode: Bytes -> Option<Encoding>)
    ensures AllDecode(init + [last], encode)
      <==> AllDecode(init, encode) && (IsJpg(last) ==> encode(last.data).Some?)
  {
    var rows := init + [last];
    if AllDecode(rows, encode) {
      forall i | 0 <= i < |init| && IsJpg(init[i])
        ensures encode(init[i].data).Some?
      {
        assert rows[i] == init[i];
      }
      assert rows[|init|] == last;
    }
  }

  lemma {:induction false} DecodedStemsLength(rows: seq<Row>, encode: Bytes -> Option<Encoding>)
    ensures |DecodedStems(rows, encode)| == |Decoded(rows, encode)|
  {
    if |rows| > 0 {
      DecodedStemsLength(rows[..|rows| - 1], encode);
    }
  }

  /** The corrected build keeps names and encodings in step: the k-th name
      and the k-th encoding come from one and the same row. */
  lemma {:induction false} DecodedStemsPairUp(rows: seq<Row>, encode: Bytes -> Option<Encoding>)
    ensures |DecodedStems(rows, encode)| == |Decoded(rows, encode)|
    ensures forall k :: 0 <= k < |Decoded(rows, encode)| ==>
      PairedWithRow(rows, encode, DecodedStems(rows, encode), Decoded(rows, encode), k)
  {
    if |rows| > 0 {
      var init := rows[..|rows| - 1];
      DecodedStemsPairUp(init, encode);
      DecodedStemsLength(rows, encode);
      var names, encs := DecodedStems(rows, encode), Decoded(rows, encode);
      forall k | 0 <= k < |encs|
        ensures PairedWithRow(rows, encode, names, encs, k)
      {
        if k < |Decoded(init, encode)| {
          assert PairedWithRow(init, encode, DecodedStems(init, encode), Decoded(init, encode), k);
          var i :| 0 <= i < |init| && IsJpg(init[i])
            && Stem(init[i]) == DecodedStems(init, encode)[k]
            && encode(init[i].data) == Some(Decoded(init, encode)[k]);
          assert init[i] == rows[i];
          assert names[k] == DecodedStems(init, encode)[k];
          assert encs[k] == Decoded(init, encode)[k];
        } else {
          var last := |rows| - 1;
          assert IsJpg(rows[last]) && encode(rows[last].data).Some?;
          assert names[k] == Stem(rows[last]);
          assert encs[k] == encode(rows[last].data).value;
        }
      }
    }
  }

  /** The k-th name and encoding both come from one `.jpg` row. */
  predicate PairedWithRow(rows: seq<Row>, encode: Bytes -> Option<Encoding>,
                          names: seq<string>, encs: seq<Encoding>, k: int)
    requires 0 <= k < |names| && k < |encs|
  {
    exists i :: 0 <= i < |rows| && IsJpg(rows[i]) && Stem(rows[i]) == names[k]
      && encode(rows[i].data) == Some(encs[k])
  }

  /** `call_face` as written: for each row whose extension is exactly
      `.jpg`, the stem is appended to the names BEFORE the image is
      decoded, and the encoding is appended only when decoding succeeds;
      a failure is swallowed and the loop goes on. */
  method CallFace(knownNames: seq<string>, knownEncodings: seq<Encoding>,
                  rows: seq<Row>, encode: Bytes -> Option<Encoding>)
    returns (names: seq<string>, encodings: seq<Encoding>)
    ensures names == knownNames + JpgStems(rows)
    ensures encodings == knownEncodings + Decoded(rows, encode)
    ensures |encodings| - |knownEncodings| <= |names| - |knownNames|
    ensures |encodings| - |knownEncodings| == |names| - |knownNames| <==> AllDecode(rows, encode)
  {
    names, encodings := knownNames, knownEncodings;
    for i := 0 to |rows|
      invariant names == knownNames + JpgStems(rows[..i])
      invariant encodings == knownEncodings + Decoded(rows[..i], encode)
    {
      assert rows[..i + 1][..i] == rows[..i];
      var (stem, ext) := Path.SplitExt(rows[i].fileName);
      assert IsJpg(rows[i]) == (ext == JpgExt) && Stem(rows[i]) == stem;
      if ext == JpgExt {
        names := names + [stem];
        match encode(rows[i].data)
        case Some(e) => encodings := encodings + [e];
        case None =>
      }
    }
    assert rows[..|rows|] == rows;
    DecodedAtMostStems(rows, encode);
  }

  /** `call_face` as evidently intended: a row's stem is appended only
      together with its encoding, so the two lists stay parallel. */
  method CallFaceAligned(knownNames: seq<string>, knownEncodings: seq<Encoding>,
                         rows: seq<Row>, encode: Bytes -> Option<Encoding>)
    returns (names: seq<string>, encodings: seq<Encoding>)
    ensures names == knownNames + DecodedStems(rows, encode)
    ensures encodings == knownEncodings + Decoded(rows, encode)
    ensures |names| - |knownNames| == |encodings| - |knownEncodings|
  {
    names, encodings := knownNames, knownEncodings;
    for i := 0 to |rows|
      invariant names == knownNames + DecodedStems(rows[..i], encode)
      invariant encodings == knownEncodings + Decoded(rows[..i], encode)
    {
      assert rows[..i + 1][..i] == rows[..i];
      var (stem, ext) := Path.SplitExt(rows[i].fileName);
      assert IsJpg(rows[i]) == (ext == JpgExt) && Stem(rows[i]) == stem;
      if ext == JpgExt {
        match encode(rows[i].data)
        case Some(e) =>
          names := names + [stem];
          encodings := encodings + [e];
        case None =>
      }
    }
    assert rows[..|rows|] == rows;
    DecodedStemsLength(rows, encode);
  }
}
