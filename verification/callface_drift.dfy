/** What the as-written gallery build does to labels, and what the
    corrected build guarantees instead. */
module CallFaceDrift {
  import opened Wrappers
  import Path
  import Gallery
  import Matcher

  /** Two stored rows: `alice.jpg` cannot be decoded, `bob.jpg` can. */
  function ExampleRows(): seq<Gallery.Row> {
    [Gallery.Row("alice.jpg", [0]), Gallery.Row("bob.jpg", [1])]
  }

  /** The decoder of the example: only Bob's bytes yield an encoding. */
  function BobOnly(b: Gallery.Bytes): Option<Gallery.Encoding> {
    if b == [1] then Some([1.0]) else None
  }

  /** A metric that only tells equal encodings apart from different ones. */
  function Discrete(x: Gallery.Encoding, y: Gallery.Encoding): real {
    if x == y then 0.0 else 1.0
  }

  lemma ExampleRowsAreJpg()
    ensures Gallery.IsJpg(ExampleRows()[0]) && Gallery.Stem(ExampleRows()[0]) == "alice"
    ensures Gallery.IsJpg(ExampleRows()[1]) && Gallery.Stem(ExampleRows()[1]) == "bob"
  {
    Path.SplitExtOfStemAndExt("alice", ".jpg");
    Path.SplitExtOfStemAndExt("bob", ".jpg");
    assert "alice" + ".jpg" == "alice.jpg" && "bob" + ".jpg" == "bob.jpg";
  }

  /** The as-written build keeps Alice's name although only Bob's encoding
      survives; the corrected build keeps Bob alone. */
  lemma ExampleGalleries()
    ensures Gallery.JpgStems(ExampleRows()) == ["alice", "bob"]
    ensures Gallery.Decoded(ExampleRows(), BobOnly) == [[1.0]]
    ensures Gallery.DecodedStems(ExampleRows(), BobOnly) == ["bob"]
  {
    var rows := ExampleRows();
    ExampleRowsAreJpg();
    assert BobOnly(rows[0].data) == None && BobOnly(rows[1].data) == Some([1.0]);
    var first := rows[..1];
    assert first[..0] == [];
    assert first[0] == rows[0];
    assert Gallery.JpgStems(first) == ["alice"];
    assert Gallery.Decoded(first, BobOnly) == [];
    assert Gallery.DecodedStems(first, BobOnly) == [];
  }

  /** As written, a row whose image fails to decode still leaves its name
      behind, so every later encoding is paired with the previous row's
      name: a face identical to Bob's encoding is labelled "alice". The
      corrected build labels it "bob". */
  lemma CallFaceMislabels()
    ensures Gallery.JpgStems(ExampleRows()) == ["alice", "bob"]
    ensures Gallery.Decoded(ExampleRows(), BobOnly) == [[1.0]]
    ensures Gallery.DecodedStems(ExampleRows(), BobOnly) == ["bob"]
    ensures Matcher.Label(Matcher.Distances([[1.0]], [1.0], Discrete), ["alice", "bob"]) == "alice"
    ensures Matcher.Label(Matcher.Distances([[1.0]], [1.0], Discrete), ["bob"]) == "bob"
  {
    ExampleGalleries();
    var d := Matcher.Distances([[1.0]], [1.0], Discrete);
    assert d[0] == 0.0;
    assert Matcher.Min(d) == 0.0;
  }

  /** With the corrected build, a matched label is the stem of a gallery row
      whose own encoding lies at the minimum distance from the face. */
  lemma AlignedLabelIsNearestRow(rows: seq<Gallery.Row>, encode: Gallery.Bytes -> Option<Gallery.Encoding>,
                                 distance: (Gallery.Encoding, Gallery.Encoding) -> real, face: Gallery.Encoding)
    requires |Gallery.Decoded(rows, encode)| > 0
    ensures |Gallery.Decoded(rows, encode)| == |Gallery.DecodedStems(rows, encode)|
    ensures
      var d := Matcher.Distances(Gallery.Decoded(rows, encode), face, distance);
      var who := Matcher.Label(d, Gallery.DecodedStems(rows, encode));
      (exists j :: 0 <= j < |d| && d[j] < Matcher.Threshold) ==>
        exists i :: 0 <= i < |rows| && Gallery.IsJpg(rows[i]) && Gallery.Stem(rows[i]) == who
          && encode(rows[i].data).Some?
          && distance(encode(rows[i].data).value, face) == Matcher.Min(d)
  {
    Gallery.DecodedStemsPairUp(rows, encode);
    var encs, names := Gallery.Decoded(rows, encode), Gallery.DecodedStems(rows, encode);
    var d := Matcher.Distances(encs, face, distance);
    if exists j :: 0 <= j < |d| && d[j] < Matcher.Threshold {
      var k := Matcher.ArgMin(d);
      assert Matcher.Label(d, names) == names[k];
      assert d[k] == Matcher.Min(d);
      assert Gallery.PairedWithRow(rows, encode, names, encs, k);
    }
  }
}
