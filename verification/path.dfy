/** Python's `os.path.splitext`, for the gallery file names the program
    stores: bare base names that contain no path separator. */
module Path {

  /** The extension separator. */
  const ExtSep: char := '.'

  /** Index of the last occurrence of `c` in `s`, or -1 when there is none
      (Python's `str.rfind` for a single character). */
  function LastIndexOf(s: string, c: char): (r: int)
    ensures -1 <= r < |s|
    ensures r >= 0 ==> s[r] == c
    ensures forall j :: r < j < |s| ==> s[j] != c
  {
    if |s| == 0 then -1
    else if s[|s| - 1] == c then |s| - 1
    else LastIndexOf(s[..|s| - 1], c)
  }

  predicate AllDots(s: string) {
    forall i :: 0 <= i < |s| ==> s[i] == ExtSep
  }

  /** True when some dot of `p` comes after a character that is not a dot:
      exactly the names `splitext` gives a non-empty extension. */
  predicate HasExtension(p: string) {
    exists i, j :: 0 <= i < j < |p| && p[i] != ExtSep && p[j] == ExtSep
  }

  /** `(root, ext)`: the extension starts at the last dot, unless every
      character before that dot is itself a dot (leading dots of a hidden
      file name do not start an extension). */
  function SplitExt(p: string): (string, string) {
    var d := LastIndexOf(p, ExtSep);
    if d >= 0 && !AllDots(p[..d]) then (p[..d], p[d..]) else (p, [])
  }

  /** Root and extension put back together give the name, and the
      extension is empty or one dot followed by dot-free text. */
  lemma SplitExtParts(p: string)
    ensures SplitExt(p).0 + SplitExt(p).1 == p
    ensures SplitExt(p).1 == [] || (SplitExt(p).1[0] == ExtSep && ExtSep !in SplitExt(p).1[1..])
  {
  }

  /** The extension is non-empty exactly for names with a dot after a
      non-dot character. */
  lemma SplitExtNonEmptyIff(p: string)
    ensures SplitExt(p).1 != [] <==> HasExtension(p)
  {
  }

  /** A non-empty dot-free stem followed by an extension: `splitext`
      separates exactly that extension again. */
  lemma SplitExtOfStemAndExt(stem: string, ext: string)
    requires stem != [] && ExtSep !in stem
    requires ext != [] && ext[0] == ExtSep && ExtSep !in ext[1..]
    ensures SplitExt(stem + ext) == (stem, ext)
  {
    var p := stem + ext;
    var d := LastIndexOf(p, ExtSep);
    assert p[|stem|] == ExtSep;
    assert d >= |stem|;
    assert d == |stem|;
    assert p[..d] == stem;
    assert p[..d][0] != ExtSep;
    assert p[d..] == ext;
  }
}
