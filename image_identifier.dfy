/** agents/image_identifier.py: which files of the raw-image directory the
    pipeline picks up (`get_image_paths`; the directory and its listing are
    parameters) and the description of one image (`identify_image`; the
    vision model is a table from the file's bytes to its reply). */
module ImageIdentifier {
  import opened Wrappers
  import opened Text
  import opened Paths
  import opened Environment

  const IMAGE_EXTENSIONS: set<string> := {".jpg", ".jpeg", ".png", ".bmp", ".gif", ".webp"}

  /** A listed name is an image when its `splitext` extension, lower-cased,
      is one of the six known extensions. */
  predicate IsEligible(name: string) {
    AsciiLower(SplitExt(name).1) in IMAGE_EXTENSIONS
  }

  /** The listed names that pass the filter, in listing order. */
  function EligibleNames(listing: seq<string>): (r: seq<string>)
    ensures forall f :: f in r <==> f in listing && IsEligible(f)
    ensures |r| <= |listing|
    decreases |listing|
  {
    if listing == [] then []
    else
      var rest := EligibleNames(listing[1..]);
      assert forall f :: f in listing <==> f == listing[0] || f in listing[1..];
      if IsEligible(listing[0]) then [listing[0]] + rest else rest
  }

  /** `get_image_paths()`: each eligible name joined onto the raw directory. */
  function GetImagePaths(rawDir: string, listing: seq<string>): (r: seq<string>)
    ensures |r| == |EligibleNames(listing)|
    ensures forall i :: 0 <= i < |r| ==> r[i] == Join(rawDir, EligibleNames(listing)[i])
  {
    var names := EligibleNames(listing);
    seq(|names|, i requires 0 <= i < |names| => Join(rawDir, names[i]))
  }

  /** The filter keeps the listing's order: its result is a subsequence. */
  lemma {:induction false} EligibleNamesKeepOrder(listing: seq<string>)
    ensures IsSubseq(EligibleNames(listing), listing)
    decreases |listing|
  {
    if listing != [] {
      EligibleNamesKeepOrder(listing[1..]);
      var rest := EligibleNames(listing[1..]);
      if IsEligible(listing[0]) {
        SubseqCons(listing[0], rest, listing[1..]);
        assert [listing[0]] + listing[1..] == listing;
      } else {
        SubseqOfSuffix(rest, [listing[0]], listing[1..]);
        assert [listing[0]] + listing[1..] == listing;
      }
    }
  }

  /** Every returned path is the raw directory joined with a listed,
      eligible name, and every listed eligible name gives a returned path. */
  lemma GetImagePathsExactly(rawDir: string, listing: seq<string>)
    ensures forall p :: p in GetImagePaths(rawDir, listing) ==>
      exists f :: f in listing && IsEligible(f) && p == Join(rawDir, f)
    ensures forall f :: f in listing && IsEligible(f) ==> Join(rawDir, f) in GetImagePaths(rawDir, listing)
  {
    var names := EligibleNames(listing);
    var r := GetImagePaths(rawDir, listing);
    forall p | p in r
      ensures exists f :: f in listing && IsEligible(f) && p == Join(rawDir, f)
    {
      var i :| 0 <= i < |r| && r[i] == p;
      assert names[i] in names;
    }
    forall f | f in listing && IsEligible(f)
      ensures Join(rawDir, f) in r
    {
      var i :| 0 <= i < |names| && names[i] == f;
      assert r[i] == Join(rawDir, f);
    }
  }

  /* ---------------- how the extension test behaves ---------------- */

  lemma LowerKeepsSeparators(s: string, c: char)
    requires c == SEP || c == EXTSEP
    ensures RFind(AsciiLower(s), c) == RFind(s, c)
  {
    assert forall i :: 0 <= i < |s| ==> (AsciiLower(s)[i] == c <==> s[i] == c);
  }

  /** Taking the extension commutes with lower-casing: the dots and
      separators `splitext` looks at are not letters. */
  lemma SplitExtOfLower(s: string)
    ensures SplitExt(AsciiLower(s)).1 == AsciiLower(SplitExt(s).1)
  {
    var t := AsciiLower(s);
    LowerKeepsSeparators(s, SEP);
    LowerKeepsSeparators(s, EXTSEP);
    var sepIndex, dotIndex := RFind(s, SEP), RFind(s, EXTSEP);
    if dotIndex > sepIndex {
      assert forall i :: 0 <= i < |s| ==> (t[i] != EXTSEP <==> s[i] != EXTSEP);
      assert HasNonDot(t, sepIndex + 1, dotIndex) == HasNonDot(s, sepIndex + 1, dotIndex);
      assert t[dotIndex..] == AsciiLower(s[dotIndex..]);
    }
  }

  /** Matching is case-insensitive: two names that differ only in the case
      of ASCII letters are both picked up or both skipped. */
  lemma EligibilityIgnoresCase(f: string, g: string)
    requires AsciiLower(f) == AsciiLower(g)
    ensures IsEligible(f) == IsEligible(g)
  {
    SplitExtOfLower(f);
    SplitExtOfLower(g);
    LowerIdempotent(SplitExt(f).1);
    LowerIdempotent(SplitExt(g).1);
  }

  lemma LowerIdempotent(s: string)
    ensures AsciiLower(AsciiLower(s)) == AsciiLower(s)
  {
  }

  /** Only the last extension counts: for a name `stem.ext` whose stem has
      a character other than a dot, the test looks at `.ext` alone. */
  lemma LastExtensionDecides(stem: string, ext: string)
    requires SEP !in stem && SEP !in ext && EXTSEP !in ext
    requires exists i :: 0 <= i < |stem| && stem[i] != EXTSEP
    ensures IsEligible(stem + [EXTSEP] + ext) <==> AsciiLower([EXTSEP] + ext) in IMAGE_EXTENSIONS
  {
    var p := stem + [EXTSEP] + ext;
    var dotIndex := RFind(p, EXTSEP);
    assert p[|stem|] == EXTSEP;
    assert forall i :: |stem| < i < |p| ==> p[i] == ext[i - |stem| - 1];
    assert dotIndex == |stem|;
    assert forall i :: 0 <= i < |p| ==> p[i] != SEP;
    var i :| 0 <= i < |stem| && stem[i] != EXTSEP;
    assert p[i] != EXTSEP;
    assert HasNonDot(p, 0, dotIndex);
    assert p[dotIndex..] == [EXTSEP] + ext;
  }

  /** A name whose last dot has only dots before it (`.png`, `..gif`) has no
      extension for `splitext`, so it is skipped. */
  lemma LeadingDotsAreRoot(dots: string, ext: string)
    requires forall i :: 0 <= i < |dots| ==> dots[i] == EXTSEP
    requires SEP !in ext && EXTSEP !in ext
    ensures !IsEligible(dots + [EXTSEP] + ext)
  {
    var p := dots + [EXTSEP] + ext;
    assert p[|dots|] == EXTSEP;
    assert forall i :: |dots| < i < |p| ==> p[i] == ext[i - |dots| - 1];
    assert RFind(p, EXTSEP) == |dots|;
    assert SplitExt(p).1 == [];
    assert AsciiLower([]) == [];
  }

  /** A name without a dot has no extension and is skipped. */
  lemma NoDotIsSkipped(f: string)
    requires EXTSEP !in f
    ensures !IsEligible(f)
  {
    assert RFind(f, EXTSEP) == -1;
    assert AsciiLower([]) == [];
  }

  /** An upper-case extension is accepted. */
  lemma UpperCaseExample()
    ensures IsEligible("photo.JPG")
  {
    assert "photo"[0] != EXTSEP;
    LastExtensionDecides("photo", "JPG");
    assert "photo" + [EXTSEP] + "JPG" == "photo.JPG";
    assert [EXTSEP] + "JPG" == ".JPG";
    assert AsciiLower(".JPG") == ".jpg" by { assert LowerChar('J') == 'j'; }
    assert ".jpg" in IMAGE_EXTENSIONS;
  }

  /** A mixed-case extension is accepted. */
  lemma MixedCaseExample()
    ensures IsEligible("x.WebP")
  {
    assert "x"[0] != EXTSEP;
    LastExtensionDecides("x", "WebP");
    assert "x" + [EXTSEP] + "WebP" == "x.WebP";
    assert [EXTSEP] + "WebP" == ".WebP";
    assert AsciiLower(".WebP") == ".webp" by { assert LowerChar('W') == 'w' && LowerChar('P') == 'p'; }
    assert ".webp" in IMAGE_EXTENSIONS;
  }

  /** An image extension after another extension is accepted. */
  lemma LastExtensionExample()
    ensures IsEligible("a.txt.jpg")
  {
    assert "a.txt"[0] != EXTSEP;
    LastExtensionDecides("a.txt", "jpg");
    assert "a.txt" + [EXTSEP] + "jpg" == "a.txt.jpg";
    assert [EXTSEP] + "jpg" == ".jpg";
    assert AsciiLower(".jpg") == ".jpg";
    assert ".jpg" in IMAGE_EXTENSIONS;
  }

  /** An image extension followed by another extension is not enough. */
  lemma InnerExtensionExample()
    ensures !IsEligible("a.jpg.txt")
  {
    assert "a.jpg"[0] != EXTSEP;
    LastExtensionDecides("a.jpg", "txt");
    assert "a.jpg" + [EXTSEP] + "txt" == "a.jpg.txt";
    assert [EXTSEP] + "txt" == ".txt";
    assert AsciiLower(".txt") == ".txt";
    assert ".txt" !in IMAGE_EXTENSIONS;
  }

  /** A lone leading dot is not an extension, and neither is nothing. */
  lemma NoExtensionExamples()
    ensures !IsEligible(".png") && !IsEligible("README")
  {
    LeadingDotsAreRoot("", "png");
    assert "" + [EXTSEP] + "png" == ".png";
    NoDotIsSkipped("README");
  }

  /* ---------------- identify_image ---------------- */

  /** `identify_image(path)`: read the file, send it to the vision model and
      return the reply with surrounding whitespace removed. A missing file
      or a missing reply is an error. */
  function IdentifyImage(files: map<string, Bytes>, path: string, describe: imap<Bytes, string>): (r: Result<string, Error>)
    ensures r.Success? <==> path in files && files[path] in describe
    ensures path !in files ==> r == Failure(FileNotFound(path))
    ensures r.Success? ==> IsStripped(r.value) && IsSubseq(r.value, describe[files[path]])
    ensures r.Success? ==> r.value == Strip(describe[files[path]])
  {
    if path !in files then Failure(FileNotFound(path))
    else if files[path] !in describe then Failure(NoReply(Identify))
    else
      var reply := describe[files[path]];
      StripDeletes(reply);
      Success(Strip(reply))
  }
}
