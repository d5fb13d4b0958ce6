/** What the pipeline promises, proved about the stage functions and `Run`
    of module Pipeline: what the copy stage writes and records, that a
    listing that cannot be decoded writes no row, that a run over N images
    adds exactly N rows after a single header, that the first failure ends
    the run, and that no file is ever deleted. */
module PipelineProperties {
  import opened Wrappers
  import opened Text
  import opened Paths
  import opened Environment
  import opened ImageIdentifier
  import opened Sanitiser
  import opened Pipeline

  /* ---------- the copy's name ---------- */

  /** With an output directory written without a trailing separator and a
      name that does not start with one, the copy lands directly in that
      directory under the stripped suggestion and the original suffix. */
  lemma CopyTargetInOutputDir(outputDir: string, imagePath: string, suggestion: string)
    requires outputDir != [] && outputDir[|outputDir| - 1] != SEP
    requires var name := Strip(suggestion) + Suffix(imagePath); name == [] || name[0] != SEP
    ensures CopyTarget(outputDir, imagePath, suggestion) == outputDir + [SEP] + Strip(suggestion) + Suffix(imagePath)
  {
    assert outputDir + [SEP] + (Strip(suggestion) + Suffix(imagePath))
      == outputDir + [SEP] + Strip(suggestion) + Suffix(imagePath);
  }

  /** The model's words become the file name as they are: whitespace inside
      the suggestion, its letter case and the image's suffix are all kept;
      only the whitespace around it goes. */
  lemma SuggestionUsedVerbatim(outputDir: string, imagePath: string, w1: string, name: string, w2: string)
    requires outputDir != [] && outputDir[|outputDir| - 1] != SEP
    requires AllSpace(w1) && AllSpace(w2) && IsStripped(name)
    requires name != [] && name[0] != SEP
    ensures CopyTarget(outputDir, imagePath, w1 + name + w2) == outputDir + [SEP] + name + Suffix(imagePath)
  {
    StripOfPadded(w1, name, w2);
    assert (name + Suffix(imagePath))[0] == name[0];
    CopyTargetInOutputDir(outputDir, imagePath, w1 + name + w2);
  }

  /** A suggestion that starts with a separator is an absolute path: the
      copy leaves the output directory. */
  lemma AbsoluteSuggestionEscapes(outputDir: string, imagePath: string, suggestion: string)
    requires Strip(suggestion) != [] && Strip(suggestion)[0] == SEP
    ensures CopyTarget(outputDir, imagePath, suggestion) == Strip(suggestion) + Suffix(imagePath)
  {
    assert (Strip(suggestion) + Suffix(imagePath))[0] == Strip(suggestion)[0];
  }

  /** The last component of `dir + "/" + f` is `f` when `f` holds no separator. */
  lemma NameOfJoin(dir: string, f: string)
    requires SEP !in f && f != []
    ensures Name(Join(dir, f)) == f
  {
    assert f[0] in f;
    if dir == [] {
      assert Join(dir, f) == [] + f;
      RFindPastSuffix([], f, SEP);
      assert [] + f == f;
    } else if dir[|dir| - 1] == SEP {
      RFindPastSuffix(dir, f, SEP);
      assert (dir + f)[|dir|..] == f;
    } else {
      assert Join(dir, f) == (dir + [SEP]) + f;
      RFindPastSuffix(dir + [SEP], f, SEP);
      assert ((dir + [SEP]) + f)[|dir| + 1..] == f;
    }
  }

  /** For a listed image, the suffix the copy keeps is exactly the extension
      the filter accepted, with its case unchanged: the copy of "IMG_1.JPG"
      ends in ".JPG". */
  lemma CopyKeepsCheckedExtension(rawDir: string, f: string)
    requires SEP !in f && IsEligible(f)
    ensures Suffix(Join(rawDir, f)) == SplitExt(f).1
    ensures AsciiLower(Suffix(Join(rawDir, f))) in IMAGE_EXTENSIONS
  {
    assert forall e :: e in IMAGE_EXTENSIONS ==> |e| >= 4;
    assert f != [];
    NameOfJoin(rawDir, f);
    SuffixOfEligibleName(Join(rawDir, f), f);
  }

  /** Whatever the directory, the suffix of a path whose last component is
      an eligible name is that name's splitext extension. */
  lemma SuffixOfEligibleName(p: string, f: string)
    requires Name(p) == f && SEP !in f && IsEligible(f)
    ensures Suffix(p) == SplitExt(f).1
  {
    var ext := SplitExt(f).1;
    assert forall e :: e in IMAGE_EXTENSIONS ==> |e| >= 4;
    assert |ext| >= 4;
    var dot := RFind(f, EXTSEP);
    assert HasNonDot(f, 0, dot);
    assert ext == f[dot..];
  }

  lemma SuffixParts(dir: string, f: string, stem: string, ext: string)
    requires dir == "/raw" && stem == "IMG_1." && ext == "JPG" && f == stem + ext
    ensures Suffix(Join(dir, f)) == ".JPG"
  {
    FileNameParts(f, stem, ext);
    NameOfJoin(dir, f);
  }

  lemma FileNameParts(f: string, stem: string, ext: string)
    requires stem == "IMG_1." && ext == "JPG" && f == stem + ext
    ensures SEP !in f && |f| == 9 && RFind(f, EXTSEP) == 5 && f[5..] == ".JPG"
  {
    RFindPastSuffix(stem, ext, EXTSEP);
    assert RFind(stem, EXTSEP) == 5;
  }

  /** "IMG_1.JPG" in "/raw", named " Red Bike\n" by the model, is copied to
      "/out/Red Bike.JPG": the space stays and so does the upper case. */
  lemma CopyTargetExample(outputDir: string, path: string, name: string, suggestion: string)
    requires outputDir == "/out" && path == Join("/raw", "IMG_1.JPG")
    requires name == "Red Bike" && suggestion == " " + name + "\n"
    ensures CopyTarget(outputDir, path, suggestion) == "/out/Red Bike.JPG"
  {
    SuffixParts("/raw", "IMG_1.JPG", "IMG_1.", "JPG");
    SuggestionUsedVerbatim(outputDir, path, " ", name, "\n");
    ExampleTarget(outputDir, name, Suffix(path));
  }

  lemma ExampleTarget(outputDir: string, name: string, suffix: string)
    requires outputDir == "/out" && name == "Red Bike" && suffix == ".JPG"
    ensures outputDir + [SEP] + name + suffix == "/out/Red Bike.JPG"
  {
  }

  /* ---------- one image ---------- */

  /** `_copy_fn` on success: the copy holds the image's bytes, the record's
      "original_path" is its former "image_path", its "image_path" is the
      copy, and its identification is unchanged; the original file stays. */
  lemma CopyStepSucceeds(v: RecordValue, files: map<string, Bytes>, dirs: set<string>, env: Env)
    requires CopyStep(v, files, dirs, env).Success?
    ensures var (v', files') := CopyStep(v, files, dirs, env).value;
      && v.identification in env.nameStem
      && v'.imagePath == CopyTarget(env.outputDir, v.imagePath, env.nameStem[v.identification])
      && v'.originalPath == Some(v.imagePath)
      && v'.identification == v.identification && v'.post == v.post
      && v.imagePath in files && v'.imagePath != v.imagePath
      && files'[v'.imagePath] == files[v.imagePath]
      && files'[v.imagePath] == files[v.imagePath]
      && files'.Keys == files.Keys + {v'.imagePath}
      && forall p :: p in files && p != v'.imagePath ==> files'[p] == files[p]
  {
    var dst := CopyTarget(env.outputDir, v.imagePath, env.nameStem[v.identification]);
    CopyKeepsOthers(files, dirs, v.imagePath, dst);
  }

  /** The listing's row: decodable JSON with both keys gives the row
      [new path, title, description]; anything else gives an error and no row. */
  lemma ListingRowCases(v: RecordValue, env: Env)
    ensures ListingRow(v, env).Success? <==>
      v.post.Some? && v.post.value in env.parseJson && env.parseJson[v.post.value].Object?
      && "title" in env.parseJson[v.post.value].members
      && "description" in env.parseJson[v.post.value].members
    ensures ListingRow(v, env).Success? ==>
      var members := env.parseJson[v.post.value].members;
      ListingRow(v, env).value == [v.imagePath, members["title"], members["description"]]
  {
  }

  /** `_copy_fn` succeeds exactly when the naming model answers for the
      identification and `shutil.copy2` can copy the image to the target. */
  lemma CopyStepSucceedsWhen(v: RecordValue, files: map<string, Bytes>, dirs: set<string>, env: Env)
    ensures CopyStep(v, files, dirs, env).Success? <==>
      v.identification in env.nameStem
      && CopyFile(files, dirs, v.imagePath, CopyTarget(env.outputDir, v.imagePath, env.nameStem[v.identification])).Success?
  {
  }

  /** `json.loads(post)` gives an object with "title" and "description". */
  predicate PostDecodes(post: string, env: Env) {
    post in env.parseJson && env.parseJson[post].Object?
    && "title" in env.parseJson[post].members && "description" in env.parseJson[post].members
  }

  /** What one image needs for `pipeline.invoke` to succeed: the file and
      the vision reply, a name, a copy target that is not the image and
      whose directory exists, a listing reply, and a post that decodes to
      an object with "title" and "description". */
  predicate ImageSucceeds(w: World, dirs: set<string>, env: Env, path: string) {
    && path in w.files && w.files[path] in env.describe
    && var id := Strip(env.describe[w.files[path]]);
    && id in env.nameStem
    && var dst := CopyTarget(env.outputDir, path, env.nameStem[id]);
    && path != dst && (Dirname(dst) == [] || Dirname(dst) in dirs)
    && id in env.listing
    && PostDecodes(Sanitise(env.listing[id]), env)
  }

  /** After the copy, `_post_fn` and `_agg_fn` both succeed exactly when
      the listing model answers and its sanitised reply decodes. */
  lemma PostAndAggregateSucceedWhen(v: RecordValue, inventory: Option<Table>, env: Env)
    ensures PostStep(v, env).Success? && AggregateStep(PostStep(v, env).value, inventory, env).Success?
      <==> v.identification in env.listing && PostDecodes(Sanitise(env.listing[v.identification]), env)
  {
    if v.identification in env.listing {
      ListingRowCases(PostStep(v, env).value, env);
    }
  }

  /** An image succeeds exactly when every stage has what it needs; a valid
      image therefore always yields its row (`SuccessAppendsOneRow`). */
  lemma ProcessImageSucceedsWhen(w: World, dirs: set<string>, env: Env, path: string)
    ensures ProcessImage(w, dirs, env, path).1.Success? <==> ImageSucceeds(w, dirs, env, path)
  {
    if path in w.files && w.files[path] in env.describe {
      var id := Strip(env.describe[w.files[path]]);
      var v1 := RecordValue(path, id, None, None);
      assert IdentifyStep(w.files, env, path) == Success(v1);
      CopyStepSucceedsWhen(v1, w.files, dirs, env);
      var c := CopyStep(v1, w.files, dirs, env);
      if c.Success? {
        CopyStepSucceeds(v1, w.files, dirs, env);
        PostAndAggregateSucceedWhen(c.value.0, w.inventory, env);
      }
    }
  }

  /** A failed call writes no row. */
  lemma FailureWritesNoRow(w: World, dirs: set<string>, env: Env, path: string)
    requires ProcessImage(w, dirs, env, path).1.Failure?
    ensures ProcessImage(w, dirs, env, path).0.inventory == w.inventory
  {
  }

  /** A successful call appends exactly one row, built from the record it
      returns, and that record's "original_path" is the image. */
  lemma SuccessAppendsOneRow(w: World, dirs: set<string>, env: Env, path: string)
    requires ProcessImage(w, dirs, env, path).1.Success?
    ensures ListingRow(ProcessImage(w, dirs, env, path).1.value, env).Success?
    ensures ProcessImage(w, dirs, env, path).0.inventory
      == Some(Appended(w.inventory, ListingRow(ProcessImage(w, dirs, env, path).1.value, env).value))
    ensures ProcessImage(w, dirs, env, path).1.value.originalPath == Some(path)
  {
  }

  /** A successful call's record holds the vision model's stripped reply
      and the sanitised listing written for it. */
  lemma SuccessRanEveryStage(w: World, dirs: set<string>, env: Env, path: string)
    requires ProcessImage(w, dirs, env, path).1.Success?
    ensures var r := ProcessImage(w, dirs, env, path).1.value;
      && IdentifyImage(w.files, path, env.describe) == Success(r.identification)
      && r.identification in env.listing
      && r.post == Some(Sanitise(env.listing[r.identification]))
  {
  }

  /** The image itself is never touched, no file is deleted, and every file
      the call writes holds the image's bytes. */
  lemma ProcessOnlyAddsCopies(w: World, dirs: set<string>, env: Env, path: string)
    ensures var w' := ProcessImage(w, dirs, env, path).0;
      && w.files.Keys <= w'.files.Keys
      && (path in w.files ==> w'.files[path] == w.files[path])
      && forall p :: p in w'.files && (p !in w.files || w'.files[p] != w.files[p]) ==>
           path in w.files && w'.files[p] == w.files[path]
  {
    ProcessFilesAreCopy(w, dirs, env, path);
    var id := IdentifyStep(w.files, env, path);
    if id.Success? {
      var c := CopyStep(id.value, w.files, dirs, env);
      if c.Success? {
        CopyStepSucceeds(id.value, w.files, dirs, env);
      }
    }
  }

  /** Only the copy stage writes files. */
  lemma ProcessFilesAreCopy(w: World, dirs: set<string>, env: Env, path: string)
    ensures var id := IdentifyStep(w.files, env, path);
      ProcessImage(w, dirs, env, path).0.files ==
        if id.Success? && CopyStep(id.value, w.files, dirs, env).Success?
        then CopyStep(id.value, w.files, dirs, env).value.1 else w.files
  {
  }

  /* ---------- a whole run ---------- */

  /** The row a record contributes. The `Failure` branch has no
      counterpart in the code, where a failed `_agg_fn` raises and writes
      nothing; a successful run never holds such a record, because each of
      its records passed `AggregateStep` (`RunRecordsFollowPaths`). */
  function RowOf(v: RecordValue, env: Env): Row
  {
    match ListingRow(v, env)
    case Success(row) => row
    case Failure(_) => []
  }

  /** The rows a list of records contributes, in order. */
  function RowsOf(records: seq<RecordValue>, env: Env): (rows: seq<Row>)
    ensures |rows| == |records|
    ensures forall i :: 0 <= i < |records| && ListingRow(records[i], env).Success? ==>
      rows[i] == ListingRow(records[i], env).value
    decreases |records|
  {
    if records == [] then []
    else RowsOf(records[..|records| - 1], env) + [RowOf(records[|records| - 1], env)]
  }

  /** One record per path, in order, each the copy of its image with a
      decodable listing. */
  predicate RecordsFollow(records: seq<RecordValue>, paths: seq<string>, env: Env) {
    |records| == |paths|
    && forall i :: 0 <= i < |paths| ==>
         records[i].originalPath == Some(paths[i]) && ListingRow(records[i], env).Success?
  }

  lemma RecordsFollowSnoc(records: seq<RecordValue>, paths: seq<string>, v: RecordValue, env: Env)
    requires paths != [] && RecordsFollow(records, paths[..|paths| - 1], env)
    requires v.originalPath == Some(paths[|paths| - 1]) && ListingRow(v, env).Success?
    ensures RecordsFollow(records + [v], paths, env)
  {
    forall i | 0 <= i < |paths|
      ensures (records + [v])[i].originalPath == Some(paths[i])
    {
      if i < |paths| - 1 {
        assert (records + [v])[i] == records[i];
        assert paths[..|paths| - 1][i] == paths[i];
      }
    }
  }

  /** A run that succeeds returns one record per path, in order, each of
      them the copy of its image with a decodable listing. */
  lemma {:induction false} RunRecordsFollowPaths(w: World, dirs: set<string>, env: Env, paths: seq<string>)
    requires Run(w, dirs, env, paths).1.Success?
    ensures RecordsFollow(Run(w, dirs, env, paths).1.value, paths, env)
    decreases |paths|
  {
    if paths != [] {
      var init := paths[..|paths| - 1];
      var last := paths[|paths| - 1];
      RunRecordsFollowPaths(w, dirs, env, init);
      var before := Run(w, dirs, env, init);
      SuccessAppendsOneRow(before.0, dirs, env, last);
      RecordsFollowSnoc(before.1.value, paths, ProcessImage(before.0, dirs, env, last).1.value, env);
    }
  }

  /** A run that succeeds appends the rows of its records, one per image,
      in the same order. */
  lemma {:induction false} RunAppendsEveryRow(w: World, dirs: set<string>, env: Env, paths: seq<string>)
    requires Run(w, dirs, env, paths).1.Success?
    ensures Run(w, dirs, env, paths).0.inventory == AppendAll(w.inventory, RowsOf(Run(w, dirs, env, paths).1.value, env))
    decreases |paths|
  {
    if paths != [] {
      var init := paths[..|paths| - 1];
      var last := paths[|paths| - 1];
      RunAppendsEveryRow(w, dirs, env, init);
      var before := Run(w, dirs, env, init);
      SuccessAppendsOneRow(before.0, dirs, env, last);
      var v := ProcessImage(before.0, dirs, env, last).1.value;
      var records := before.1.value + [v];
      assert Run(w, dirs, env, paths).1.value == records;
      assert records[..|records| - 1] == before.1.value;
      var rows := RowsOf(records, env);
      assert rows[..|rows| - 1] == RowsOf(before.1.value, env);
      assert rows[|rows| - 1] == ListingRow(v, env).value;
    }
  }

  /** Starting without inventory.csv, a successful run over N > 0 images
      leaves N + 1 rows: the header, then one row per image. */
  lemma FreshRunWritesHeaderAndRows(w: World, dirs: set<string>, env: Env, paths: seq<string>)
    requires w.inventory.None? && paths != []
    requires Run(w, dirs, env, paths).1.Success?
    ensures Run(w, dirs, env, paths).0.inventory == Some([HEADER] + RowsOf(Run(w, dirs, env, paths).1.value, env))
    ensures |Run(w, dirs, env, paths).0.inventory.value| == |paths| + 1
  {
    RunRecordsFollowPaths(w, dirs, env, paths);
    RunAppendsEveryRow(w, dirs, env, paths);
    AppendAllToAbsent(RowsOf(Run(w, dirs, env, paths).1.value, env));
  }

  /** With inventory.csv already there, a successful run over N images adds
      N rows after the existing ones and no second header. */
  lemma RerunAppendsRows(w: World, dirs: set<string>, env: Env, paths: seq<string>, t: Table)
    requires w.inventory == Some(t)
    requires Run(w, dirs, env, paths).1.Success?
    ensures Run(w, dirs, env, paths).0.inventory == Some(t + RowsOf(Run(w, dirs, env, paths).1.value, env))
    ensures |Run(w, dirs, env, paths).0.inventory.value| == |t| + |paths|
  {
    RunRecordsFollowPaths(w, dirs, env, paths);
    RunAppendsEveryRow(w, dirs, env, paths);
    AppendAllToExisting(t, RowsOf(Run(w, dirs, env, paths).1.value, env));
  }

  /** Whatever the outcome, rows already in the file stay, in place. */
  lemma {:induction false} RunKeepsEarlierRows(w: World, dirs: set<string>, env: Env, paths: seq<string>, t: Table)
    requires w.inventory == Some(t)
    ensures Run(w, dirs, env, paths).0.inventory.Some?
    ensures |t| <= |Run(w, dirs, env, paths).0.inventory.value|
    ensures Run(w, dirs, env, paths).0.inventory.value[..|t|] == t
    decreases |paths|
  {
    if paths != [] {
      var init := paths[..|paths| - 1];
      var last := paths[|paths| - 1];
      RunKeepsEarlierRows(w, dirs, env, init, t);
      var before := Run(w, dirs, env, init);
      if before.1.Success? {
        var step := ProcessImage(before.0, dirs, env, last);
        if step.1.Success? {
          SuccessAppendsOneRow(before.0, dirs, env, last);
          var b := before.0.inventory.value;
          var a := step.0.inventory.value;
          assert a[..|b|] == b;
          assert a[..|t|] == b[..|t|];
        } else {
          FailureWritesNoRow(before.0, dirs, env, last);
        }
      }
    }
  }

  /** A run that creates inventory.csv writes the header first. */
  lemma {:induction false} RunCreatesHeaderFirst(w: World, dirs: set<string>, env: Env, paths: seq<string>)
    requires w.inventory.None?
    ensures var file := Run(w, dirs, env, paths).0.inventory;
      file.Some? ==> file.value != [] && file.value[0] == HEADER
    decreases |paths|
  {
    if paths != [] {
      var init := paths[..|paths| - 1];
      var last := paths[|paths| - 1];
      RunCreatesHeaderFirst(w, dirs, env, init);
      var before := Run(w, dirs, env, init);
      if before.1.Success? {
        var step := ProcessImage(before.0, dirs, env, last);
        if step.1.Success? {
          SuccessAppendsOneRow(before.0, dirs, env, last);
          AppendedKeepsHead(before.0.inventory, ListingRow(step.1.value, env).value);
        } else {
          FailureWritesNoRow(before.0, dirs, env, last);
        }
      }
    }
  }

  /** Image `k` is the first that fails: the run over the images before it
      succeeded, processing image `k` then failed, and the whole run ended
      in exactly that state and with that error. */
  predicate FirstFailureAt(w: World, dirs: set<string>, env: Env, paths: seq<string>, k: nat)
    requires k < |paths|
  {
    var before := Run(w, dirs, env, paths[..k]);
    var step := ProcessImage(before.0, dirs, env, paths[k]);
    && before.1.Success?
    && step.1.Failure?
    && Run(w, dirs, env, paths) == (step.0, Failure(step.1.error))
  }

  /** A run fails with the error of the first image that fails: every
      image before it went through, and nothing after it is attempted. */
  lemma {:induction false} RunStopsAtFirstFailure(w: World, dirs: set<string>, env: Env, paths: seq<string>)
    requires Run(w, dirs, env, paths).1.Failure?
    ensures exists k: nat :: k < |paths| && FirstFailureAt(w, dirs, env, paths, k)
    decreases |paths|
  {
    var k := |paths| - 1;
    var init := paths[..k];
    if Run(w, dirs, env, init).1.Failure? {
      RunStopsAtFirstFailure(w, dirs, env, init);
      var j: nat :| j < |init| && FirstFailureAt(w, dirs, env, init, j);
      assert init[..j] == paths[..j] && init[j] == paths[j];
      assert FirstFailureAt(w, dirs, env, paths, j);
    } else {
      assert FirstFailureAt(w, dirs, env, paths, k);
    }
  }

  /** No run deletes a file. */
  lemma {:induction false} RunNeverDeletes(w: World, dirs: set<string>, env: Env, paths: seq<string>)
    ensures w.files.Keys <= Run(w, dirs, env, paths).0.files.Keys
    decreases |paths|
  {
    if paths != [] {
      var init := paths[..|paths| - 1];
      RunNeverDeletes(w, dirs, env, init);
      var before := Run(w, dirs, env, init);
      if before.1.Success? {
        ProcessOnlyAddsCopies(before.0, dirs, env, paths[|paths| - 1]);
      }
    }
  }
}
