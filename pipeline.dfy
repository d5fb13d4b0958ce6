/** main.py: the four-stage pipeline run on every image. One dictionary
    travels through the stages and each stage updates it in place:
    identification (`_id_fn`), copy under a model-chosen name (`_copy_fn`),
    listing text (`_post_fn`), and one inventory row (`_agg_fn`). `main`
    runs the pipeline on each listed image in turn; the first exception
    ends the run. The language models and `json.loads` are tables given
    in `Env`. */
module Pipeline {
  import opened Wrappers
  import opened Text
  import opened Paths
  import opened Environment
  import opened ImageIdentifier
  import opened Sanitiser

  /** The outside services and the output directory. Each model is a table
      from what its fixed prompt is filled with to the reply's text; an
      input outside the table stands for a call that raises or a reply
      without text. */
  datatype Env = Env(
    outputDir: string,
    describe: imap<Bytes, string>,   // vision model, given the image
    nameStem: imap<string, string>,  // cheap model, given the identification
    listing: imap<string, string>,   // reasoning model, given the identification
    parseJson: imap<string, Json>)   // `json.loads`; outside it, it raises

  /** The dictionary's keys: "image_path", "identification",
      "original_path" and "post" (the last two absent until set). */
  datatype RecordValue = RecordValue(
    imagePath: string,
    identification: string,
    originalPath: Option<string>,
    post: Option<string>)

  /** The state a run changes: the files and the inventory CSV. */
  datatype World = World(files: map<string, Bytes>, inventory: Option<Table>)

  /* ---------- the stages as functions ---------- */

  /** `_id_fn`: a new record holding the path and its identification. */
  function IdentifyStep(files: map<string, Bytes>, env: Env, path: string): (r: Result<RecordValue, Error>)
    ensures r.Success? <==> IdentifyImage(files, path, env.describe).Success?
    ensures r.Success? ==> r.value.imagePath == path && r.value.originalPath.None? && r.value.post.None?
    ensures r.Success? ==> r.value.identification == IdentifyImage(files, path, env.describe).value
    ensures r.Failure? ==> r.error == IdentifyImage(files, path, env.describe).error
  {
    match IdentifyImage(files, path, env.describe)
    case Failure(e) => Failure(e)
    case Success(text) => Success(RecordValue(path, text, None, None))
  }

  /** The copy's path: the stripped suggestion followed by the original
      suffix, joined onto the output directory. */
  function CopyTarget(outputDir: string, imagePath: string, suggestion: string): string
  {
    Join(outputDir, Strip(suggestion) + Suffix(imagePath))
  }

  /** `_copy_fn`: copy the image under the new name, then record where it
      came from and where it now is. */
  function CopyStep(v: RecordValue, files: map<string, Bytes>, dirs: set<string>, env: Env): Result<(RecordValue, map<string, Bytes>), Error>
  {
    if v.identification !in env.nameStem then Failure(NoReply(Copy))
    else
      var dst := CopyTarget(env.outputDir, v.imagePath, env.nameStem[v.identification]);
      match CopyFile(files, dirs, v.imagePath, dst)
      case Failure(e) => Failure(e)
      case Success(files') => Success((v.(originalPath := Some(v.imagePath), imagePath := dst), files'))
  }

  /** `_post_fn`: store the sanitised reply under "post". */
  function PostStep(v: RecordValue, env: Env): (r: Result<RecordValue, Error>)
    ensures r.Success? <==> v.identification in env.listing
    ensures r.Success? ==> r.value.post.Some? && IsStripped(r.value.post.value)
    ensures r.Success? ==> r.value.post == Some(Sanitise(env.listing[v.identification]))
    ensures r.Success? ==>
      r.value.imagePath == v.imagePath && r.value.identification == v.identification && r.value.originalPath == v.originalPath
  {
    if v.identification !in env.listing then Failure(NoReply(Post))
    else Success(v.(post := Some(Sanitise(env.listing[v.identification]))))
  }

  /** The row `_agg_fn` builds: decode "post", then look up "title" and
      "description", in that order. */
  function ListingRow(v: RecordValue, env: Env): (r: Result<Row, Error>)
    ensures r.Success? ==> |r.value| == |HEADER| && r.value[0] == v.imagePath
  {
    match v.post
    case None => Failure(MissingKey("post"))
    case Some(text) =>
      if text !in env.parseJson then Failure(InvalidJson)
      else
        match env.parseJson[text]
        case NotObject => Failure(NotAnObject)
        case Object(members) =>
        if "title" !in members then Failure(MissingKey("title"))
        else if "description" !in members then Failure(MissingKey("description"))
        else Success([v.imagePath, members["title"], members["description"]])
  }

  /** `_agg_fn`: the inventory after appending the row; nothing is written
      when the row cannot be built. */
  function AggregateStep(v: RecordValue, inventory: Option<Table>, env: Env): (r: Result<Table, Error>)
    ensures r.Success? <==> ListingRow(v, env).Success?
    ensures r.Failure? ==> r.error == ListingRow(v, env).error
    ensures r.Success? ==> |r.value| >= 1 && r.value[|r.value| - 1] == ListingRow(v, env).value
    ensures r.Success? && inventory.None? ==> r.value == [HEADER, ListingRow(v, env).value]
    ensures r.Success? && inventory.Some? ==> r.value[..|r.value| - 1] == inventory.value
  {
    match ListingRow(v, env)
    case Failure(e) => Failure(e)
    case Success(row) => Success(Appended(inventory, row))
  }

  /** `pipeline.invoke(path)`: the stages in order. A failing stage ends
      the call; what earlier stages wrote (the copy) stays. */
  function ProcessImage(w: World, dirs: set<string>, env: Env, path: string): (World, Result<RecordValue, Error>)
  {
    match IdentifyStep(w.files, env, path)
    case Failure(e) => (w, Failure(e))
    case Success(v1) =>
      match CopyStep(v1, w.files, dirs, env)
      case Failure(e) => (w, Failure(e))
      case Success(copied) =>
        var (v2, files) := copied;
        var w2 := w.(files := files);
        match PostStep(v2, env)
        case Failure(e) => (w2, Failure(e))
        case Success(v3) =>
          match AggregateStep(v3, w.inventory, env)
          case Failure(e) => (w2, Failure(e))
          case Success(table) => (w2.(inventory := Some(table)), Success(v3))
  }

  /** `main`: the pipeline on each path in order, collecting the records;
      the first failure ends the run with that error. */
  function Run(w: World, dirs: set<string>, env: Env, paths: seq<string>): (World, Result<seq<RecordValue>, Error>)
    decreases |paths|
  {
    if paths == [] then (w, Success([]))
    else
      var before := Run(w, dirs, env, paths[..|paths| - 1]);
      if before.1.Failure? then before
      else
        var step := ProcessImage(before.0, dirs, env, paths[|paths| - 1]);
        match step.1
        case Failure(e) => (step.0, Failure(e))
        case Success(v) => (step.0, Success(before.1.value + [v]))
  }

  /** Once a run has failed, further paths change nothing. */
  lemma {:induction false} RunStopsAtFailure(w: World, dirs: set<string>, env: Env, paths: seq<string>, more: seq<string>)
    requires Run(w, dirs, env, paths).1.Failure?
    ensures Run(w, dirs, env, paths + more) == Run(w, dirs, env, paths)
    decreases |more|
  {
    if more == [] {
      assert paths + more == paths;
    } else {
      var init := more[..|more| - 1];
      RunStopsAtFailure(w, dirs, env, paths, init);
      assert (paths + more)[..|paths + more| - 1] == paths + init;
    }
  }

  /** One more path: the run so far, then that path, unless the run has
      already failed. */
  lemma RunOneMore(w: World, dirs: set<string>, env: Env, paths: seq<string>, i: nat)
    requires i < |paths|
    ensures var before := Run(w, dirs, env, paths[..i]);
      var step := ProcessImage(before.0, dirs, env, paths[i]);
      Run(w, dirs, env, paths[..i + 1])
        == if before.1.Failure? then before
           else if step.1.Failure? then (step.0, Failure(step.1.error))
           else (step.0, Success(before.1.value + [step.1.value]))
  {
    assert paths[..i + 1][..i] == paths[..i];
  }

  /* ---------- the stages as they run: one record updated in place ---------- */

  /** The dictionary passed from stage to stage. */
  class Record {
    var imagePath: string
    var identification: string
    var originalPath: Option<string>
    var post: Option<string>

    function Value(): RecordValue
      reads this
    {
      RecordValue(imagePath, identification, originalPath, post)
    }

    constructor (path: string, text: string)
      ensures Value() == RecordValue(path, text, None, None)
    {
      imagePath := path;
      identification := text;
      originalPath := None;
      post := None;
    }
  }

  /** `_id_fn`. */
  method IdentifyStage(path: string, fs: FileStore, env: Env) returns (r: Result<Record, Error>)
    ensures r.Success? <==> IdentifyStep(fs.files, env, path).Success?
    ensures r.Success? ==> fresh(r.value) && r.value.Value() == IdentifyStep(fs.files, env, path).value
    ensures r.Failure? ==> r.error == IdentifyStep(fs.files, env, path).error
  {
    var bytes := fs.Read(path);
    if bytes.Failure? {
      return Failure(bytes.error);
    }
    if bytes.value !in env.describe {
      return Failure(NoReply(Identify));
    }
    var d := new Record(path, Strip(env.describe[bytes.value]));
    return Success(d);
  }

  /** The first half of `_copy_fn`: ask for a name, build the new path
      and copy the image there; the new path is the result. */
  method CopyUnderNewName(v: RecordValue, fs: FileStore, env: Env) returns (r: Result<string, Error>)
    modifies fs
    ensures r.Success? <==> CopyStep(v, old(fs.files), fs.dirs, env).Success?
    ensures r.Success? ==>
      CopyStep(v, old(fs.files), fs.dirs, env).value == (v.(originalPath := Some(v.imagePath), imagePath := r.value), fs.files)
    ensures r.Failure? ==> r.error == CopyStep(v, old(fs.files), fs.dirs, env).error && fs.files == old(fs.files)
  {
    if v.identification !in env.nameStem {
      return Failure(NoReply(Copy));
    }
    var suggestion := Strip(env.nameStem[v.identification]);
    var extension := Suffix(v.imagePath);
    var newPath := Join(env.outputDir, suggestion + extension);
    var copied := fs.Copy(v.imagePath, newPath);
    if copied.Fail? {
      return Failure(copied.error);
    }
    r := Success(newPath);
  }

  /** `_copy_fn`: the file is copied first; the record changes only when
      the copy succeeded. */
  method CopyStage(d: Record, fs: FileStore, env: Env) returns (r: Outcome<Error>)
    modifies d, fs
    ensures r.Pass? <==> CopyStep(old(d.Value()), old(fs.files), fs.dirs, env).Success?
    ensures r.Pass? ==> (d.Value(), fs.files) == CopyStep(old(d.Value()), old(fs.files), fs.dirs, env).value
    ensures r.Fail? ==> r.error == CopyStep(old(d.Value()), old(fs.files), fs.dirs, env).error
    ensures r.Fail? ==> d.Value() == old(d.Value()) && fs.files == old(fs.files)
  {
    ghost var v, files := d.Value(), fs.files;
    var newPath := CopyUnderNewName(d.Value(), fs, env);
    ghost var step := CopyStep(v, files, fs.dirs, env);
    if newPath.Failure? {
      assert step.Failure? && step.error == newPath.error;
      return Fail(newPath.error);
    }
    d.originalPath := Some(d.imagePath);
    d.imagePath := newPath.value;
    assert d.Value() == v.(originalPath := Some(v.imagePath), imagePath := newPath.value);
    assert step.Success? && step.value == (d.Value(), fs.files);
    r := Pass;
  }

  /** `_post_fn`. */
  method PostStage(d: Record, env: Env) returns (r: Outcome<Error>)
    modifies d
    ensures r.Pass? <==> PostStep(old(d.Value()), env).Success?
    ensures r.Pass? ==> d.Value() == PostStep(old(d.Value()), env).value
    ensures r.Fail? ==> r.error == PostStep(old(d.Value()), env).error && d.Value() == old(d.Value())
  {
    if d.identification !in env.listing {
      return Fail(NoReply(Post));
    }
    var raw := env.listing[d.identification];
    d.post := Some(Sanitise(raw));
    r := Pass;
  }

  /** `_agg_fn`: the row is built before the file is opened, so a bad
      listing writes nothing. */
  method AggregateStage(d: Record, inv: Inventory, env: Env) returns (r: Outcome<Error>)
    modifies inv
    ensures r.Pass? <==> AggregateStep(d.Value(), old(inv.file), env).Success?
    ensures r.Pass? ==> inv.file == Some(AggregateStep(d.Value(), old(inv.file), env).value)
    ensures r.Fail? ==> r.error == AggregateStep(d.Value(), old(inv.file), env).error && inv.file == old(inv.file)
  {
    var row := ListingRow(d.Value(), env);
    if row.Failure? {
      return Fail(row.error);
    }
    inv.Append(row.value);
    r := Pass;
  }

  /** `pipeline.invoke(path)`. */
  method Invoke(path: string, fs: FileStore, inv: Inventory, env: Env) returns (r: Result<Record, Error>)
    modifies fs, inv
    ensures var expected := ProcessImage(World(old(fs.files), old(inv.file)), fs.dirs, env, path);
      && World(fs.files, inv.file) == expected.0
      && (r.Success? <==> expected.1.Success?)
      && (r.Success? ==> fresh(r.value) && r.value.Value() == expected.1.value)
      && (r.Failure? ==> r.error == expected.1.error)
  {
    ghost var w := World(fs.files, inv.file);
    ghost var identifiedValue := IdentifyStep(fs.files, env, path);
    var identified := IdentifyStage(path, fs, env);
    if identified.Failure? {
      assert ProcessImage(w, fs.dirs, env, path) == (w, Failure(identifiedValue.error));
      return Failure(identified.error);
    }
    var d := identified.value;
    ghost var copiedValue := CopyStep(identifiedValue.value, fs.files, fs.dirs, env);
    var copied := CopyStage(d, fs, env);
    if copied.Fail? {
      assert ProcessImage(w, fs.dirs, env, path) == (w, Failure(copiedValue.error));
      return Failure(copied.error);
    }
    ghost var w2 := w.(files := fs.files);
    ghost var postedValue := PostStep(d.Value(), env);
    var posted := PostStage(d, env);
    if posted.Fail? {
      assert ProcessImage(w, fs.dirs, env, path) == (w2, Failure(postedValue.error));
      return Failure(posted.error);
    }
    ghost var aggregatedValue := AggregateStep(d.Value(), inv.file, env);
    var aggregated := AggregateStage(d, inv, env);
    if aggregated.Fail? {
      assert ProcessImage(w, fs.dirs, env, path) == (w2, Failure(aggregatedValue.error));
      return Failure(aggregated.error);
    }
    assert ProcessImage(w, fs.dirs, env, path) == (w2.(inventory := Some(aggregatedValue.value)), Success(d.Value()));
    r := Success(d);
  }

  /** `main()`: the pipeline on every eligible image of the raw directory,
      in listing order. */
  method ProcessAll(rawDir: string, listing: seq<string>, fs: FileStore, inv: Inventory, env: Env)
    returns (r: Result<seq<RecordValue>, Error>)
    modifies fs, inv
    ensures (World(fs.files, inv.file), r)
      == Run(World(old(fs.files), old(inv.file)), fs.dirs, env, GetImagePaths(rawDir, listing))
  {
    var paths := GetImagePaths(rawDir, listing);
    ghost var w0 := World(fs.files, inv.file);
    var results: seq<RecordValue> := [];
    var i := 0;
    while i < |paths|
      invariant 0 <= i <= |paths|
      invariant Run(w0, fs.dirs, env, paths[..i]) == (World(fs.files, inv.file), Success(results))
    {
      var d := Invoke(paths[i], fs, inv, env);
      RunOneMore(w0, fs.dirs, env, paths, i);
      if d.Failure? {
        RunStopsAtFailure(w0, fs.dirs, env, paths[..i + 1], paths[i + 1..]);
        assert paths[..i + 1] + paths[i + 1..] == paths;
        return Failure(d.error);
      }
      results := results + [d.value.Value()];
      i := i + 1;
    }
    assert paths[..i] == paths;
    r := Success(results);
  }
}
