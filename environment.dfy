/** What the pipeline touches outside itself: the file system (files as a
    map from path to bytes, directories as a set of paths), the inventory
    CSV file (a table of rows, absent until the first append), and what
    `json.loads` makes of the listing text. */
module Environment {
  import opened Wrappers
  import opened Text
  import opened Paths

  type Bytes = seq<bv8>
  type Row = seq<string>
  type Table = seq<Row>

  /** The columns of inventory.csv. */
  const HEADER: Row := ["output_file", "title", "description"]

  /** Why a run stops: the exception that escapes `pipeline.invoke`. */
  datatype Stage = Identify | Copy | Post
  datatype Error =
    | FileNotFound(path: string)   // opening a path that is not a file
    | SameFile(path: string)       // `shutil.copy2` onto its own source
    | NoReply(stage: Stage)        // a model call raised or returned no text
    | InvalidJson                  // `json.loads` raised
    | NotAnObject                  // the JSON value cannot be indexed by a key
    | MissingKey(key: string)      // `post[key]` raised KeyError

  /** A decoded JSON value, as far as the aggregator looks at it: an object
      whose members are rendered as the text the CSV writer stores, or
      anything else. */
  datatype Json = Object(members: map<string, string>) | NotObject

  /* ---------- inventory.csv ---------- */

  /** The table after one `_agg_fn` append: a file that did not exist gets
      the header first. */
  function Appended(file: Option<Table>, row: Row): (r: Table)
    ensures |r| >= 1 && r[|r| - 1] == row
    ensures file.None? ==> r == [HEADER, row]
    ensures file.Some? ==> r[..|r| - 1] == file.value
  {
    match file
    case None => [HEADER, row]
    case Some(t) => t + [row]
  }

  /** Appending keeps the first row of a non-empty file, and a new file
      starts with the header. */
  lemma AppendedKeepsHead(file: Option<Table>, row: Row)
    ensures file.None? ==> Appended(file, row)[0] == HEADER
    ensures file.Some? && file.value != [] ==> Appended(file, row)[0] == file.value[0]
  {
  }

  /** The file after appending `rows` one call at a time, in order. */
  function AppendAll(file: Option<Table>, rows: seq<Row>): Option<Table>
    decreases |rows|
  {
    if rows == [] then file
    else Some(Appended(AppendAll(file, rows[..|rows| - 1]), rows[|rows| - 1]))
  }

  /** Appending to an existing file adds exactly the rows, after what was there. */
  lemma {:induction false} AppendAllToExisting(t: Table, rows: seq<Row>)
    ensures AppendAll(Some(t), rows) == Some(t + rows)
    decreases |rows|
  {
    if rows == [] {
      assert t + rows == t;
    } else {
      var init := rows[..|rows| - 1];
      AppendAllToExisting(t, init);
      assert t + init + [rows[|rows| - 1]] == t + rows;
    }
  }

  /** Starting without the file, N appends give the header and then the N
      rows: N + 1 rows in all, one header. */
  lemma {:induction false} AppendAllToAbsent(rows: seq<Row>)
    requires rows != []
    ensures AppendAll(None, rows) == Some([HEADER] + rows)
    decreases |rows|
  {
    var init := rows[..|rows| - 1];
    if init == [] {
      assert AppendAll(None, init) == None;
      assert [HEADER] + rows == [HEADER, rows[0]];
    } else {
      AppendAllToAbsent(init);
      assert [HEADER] + init + [rows[|rows| - 1]] == [HEADER] + rows;
    }
  }

  /** The CSV file as `_agg_fn` leaves it. */
  class Inventory {
    var file: Option<Table>

    constructor (initial: Option<Table>)
      ensures file == initial
    {
      file := initial;
    }

    /** Open for appending (creating an empty file when there is none),
        write the header if the file was new, then write the row. */
    method Append(row: Row)
      modifies this
      ensures file == Some(Appended(old(file), row))
    {
      var newFile := file.None?;
      var table: Table := if newFile then [] else file.value;
      if newFile {
        table := table + [HEADER];
      }
      table := table + [row];
      assert newFile ==> table == [HEADER, row];
      file := Some(table);
    }
  }

  /* ---------- the file system ---------- */

  /** `os.path.dirname`: what precedes the last separator, without its
      trailing separators unless it consists of nothing else. */
  function Dirname(p: string): (r: string)
    ensures |r| <= |p| && StartsWith(p, r)
  {
    var head := p[..RFind(p, SEP) + 1];
    if head != [] && exists i :: 0 <= i < |head| && head[i] != SEP then
      TrimSeparators(head)
    else
      head
  }

  /** `str.rstrip("/")`. */
  function TrimSeparators(s: string): (r: string)
    ensures |r| <= |s| && r == s[..|r|]
    ensures forall i :: |r| <= i < |s| ==> s[i] == SEP
    ensures r == [] || r[|r| - 1] != SEP
    decreases |s|
  {
    if s != [] && s[|s| - 1] == SEP then TrimSeparators(s[..|s| - 1]) else s
  }

  /** `shutil.copy2(src, dst)` on the file map: the source must be a file,
      must not be the destination, and the destination's directory must
      exist (the empty directory name is the working directory). */
  function CopyFile(files: map<string, Bytes>, dirs: set<string>, src: string, dst: string): (r: Result<map<string, Bytes>, Error>)
    ensures r.Success? <==> src in files && src != dst && (Dirname(dst) == [] || Dirname(dst) in dirs)
    ensures r.Success? ==> r.value == files[dst := files[src]]
  {
    if src !in files then Failure(FileNotFound(src))
    else if src == dst then Failure(SameFile(src))
    else if Dirname(dst) != [] && Dirname(dst) !in dirs then Failure(FileNotFound(dst))
    else Success(files[dst := files[src]])
  }

  /** The parent of `dir + "/" + f` is `dir`, for a directory without a
      trailing separator and a name without one. */
  lemma DirnameOfJoin(dir: string, f: string)
    requires dir != [] && dir[|dir| - 1] != SEP
    requires f != [] && SEP !in f
    ensures Dirname(Join(dir, f)) == dir
  {
    assert Join(dir, f) == (dir + [SEP]) + f;
    RFindPastSuffix(dir + [SEP], f, SEP);
    var head := dir + [SEP];
    assert Join(dir, f)[..RFind(Join(dir, f), SEP) + 1] == head;
    assert head[|dir| - 1] != SEP;
    var t := TrimSeparators(head);
    assert |t| > |dir| - 1;
    assert t == head[..|t|];
  }

  /** Copying into `dir` succeeds exactly when `dir` exists (given a source
      that exists and differs from the destination); otherwise it fails
      with file-not-found on the destination, as `shutil.copy2` does. */
  lemma CopyIntoDir(files: map<string, Bytes>, dirs: set<string>, src: string, dir: string, f: string)
    requires dir != [] && dir[|dir| - 1] != SEP
    requires f != [] && SEP !in f
    requires src in files && src != Join(dir, f)
    ensures CopyFile(files, dirs, src, Join(dir, f)).Success? <==> dir in dirs
    ensures dir !in dirs ==> CopyFile(files, dirs, src, Join(dir, f)) == Failure(FileNotFound(Join(dir, f)))
  {
    DirnameOfJoin(dir, f);
  }

  /** A copy that succeeds writes the source's bytes at the destination and
      changes nothing else: the source, and every other file, stay as they were. */
  lemma CopyKeepsOthers(files: map<string, Bytes>, dirs: set<string>, src: string, dst: string)
    requires CopyFile(files, dirs, src, dst).Success?
    ensures CopyFile(files, dirs, src, dst).value.Keys == files.Keys + {dst}
    ensures CopyFile(files, dirs, src, dst).value[dst] == files[src]
    ensures CopyFile(files, dirs, src, dst).value[src] == files[src]
    ensures forall p :: p in files && p != dst ==> CopyFile(files, dirs, src, dst).value[p] == files[p]
  {
  }

  /** The files and directories the pipeline reads and writes. */
  class FileStore {
    var files: map<string, Bytes>
    const dirs: set<string>

    constructor (initial: map<string, Bytes>, directories: set<string>)
      ensures files == initial && dirs == directories
    {
      files := initial;
      dirs := directories;
    }

    /** `open(path, "rb").read()`. */
    method Read(path: string) returns (r: Result<Bytes, Error>)
      ensures path in files ==> r == Success(files[path])
      ensures path !in files ==> r == Failure(FileNotFound(path))
    {
      if path in files {
        r := Success(files[path]);
      } else {
        r := Failure(FileNotFound(path));
      }
    }

    /** `shutil.copy2(src, dst)`: the contents are copied and the source is kept. */
    method Copy(src: string, dst: string) returns (r: Outcome<Error>)
      modifies this
      ensures r.Pass? <==> CopyFile(old(files), dirs, src, dst).Success?
      ensures r.Pass? ==> files == CopyFile(old(files), dirs, src, dst).value
      ensures r.Fail? ==> files == old(files) && r.error == CopyFile(old(files), dirs, src, dst).error
    {
      if src !in files {
        return Fail(FileNotFound(src));
      }
      if src == dst {
        return Fail(SameFile(src));
      }
      var parent := Dirname(dst);
      if parent != [] && parent !in dirs {
        return Fail(FileNotFound(dst));
      }
      var data := files[src];
      files := files[dst := data];
      r := Pass;
    }
  }
}
