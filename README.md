# autosell core in Dafny

A model of the pipeline that turns a folder of photographs into
marketplace listings. The pipeline lives in `main.py`, and
`agents/image_identifier.py` supplies the image list and the
descriptions. The model proves properties of that pipeline. It covers:

- **The image filter** (`get_image_paths`): the names of the raw-image
  directory whose `os.path.splitext` extension, lower-cased, is one of
  `.jpg .jpeg .png .bmp .gif .webp`. Each kept name is joined onto the
  directory, in listing order.
- **The four stages** run on every image by `pipeline.invoke`:
  - identification (`_id_fn` over `identify_image`);
  - a copy under a model-chosen name (`_copy_fn`);
  - the listing text (`_post_fn`, which removes `<think>` blocks and
    Markdown fences with two `re.sub` calls);
  - one row appended to `inventory.csv` (`_agg_fn`).
- **`main`**, which runs the pipeline over every listed image in turn.

The model comes in two forms:

- **Functions that compute the result.** `IdentifyStep`, `CopyStep`,
  `PostStep`, `AggregateStep`, `ProcessImage` and `Run` in module
  `Pipeline` take a `World`: the file map plus the CSV table, which is
  absent until the first append. The lemmas in `PipelineProperties`
  state what these functions promise.
- **Imperative code shaped like the source.** The record dictionary is
  the class `Pipeline.Record`, updated in place by the stage methods.
  `Environment.FileStore` holds the file map and `Environment.Inventory`
  holds the CSV file. `Pipeline.ProcessAll` is the loop of `main`. Each
  method is proved to compute exactly what the matching function says.

The outside services are inputs, not code:

- The three language models are given as tables (`imap`) in
  `Pipeline.Env`:
  - image bytes to the description;
  - identification to the name suggestion;
  - identification to the listing reply.
- `json.loads` is a table from text to a decoded value.
- An input outside a table stands for a call that raises, or a reply
  without text.

Python's `re.sub` is modelled position by position:

- scanning goes left to right;
- at each position the leftmost alternative that matches wins;
- matches do not overlap;
- text between matches is kept.

Both the lazy `.*?` under `DOTALL` and `$` are modelled exactly. `$`
matches at the end of the text, or just before a final newline.
`str.strip()` and `\s` use the same whitespace set, which is what
`str.isspace` accepts.

Files:

- `wrappers.dfy`: `Option`, `Result` and `Outcome`.
- `text.dfy`: whitespace, `strip`, substring search, ASCII lower-casing,
  and the subsequence relation.
- `paths.dfy`: `posixpath.splitext` and `posixpath.join`, plus the
  pathlib `name` and `suffix`.
- `environment.dfy`: the file map, `shutil.copy2`, and the CSV table.
- `image_identifier.dfy`: `get_image_paths` and `identify_image`.
- `sanitiser.dfy`: the `_post_fn` rewrite.
- `pipeline.dfy`: the stages and the run, as functions and as methods.
- `pipeline_properties.dfy`: the lemmas about the pipeline.

## Model

| member | source | states |
|---|---|---|
| Text.Strip | main.py:85 | `str.strip()` leaves no whitespace at either end and never lengthens the text |
| Text.IsSpace | main.py:85-87 | the characters `str.strip()` and `\s` treat as whitespace (CPython's `str.isspace` set); `StripOfPadded` and `SpaceRunSpaces` state what strip and `\s*` remove in its terms |
| Text.StripOfPadded | main.py:53 | stripping whitespace-padded stripped text gives back exactly that text |
| Text.StripStripped | main.py:87 | the second `strip` changes nothing on text that is already stripped |
| Text.StripDeletes | main.py:85 | what `strip` returns is a subsequence of its input |
| Text.IndexOf | main.py:85 | the search the lazy match relies on finds the leftmost occurrence, and finds none only when the pattern occurs nowhere |
| Text.AsciiLower | agents/image_identifier.py:13 | lower-casing keeps the length and maps every character on its own |
| Paths.RFind | agents/image_identifier.py:13 | the result is the last index holding the character, or -1 when it is absent |
| Paths.SplitExt | agents/image_identifier.py:13 | root + extension is the name; the extension is empty, or a dot followed by no other dot and no separator |
| Paths.Name | main.py:56 | the last component ends the path and holds no separator |
| Paths.Suffix | main.py:57 | the suffix is empty, or a dot and at least one more character |
| Paths.SuffixShape | main.py:57 | the suffix ends the path and holds a single dot and no separator |
| Paths.Join | main.py:61 | a second argument starting with "/" replaces the first; otherwise the result starts with the first argument, ends with the second, and adds at most one separator between them |
| Environment.Appended | main.py:104-109 | a missing file becomes [header, row]; an existing one keeps its rows and gains the row at the end |
| Environment.AppendedKeepsHead | main.py:104-108 | after an append the first row is the header (new file) or the old first row |
| Environment.AppendAllToExisting | main.py:105-109 | appending N rows to an existing file gives the old rows followed by the N rows |
| Environment.AppendAllToAbsent | main.py:104-109 | N appends starting without the file give one header and then the N rows |
| Environment.Inventory.constructor | main.py:94 | the CSV file starts as given (absent or an existing table) |
| Environment.Inventory.Append | main.py:104-109 | the file after one append is `Appended` of the file before |
| Environment.CopyFile | main.py:64 | the copy succeeds exactly when the source exists, differs from the destination and the destination's directory exists; the destination then holds the source's bytes |
| Environment.Dirname | main.py:64 | the parent directory `shutil.copy2` needs for the destination is a prefix of the path and never longer; `DirnameOfJoin` pins it for a path built by `os.path.join` |
| Environment.DirnameOfJoin | main.py:61-64 | the parent of `dir + "/" + name` is `dir`, for a directory without a trailing separator and a name without a separator |
| Environment.CopyIntoDir | main.py:61-64 | copying an existing image to `dir/name` succeeds exactly when `dir` exists, and otherwise fails with file-not-found on the destination |
| Environment.CopyKeepsOthers | main.py:64 | a successful copy adds only the destination; the source and every other file keep their bytes |
| Environment.FileStore.Read | agents/image_identifier.py:25-26 | reading returns the file's bytes, or a file-not-found error |
| Environment.FileStore.Copy | main.py:64 | the store's files become exactly `CopyFile`'s result, and stay unchanged on failure |
| ImageIdentifier.EligibleNames | agents/image_identifier.py:10-14 | a name is kept exactly when it is listed and eligible; never more names than listed |
| ImageIdentifier.IsEligible | agents/image_identifier.py:9-13 | the splitext extension, lower-cased, is one of the six image extensions; `LastExtensionDecides`, `LeadingDotsAreRoot`, `NoDotIsSkipped` and `EligibilityIgnoresCase` state which names pass |
| ImageIdentifier.GetImagePaths | agents/image_identifier.py:8-14 | one path per eligible name, in order, each the raw directory joined with that name |
| ImageIdentifier.EligibleNamesKeepOrder | agents/image_identifier.py:10-14 | the eligible names are a subsequence of the listing |
| ImageIdentifier.GetImagePathsExactly | agents/image_identifier.py:9-13 | every returned path is the directory joined with a listed eligible name, and every listed eligible name yields a path |
| ImageIdentifier.SplitExtOfLower | agents/image_identifier.py:13 | taking the extension and lower-casing commute |
| ImageIdentifier.EligibilityIgnoresCase | agents/image_identifier.py:13 | names that differ only in letter case are both kept or both skipped |
| ImageIdentifier.LastExtensionDecides | agents/image_identifier.py:13 | for `stem.ext` whose stem has a non-dot character, only `.ext` decides |
| ImageIdentifier.LeadingDotsAreRoot | agents/image_identifier.py:13 | a name whose last dot has only dots before it has no extension and is skipped |
| ImageIdentifier.NoDotIsSkipped | agents/image_identifier.py:13 | a name without a dot is skipped |
| ImageIdentifier.UpperCaseExample | agents/image_identifier.py:13 | `photo.JPG` is kept |
| ImageIdentifier.MixedCaseExample | agents/image_identifier.py:13 | `x.WebP` is kept |
| ImageIdentifier.LastExtensionExample | agents/image_identifier.py:13 | `a.txt.jpg` is kept |
| ImageIdentifier.InnerExtensionExample | agents/image_identifier.py:13 | `a.jpg.txt` is skipped |
| ImageIdentifier.NoExtensionExamples | agents/image_identifier.py:13 | `.png` and `README` are skipped |
| ImageIdentifier.IdentifyImage | agents/image_identifier.py:16-52 | succeeds exactly when the file exists and the model replies; a missing file is a file-not-found error; the description is exactly the reply with its surrounding whitespace stripped |
| Sanitiser.ThinkMatch | main.py:85 | a block match starts with `<think>`, spans both tags at least, and stays inside the text |
| Sanitiser.RemoveThink | main.py:85 | the first `re.sub`: `ThinkBlockRemoved` (a block is removed and the scan resumes after it), `KeepsTextBeforeTag`, `TextBetweenBlocksSurvives`, `RemoveThinkWithoutTag` and `RemoveThinkDeletes` state its behaviour |
| Sanitiser.FenceSub | main.py:87 | the second `re.sub`: `JsonFenceRemoved`, `ClosingFenceRemoved`, `NoClosingFence`, `BareFenceKept` and `FenceSubDeletes` state its behaviour |
| Sanitiser.ThinkMatchIsLazy | main.py:85 | the match ends at the first `</think>` after the opener; there is no match exactly when the opener or a later closing tag is missing |
| Sanitiser.SpaceRun | main.py:87 | the greedy `\s*` stops at the first non-whitespace character |
| Sanitiser.SpaceRunSpaces | main.py:87 | everything `\s*` consumes is whitespace |
| Sanitiser.OpenerMatch | main.py:87 | `^```json\s*` matches exactly when the text starts with "```json", and its match ends before a non-whitespace character or at the end |
| Sanitiser.OpenerMatchSpaces | main.py:87 | what the opener consumes after "```json" is whitespace |
| Sanitiser.CloserMatch | main.py:87 | a `\s*```$` match ends where `$` holds, just after a fence |
| Sanitiser.CloserMatchSpaces | main.py:87 | what the closer consumes before the fence is whitespace |
| Sanitiser.CloserMatchAtEnd | main.py:87 | a closing match is only possible where the text ends in a fence or in whitespace |
| Sanitiser.Sanitise | main.py:82-89 | the stored post has no whitespace at either end |
| Sanitiser.RemoveThinkDeletes | main.py:85 | removing blocks only deletes characters |
| Sanitiser.FenceSubDeletes | main.py:87 | removing fences only deletes characters |
| Sanitiser.SanitiseDeletesOnly | main.py:85-87 | the post is a subsequence of the raw reply and never longer |
| Sanitiser.RemoveThinkWithoutTag | main.py:85 | without an opening tag the block removal changes nothing |
| Sanitiser.RemoveThinkWithoutClose | main.py:85 | a reply with no closing tag passes block removal unchanged, so an unclosed block stays in the post |
| Sanitiser.KeepsTextBeforeTag | main.py:85 | text without an opening tag, followed by nothing or by '<', is kept as it is |
| Sanitiser.ThinkBlockRemoved | main.py:85 | a block is removed up to the first closing tag, newlines included, and the scan resumes after it |
| Sanitiser.TextBetweenBlocksSurvives | main.py:85 | with two blocks, the text between them survives (laziness) |
| Sanitiser.TwoBlocksExample | main.py:85 | `<think>a</think>X<think>b</think>` becomes `X` |
| Sanitiser.MultilineBlockExample | main.py:85 | a block spanning lines is removed whole |
| Sanitiser.StrayCloseTagKept | main.py:85 | a closing tag with no opener before it is kept |
| Sanitiser.BlockBetween | main.py:85 | a block between two tag-free texts is removed and the texts are joined |
| Sanitiser.NoClosingFence | main.py:87 | past position 0, a stripped text not ending in a fence is left alone |
| Sanitiser.ClosingFenceRemoved | main.py:87 | a final fence and the whitespace before it are removed, and nothing else |
| Sanitiser.JsonFenceRemoved | main.py:87 | a leading "```json" and the whitespace after it are removed |
| Sanitiser.BareFenceKept | main.py:87 | on a stripped text of six or more characters, a bare leading "```" is kept |
| Sanitiser.OnlyFences | main.py:87 | "```json", whitespace, "```" leaves nothing |
| Sanitiser.FencedAnswer | main.py:87 | both fences and the whitespace just inside them are removed, leaving the body |
| Sanitiser.UnfencedUnchanged | main.py:87 | a stripped text with neither fence comes through the fence step unchanged |
| Sanitiser.PlainReplyOnlyTrimmed | main.py:85-87 | a reply with no block and no fences is only stripped |
| Sanitiser.BareJsonUnchanged | main.py:85-87 | a bare `{...}` reply is only stripped |
| Sanitiser.FencedReplyAfterThinking | main.py:85-88 | a block then a fenced answer yields exactly the answer |
| Sanitiser.FencedReplyExample | main.py:85-88 | `<think>ignore</think>` followed by a JSON object in "```json\n...\n```" yields the bare object |
| Sanitiser.BareFenceSub | main.py:87 | on a text fenced with a bare "```", only the closing fence goes |
| Sanitiser.BareFencedReply | main.py:85-88 | a reply fenced with a bare "```" keeps its opening fence |
| Sanitiser.BareFenceExample | main.py:85-88 | "```\n{}\n```" becomes "```\n{}" |
| Sanitiser.RemoveThinkJoinsTag | main.py:85 | removing the inner block of `<thi<think>x</think>nk>y</think>` leaves `<think>y</think>` |
| Sanitiser.SanitiseJoinsTag | main.py:85-88 | the whole rewrite on that reply leaves `<think>y</think>` |
| Sanitiser.SanitiseNotIdempotent | main.py:85-88 | on that reply a second pass gives the empty text while one pass does not |
| Pipeline.IdentifyStep | main.py:41-43 | succeeds exactly when `identify_image` does; the new record holds the path, `identify_image`'s description as "identification", and neither "original_path" nor "post"; a failure carries `identify_image`'s error |
| Pipeline.CopyTarget | main.py:53-61 | the copy's path from the output directory, the suggestion and the suffix; `CopyTargetInOutputDir`, `SuggestionUsedVerbatim` and `AbsoluteSuggestionEscapes` state where it lands |
| Pipeline.CopyStep | main.py:52-69 | `_copy_fn` as a function of the record and the files; `CopyStepSucceeds` states the new record and files, `CopyKeepsOthers` what stays |
| Pipeline.PostStep | main.py:82-89 | succeeds exactly when the listing model replies; "post" is then the sanitised reply, which is stripped, and the other keys are unchanged |
| Pipeline.AggregateStep | main.py:96-110 | succeeds exactly when the listing row can be built, else fails with its error; a new file then holds exactly the header and the row, and an existing one keeps every earlier row and gains the row at the end |
| Pipeline.ProcessImage | main.py:115-121 | one `pipeline.invoke`: `ProcessImageSucceedsWhen` says when it succeeds; `SuccessAppendsOneRow`, `FailureWritesNoRow`, `SuccessRanEveryStage` and `ProcessOnlyAddsCopies` state its outcome |
| Pipeline.Run | main.py:123-124 | the list comprehension in `main`: `RunRecordsFollowPaths`, `RunAppendsEveryRow`, `RunStopsAtFirstFailure` and `RunKeepsEarlierRows` state its outcome |
| Pipeline.ListingRow | main.py:97-103 | a row has the header's three columns and starts with the record's "image_path" |
| Pipeline.RunStopsAtFailure | main.py:124 | after a failure, later images change nothing |
| Pipeline.RunOneMore | main.py:124 | one more image: the run so far, then that image unless the run already failed |
| Pipeline.Record.constructor | main.py:43 | the new record holds the path and the identification |
| Pipeline.IdentifyStage | main.py:41-43 | the record it builds is `IdentifyStep`'s, and the errors agree |
| Pipeline.CopyUnderNewName | main.py:53-64 | copies to the new path and returns it, exactly as `CopyStep` says; on failure the files are unchanged |
| Pipeline.CopyStage | main.py:52-69 | the record and files become `CopyStep`'s result; on failure neither changes |
| Pipeline.PostStage | main.py:82-89 | the record becomes `PostStep`'s, with "post" the sanitised reply |
| Pipeline.AggregateStage | main.py:96-110 | the inventory becomes `AggregateStep`'s table; when the row cannot be built the file is untouched |
| Pipeline.Invoke | main.py:115-121 | the files, the inventory and the result are exactly `ProcessImage`'s |
| Pipeline.ProcessAll | main.py:123-124 | the files, the inventory and the result are exactly `Run` over `GetImagePaths` |
| PipelineProperties.CopyTargetInOutputDir | main.py:53-61 | the copy is output directory / (stripped suggestion + original suffix) |
| PipelineProperties.SuggestionUsedVerbatim | main.py:53-61 | only the whitespace around the suggestion goes; its spaces and case stay |
| PipelineProperties.AbsoluteSuggestionEscapes | main.py:60-61 | a suggestion starting with "/" puts the copy outside the output directory |
| PipelineProperties.NameOfJoin | agents/image_identifier.py:11 | the last component of a joined image path is the listed name |
| PipelineProperties.CopyKeepsCheckedExtension | main.py:57 | the suffix the copy keeps is the extension the filter checked, case unchanged |
| PipelineProperties.SuffixOfEligibleName | main.py:57 | for any path whose last component is an eligible name, pathlib's suffix is that name's splitext extension |
| PipelineProperties.SuffixParts | main.py:57 | the suffix of `/raw/IMG_1.JPG` is `.JPG` |
| PipelineProperties.CopyTargetExample | main.py:53-61 | `IMG_1.JPG` named " Red Bike\n" is copied to `/out/Red Bike.JPG` |
| PipelineProperties.CopyStepSucceeds | main.py:52-69 | after the copy, "original_path" is the old path, "image_path" the copy, the identification is unchanged, the copy holds the image's bytes, and the source and other files are kept |
| PipelineProperties.CopyStepSucceedsWhen | main.py:52-64 | `_copy_fn` succeeds exactly when the naming model answers and `shutil.copy2` can copy the image to the target |
| PipelineProperties.PostAndAggregateSucceedWhen | main.py:82-110 | after the copy, `_post_fn` and `_agg_fn` both succeed exactly when the listing model answers and its sanitised reply decodes to an object with "title" and "description" |
| PipelineProperties.ProcessImageSucceedsWhen | main.py:115-121 | an image succeeds exactly when it exists and is described, is named, can be copied to a target other than itself in an existing directory, and its post decodes with both keys |
| PipelineProperties.ListingRowCases | main.py:98-103 | a row is built exactly when "post" decodes to an object with "title" and "description", and it is [new path, title, description] |
| PipelineProperties.FailureWritesNoRow | main.py:98-105 | a failed call leaves the inventory as it was |
| PipelineProperties.SuccessAppendsOneRow | main.py:96-110 | a successful call appends exactly its record's row, and the record's "original_path" is the image |
| PipelineProperties.SuccessRanEveryStage | main.py:115-121 | a successful record holds the stripped description and the sanitised listing reply |
| PipelineProperties.ProcessOnlyAddsCopies | main.py:64 | no file is deleted, the image is untouched, and every file written holds the image's bytes |
| PipelineProperties.ProcessFilesAreCopy | main.py:64 | only the copy stage writes files: the files after the call are the copy's result, or unchanged |
| PipelineProperties.RowsOf | main.py:99-103 | one row per record, each that record's listing row |
| PipelineProperties.RunRecordsFollowPaths | main.py:124 | a successful run returns one record per image, in order, each the copy of that image |
| PipelineProperties.RunAppendsEveryRow | main.py:124 | a successful run appends its records' rows in order |
| PipelineProperties.FreshRunWritesHeaderAndRows | main.py:104-109 | from no file, N > 0 images give the header and N rows |
| PipelineProperties.RerunAppendsRows | main.py:104-109 | with the file present, N images add N rows and no header |
| PipelineProperties.RunKeepsEarlierRows | main.py:105 | whatever happens, rows already in the file stay, in place |
| PipelineProperties.RunCreatesHeaderFirst | main.py:107-108 | a run that creates the file writes the header first |
| PipelineProperties.RunStopsAtFirstFailure | main.py:124 | a failed run ends at the first failing image, in its state and with its error, after every earlier image succeeded |
| PipelineProperties.RunNeverDeletes | main.py:64 | no run deletes a file |

## Behaviour worth knowing

- Sanitising is not idempotent. The first pass turns
  `<thi<think>x</think>nk>y</think>` into `<think>y</think>`, and a
  second pass removes that block (`Sanitiser.SanitiseNotIdempotent`).
- `_copy_fn` only strips the name suggestion: "Red Bike" stays in the
  file name, spaces included (`PipelineProperties.SuggestionUsedVerbatim`,
  `PipelineProperties.CopyTargetExample`). A suggestion starting with
  "/" escapes the output directory
  (`PipelineProperties.AbsoluteSuggestionEscapes`).
- An exception from any image leaves the list comprehension in `main`,
  so the first failure ends the run. Later images are not processed,
  and what earlier images wrote stays
  (`PipelineProperties.RunStopsAtFirstFailure`,
  `PipelineProperties.RunKeepsEarlierRows`).

## Left out

- **Language-model clients and prompts.** The models are tables keyed
  by what fills the prompt: the image bytes, or the identification.
  Prompt text, temperature and `max_tokens` are not modelled. Neither
  is nondeterminism: each table gives one reply per input.
- **Base64 encoding and the data URL** of the image are not modelled.
  The vision table is keyed by the file's bytes.
- **`os.makedirs` for the output directory.** The set of existing
  directories is a parameter. A missing output directory makes the copy
  fail with file-not-found (`Environment.CopyIntoDir`).
- **Where the directories are.** `OUTPUT_DIR`, `RAW_IMAGE_DIR` and the
  working directory of `inventory.csv` come from `__file__` and the
  process. They are parameters.
- **`os.listdir`** is a parameter: the listing, in the order the
  operating system gives it.
- **`shutil.copy2` beyond the bytes.** Metadata is not modelled. Two
  paths count as the same file only when they are equal strings, so
  links are not modelled. A destination that is an existing directory
  is not modelled either.
- **Disk errors.** Permission and write errors on the copy or on the CSV
  file are not modelled.
- **The JSON grammar.** `json.loads` is a table from text to a decoded
  value. A member of the object is kept as the text the CSV writer would
  store for it.
- **CSV quoting and encoding.** A row is its list of fields.
- **`load_dotenv` and the final prints.**
- Text.AsciiLower: lowers ASCII letters only, where `str.lower` lowers
  every letter. No other character lowers to one of the six extensions,
  so which names are kept is unchanged.
- Paths.Name: the name is taken from the path as written. pathlib's
  collapsing of repeated "/" and of "." components is not modelled;
  the paths the pipeline builds have neither.
- Paths.Suffix: follows pathlib up to Python 3.13, where the dot is
  neither the first nor the last character of the name. A name ending
  in a dot has no suffix here.
- **Concurrency and retries**: the code has none.
