# mapmyrun-to-strava: the uploader's file-name classifier, upload loop and progress store

The tool moves workouts exported from MapMyRun to Strava. Exported files sit
in one directory as `.tcx` files. Their names follow the pattern
`<distance>mi <type>.tcx`, and duplicates carry a sequence number:
`3.1mi Run (2).tcx`. This project models three parts of the tool in Dafny.

- **`FilenameClassifier`** (`filename_classifier.dfy`) models
  `parse_filename`. It drops the last four characters of the name. It then
  matches what is left against `([\d.]+mi)\s+(.+?)(?:\s+\(\d+\))?$`, anchored
  at the start. A match gives the pair (`<distance> <type>`, `<type>`).
  Anything else gives (name, `"Other"`).
  - The pattern's language is stated declaratively (`MatchesWith`). The
    engine's choice among matches is stated as `IsFirstMatch`: the longest
    whitespace run, then the shortest lazy type.
  - The regex engine's backtracking search is modelled step by step
    (`Search`), and the two views are proved to agree on every input.
  - Python's `$` matches at the end or before a final line break, `.`
    excludes a line break, and `\s` is Python's Unicode whitespace set.
- **`StravaUpload`** (`strava_upload.dfy`) models `upload_strava_data`.
  - It stores the access token on the module-level client.
  - It walks the directory listing and skips every entry not ending in `.tcx`.
  - It submits each remaining file once, with the classifier's name and type.
  - A failure on one file does not stop the files after it.
  - It always returns the same message.
  - The listing is a parameter, in whatever order the directory yields it.
  - The service is an oracle function from (token, submission) to an outcome.
  - The method returns the log of the submissions it made.
- **`Progress`** (`progress_store.dfy`) models `update_progress` and
  `get_progress`.
  - The filesystem is a map from path to the JSON object the file holds.
  - A write replaces the whole file with `{"progress": p}`.
  - A read gives that key's value, or 0 for a missing file or a record
    without the key.

## Model

| member | source | states |
|---|---|---|
| FilenameClassifier.RunEnd | src/upload_strava.py:36 | A greedy `[\d.]+`, `\s+` or `\d+` run stops at the first character outside its class: every character it covers is in the class, and the one after it is not |
| FilenameClassifier.GroupEnd | src/upload_strava.py:36 | The optional group `\s+\(\d+\)` tried at a position ends strictly after it and within the name |
| FilenameClassifier.LazyTypeEnd | src/upload_strava.py:36 | The lazy `.+?` ends at the first position where the rest of the pattern matches. It contains no line break. It finds nothing only when no end position works |
| FilenameClassifier.TrySpaces | src/upload_strava.py:36 | Backtracking into `\s+` tries the longest run first: the result is a valid split, no shorter type works for the chosen run, and the lazy type found no end after any longer run (or after any run at all when nothing is found) |
| FilenameClassifier.LazyFailsBetween | src/upload_strava.py:36 | Every run length the backtracking passed over is one after which the lazy type found no end |
| FilenameClassifier.Search | src/upload_strava.py:36 | `re.match` gives three ordered cut points inside the name: distance end, type start, type end |
| FilenameClassifier.SuffixAgrees | src/upload_strava.py:36 | The engine's `\s+\(\d+\)` group succeeds from a position to an end exactly when the text between is a whitespace run followed by a parenthesised number |
| FilenameClassifier.TailAgrees | src/upload_strava.py:36 | The engine matches `(?:\s+\(\d+\))?$` at a position exactly when the rest of the name is empty, a final line break, or a sequence suffix optionally followed by a final line break |
| FilenameClassifier.DistanceTokenAgrees | src/upload_strava.py:36 | A prefix that is a `[\d.]+mi` token is exactly the whole leading run of digits and dots followed by `mi`, so group 1 never needs backtracking |
| FilenameClassifier.SearchFindsMatch | src/upload_strava.py:36 | Whatever the search returns is a split of the name into the pattern's pieces |
| FilenameClassifier.SearchMissesNothing | src/upload_strava.py:36 | For every split of the name into the pattern's pieces the search finds a match, with the same distance and a longer space run or, for the same run, a type no longer |
| FilenameClassifier.SearchIsFirstMatch | src/upload_strava.py:36 | The search returns the match a backtracking engine reports (longest `\s+`, then shortest `.+?`) and returns nothing only when no split of the name fits the pattern |
| FilenameClassifier.FirstMatchUnique | src/upload_strava.py:36 | The engine's choice of match is unique |
| FilenameClassifier.ClassifyMatched | src/upload_strava.py:36-39 | On a match the result is (distance, one space, type) paired with the type, both taken from the engine's groups |
| FilenameClassifier.ClassifyAt | src/upload_strava.py:36-39 | A split whose space run stops at a non-space and whose type cannot end earlier decides the result: its distance, one space and its type, paired with the type |
| FilenameClassifier.ClassifyUnmatched | src/upload_strava.py:40-42 | A name outside the pattern's language comes back unchanged with type `"Other"` |
| FilenameClassifier.ClassifyShape | src/upload_strava.py:36-42 | Every result is either (name, `"Other"`) or a display name made of a distance token, one space and a non-empty single-line type, so the display name ends with the type |
| FilenameClassifier.ParseFilename | src/upload_strava.py:29-42 | Definition of `parse_filename`: classify the name without its last four characters. Characterised by `ParseFilenameDropsExtension`, `ParseFilenameShort` and `ParseInPieces` |
| FilenameClassifier.Classify | src/upload_strava.py:36-42 | Definition of the match-and-format step. Characterised by `ClassifyMatched`, `ClassifyUnmatched` and `ClassifyShape` |
| FilenameClassifier.Stem | src/upload_strava.py:33 | `filename[:-4]`: the name is the stem followed by its last four characters, and a name shorter than four characters gives the empty stem |
| FilenameClassifier.ParseFilenameDropsExtension | src/upload_strava.py:33 | Exactly the last four characters are dropped before classifying, whatever they are |
| FilenameClassifier.ParseFilenameShort | src/upload_strava.py:33 | A file name shorter than four characters classifies as (`""`, `"Other"`) |
| FilenameClassifier.SuffixDropped | src/upload_strava.py:34-39 | `<distance><spaces><type>` with or without one trailing ` (n)` gives (`<distance> <type>`, `<type>`), for a type of one word or several that starts and ends with a non-space (and, without a sequence number, does not end in `)`): the sequence number is ignored and the spaces collapse to one |
| FilenameClassifier.NoTailInType | src/upload_strava.py:36 | Inside such a type no position is followed by text the optional group and `$` accept, so the lazy type cannot stop before the type's end |
| FilenameClassifier.SuffixSpacesLead | src/upload_strava.py:36 | In a `\s+\(\d+\)` group every whitespace character comes before every other character |
| FilenameClassifier.OnlyLastSuffixDropped | src/upload_strava.py:34-39 | With two trailing sequence numbers after a type of one or more words, only the last is dropped; the earlier one stays in the type |
| FilenameClassifier.NumberedType | src/upload_strava.py:36 | A type followed by a sequence number is again a valid type, so the earlier number can be part of the type |
| FilenameClassifier.ParseInPieces | src/upload_strava.py:29-42 | A file name made of a distance token, spaces, a type, an optional sequence number and any four-character extension gives (`<distance> <type>`, `<type>`) |
| FilenameClassifier.ExamplePlainPieces | src/upload_strava.py:29-42 | The file name `3.1mi Run.tcx`, given as its pieces `3.1mi`, ` `, `Run`, `.tcx`, gives (`3.1mi Run`, `Run`) |
| FilenameClassifier.ExampleNumberedPieces | src/upload_strava.py:29-42 | The file name `3.1mi Run (2).tcx`, given as its pieces, gives (`3.1mi Run`, `Run`) |
| FilenameClassifier.ExampleTwoWordsPieces | src/upload_strava.py:29-42 | The file name `3.1mi  Bike Ride (2).tcx` (two spaces after the distance), given as its pieces, gives (`3.1mi Bike Ride`, `Bike Ride`): a two-word type, the spaces collapsed to one |
| FilenameClassifier.ExampleTwiceNumberedPieces | src/upload_strava.py:29-42 | The file name `3.1mi Run (2) (3).tcx`, given as its pieces, gives (`3.1mi Run (2)`, `Run (2)`) |
| FilenameClassifier.ExampleUnmatched | src/upload_strava.py:40-42 | `workout_final.tcx` gives (`workout_final`, `Other`) |
| FilenameClassifier.ExampleBacktrack | src/upload_strava.py:36 | `5mi  .tcx` gives (`5mi  `, ` `): the greedy `\s+` gives one space back so that `.+?` can match it |
| StravaUpload.EndsWith | src/upload_strava.py:51 | Definition of `str.endswith`: the last characters of the name are the suffix |
| StravaUpload.JoinPath | src/upload_strava.py:52 | Definition of `os.path.join` for a listed name: the directory, `/`, the name |
| StravaUpload.TcxEntries | src/upload_strava.py:50-51 | Definition of the entries the loop uploads, in listing order. Characterised by `TcxEntriesOnlyTcx`, `TcxEntriesCount` and `TcxEntriesAppend` |
| StravaUpload.SubmissionFor | src/upload_strava.py:52-55 | A `.tcx` file is submitted from `src/workout_files/<name>` as data type `tcx` with description `Uploaded from MapMyRun`, and with the display name and activity type that `parse_filename` gives |
| StravaUpload.Client.constructor | src/upload_strava.py:11 | The module-level client starts without an access token |
| StravaUpload.UploadStravaData | src/upload_strava.py:45-59 | The client's token becomes the given one. There is one submission per `.tcx` entry, in listing order, built by `SubmissionFor`. Each outcome is the service's answer to that submission with the new token, whatever earlier submissions returned. The result is always `Strava workouts uploaded successfully!` |
| StravaUpload.TcxEntriesAppend | src/upload_strava.py:50-51 | The entries uploaded from two listings placed one after the other are those of the first, then those of the second: listing order is kept |
| StravaUpload.TcxEntriesOnlyTcx | src/upload_strava.py:50-51 | Every uploaded entry ends in `.tcx` and comes from the listing |
| StravaUpload.TcxEntriesCount | src/upload_strava.py:50-51 | A `.tcx` entry is uploaded exactly as often as it is listed; any other entry never |
| StravaUpload.SkipsOtherEntries | src/upload_strava.py:51 | An entry not ending in `.tcx` adds no upload |
| Progress.Written | src/utils.py:8-9 | Writing progress to a path leaves that path holding a record whose only key is `progress`. The set of paths gains the written one. Every other path keeps its record |
| Progress.ReadProgress | src/utils.py:11-18 | Definition of what `get_progress` reads. Characterised by `ReadUnwritten`, `ReadWithoutKey` and `ReadWithKey` |
| Progress.ProgressStore.constructor | src/utils.py:15 | The store starts from the given filesystem |
| Progress.ProgressStore.UpdateProgress | src/utils.py:4-9 | `update_progress` replaces the file's whole record with `{progress: p}` and changes nothing else |
| Progress.ProgressStore.GetProgress | src/utils.py:11-18 | `get_progress` returns the stored value, or 0 for a missing file or a record without the key, and changes nothing |
| Progress.ReadUnwritten | src/utils.py:15-18 | A path with no file reads as 0 |
| Progress.ReadWithoutKey | src/utils.py:17 | A record without the `progress` key reads as 0, whatever else it holds |
| Progress.ReadWithKey | src/utils.py:17 | A record with the key reads as that key's value |
| Progress.ReadYourWrite | src/utils.py:8-17 | Reading a path just written gives the value written |
| Progress.LastWriteWins | src/utils.py:8-9 | A second write to a path replaces the first entirely |
| Progress.WriteIsolated | src/utils.py:8-9 | A write to one path leaves what every other path reads unchanged |
| Progress.WritesCommute | src/utils.py:8-9 | Writes to different paths commute |
| Progress.LastWrite | src/utils.py:8-9 | The value of the last write to a path is a write to that path with no later write to it |
| Progress.Replay | src/utils.py:4-9 | Definition of a run of `update_progress` calls, applied in order. Characterised by `ReplayReads` |
| Progress.ReplayReads | src/utils.py:4-18 | After any sequence of writes, a path reads as the last value written to it, or as before when no write touched it |

## Left out

- `src/download_mapmyrun.py` drives a browser, polls the clock and reads file modification times. It is not part of this model.
- `app/routes.py` and `app/__init__.py` hold the web routes, the OAuth exchange and the token kept in the session. The `/transfer` route runs the download and then `upload_strava_data` inside the request itself. They are not part of this model.
- `upload_activity` opens the file, calls the service and waits for the upload to finish. All of this is the oracle `upload` in `StravaUpload.UploadStravaData`. A missing file and a rejected upload both become a `Failed` outcome.
- StravaUpload.UploadStravaData: the model assumes every upload call returns. `upload.wait()` has no time bound, so a job that never finishes would block the loop for ever, and the final message would never be returned.
- StravaUpload.UploadStravaData: the oracle is a function of the token and the submission, so it has no memory. The same submission always gets the same answer. A service that rejects a duplicate of an earlier upload from the same run is outside the model.
- StravaUpload.UploadStravaData: the client is a parameter that only this call writes. In the source it is one module-level object shared by every request. If two `/transfer` requests run at once, one call's token assignment changes the token the other call's remaining uploads use. The per-upload token promise then no longer holds.
- StravaUpload.UploadStravaData: the messages printed per file are not modelled. Instead the returned log records each file, its submission and its outcome, and the activity id or error text is kept in the outcome.
- StravaUpload.UploadStravaData: the directory listing is a parameter. The order `os.listdir` yields is unspecified, and the model keeps whatever order it is given. An exception from the listing itself, such as a missing directory, is not modelled.
- StravaUpload.Client.constructor: a client without a token holds `None`; the model writes it as the empty string.
- Exceptions that are not `Exception` subclasses, such as `KeyboardInterrupt`, would escape the per-file handler. They are not modelled.
- StravaUpload.JoinPath assumes that listed names hold no path separator and are not absolute. That is what a directory listing yields.
- FilenameClassifier.IsSpace and `FilenameClassifier.InClass`: in a Python str pattern, `\d` matches every Unicode decimal digit. The model's `\d` and `[\d.]` accept only ASCII `0`-`9`. `\s` is Python's full whitespace set.
- Case-insensitive or other regex flags are not used by the source, and the model has none.
- The progress store: a file's content is modelled as a JSON object mapping keys to integers.
  - Progress values are kept as integers. Floats and other JSON values are not modelled, because no arithmetic on the value appears in the code.
  - A file holding malformed JSON, or JSON that is not an object, would make `get_progress` raise. This is not modelled.
  - Read and write failures of the filesystem, such as permissions or a full disk, are not modelled.
  - Concurrent writers and readers are not modelled: each call is atomic in the model.
- No rate-limit backoff, no retry of failed uploads, no table mapping verbs to activity types for a second file-name format, and no progress updates inside the upload loop appear in the source code. The model follows the code and has none of them.
