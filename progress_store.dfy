/**
 * The progress record shared between the long-running jobs and the web
 * front end.
 *
 * Each progress file holds one JSON object.  Writing progress replaces the
 * whole file with an object whose only key is `progress`; reading progress
 * gives that key's value, or 0 when the file does not exist or the object has
 * no such key.  The filesystem is a map from path to the object the file
 * holds.
 */
module Progress {
  /** The one key a progress write puts in the record. */
  const ProgressKey: string := "progress"

  /** What a reader gets for a missing file or a record without the key. */
  const NoProgress: int := 0

  /** The filesystem after writing `percent` to `path`: that file holds a fresh one-key record. */
  function Written(files: map<string, map<string, int>>, path: string, percent: int)
    : (r: map<string, map<string, int>>)
    ensures path in r && r[path] == map[ProgressKey := percent]
    ensures r.Keys == files.Keys + {path}
    ensures forall q :: q in files && q != path ==> r[q] == files[q]
  {
    files[path := map[ProgressKey := percent]]
  }

  /** The progress a reader sees at `path`. */
  function ReadProgress(files: map<string, map<string, int>>, path: string): int
  {
    if path in files then
      (if ProgressKey in files[path] then files[path][ProgressKey] else NoProgress)
    else NoProgress
  }

  /** The filesystem the progress functions read and write. */
  class ProgressStore {
    var files: map<string, map<string, int>>

    constructor (existing: map<string, map<string, int>>)
      ensures files == existing
    {
      files := existing;
    }

    /** `update_progress`: overwrites the file with a record holding only the new value. */
    method UpdateProgress(percent: int, progressFile: string)
      modifies this
      ensures files == Written(old(files), progressFile, percent)
    {
      files := files[progressFile := map[ProgressKey := percent]];
    }

    /** `get_progress`: the stored value, or 0 for a missing file or key; changes nothing. */
    method GetProgress(progressFile: string) returns (percent: int)
      ensures percent == ReadProgress(files, progressFile)
      ensures progressFile !in files ==> percent == NoProgress
      ensures progressFile in files && ProgressKey !in files[progressFile] ==> percent == NoProgress
    {
      percent := NoProgress;
      if progressFile in files {
        var record := files[progressFile];
        if ProgressKey in record {
          percent := record[ProgressKey];
        }
      }
    }
  }

  /** A path never written reads as 0. */
  lemma ReadUnwritten(files: map<string, map<string, int>>, path: string)
    requires path !in files
    ensures ReadProgress(files, path) == 0
  {
  }

  /** A record without the `progress` key reads as 0, whatever else it holds. */
  lemma ReadWithoutKey(files: map<string, map<string, int>>, path: string)
    requires path in files && ProgressKey !in files[path]
    ensures ReadProgress(files, path) == 0
  {
  }

  /** A record that has the key reads as the key's value. */
  lemma ReadWithKey(files: map<string, map<string, int>>, path: string)
    requires path in files && ProgressKey in files[path]
    ensures ReadProgress(files, path) == files[path][ProgressKey]
  {
  }

  /** Reading a path just written gives the value written. */
  lemma ReadYourWrite(files: map<string, map<string, int>>, path: string, percent: int)
    ensures ReadProgress(Written(files, path, percent), path) == percent
  {
  }

  /** A second write to the same path replaces the first entirely. */
  lemma LastWriteWins(files: map<string, map<string, int>>, path: string, a: int, b: int)
    ensures Written(Written(files, path, a), path, b) == Written(files, path, b)
  {
  }

  /** A write to one path leaves what every other path reads unchanged. */
  lemma WriteIsolated(files: map<string, map<string, int>>, path: string, percent: int, other: string)
    requires other != path
    ensures ReadProgress(Written(files, path, percent), other) == ReadProgress(files, other)
  {
  }

  /** Writes to different paths commute. */
  lemma WritesCommute(files: map<string, map<string, int>>, p: string, a: int, q: string, b: int)
    requires p != q
    ensures Written(Written(files, p, a), q, b) == Written(Written(files, q, b), p, a)
  {
  }

  // ---------------------------------------------------------------------
  // A sequence of writes
  // ---------------------------------------------------------------------

  /** One `update_progress` call: the file and the value. */
  datatype Write = Write(path: string, percent: int)

  /** The filesystem after the writes, applied in order. */
  function Replay(files: map<string, map<string, int>>, writes: seq<Write>): map<string, map<string, int>>
    decreases |writes|
  {
    if writes == [] then files
    else
      var w := writes[|writes| - 1];
      Written(Replay(files, writes[..|writes| - 1]), w.path, w.percent)
  }

  /** Some write in the sequence goes to `path`. */
  predicate WritesTo(writes: seq<Write>, path: string) {
    exists i :: 0 <= i < |writes| && writes[i].path == path
  }

  /** The value of the last write to `path`. */
  function LastWrite(writes: seq<Write>, path: string): (v: int)
    requires WritesTo(writes, path)
    ensures exists i :: 0 <= i < |writes| && writes[i] == Write(path, v) &&
              forall j :: i < j < |writes| ==> writes[j].path != path
  {
    var w := writes[|writes| - 1];
    if w.path == path then w.percent
    else
      var init := writes[..|writes| - 1];
      assert WritesTo(init, path) by {
        var i :| 0 <= i < |writes| && writes[i].path == path;
        assert init[i] == writes[i];
      }
      var v := LastWrite(init, path);
      var i :| 0 <= i < |init| && init[i] == Write(path, v) &&
               forall j :: i < j < |init| ==> init[j].path != path;
      assert writes[i] == Write(path, v);
      assert forall j :: i < j < |writes| ==> writes[j].path != path by {
        forall j | i < j < |writes|
          ensures writes[j].path != path
        {
          if j < |init| {
            assert writes[j] == init[j];
          }
        }
      }
      v
  }

  /**
   * After any sequence of writes, a path reads as the last value written to
   * it, and a path no write touched reads as it did before.
   */
  lemma {:induction false} ReplayReads(files: map<string, map<string, int>>, writes: seq<Write>, path: string)
    ensures ReadProgress(Replay(files, writes), path) ==
            if WritesTo(writes, path) then LastWrite(writes, path) else ReadProgress(files, path)
    decreases |writes|
  {
    if writes != [] {
      var init := writes[..|writes| - 1];
      var w := writes[|writes| - 1];
      ReplayReads(files, init, path);
      if w.path != path {
        WriteIsolated(Replay(files, init), w.path, w.percent, path);
        if WritesTo(writes, path) {
          var i :| 0 <= i < |writes| && writes[i].path == path;
          assert init[i] == writes[i];
        } else {
          assert !WritesTo(init, path) by {
            forall i | 0 <= i < |init|
              ensures init[i].path != path
            {
              assert init[i] == writes[i];
            }
          }
        }
      } else {
        assert writes[|writes| - 1].path == path;
      }
    }
  }
}
