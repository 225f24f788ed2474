/**
 * The batch uploader, `upload_strava_data`.
 *
 * It walks a directory listing, skips every entry whose name does not end in
 * `.tcx`, classifies each remaining file name and submits the file once to
 * the destination service.  A failed submission is logged and the loop moves
 * on; the call always ends with the same message.
 *
 * The destination service is an oracle: a function from the access token and
 * the submission to an outcome.  The listing is a parameter, in whatever order
 * the directory yields it.  The log the method returns records every
 * submission it made, in order, with its outcome.
 */
module StravaUpload {
  import FilenameClassifier

  /** The directory the exported files are read from. */
  const TcxDirectory: string := "src/workout_files"
  /** Only entries whose name ends with this are uploaded. */
  const TcxExtension: string := ".tcx"
  /** The `data_type` of every submission. */
  const DataType: string := "tcx"
  /** The `description` of every submission. */
  const Description: string := "Uploaded from MapMyRun"
  /** What the uploader returns, however many files failed. */
  const DoneMessage: string := "Strava workouts uploaded successfully!"

  /** The arguments of one `upload_activity` request. */
  datatype Submission = Submission(
    path: string,
    dataType: string,
    name: string,
    description: string,
    activityType: string)

  /** What the service made of one submission: an activity, or an exception. */
  datatype Outcome = Uploaded(activityId: int) | Failed(error: string)

  /** One entry of the uploader's log: the file, what was sent, what came back. */
  datatype Attempt = Attempt(filename: string, submission: Submission, outcome: Outcome)

  /** `str.endswith`: case-sensitive. */
  predicate EndsWith(s: string, suffix: string) {
    |suffix| <= |s| && s[|s| - |suffix|..] == suffix
  }

  /** `os.path.join` of the directory and a listed name (listed names hold no separator). */
  function JoinPath(dir: string, name: string): string {
    dir + "/" + name
  }

  /** The request made for one listed file: its path, and the name and type the classifier gives. */
  function SubmissionFor(filename: string): (r: Submission)
    ensures (r.name, r.activityType) == FilenameClassifier.ParseFilename(filename)
    ensures r.path == TcxDirectory + "/" + filename
    ensures r.dataType == DataType && r.description == Description
  {
    var parsed := FilenameClassifier.ParseFilename(filename);
    Submission(JoinPath(TcxDirectory, filename), DataType, parsed.0, Description, parsed.1)
  }

  /** The entries of a listing that are uploaded, in listing order. */
  function TcxEntries(listing: seq<string>): seq<string>
  {
    if listing == [] then []
    else
      var last := listing[|listing| - 1];
      TcxEntries(listing[..|listing| - 1]) + (if EndsWith(last, TcxExtension) then [last] else [])
  }

  /**
   * The module-level service client.  Only its access token is state the
   * uploader touches; every request is made with the token it holds.  A
   * client is created without a token, written here as the empty string.
   */
  class Client {
    var accessToken: string

    constructor ()
      ensures accessToken == ""
    {
      accessToken := "";
    }
  }

  /**
   * `upload_strava_data`: stores the token on the client, then makes one
   * submission per `.tcx` entry, in listing order, each with the name and
   * type the classifier gives and the client's new token.  A failed
   * submission does not stop the files after it.
   */
  method UploadStravaData(client: Client, accessToken: string, listing: seq<string>,
                          upload: (string, Submission) -> Outcome)
    returns (message: string, log: seq<Attempt>)
    modifies client
    ensures client.accessToken == accessToken
    ensures message == DoneMessage
    ensures |log| == |TcxEntries(listing)|
    ensures forall i :: 0 <= i < |log| ==>
      log[i].filename == TcxEntries(listing)[i] &&
      log[i].submission == SubmissionFor(log[i].filename) &&
      log[i].outcome == upload(accessToken, log[i].submission)
  {
    client.accessToken := accessToken;
    log := [];
    var n := 0;
    while n < |listing|
      invariant n <= |listing|
      invariant client.accessToken == accessToken
      invariant |log| == |TcxEntries(listing[..n])|
      invariant forall i :: 0 <= i < |log| ==>
        log[i].filename == TcxEntries(listing[..n])[i] &&
        log[i].submission == SubmissionFor(log[i].filename) &&
        log[i].outcome == upload(accessToken, log[i].submission)
    {
      var filename := listing[n];
      if EndsWith(filename, TcxExtension) {
        var submission := SubmissionFor(filename);
        var outcome := upload(client.accessToken, submission);
        log := log + [Attempt(filename, submission, outcome)];
      }
      assert listing[..n + 1][..n] == listing[..n];
      n := n + 1;
    }
    assert listing[..n] == listing;
    message := DoneMessage;
  }

  // ---------------------------------------------------------------------
  // Which entries are uploaded
  // ---------------------------------------------------------------------

  /** Uploading a listing is uploading its first part, then its second: order is kept. */
  lemma {:induction false} TcxEntriesAppend(a: seq<string>, b: seq<string>)
    ensures TcxEntries(a + b) == TcxEntries(a) + TcxEntries(b)
    decreases |b|
  {
    if b == [] {
      assert a + b == a;
    } else {
      var b' := b[..|b| - 1];
      TcxEntriesAppend(a, b');
      assert (a + b)[..|a + b| - 1] == a + b';
      assert (a + b)[|a + b| - 1] == b[|b| - 1];
    }
  }

  /** Every uploaded entry ends in `.tcx`, and comes from the listing. */
  lemma {:induction false} TcxEntriesOnlyTcx(listing: seq<string>)
    ensures forall x :: x in TcxEntries(listing) ==> EndsWith(x, TcxExtension) && x in listing
  {
    if listing != [] {
      var init := listing[..|listing| - 1];
      TcxEntriesOnlyTcx(init);
      assert forall x :: x in init ==> x in listing;
    }
  }

  /**
   * Each `.tcx` entry is uploaded exactly as often as it is listed, and no
   * other entry is uploaded at all.
   */
  lemma {:induction false} TcxEntriesCount(listing: seq<string>, x: string)
    ensures multiset(TcxEntries(listing))[x] ==
            if EndsWith(x, TcxExtension) then multiset(listing)[x] else 0
  {
    if listing != [] {
      var init := listing[..|listing| - 1];
      var last := listing[|listing| - 1];
      TcxEntriesCount(init, x);
      assert listing == init + [last];
    }
  }

  /** An entry that does not end in `.tcx` is skipped. */
  lemma SkipsOtherEntries(listing: seq<string>, entry: string)
    requires !EndsWith(entry, TcxExtension)
    ensures TcxEntries(listing + [entry]) == TcxEntries(listing)
  {
    assert (listing + [entry])[..|listing|] == listing;
  }
}
