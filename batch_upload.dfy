/**
 * The upload button of timeline.js (uploads into an event) and of app.js
 * (uploads to the flat gallery): the checks made before any request, then
 * one request per file, in order, stopping at the first that fails. Each
 * request is the multipart form the server handler receives.
 */
module BatchUpload {
  import opened Wrappers
  import opened Text
  import opened Http
  import opened EventIds
  import opened EventUpload

  const MaxBatch := 30

  /** Why a batch is refused before anything is sent. */
  datatype Refusal = NoEventId | NoFiles | TooMany(count: nat) | NotAllImages

  /** The checks of app.js, which timeline.js repeats after its own `eventId` check. */
  function CheckFiles(files: seq<File>): (r: Option<Refusal>)
    ensures r.None? <==> 0 < |files| <= MaxBatch && forall i :: 0 <= i < |files| ==> IsImageType(files[i].mime)
    ensures files == [] ==> r == Some(NoFiles)
    ensures 0 < |files| && |files| > MaxBatch ==> r == Some(TooMany(|files|))
  {
    if |files| == 0 then Some(NoFiles)
    else if |files| > MaxBatch then Some(TooMany(|files|))
    else if exists i :: 0 <= i < |files| && !IsImageType(files[i].mime) then Some(NotAllImages)
    else None
  }

  /** The checks of timeline.js: the event id from the URL comes first. */
  function CheckEventFiles(eventId: string, files: seq<File>): (r: Option<Refusal>)
    ensures eventId == "" ==> r == Some(NoEventId)
    ensures eventId != "" ==> r == CheckFiles(files)
  {
    if eventId == "" then Some(NoEventId) else CheckFiles(files)
  }

  /** The form sent for one file: `eventId` (timeline.js only), `file`, `desc`. */
  function UploadForm(eventId: Option<string>, file: File, desc: string): (f: Form)
    ensures FormGet(f, "file") == Attachment(file) && FormGet(f, "desc") == Field(desc)
    ensures eventId.Some? ==> FormGet(f, "eventId") == Field(eventId.value)
    ensures eventId.None? ==> FormGet(f, "eventId") == Absent
  {
    var base := map["file" := Attachment(file), "desc" := Field(desc)];
    if eventId.Some? then base["eventId" := Field(eventId.value)] else base
  }

  /** The forms of the whole batch, one per file, in order. */
  function BatchForms(eventId: Option<string>, files: seq<File>, desc: string): (r: seq<Form>)
    ensures |r| == |files|
    ensures forall i :: 0 <= i < |files| ==> r[i] == UploadForm(eventId, files[i], desc)
  {
    seq(|files|, i requires 0 <= i < |files| => UploadForm(eventId, files[i], desc))
  }

  /** The outcome of a click: refused before sending, or the forms sent and,
    * when the loop stopped on a failed response, that file's index. */
  datatype Outcome = Refused(why: Refusal) | Sent(forms: seq<Form>, failedAt: Option<nat>)

  /** The forms sent are the batch's first ones up to and including the
    * first failed response, whose index is `failedAt`; all are sent, and
    * `failedAt` is `None`, exactly when no response fails. */
  predicate StopsAtFirstFailure(eventId: Option<string>, files: seq<File>, desc: string, accepted: seq<bool>,
                                sent: seq<Form>, failedAt: Option<nat>)
    requires |accepted| == |files|
  {
    && |sent| <= |files| && sent == BatchForms(eventId, files, desc)[..|sent|]
    && (failedAt.None? <==> forall i :: 0 <= i < |files| ==> accepted[i])
    && (failedAt.None? ==> |sent| == |files|)
    && (failedAt.Some? ==>
          && failedAt.value < |files| && !accepted[failedAt.value] && |sent| == failedAt.value + 1
          && forall i :: 0 <= i < failedAt.value ==> accepted[i])
  }

  /** The responses decide what is sent: two runs over the same batch with
    * the same responses send the same forms and stop at the same file. */
  lemma StopsAtFirstFailureUnique(eventId: Option<string>, files: seq<File>, desc: string, accepted: seq<bool>,
                                  sent1: seq<Form>, failedAt1: Option<nat>, sent2: seq<Form>, failedAt2: Option<nat>)
    requires |accepted| == |files|
    requires StopsAtFirstFailure(eventId, files, desc, accepted, sent1, failedAt1)
    requires StopsAtFirstFailure(eventId, files, desc, accepted, sent2, failedAt2)
    ensures sent1 == sent2 && failedAt1 == failedAt2
  {
  }

  /** The sequential loop: `accepted[i]` is whether the response to file `i`
    * was OK. */
  method SendAll(eventId: Option<string>, files: seq<File>, desc: string, accepted: seq<bool>)
      returns (sent: seq<Form>, failedAt: Option<nat>)
    requires |accepted| == |files|
    ensures StopsAtFirstFailure(eventId, files, desc, accepted, sent, failedAt)
  {
    sent, failedAt := [], None;
    var i := 0;
    while i < |files|
      invariant 0 <= i <= |files|
      invariant sent == BatchForms(eventId, files, desc)[..i]
      invariant forall k :: 0 <= k < i ==> accepted[k]
    {
      sent := sent + [UploadForm(eventId, files[i], desc)];
      if !accepted[i] {
        failedAt := Some(i);
        return;
      }
      i := i + 1;
    }
  }

  /** The click handler of timeline.js: the description is trimmed once and
    * sent with every file. */
  method UploadToEvent(eventId: string, files: seq<File>, descInput: string, accepted: seq<bool>)
      returns (outcome: Outcome)
    requires |accepted| == |files|
    ensures CheckEventFiles(eventId, files).Some? ==> outcome == Refused(CheckEventFiles(eventId, files).value)
    ensures CheckEventFiles(eventId, files).None? ==>
      outcome.Sent? &&
      StopsAtFirstFailure(Some(eventId), files, Trim(descInput), accepted, outcome.forms, outcome.failedAt)
  {
    var desc := Trim(descInput);
    var refusal := CheckEventFiles(eventId, files);
    if refusal.Some? {
      return Refused(refusal.value);
    }
    var sent, failedAt := SendAll(Some(eventId), files, desc, accepted);
    outcome := Sent(sent, failedAt);
  }

  /** The click handler of app.js: the same, with no event id. */
  method UploadToGallery(files: seq<File>, descInput: string, accepted: seq<bool>)
      returns (outcome: Outcome)
    requires |accepted| == |files|
    ensures CheckFiles(files).Some? ==> outcome == Refused(CheckFiles(files).value)
    ensures CheckFiles(files).None? ==>
      outcome.Sent? && StopsAtFirstFailure(None, files, Trim(descInput), accepted, outcome.forms, outcome.failedAt)
  {
    var desc := Trim(descInput);
    var refusal := CheckFiles(files);
    if refusal.Some? {
      return Refused(refusal.value);
    }
    var sent, failedAt := SendAll(None, files, desc, accepted);
    outcome := Sent(sent, failedAt);
  }

  /** A form sent by timeline.js for an image within the size limit and a
    * well-formed event id passes every check of `event-upload` that does
    * not read the bucket, and the server records the description exactly as
    * the page trimmed it. */
  lemma EventFormAccepted(eventId: string, file: File, descInput: string)
    requires IsValidEventId(eventId) && IsImageType(file.mime) && file.size <= MaxEventUpload
    ensures AcceptedFile(UploadForm(Some(eventId), file, Trim(descInput)))
    ensures DescOf(FormGet(UploadForm(Some(eventId), file, Trim(descInput)), "desc")) == Trim(descInput)
  {
    TrimIdempotent(descInput);
  }

  /** A batch that passes the page's checks sends only image files, each
    * with the event id and the same description. */
  lemma PassedBatchIsImages(eventId: string, files: seq<File>, desc: string)
    requires CheckEventFiles(eventId, files).None?
    ensures eventId != "" && 0 < |files| <= MaxBatch
    ensures forall i :: 0 <= i < |files| ==>
      var f := BatchForms(Some(eventId), files, desc)[i];
      FormGet(f, "file").Attachment? && IsImageType(FormGet(f, "file").file.mime) &&
      FormGet(f, "eventId") == Field(eventId) && FormGet(f, "desc") == Field(desc)
  {
  }
}
