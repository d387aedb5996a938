/** `POST /api/event-update` (functions/api/event-update.js). */
module EventUpdate {
  import opened Wrappers
  import opened Text
  import opened JsonValue
  import opened Http
  import opened Store
  import opened EventIds
  import opened Manifest

  /**
   * The handler, given the parsed request body and the ISO time of the edit.
   * After the guards it reads the manifest, assigns the four editable members
   * one after the other and writes the document back under the same key.
   */
  method HandleUpdate(bucket: Bucket, body: Option<Json>, now: string) returns (reply: Reply<()>)
    modifies bucket
    ensures body.None? ==> reply == Fail(400, "Expected JSON")
    ensures body.Some? ==>
      var id := TrimmedMember(body.value, "eventId");
      var title, date, note := TrimmedMember(body.value, "title"), TrimmedMember(body.value, "date"), TrimmedMember(body.value, "note");
      var key := ManifestKey(id);
      (id == "" ==> reply == Fail(400, "Missing eventId")) &&
      (id != "" && !IsValidEventId(id) ==> reply == Fail(400, "Invalid eventId")) &&
      (IsValidEventId(id) && title == "" ==> reply == Fail(400, "Missing title")) &&
      (IsValidEventId(id) && title != "" && date == "" ==> reply == Fail(400, "Missing date")) &&
      (IsValidEventId(id) && title != "" && date != "" && !IsDateShaped(date) ==>
         reply == Fail(400, "Invalid date format (YYYY-MM-DD)")) &&
      (IsValidEventId(id) && title != "" && IsDateShaped(date) && key !in old(bucket.objects) ==>
         reply == Fail(404, "Not found")) &&
      (IsValidEventId(id) && title != "" && IsDateShaped(date) && key in old(bucket.objects) ==>
         var parsed := ParseBody(old(bucket.objects)[key].body);
         (parsed.None? ==> reply == Fail(500, "Invalid manifest")) &&
         (parsed.Some? && ApplyEdit(parsed.value, title, date, note, now).None? ==> reply == Crash) &&
         (parsed.Some? && ApplyEdit(parsed.value, title, date, note, now).Some? ==>
            reply == Ok(()) &&
            bucket.objects == old(bucket.objects)[key := StoredJson(ApplyEdit(parsed.value, title, date, note, now).value)]))
    ensures !reply.Ok? ==> bucket.objects == old(bucket.objects)
  {
    if body.None? {
      return Fail(400, "Expected JSON");
    }
    var eventId := TrimmedMember(body.value, "eventId");
    var title := TrimmedMember(body.value, "title");
    var date := TrimmedMember(body.value, "date");
    var note := TrimmedMember(body.value, "note");
    if eventId == "" {
      return Fail(400, "Missing eventId");
    }
    if !IsValidEventId(eventId) {
      return Fail(400, "Invalid eventId");
    }
    if title == "" {
      return Fail(400, "Missing title");
    }
    if date == "" {
      return Fail(400, "Missing date");
    }
    if !IsDateShaped(date) {
      return Fail(400, "Invalid date format (YYYY-MM-DD)");
    }
    var manifestKey := ManifestKey(eventId);
    if manifestKey !in bucket.objects {
      return Fail(404, "Not found");
    }
    var parsed := ParseBody(bucket.objects[manifestKey].body);
    if parsed.None? {
      return Fail(500, "Invalid manifest");
    }
    var edited := AssignEditable(parsed.value, title, date, note, now);
    if edited.None? {
      return Crash;
    }
    bucket.Put(manifestKey, StoredJson(edited.value));
    return Ok(());
  }

  /** The four assignments of `event-update.js` to the parsed manifest's
    * `title`, `date`, `note` and `updatedAt`; `None` when the first
    * assignment throws. */
  method AssignEditable(manifest: Json, title: string, date: string, note: string, now: string) returns (r: Option<Json>)
    ensures r == ApplyEdit(manifest, title, date, note, now)
  {
    match manifest {
      case JObj(fields) =>
        var edited := fields;
        edited := edited["title" := JStr(title)];
        edited := edited["date" := JStr(date)];
        edited := edited["note" := JStr(note)];
        edited := edited["updatedAt" := JStr(now)];
        return Some(JObj(edited));
      case JArr(_) =>
        return Some(manifest);
      case _ =>
        return None;
    }
  }
}
