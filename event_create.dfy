/** `POST /api/event-create` (functions/api/event-create.js). */
module EventCreate {
  import opened Wrappers
  import opened Text
  import opened JsonValue
  import opened Http
  import opened Store
  import opened EventIds
  import opened Manifest

  /**
   * The handler, given the parsed request body (`None` when `request.json()`
   * throws), the hex digits of the random number the suffix is cut from and
   * the ISO time used for both timestamps. It answers the new event's id or
   * the first failing guard, and writes the bucket only on success.
   */
  method HandleCreate(bucket: Bucket, body: Option<Json>, fraction: string, now: string) returns (reply: Reply<string>)
    requires AllHex(fraction)
    modifies bucket
    ensures body.None? ==> reply == Fail(400, "Expected JSON")
    ensures body.Some? ==>
      var title, date, note := TrimmedMember(body.value, "title"), TrimmedMember(body.value, "date"), TrimmedMember(body.value, "note");
      var id := ComposeEventId(date, title, fraction);
      (title == "" ==> reply == Fail(400, "Missing title")) &&
      (title != "" && date == "" ==> reply == Fail(400, "Missing date")) &&
      (title != "" && date != "" && !IsDateShaped(date) ==> reply == Fail(400, "Invalid date format (YYYY-MM-DD)")) &&
      (title != "" && IsDateShaped(date) && !IsValidEventId(id) ==> reply == Fail(500, "Failed to generate eventId")) &&
      (title != "" && IsDateShaped(date) && IsValidEventId(id) && ManifestKey(id) in old(bucket.objects) ==>
         reply == Fail(409, "Event already exists")) &&
      (title != "" && IsDateShaped(date) && IsValidEventId(id) && ManifestKey(id) !in old(bucket.objects) ==>
         reply == Ok(id) &&
         bucket.objects == old(bucket.objects)[ManifestKey(id) := StoredJson(NewManifest(id, title, date, note, now))])
    ensures !reply.Ok? ==> bucket.objects == old(bucket.objects)
  {
    if body.None? {
      return Fail(400, "Expected JSON");
    }
    var title := TrimmedMember(body.value, "title");
    var date := TrimmedMember(body.value, "date");
    var note := TrimmedMember(body.value, "note");
    if title == "" {
      return Fail(400, "Missing title");
    }
    if date == "" {
      return Fail(400, "Missing date");
    }
    if !IsDateShaped(date) {
      return Fail(400, "Invalid date format (YYYY-MM-DD)");
    }
    var eventId := ComposeEventId(date, title, fraction);
    if !IsValidEventId(eventId) {
      return Fail(500, "Failed to generate eventId");
    }
    var manifestKey := ManifestKey(eventId);
    if manifestKey in bucket.objects {
      return Fail(409, "Event already exists");
    }
    var manifest := NewManifest(eventId, title, date, note, now);
    bucket.Put(manifestKey, StoredJson(manifest));
    return Ok(eventId);
  }
}
