/** `GET /api/event?eventId=...` (functions/api/event.js). */
module EventRead {
  import opened Wrappers
  import opened Text
  import opened JsonValue
  import opened Http
  import opened Store
  import opened EventIds
  import opened Manifest

  /** The handler, given the `eventId` query parameter (`None` when absent).
    * The manifest is answered as it is stored. */
  function ReadEvent(objects: map<string, StoredObject>, eventId: Option<string>): (r: Reply<Json>)
    ensures (eventId.None? || eventId == Some("")) ==> r == Fail(400, "Missing eventId")
    ensures eventId.Some? && eventId.value != "" && !IsValidEventId(eventId.value) ==> r == Fail(400, "Invalid eventId")
    ensures eventId.Some? && IsValidEventId(eventId.value) ==>
      var key := ManifestKey(eventId.value);
      (key !in objects ==> r == Fail(404, "Not found")) &&
      (key in objects && objects[key].body.Bytes? ==> r == Fail(500, "Invalid manifest")) &&
      (key in objects && objects[key].body.JsonText? ==> r == Ok(objects[key].body.doc))
    ensures !r.Crash?
  {
    if eventId.None? || eventId.value == "" then Fail(400, "Missing eventId")
    else if !IsValidEventId(eventId.value) then Fail(400, "Invalid eventId")
    else
      var key := ManifestKey(eventId.value);
      if key !in objects then Fail(404, "Not found")
      else
        match ParseBody(objects[key].body)
        case None => Fail(500, "Invalid manifest")
        case Some(m) => Ok(m)
  }

  /** A stored manifest is read back exactly as it was written, and writing
    * one event's manifest does not change what another event reads. */
  lemma {:induction false} ReadYourWrite(objects: map<string, StoredObject>, id: string, other: string, m: Json)
    requires IsValidEventId(id)
    ensures ReadEvent(objects[ManifestKey(id) := StoredJson(m)], Some(id)) == Ok(m)
    ensures other != id ==>
      ReadEvent(objects[ManifestKey(id) := StoredJson(m)], Some(other)) == ReadEvent(objects, Some(other))
  {
    if other != id && IsValidEventId(other) && ManifestKey(other) == ManifestKey(id) {
      ManifestKeyInjective(other, id);
    }
  }

  /** Once every key under the event's prefix has been deleted the event
    * reads as not found. */
  lemma ReadAfterDelete(objects: map<string, StoredObject>, id: string, deleted: seq<string>)
    requires IsValidEventId(id)
    requires forall k :: k in objects && StartsWith(k, EventPrefix(id)) ==> k in deleted
    ensures ReadEvent(objects - KeySet(deleted), Some(id)) == Fail(404, "Not found")
  {
  }
}
