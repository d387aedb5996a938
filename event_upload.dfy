/** `POST /api/event-upload` (functions/api/event-upload.js). */
module EventUpload {
  import opened Wrappers
  import opened Text
  import opened JsonValue
  import opened Http
  import opened Store
  import opened EventIds
  import opened Manifest
  import opened Media

  /** `50 * 1024 * 1024` bytes. */
  const MaxEventUpload := 50 * 1024 * 1024

  /** The success answer `{ ok, key, eventId, file }`. */
  datatype Uploaded = Uploaded(key: string, eventId: string, file: string)

  /** `${Date.now()}-${rnd}.${ext}`, `rnd` being the first eight random hex
    * digits. The name keeps its extension, starts with a digit (so it is never
    * the manifest's name) and contains no slash (so it stays inside the
    * event's folder). */
  function RandomName(ext: string, nowMs: nat, fraction: string): (r: string)
    requires AllHex(fraction) && ext != [] && AllLowerAlnum(ext)
    ensures NameExt(r) == Some(ext)
    ensures r != [] && IsDigit(r[0]) && r != ManifestFile
    ensures '/' !in r
  {
    var d := Decimal(nowMs);
    var rnd := RandomHex(fraction, 8);
    var r := d + "-" + rnd + "." + ext;
    NameExtOfDotted(d + "-" + rnd, ext);
    assert r[0] == d[0];
    assert ManifestFile[0] == 'm';
    NameHasNoSlash(d, rnd, ext);
    r
  }

  lemma NameHasNoSlash(d: string, rnd: string, ext: string)
    requires AllDigits(d) && AllHex(rnd) && AllLowerAlnum(ext)
    ensures '/' !in d + "-" + rnd + "." + ext
  {
    assert '/' !in d && '/' !in rnd && '/' !in ext;
    var a := d + "-";
    var b := a + rnd;
    var c := b + ".";
    assert '/' !in a && '/' !in b && '/' !in c;
  }

  /** The stored photo and the manifest are different objects, so the second
    * put never overwrites the first. */
  lemma {:induction false} PhotoKeyIsNotManifestKey(eventId: string, file: string)
    requires file != ManifestFile
    ensures ObjectKey(eventId, file) != ManifestKey(eventId)
  {
    var p := EventPrefix(eventId);
    assert ObjectKey(eventId, file)[|p|..] == file;
    assert ManifestKey(eventId)[|p|..] == ManifestFile;
  }

  /** `typeof eventId === "string" && isValidEventId(eventId)`; the field is
    * not trimmed. */
  predicate IsEventIdEntry(e: FormEntry) {
    e.Field? && IsValidEventId(e.text)
  }

  /** The request passes every guard that does not read the bucket. */
  predicate AcceptedFile(form: Form) {
    IsEventIdEntry(FormGet(form, "eventId")) &&
    FormGet(form, "file").Attachment? &&
    IsImageType(FormGet(form, "file").file.mime) &&
    FormGet(form, "file").file.size <= MaxEventUpload
  }

  /** `typeof descRaw === "string" ? descRaw.trim() : ""` */
  function DescOf(e: FormEntry): (r: string)
    ensures !e.Field? ==> r == ""
    ensures e.Field? ==> r == Trim(e.text)
  {
    if e.Field? then Trim(e.text) else ""
  }

  /** The manifest update of `event-upload.js`: make sure there is a photo list,
    * push the entry, default the cover, bump `updatedAt`; `None` when the
    * first access throws. */
  method PushPhoto(manifest: Json, file: string, desc: string, now: string) returns (r: Option<Json>)
    ensures r == AppendPhoto(manifest, file, desc, now)
  {
    match manifest {
      case JObj(fields) =>
        var m := fields;
        if !IsArrayMember(manifest, "photos") {
          m := m["photos" := JArr([])];
        }
        var photos := m["photos"].items;
        assert photos == ArrayMember(manifest, "photos");
        m := m["photos" := JArr(photos + [PhotoEntry(file, desc, now)])];
        assert m == fields["photos" := JArr(photos + [PhotoEntry(file, desc, now)])];
        assert Member(JObj(m), "cover") == Member(manifest, "cover");
        if !Truthy(Member(JObj(m), "cover")) && file != "" {
          m := m["cover" := JStr(file)];
        }
        m := m["updatedAt" := JStr(now)];
        return Some(JObj(m));
      case JArr(_) =>
        return Some(manifest);
      case _ =>
        return None;
    }
  }

  /** What follows the guards: store the photo, then record it in the
    * manifest. The photo is stored even when the manifest turns out not to
    * accept the record. */
  method StorePhoto(bucket: Bucket, eventId: string, file: File, desc: string, manifest: Json,
                    fraction: string, nowMs: nat, now: string) returns (reply: Reply<Uploaded>)
    requires AllHex(fraction)
    modifies bucket
    ensures var filename := RandomName(ExtFromType(file.mime, file.name), nowMs, fraction);
      var key := ObjectKey(eventId, filename);
      var withPhoto := old(bucket.objects)[key := StoredObject(Bytes(file), file.mime, None)];
      var recorded := AppendPhoto(manifest, filename, desc, now);
      key != ManifestKey(eventId) &&
      (recorded.None? ==> reply == Crash && bucket.objects == withPhoto) &&
      (recorded.Some? ==>
         reply == Ok(Uploaded(key, eventId, filename)) &&
         bucket.objects == withPhoto[ManifestKey(eventId) := StoredJson(recorded.value)])
  {
    var ext := ExtFromType(file.mime, file.name);
    var filename := RandomName(ext, nowMs, fraction);
    var key := ObjectKey(eventId, filename);
    PhotoKeyIsNotManifestKey(eventId, filename);
    bucket.Put(key, StoredObject(Bytes(file), file.mime, None));
    var recorded := PushPhoto(manifest, filename, desc, now);
    if recorded.None? {
      return Crash;
    }
    bucket.Put(ManifestKey(eventId), StoredJson(recorded.value));
    return Ok(Uploaded(key, eventId, filename));
  }

  /**
   * The handler, given the request's content type, the parsed form (`None`
   * when `request.formData()` throws), the random hex digits, the epoch
   * milliseconds of the name and the ISO time of the record.
   */
  method HandleEventUpload(bucket: Bucket, contentType: Option<string>, form: Option<Form>,
                           fraction: string, nowMs: nat, now: string) returns (reply: Reply<Uploaded>)
    requires AllHex(fraction)
    modifies bucket
    ensures !IsMultipart(contentType) ==> reply == Fail(400, "Expected multipart/form-data")
    ensures IsMultipart(contentType) && form.None? ==> reply == Crash && bucket.objects == old(bucket.objects)
    ensures IsMultipart(contentType) && form.Some? && !IsEventIdEntry(FormGet(form.value, "eventId")) ==>
      reply == Fail(400, "Invalid eventId")
    ensures IsMultipart(contentType) && form.Some? && IsEventIdEntry(FormGet(form.value, "eventId")) ==>
      var fileEntry := FormGet(form.value, "file");
      (!fileEntry.Attachment? ==> reply == Fail(400, "Missing file")) &&
      (fileEntry.Attachment? && !IsImageType(fileEntry.file.mime) ==> reply == Fail(400, "Only image uploads allowed")) &&
      (fileEntry.Attachment? && IsImageType(fileEntry.file.mime) && fileEntry.file.size > MaxEventUpload ==>
         reply == Fail(413, "File too large"))
    ensures IsMultipart(contentType) && form.Some? && AcceptedFile(form.value) ==>
      var eventId, file := FormGet(form.value, "eventId").text, FormGet(form.value, "file").file;
      var key := ManifestKey(eventId);
      (key !in old(bucket.objects) ==> reply == Fail(404, "Event not found")) &&
      (key in old(bucket.objects) && ParseBody(old(bucket.objects)[key].body).None? ==>
         reply == Fail(500, "Invalid manifest")) &&
      (key in old(bucket.objects) && ParseBody(old(bucket.objects)[key].body).Some? ==>
         var filename := RandomName(ExtFromType(file.mime, file.name), nowMs, fraction);
         var withPhoto := old(bucket.objects)[ObjectKey(eventId, filename) := StoredObject(Bytes(file), file.mime, None)];
         var recorded := AppendPhoto(ParseBody(old(bucket.objects)[key].body).value, filename,
                                     DescOf(FormGet(form.value, "desc")), now);
         (recorded.None? ==> reply == Crash && bucket.objects == withPhoto) &&
         (recorded.Some? ==>
            reply == Ok(Uploaded(ObjectKey(eventId, filename), eventId, filename)) &&
            bucket.objects == withPhoto[key := StoredJson(recorded.value)]))
    ensures reply.Fail? ==> bucket.objects == old(bucket.objects)
  {
    if !IsMultipart(contentType) {
      return Fail(400, "Expected multipart/form-data");
    }
    if form.None? {
      return Crash;
    }
    var fileEntry := FormGet(form.value, "file");
    var idEntry := FormGet(form.value, "eventId");
    var desc := DescOf(FormGet(form.value, "desc"));
    if !IsEventIdEntry(idEntry) {
      return Fail(400, "Invalid eventId");
    }
    var eventId := idEntry.text;
    if !fileEntry.Attachment? {
      return Fail(400, "Missing file");
    }
    var file := fileEntry.file;
    if !IsImageType(file.mime) {
      return Fail(400, "Only image uploads allowed");
    }
    if file.size > MaxEventUpload {
      return Fail(413, "File too large");
    }
    var manifestKey := ManifestKey(eventId);
    if manifestKey !in bucket.objects {
      return Fail(404, "Event not found");
    }
    var manifest := ParseBody(bucket.objects[manifestKey].body);
    if manifest.None? {
      return Fail(500, "Invalid manifest");
    }
    reply := StorePhoto(bucket, eventId, file, desc, manifest.value, fraction, nowMs, now);
  }
}
