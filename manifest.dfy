/**
 * The event manifest: its key in the bucket and the three changes the
 * handlers make to it (creation, the edit of the editable fields, the append
 * of an uploaded photo). A change applied to a parsed manifest follows
 * JavaScript's strict-mode property assignment followed by `JSON.stringify`:
 * on an object the member is set; on an array the new member is not
 * serialized, so the document is written back as it was; on `null`, a
 * boolean, a number or a string the assignment throws (`None`).
 */
module Manifest {
  import opened Wrappers
  import opened Text
  import opened JsonValue

  /** `events/${eventId}/` */
  function EventPrefix(eventId: string): string {
    "events/" + eventId + "/"
  }

  /** `events/${eventId}/${file}` */
  function ObjectKey(eventId: string, file: string): (k: string)
    ensures StartsWith(k, EventPrefix(eventId))
  {
    var p := EventPrefix(eventId);
    assert (p + file)[..|p|] == p;
    p + file
  }

  const ManifestFile := "manifest.json"

  /** `events/${eventId}/manifest.json` */
  function ManifestKey(eventId: string): (k: string)
    ensures StartsWith(k, EventPrefix(eventId))
    ensures EndsWith(k, "/" + ManifestFile)
  {
    var k := ObjectKey(eventId, ManifestFile);
    assert k == "events/" + eventId + ("/" + ManifestFile);
    assert k[|k| - |"/" + ManifestFile|..] == "/" + ManifestFile;
    k
  }

  /** Different events have different manifest keys. */
  lemma ManifestKeyInjective(a: string, b: string)
    requires ManifestKey(a) == ManifestKey(b)
    ensures a == b
  {
    var ka, kb := ManifestKey(a), ManifestKey(b);
    assert |a| == |b|;
    assert a == ka[7..7 + |a|];
    assert b == kb[7..7 + |b|];
  }

  /** The manifest `event-create` writes. */
  function NewManifest(eventId: string, title: string, date: string, note: string, now: string): (m: Json)
    ensures m.JObj? && m.fields.Keys == {"eventId", "title", "date", "note", "cover", "photos", "createdAt", "updatedAt"}
    ensures StringMember(m, "eventId") == eventId && StringMember(m, "title") == title
    ensures StringMember(m, "date") == date && StringMember(m, "note") == note
    ensures Member(m, "cover") == Some(JStr("")) && Member(m, "photos") == Some(JArr([]))
    ensures StringMember(m, "createdAt") == now && StringMember(m, "updatedAt") == now
  {
    JObj(map[
      "eventId" := JStr(eventId),
      "title" := JStr(title),
      "date" := JStr(date),
      "note" := JStr(note),
      "cover" := JStr(""),
      "photos" := JArr([]),
      "createdAt" := JStr(now),
      "updatedAt" := JStr(now)])
  }

  /** The members `event-update` assigns. */
  const EditableKeys: set<string> := {"title", "date", "note", "updatedAt"}

  /** `manifest.title = title; manifest.date = date; manifest.note = note;
    * manifest.updatedAt = now`, then serialized. Only the four editable
    * members change; every other member keeps its value. */
  function ApplyEdit(doc: Json, title: string, date: string, note: string, now: string): (r: Option<Json>)
    ensures r.Some? <==> doc.JObj? || doc.JArr?
    ensures doc.JArr? ==> r == Some(doc)
    ensures doc.JObj? ==>
      r.Some? && r.value.JObj? &&
      r.value.fields.Keys == doc.fields.Keys + EditableKeys &&
      (forall k :: k in doc.fields && k !in EditableKeys ==> r.value.fields[k] == doc.fields[k]) &&
      r.value.fields["title"] == JStr(title) && r.value.fields["date"] == JStr(date) &&
      r.value.fields["note"] == JStr(note) && r.value.fields["updatedAt"] == JStr(now)
  {
    match doc
    case JObj(fields) =>
      Some(JObj(fields["title" := JStr(title)]["date" := JStr(date)]["note" := JStr(note)]["updatedAt" := JStr(now)]))
    case JArr(_) => Some(doc)
    case _ => None
  }

  /** An edit leaves the photo list and the cover exactly as they were. */
  lemma EditKeepsPhotosAndCover(doc: Json, title: string, date: string, note: string, now: string)
    requires doc.JObj?
    ensures var r := ApplyEdit(doc, title, date, note, now).value;
      Member(r, "photos") == Member(doc, "photos") && Member(r, "cover") == Member(doc, "cover") &&
      Member(r, "eventId") == Member(doc, "eventId") && Member(r, "createdAt") == Member(doc, "createdAt")
  {
  }

  /** `{ file, desc, uploadedAt }` */
  function PhotoEntry(file: string, desc: string, uploadedAt: string): Json {
    JObj(map["file" := JStr(file), "desc" := JStr(desc), "uploadedAt" := JStr(uploadedAt)])
  }

  /** The members the photo append may change. */
  const AppendKeys: set<string> := {"photos", "cover", "updatedAt"}

  /** `if (!Array.isArray(manifest.photos)) manifest.photos = []`, push the
    * entry, `if (!manifest.cover && file) manifest.cover = file`, bump
    * `updatedAt`, then serialize. */
  function AppendPhoto(doc: Json, file: string, desc: string, now: string): (r: Option<Json>)
    ensures r.Some? <==> doc.JObj? || doc.JArr?
    ensures doc.JArr? ==> r == Some(doc)
    ensures doc.JObj? ==>
      r.Some? && r.value.JObj? &&
      r.value.fields.Keys == doc.fields.Keys + {"photos", "updatedAt"} + (if Truthy(Member(doc, "cover")) || file == "" then {} else {"cover"}) &&
      (forall k :: k in doc.fields && k !in AppendKeys ==> r.value.fields[k] == doc.fields[k]) &&
      Member(r.value, "photos") == Some(JArr(ArrayMember(doc, "photos") + [PhotoEntry(file, desc, now)])) &&
      (Truthy(Member(doc, "cover")) || file == "" ==> Member(r.value, "cover") == Member(doc, "cover")) &&
      (!Truthy(Member(doc, "cover")) && file != "" ==> Member(r.value, "cover") == Some(JStr(file))) &&
      Member(r.value, "updatedAt") == Some(JStr(now))
  {
    match doc
    case JObj(fields) =>
      var photos := ArrayMember(doc, "photos");
      var withPhoto := fields["photos" := JArr(photos + [PhotoEntry(file, desc, now)])];
      var withCover := if !Truthy(Member(doc, "cover")) && file != "" then withPhoto["cover" := JStr(file)] else withPhoto;
      Some(JObj(withCover["updatedAt" := JStr(now)]))
    case JArr(_) => Some(doc)
    case _ => None
  }

  /** The first upload into a new event makes its file the cover; a second
    * upload keeps that cover and appends after the first entry. */
  lemma {:induction false} FirstUploadSetsCover(eventId: string, title: string, date: string, note: string,
                                                 now: string, f1: string, d1: string, t1: string, f2: string, d2: string, t2: string)
    requires f1 != ""
    ensures var m0 := NewManifest(eventId, title, date, note, now);
      var m1 := AppendPhoto(m0, f1, d1, t1).value;
      var m2 := AppendPhoto(m1, f2, d2, t2).value;
      Member(m1, "cover") == Some(JStr(f1)) && Member(m2, "cover") == Some(JStr(f1)) &&
      Member(m2, "photos") == Some(JArr([PhotoEntry(f1, d1, t1), PhotoEntry(f2, d2, t2)]))
  {
    var m1 := AppendPhoto(NewManifest(eventId, title, date, note, now), f1, d1, t1).value;
    UploadIntoNew(eventId, title, date, note, now, f1, d1, t1);
    assert Truthy(Member(m1, "cover"));
    assert [PhotoEntry(f1, d1, t1)] + [PhotoEntry(f2, d2, t2)] == [PhotoEntry(f1, d1, t1), PhotoEntry(f2, d2, t2)];
  }

  /** The first record in a new manifest: the file becomes the cover and the
    * only photo. */
  lemma UploadIntoNew(eventId: string, title: string, date: string, note: string,
                      now: string, f1: string, d1: string, t1: string)
    requires f1 != ""
    ensures var m1 := AppendPhoto(NewManifest(eventId, title, date, note, now), f1, d1, t1).value;
      m1.JObj? && Member(m1, "cover") == Some(JStr(f1)) && ArrayMember(m1, "photos") == [PhotoEntry(f1, d1, t1)]
  {
    var m0 := NewManifest(eventId, title, date, note, now);
    assert !Truthy(Member(m0, "cover"));
    assert ArrayMember(m0, "photos") == [];
  }
}
