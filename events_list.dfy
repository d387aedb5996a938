/** `GET /api/events` (functions/api/events.js): one summary per readable manifest. */
module EventsList {
  import opened Wrappers
  import opened Text
  import opened JsonValue
  import opened Store
  import opened Manifest
  import opened Sorting

  /** `{ eventId, title, date, note, coverKey, sampleKeys, count }` */
  datatype Summary = Summary(eventId: string, title: string, date: string, note: string,
                             coverKey: string, sampleKeys: seq<string>, count: nat)

  const MaxSamples := 12
  const ListPages := 100

  /** `photos.map(p => typeof p?.file === "string" ? p.file : "").filter(Boolean)` */
  function PhotoFiles(photos: seq<Json>): (r: seq<string>)
    ensures |r| <= |photos|
    ensures forall i :: 0 <= i < |r| ==> r[i] != ""
  {
    if photos == [] then []
    else
      var last := StringMember(photos[|photos| - 1], "file");
      PhotoFiles(photos[..|photos| - 1]) + (if last == "" then [] else [last])
  }

  /** The file list of a longer photo list extends that of the shorter one. */
  lemma {:induction false} PhotoFilesAppend(photos: seq<Json>, more: seq<Json>)
    ensures PhotoFiles(photos + more) == PhotoFiles(photos) + PhotoFiles(more)
    decreases |more|
  {
    var all := photos + more;
    if more == [] {
      assert all == photos;
    } else {
      assert all[..|all| - 1] == photos + more[..|more| - 1];
      assert all[|all| - 1] == more[|more| - 1];
      PhotoFilesAppend(photos, more[..|more| - 1]);
    }
  }

  /** One photo contributes its `file` member when that is a non-empty
    * string, and nothing otherwise; with `PhotoFilesAppend` this fixes the
    * list's contents and order. */
  lemma PhotoFilesSingle(p: Json)
    ensures PhotoFiles([p]) == (if StringMember(p, "file") == "" then [] else [StringMember(p, "file")])
  {
    assert [p][..0] == [];
  }

  /** `events/${eventId}/${f}` for each sample file. */
  function SampleKeys(eventId: string, files: seq<string>): (r: seq<string>)
    ensures |r| == |files|
    ensures forall i :: 0 <= i < |r| ==> r[i] == ObjectKey(eventId, files[i])
  {
    seq(|files|, i requires 0 <= i < |files| => ObjectKey(eventId, files[i]))
  }

  /** The summary of one parsed manifest; every member read is duck-typed, so
    * any JSON value has one. */
  function Summarize(m: Json): (s: Summary)
    ensures s.eventId == StringMember(m, "eventId") && s.title == StringMember(m, "title")
    ensures s.date == StringMember(m, "date") && s.note == StringMember(m, "note")
    ensures s.count == |ArrayMember(m, "photos")|
    ensures s.coverKey == (if StringMember(m, "cover") != "" && s.eventId != ""
                           then ObjectKey(s.eventId, StringMember(m, "cover")) else "")
    ensures s.eventId == "" ==> s.sampleKeys == []
    ensures s.eventId != "" ==>
      s.sampleKeys == SampleKeys(s.eventId, TakeLast(PhotoFiles(ArrayMember(m, "photos")), MaxSamples))
    ensures |s.sampleKeys| <= MaxSamples
  {
    var eventId := StringMember(m, "eventId");
    var cover := StringMember(m, "cover");
    var photos := ArrayMember(m, "photos");
    var coverKey := if cover != "" && eventId != "" then ObjectKey(eventId, cover) else "";
    var sampleFiles := TakeLast(PhotoFiles(photos), MaxSamples);
    var sampleKeys := if eventId != "" then SampleKeys(eventId, sampleFiles) else [];
    Summary(eventId, StringMember(m, "title"), StringMember(m, "date"), StringMember(m, "note"),
            coverKey, sampleKeys, |photos|)
  }

  /** A new event is listed with no photos, no cover and no samples. */
  lemma NewEventSummary(eventId: string, title: string, date: string, note: string, now: string)
    ensures var s := Summarize(NewManifest(eventId, title, date, note, now));
      s == Summary(eventId, title, date, note, "", [], 0)
  {
  }

  /** After a photo is recorded the summary counts one more photo, its most
    * recent sample is the new photo, and an event without a cover gets the
    * new photo as cover. */
  lemma {:induction false} UploadedPhotoIsListed(m: Json, file: string, desc: string, now: string)
    requires m.JObj? && file != "" && StringMember(m, "eventId") != ""
    ensures var before, after := Summarize(m), Summarize(AppendPhoto(m, file, desc, now).value);
      after.count == before.count + 1 &&
      after.sampleKeys != [] && after.sampleKeys[|after.sampleKeys| - 1] == ObjectKey(before.eventId, file) &&
      (!Truthy(Member(m, "cover")) ==> after.coverKey == ObjectKey(before.eventId, file))
  {
    var m2 := AppendPhoto(m, file, desc, now).value;
    AppendedFileIsLast(m, file, desc, now);
    assert Member(m2, "eventId") == Member(m, "eventId");
    var files := PhotoFiles(ArrayMember(m2, "photos"));
    assert files[|files| - 1] == file;
    var tail := TakeLast(files, MaxSamples);
    assert tail[|tail| - 1] == file;
  }

  /** Recording a photo adds its file at the end of the file list. */
  lemma AppendedFileIsLast(m: Json, file: string, desc: string, now: string)
    requires m.JObj? && file != ""
    ensures |ArrayMember(AppendPhoto(m, file, desc, now).value, "photos")| == |ArrayMember(m, "photos")| + 1
    ensures PhotoFiles(ArrayMember(AppendPhoto(m, file, desc, now).value, "photos")) ==
            PhotoFiles(ArrayMember(m, "photos")) + [file]
  {
    var photos := ArrayMember(m, "photos");
    var entry := PhotoEntry(file, desc, now);
    assert ArrayMember(AppendPhoto(m, file, desc, now).value, "photos") == photos + [entry];
    PhotoFilesAppend(photos, [entry]);
    PhotoFilesSingle(entry);
    assert StringMember(entry, "file") == file;
  }

  /** `keys.filter(k => k.endsWith("/manifest.json"))` */
  function ManifestKeys(keys: seq<string>): (r: seq<string>)
    ensures forall k :: k in r <==> k in keys && EndsWith(k, "/" + ManifestFile)
    ensures |r| <= |keys|
  {
    if keys == [] then []
    else
      var rest := ManifestKeys(keys[..|keys| - 1]);
      assert keys == keys[..|keys| - 1] + [keys[|keys| - 1]];
      rest + (if EndsWith(keys[|keys| - 1], "/" + ManifestFile) then [keys[|keys| - 1]] else [])
  }

  /** Filtering a longer key list extends the filtered shorter one: the
    * filter keeps the listing's order. */
  lemma {:induction false} ManifestKeysAppend(keys: seq<string>, more: seq<string>)
    ensures ManifestKeys(keys + more) == ManifestKeys(keys) + ManifestKeys(more)
    decreases |more|
  {
    var all := keys + more;
    if more == [] {
      assert all == keys;
    } else {
      var init, last := more[..|more| - 1], more[|more| - 1];
      var kept := if EndsWith(last, "/" + ManifestFile) then [last] else [];
      assert all[..|all| - 1] == keys + init;
      assert all[|all| - 1] == last;
      assert ManifestKeys(all) == ManifestKeys(keys + init) + kept;
      assert ManifestKeys(more) == ManifestKeys(init) + kept;
      ManifestKeysAppend(keys, init);
    }
  }

  /** One key is kept exactly when it names a manifest. */
  lemma ManifestKeysSingle(k: string)
    ensures ManifestKeys([k]) == (if EndsWith(k, "/" + ManifestFile) then [k] else [])
  {
    assert [k][..0] == [];
  }

  /** The summary of the manifest at `k` when it exists and parses. */
  function SummaryOf(objects: map<string, StoredObject>, k: string): seq<Summary> {
    if k in objects && ParseBody(objects[k].body).Some? then [Summarize(ParseBody(objects[k].body).value)] else []
  }

  /** The summaries of the manifests at `keys` that exist and parse, in `keys` order. */
  function Summaries(objects: map<string, StoredObject>, keys: seq<string>): (r: seq<Summary>)
    ensures |r| <= |keys|
  {
    if keys == [] then []
    else Summaries(objects, keys[..|keys| - 1]) + SummaryOf(objects, keys[|keys| - 1])
  }

  /** The summaries of a longer key list extend those of the shorter one:
    * they come in `keys` order. */
  lemma {:induction false} SummariesAppend(objects: map<string, StoredObject>, keys: seq<string>, more: seq<string>)
    ensures Summaries(objects, keys + more) == Summaries(objects, keys) + Summaries(objects, more)
    decreases |more|
  {
    var all := keys + more;
    if more == [] {
      assert all == keys;
    } else {
      var init, last := more[..|more| - 1], more[|more| - 1];
      assert all[..|all| - 1] == keys + init;
      assert all[|all| - 1] == last;
      assert Summaries(objects, all) == Summaries(objects, keys + init) + SummaryOf(objects, last);
      assert Summaries(objects, more) == Summaries(objects, init) + SummaryOf(objects, last);
      SummariesAppend(objects, keys, init);
      var front, mid, tail := Summaries(objects, keys), Summaries(objects, init), SummaryOf(objects, last);
      assert (front + mid) + tail == front + (mid + tail);
    }
  }

  /** One more key of the same list adds the summary of its manifest, if any. */
  lemma SummariesSnoc(objects: map<string, StoredObject>, keys: seq<string>, i: nat)
    requires i < |keys|
    ensures Summaries(objects, keys[..i + 1]) == Summaries(objects, keys[..i]) + SummaryOf(objects, keys[i])
  {
    assert keys[..i + 1][..i] == keys[..i];
  }

  /** One key gives the summary of its manifest when that exists and parses,
    * and nothing otherwise. */
  lemma SummariesSingle(objects: map<string, StoredObject>, k: string)
    ensures Summaries(objects, [k]) ==
      (if k in objects && ParseBody(objects[k].body).Some? then [Summarize(ParseBody(objects[k].body).value)] else [])
  {
    assert [k][..0] == [];
  }

  /** Every readable manifest among the keys has its summary listed, and every
    * listed summary comes from one. */
  lemma {:induction false} SummariesComplete(objects: map<string, StoredObject>, keys: seq<string>, s: Summary)
    ensures s in Summaries(objects, keys) <==>
      exists k :: k in keys && k in objects && ParseBody(objects[k].body).Some? && Summarize(ParseBody(objects[k].body).value) == s
  {
    if keys != [] {
      var init := keys[..|keys| - 1];
      var mk := keys[|keys| - 1];
      SummariesComplete(objects, init, s);
      assert keys == init + [mk];
      assert forall k :: k in keys <==> k in init || k == mk;
    }
  }

  /** The comparator: date descending, then title ascending. */
  predicate EventBefore(a: Summary, b: Summary) {
    if a.date != b.date then LexLeq(b.date, a.date) else LexLeq(a.title, b.title)
  }

  lemma EventBeforeIsTotalPreorder()
    ensures TotalPreorder(EventBefore)
  {
    forall a, b ensures EventBefore(a, b) || EventBefore(b, a) {
      LexLeqTotal(a.date, b.date);
      LexLeqTotal(a.title, b.title);
    }
    forall a, b, c | EventBefore(a, b) && EventBefore(b, c) ensures EventBefore(a, c) {
      if a.date == b.date && b.date == c.date {
        LexLeqTrans(a.title, b.title, c.title);
      } else if a.date != b.date && b.date != c.date {
        LexLeqTrans(c.date, b.date, a.date);
        if a.date == c.date {
          LexLeqAntisym(a.date, b.date);
        }
      }
    }
  }

  function SortEvents(events: seq<Summary>): seq<Summary> {
    SortBy(events, EventBefore)
  }

  /** The answer is ordered by date, newest first, then by title, and holds
    * exactly the collected summaries. */
  lemma SortEventsOrdered(events: seq<Summary>)
    ensures Sorted(SortEvents(events), EventBefore)
    ensures multiset(SortEvents(events)) == multiset(events)
  {
    EventBeforeIsTotalPreorder();
    SortBySorted(events, EventBefore);
  }

  /** The loop over the manifest keys: each manifest that exists and parses
    * contributes its summary. */
  method CollectSummaries(bucket: Bucket, manifestKeys: seq<string>) returns (collected: seq<Summary>)
    ensures collected == Summaries(bucket.objects, manifestKeys)
  {
    collected := [];
    for i := 0 to |manifestKeys|
      invariant collected == Summaries(bucket.objects, manifestKeys[..i])
    {
      var mk := manifestKeys[i];
      SummariesSnoc(bucket.objects, manifestKeys, i);
      if mk in bucket.objects {
        var m := ParseBody(bucket.objects[mk].body);
        if m.Some? {
          collected := collected + [Summarize(m.value)];
        }
      }
    }
    assert manifestKeys[..|manifestKeys|] == manifestKeys;
  }

  /** The handler: list `events/`, keep the manifest keys, summarize each
    * readable manifest, sort. */
  method ListEvents(bucket: Bucket, source: PageSource) returns (events: seq<Summary>)
    ensures events == SortEvents(Summaries(bucket.objects, ManifestKeys(ListedKeys(source, "events/", None, ListPages))))
  {
    var allKeys, _ := ListAllWithPrefix(source, "events/", ListPages);
    var collected := CollectSummaries(bucket, ManifestKeys(allKeys));
    events := SortEvents(collected);
  }
}
