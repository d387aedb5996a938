/** `POST /api/event-delete` (functions/api/event-delete.js). */
module EventDelete {
  import opened Wrappers
  import opened Text
  import opened JsonValue
  import opened Http
  import opened Store
  import opened EventIds
  import opened Manifest
  import EventRead

  const DeletePages := 200
  const Chunk := 1000

  function Min(a: int, b: int): int { if a <= b then a else b }

  /** `keys.slice(i, i + k)` for `i = 0, k, 2k, ...` while `i < keys.length`. */
  function Chunks<T>(s: seq<T>, k: nat): (r: seq<seq<T>>)
    requires k > 0
    ensures forall i :: 0 <= i < |r| ==> 0 < |r[i]| <= k
    decreases |s|
  {
    if s == [] then []
    else if |s| <= k then [s]
    else [s[..k]] + Chunks(s[k..], k)
  }

  /** The first batch is the first `k` elements, or all of them. */
  lemma ChunksHead<T>(s: seq<T>, k: nat)
    requires s != [] && k > 0
    ensures Chunks(s, k) == [s[..Min(k, |s|)]] + Chunks(s[Min(k, |s|)..], k)
  {
    if |s| <= k {
      assert s[..|s|] == s && s[|s|..] == [];
    }
  }

  function Flatten<T>(chunks: seq<seq<T>>): seq<T> {
    if chunks == [] then [] else chunks[0] + Flatten(chunks[1..])
  }

  /** The batches together are the listed keys, in order. */
  lemma {:induction false} ChunksFlatten<T>(s: seq<T>, k: nat)
    requires k > 0
    ensures Flatten(Chunks(s, k)) == s
    decreases |s|
  {
    if s == [] {
    } else if |s| <= k {
      assert [s][1..] == [];
      assert Flatten([s]) == s + Flatten([]);
    } else {
      ChunksFlatten(s[k..], k);
      var r := Chunks(s, k);
      assert r[0] == s[..k] && r[1..] == Chunks(s[k..], k);
      assert s[..k] + s[k..] == s;
    }
  }

  /** There are `ceil(n / k)` batches. */
  lemma {:induction false} ChunksCount<T>(s: seq<T>, k: nat)
    requires k > 0
    ensures |Chunks(s, k)| * k >= |s| > (|Chunks(s, k)| - 1) * k
    decreases |s|
  {
    if |s| > k {
      ChunksCount(s[k..], k);
      var n := |Chunks(s[k..], k)|;
      assert |Chunks(s, k)| == n + 1;
      assert (n + 1) * k == n * k + k;
      assert n * k == (n - 1) * k + k;
    }
  }

  lemma MapMinusUnion(m: map<string, StoredObject>, a: seq<string>, b: seq<string>)
    ensures m - KeySet(a) - KeySet(b) == m - KeySet(a + b)
  {
    assert KeySet(a + b) == KeySet(a) + KeySet(b);
  }

  /** Deleting the batch `keys[i..end]` after `keys[..i]` has deleted `keys[..end]`. */
  lemma DeleteStep(m: map<string, StoredObject>, keys: seq<string>, i: nat, end: nat)
    requires i <= end <= |keys|
    ensures m - KeySet(keys[..i]) - KeySet(keys[i..end]) == m - KeySet(keys[..end])
  {
    assert keys[..i] + keys[i..end] == keys[..end];
    MapMinusUnion(m, keys[..i], keys[i..end]);
  }

  /** The batches from `i` on are the one at `i` followed by those from its end. */
  lemma ChunksFrom(keys: seq<string>, i: nat)
    requires i < |keys|
    ensures Chunks(keys[i..], Chunk) ==
            [keys[i..Min(i + Chunk, |keys|)]] + Chunks(keys[Min(i + Chunk, |keys|)..], Chunk)
  {
    var end := Min(i + Chunk, |keys|);
    ChunksHead(keys[i..], Chunk);
    assert keys[i..][..end - i] == keys[i..end] && keys[i..][end - i..] == keys[end..];
  }

  /**
   * The handler, given the parsed request body and the listing. It lists
   * everything under the event's prefix and deletes it in batches of 1000;
   * `batches` are the key lists of the delete calls, in order.
   */
  method HandleDelete(bucket: Bucket, body: Option<Json>, source: PageSource)
    returns (reply: Reply<nat>, batches: seq<seq<string>>)
    modifies bucket
    ensures body.None? ==> reply == Fail(400, "Expected JSON")
    ensures body.Some? ==>
      var id := TrimmedMember(body.value, "eventId");
      var keys := ListedKeys(source, EventPrefix(id), None, DeletePages);
      (id == "" ==> reply == Fail(400, "Missing eventId")) &&
      (id != "" && !IsValidEventId(id) ==> reply == Fail(400, "Invalid eventId")) &&
      (IsValidEventId(id) && Member(body.value, "force") != Some(JBool(true)) ==> reply == Fail(400, "Missing force=true")) &&
      (IsValidEventId(id) && Member(body.value, "force") == Some(JBool(true)) ==>
         reply == Ok(|keys|) && batches == Chunks(keys, Chunk) &&
         bucket.objects == old(bucket.objects) - KeySet(keys))
    ensures !reply.Ok? ==> bucket.objects == old(bucket.objects) && batches == []
  {
    batches := [];
    if body.None? {
      return Fail(400, "Expected JSON"), batches;
    }
    var eventId := TrimmedMember(body.value, "eventId");
    var force := Member(body.value, "force") == Some(JBool(true));
    if eventId == "" {
      return Fail(400, "Missing eventId"), batches;
    }
    if !IsValidEventId(eventId) {
      return Fail(400, "Invalid eventId"), batches;
    }
    if !force {
      return Fail(400, "Missing force=true"), batches;
    }
    var count;
    count, batches := DeleteUnderPrefix(bucket, EventPrefix(eventId), source);
    return Ok(count), batches;
  }

  /** The listing of `prefix` and the batched delete of what it found. */
  method DeleteUnderPrefix(bucket: Bucket, prefix: string, source: PageSource)
    returns (count: nat, batches: seq<seq<string>>)
    modifies bucket
    ensures var keys := ListedKeys(source, prefix, None, DeletePages);
      count == |keys| && batches == Chunks(keys, Chunk) &&
      bucket.objects == old(bucket.objects) - KeySet(keys)
  {
    var keys, _ := ListAllWithPrefix(source, prefix, DeletePages);
    if |keys| == 0 {
      assert bucket.objects == old(bucket.objects) - KeySet(keys);
      return 0, [];
    }
    batches := DeleteInBatches(bucket, keys);
    return |keys|, batches;
  }

  /** `for (let i = 0; i < keys.length; i += CHUNK) await bucket.delete(keys.slice(i, i + CHUNK))` */
  method DeleteInBatches(bucket: Bucket, keys: seq<string>) returns (batches: seq<seq<string>>)
    modifies bucket
    ensures batches == Chunks(keys, Chunk)
    ensures bucket.objects == old(bucket.objects) - KeySet(keys)
  {
    batches := [];
    var i := 0;
    while i < |keys|
      invariant 0 <= i
      invariant batches + Chunks(keys[Min(i, |keys|)..], Chunk) == Chunks(keys, Chunk)
      invariant bucket.objects == old(bucket.objects) - KeySet(keys[..Min(i, |keys|)])
      decreases |keys| - i
    {
      var end := Min(i + Chunk, |keys|);
      var batch := keys[i..end];
      bucket.Delete(batch);
      DeleteStep(old(bucket.objects), keys, i, end);
      ChunksFrom(keys, i);
      batches := batches + [batch];
      i := i + Chunk;
    }
    assert keys[..|keys|] == keys;
  }

  /** `events/${id}/` only ever lists keys under itself. */
  ghost predicate HonorsPrefix(source: PageSource, prefix: string) {
    forall c, k :: k in source(prefix, c).keys ==> StartsWith(k, prefix)
  }

  lemma {:induction false} ListedKeysUnderPrefix(source: PageSource, prefix: string, cursor: Option<string>, pages: nat)
    requires HonorsPrefix(source, prefix)
    ensures forall k :: k in ListedKeys(source, prefix, cursor, pages) ==> StartsWith(k, prefix)
    decreases pages
  {
    if pages > 0 {
      var p := source(prefix, cursor);
      if !LastPage(p) {
        ListedKeysUnderPrefix(source, prefix, Some(p.cursor), pages - 1);
      }
    }
  }

  /** The prefix of one valid event id never covers another event's manifest. */
  lemma {:induction false} OtherManifestOutsidePrefix(a: string, b: string)
    requires IsValidEventId(a) && IsValidEventId(b) && a != b
    ensures !StartsWith(ManifestKey(b), EventPrefix(a))
  {
    var pa, kb := EventPrefix(a), ManifestKey(b);
    assert kb == "events/" + b + "/" + ManifestFile;
    if |pa| <= |kb| {
      var j: int;
      if |a| < |b| {
        j := 7 + |a|;
        assert pa[j] == '/' && kb[j] == b[|a|] && IsSlugChar(b[|a|]);
      } else if |a| > |b| {
        j := 7 + |b|;
        assert kb[j] == '/' && pa[j] == a[|b|] && IsSlugChar(a[|b|]);
      } else {
        var i :| 0 <= i < |a| && a[i] != b[i];
        j := 7 + i;
        assert pa[j] == a[i] && kb[j] == b[i];
      }
      assert kb[..|pa|][j] == kb[j] != pa[j];
    }
  }

  /** Deleting an event leaves every other event's manifest in place. */
  lemma DeleteKeepsOtherEvents(objects: map<string, StoredObject>, source: PageSource, a: string, b: string)
    requires IsValidEventId(a) && IsValidEventId(b) && a != b
    requires HonorsPrefix(source, EventPrefix(a))
    ensures var keys := ListedKeys(source, EventPrefix(a), None, DeletePages);
      ManifestKey(b) in objects ==> ManifestKey(b) in objects - KeySet(keys) &&
                                    (objects - KeySet(keys))[ManifestKey(b)] == objects[ManifestKey(b)]
  {
    ListedKeysUnderPrefix(source, EventPrefix(a), None, DeletePages);
    OtherManifestOutsidePrefix(a, b);
  }

  /** When the listing reaches every key under the event's prefix, what a
    * successful delete leaves behind reads as not found. */
  lemma DeletedEventReadsNotFound(objects: map<string, StoredObject>, source: PageSource, id: string)
    requires IsValidEventId(id)
    requires forall k :: k in objects && StartsWith(k, EventPrefix(id)) ==>
               k in ListedKeys(source, EventPrefix(id), None, DeletePages)
    ensures EventRead.ReadEvent(objects - KeySet(ListedKeys(source, EventPrefix(id), None, DeletePages)), Some(id))
            == Fail(404, "Not found")
  {
    EventRead.ReadAfterDelete(objects, id, ListedKeys(source, EventPrefix(id), None, DeletePages));
  }
}
