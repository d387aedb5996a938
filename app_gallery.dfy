/**
 * The gallery page of app.js: the photo list fetched from `/api/list`, the
 * lightbox over it, and the per-photo description that is fetched on demand,
 * cached in the photo object and guarded by `lastMetaReqId` so that only the
 * latest request may set the caption. An awaited fetch is split in two: the
 * method that issues it returns the request (`Pending`), and
 * `CompleteDescription` is the code after the `await`, run whenever that
 * response arrives.
 */
module Gallery {
  import opened Wrappers
  import opened JsonValue
  import opened Carousel

  /** `{ key, desc }`, an object whose `desc` is filled in later. */
  class Photo {
    const key: string
    var desc: string

    constructor (key: string)
      ensures this.key == key && desc == ""
    {
      this.key := key;
      desc := "";
    }
  }

  /** A description request in flight: its id and the photo it was made for. */
  datatype Pending = Pending(reqId: nat, photo: Photo)

  /** `fetchDescription(key)` given the response: its status was OK or not,
    * and its body parsed as JSON or not (`None`). */
  function FetchedDescription(ok: bool, body: Option<Json>): (d: string)
    ensures !ok || body.None? ==> d == ""
    ensures ok && body.Some? && IsStringMember(body.value, "desc") ==> Member(body.value, "desc") == Some(JStr(d))
    ensures body.Some? && !IsStringMember(body.value, "desc") ==> d == ""
  {
    if !ok || body.None? then "" else StringMember(body.value, "desc")
  }

  /** `data.keys || []` from the `/api/list` response, or `None` when
    * `loadList` throws: a non-OK status, a body that is not JSON, `null`
    * (reading `keys` of it throws), an array (its `keys` is a method, which
    * has no `map`) or a truthy `keys` member that is not an array of strings. */
  function ListedKeysOf(ok: bool, body: Option<Json>): (r: Option<seq<string>>)
    ensures !ok || body.None? || body == Some(JNull) ==> r.None?
    ensures ok && body.Some? && body.value.JObj? && !Truthy(Member(body.value, "keys")) ==> r == Some([])
    ensures r.Some? && r.value != [] ==> exists items :: Member(body.value, "keys") == Some(JArr(items)) && |items| == |r.value|
    ensures r.Some? ==> forall i :: 0 <= i < |r.value| ==> JStr(r.value[i]) in ArrayMember(body.value, "keys")
    ensures r.Some? && r.value != [] ==>
      |ArrayMember(body.value, "keys")| == |r.value| &&
      forall i :: 0 <= i < |r.value| ==> ArrayMember(body.value, "keys")[i] == JStr(r.value[i])
    ensures (&& ok && body.Some? && body.value.JObj? && IsArrayMember(body.value, "keys")
             && forall i :: 0 <= i < |ArrayMember(body.value, "keys")| ==> ArrayMember(body.value, "keys")[i].JStr?)
            ==> r.Some?
    ensures ok && body.Some? && body.value.JArr? ==> r.None?
    ensures (&& ok && body.Some? && body.value.JObj? && Truthy(Member(body.value, "keys"))
             && !IsArrayMember(body.value, "keys"))
            ==> r.None?
    ensures ok && body.Some? && (body.value.JBool? || body.value.JNum? || body.value.JStr?) ==> r == Some([])
  {
    if !ok || body.None? then None
    else
      match body.value
      case JNull => None
      case JArr(_) => None
      case JObj(_) =>
        var keys := Member(body.value, "keys");
        assert IsArrayMember(body.value, "keys") ==> Truthy(keys) && ArrayMember(body.value, "keys") == keys.value.items;
        if !Truthy(keys) then Some([])
        else if keys.value.JArr? && forall i :: 0 <= i < |keys.value.items| ==> keys.value.items[i].JStr? then
          var items := keys.value.items;
          var r := seq(|items|, i requires 0 <= i < |items| => items[i].s);
          assert forall i :: 0 <= i < |r| ==> items[i] == JStr(r[i]);
          Some(r)
        else None
      case _ => Some([])
  }

  /** The page's state. `imageKey` is the key behind `lightboxImg.src`. */
  class GalleryPage {
    var photos: seq<Photo>
    var currentIndex: int
    var isOpen: bool
    var imageKey: string
    var caption: string
    var bodyOverflow: string
    var lastMetaReqId: nat

    /** The page as loaded: no photos, `currentIndex = -1`, `lastMetaReqId = 0`. */
    constructor ()
      ensures photos == [] && currentIndex == -1 && !isOpen && lastMetaReqId == 0
      ensures imageKey == "" && caption == "" && bodyOverflow == ""
    {
      photos, currentIndex, isOpen, lastMetaReqId := [], -1, false, 0;
      imageKey, caption, bodyOverflow := "", "", "";
    }

    /** `loadList()`: the listed keys in order, each a new photo with an
      * empty description; when it throws, nothing changes. */
    method LoadList(ok: bool, body: Option<Json>) returns (loaded: bool)
      modifies this`photos
      ensures loaded <==> ListedKeysOf(ok, body).Some?
      ensures !loaded ==> photos == old(photos)
      ensures loaded ==> |photos| == |ListedKeysOf(ok, body).value|
      ensures loaded ==> forall i :: 0 <= i < |photos| ==>
                           photos[i].key == ListedKeysOf(ok, body).value[i] && photos[i].desc == "" && fresh(photos[i])
      ensures loaded ==> forall i, j :: 0 <= i < j < |photos| ==> photos[i] != photos[j]
    {
      var keys := ListedKeysOf(ok, body);
      if keys.None? {
        return false;
      }
      var made: seq<Photo> := [];
      for i := 0 to |keys.value|
        invariant |made| == i
        invariant forall k :: 0 <= k < i ==> made[k].key == keys.value[k] && made[k].desc == "" && fresh(made[k])
        invariant forall k, l :: 0 <= k < l < i ==> made[k] != made[l]
      {
        var p := new Photo(keys.value[i]);
        made := made + [p];
      }
      photos := made;
      loaded := true;
    }

    /** `loadDescriptionForCurrent()` up to its `await`: for an index in
      * range it takes a new request id, then shows a cached description
      * without a request, or issues one. */
    method LoadDescriptionForCurrent() returns (pending: Option<Pending>)
      modifies this`lastMetaReqId, this`caption
      ensures !(0 <= currentIndex < |photos|) ==>
        pending.None? && lastMetaReqId == old(lastMetaReqId) && caption == old(caption)
      ensures 0 <= currentIndex < |photos| ==> lastMetaReqId == old(lastMetaReqId) + 1
      ensures 0 <= currentIndex < |photos| && photos[currentIndex].desc != "" ==>
        pending.None? && caption == photos[currentIndex].desc
      ensures 0 <= currentIndex < |photos| && photos[currentIndex].desc == "" ==>
        pending == Some(Pending(lastMetaReqId, photos[currentIndex])) && caption == old(caption)
    {
      if currentIndex < 0 || currentIndex >= |photos| {
        return None;
      }
      lastMetaReqId := lastMetaReqId + 1;
      var reqId := lastMetaReqId;
      var photo := photos[currentIndex];
      if photo.desc != "" {
        caption := photo.desc;
        return None;
      }
      pending := Some(Pending(reqId, photo));
    }

    /** The rest of `loadDescriptionForCurrent()` once `desc` has arrived: a
      * response to any but the latest request is ignored; otherwise the
      * description is cached in the photo and shown. */
    method CompleteDescription(p: Pending, desc: string)
      modifies this`caption, p.photo`desc
      ensures p.reqId == lastMetaReqId ==> p.photo.desc == desc && caption == desc
      ensures p.reqId != lastMetaReqId ==> p.photo.desc == old(p.photo.desc) && caption == old(caption)
    {
      if p.reqId != lastMetaReqId {
        return;
      }
      p.photo.desc := desc;
      caption := desc;
    }

    /** The state `setLightboxContent(idx)` leaves behind, from request
      * counter `req0`, caption `caption0` and image `key0`, with `pending`
      * the request it issued: `currentIndex` is `idx`; for an index in range
      * the photo's key is shown, a new request id is taken, and the caption
      * is the cached description or, with a request issued, empty. */
    ghost predicate ContentSet(idx: int, req0: nat, caption0: string, key0: string, pending: Option<Pending>)
      reads this, photos
    {
      && currentIndex == idx
      && (!(0 <= idx < |photos|) ==>
            pending.None? && imageKey == key0 && caption == caption0 && lastMetaReqId == req0)
      && (0 <= idx < |photos| ==>
            && imageKey == photos[idx].key && lastMetaReqId == req0 + 1
            && (photos[idx].desc != "" ==> pending.None? && caption == photos[idx].desc)
            && (photos[idx].desc == "" ==> pending == Some(Pending(lastMetaReqId, photos[idx])) && caption == ""))
    }

    /** `setLightboxContent(idx)`: `currentIndex` is assigned first; an index
      * outside the list then throws on `photo.key`. */
    method SetLightboxContent(idx: int) returns (pending: Option<Pending>)
      modifies this`currentIndex, this`imageKey, this`caption, this`lastMetaReqId
      ensures ContentSet(idx, old(lastMetaReqId), old(caption), old(imageKey), pending)
    {
      currentIndex := idx;
      if idx < 0 || idx >= |photos| {
        return None;
      }
      var photo := photos[currentIndex];
      imageKey := photo.key;
      caption := "";
      pending := LoadDescriptionForCurrent();
    }

    /** `openLightbox(idx)` */
    method OpenLightbox(idx: int) returns (pending: Option<Pending>)
      modifies this`currentIndex, this`imageKey, this`caption, this`lastMetaReqId, this`isOpen, this`bodyOverflow
      ensures currentIndex == idx
      ensures !(0 <= idx < |photos|) ==>
        pending.None? && isOpen == old(isOpen) && bodyOverflow == old(bodyOverflow) &&
        imageKey == old(imageKey) && caption == old(caption) && lastMetaReqId == old(lastMetaReqId)
      ensures 0 <= idx < |photos| ==>
        isOpen && bodyOverflow == "hidden" && imageKey == photos[idx].key && lastMetaReqId == old(lastMetaReqId) + 1
      ensures 0 <= idx < |photos| && photos[idx].desc != "" ==> pending.None? && caption == photos[idx].desc
      ensures 0 <= idx < |photos| && photos[idx].desc == "" ==>
        pending == Some(Pending(lastMetaReqId, photos[idx])) && caption == ""
    {
      pending := SetLightboxContent(idx);
      if 0 <= idx < |photos| {
        isOpen := true;
        bodyOverflow := "hidden";
      }
    }

    /** `closeLightbox()`: the caption and the request counter are left alone. */
    method CloseLightbox()
      modifies this`isOpen, this`imageKey, this`bodyOverflow, this`currentIndex
      ensures !isOpen && imageKey == "" && bodyOverflow == "" && currentIndex == -1
    {
      isOpen := false;
      imageKey := "";
      bodyOverflow := "";
      currentIndex := -1;
    }

    /** `showNext()`: from an open lightbox on photo `i` of `N`, photo
      * `(i + 1) mod N`; nothing at all when closed or empty. */
    method ShowNext() returns (pending: Option<Pending>)
      modifies this`currentIndex, this`imageKey, this`caption, this`lastMetaReqId
      ensures !old(isOpen) || photos == [] ==>
        pending.None? && currentIndex == old(currentIndex) && imageKey == old(imageKey) &&
        caption == old(caption) && lastMetaReqId == old(lastMetaReqId)
      ensures old(isOpen) && photos != [] ==>
        ContentSet(NextIndex(old(currentIndex), |photos|), old(lastMetaReqId), old(caption), old(imageKey), pending)
      ensures old(isOpen) && 0 <= old(currentIndex) < |photos| ==>
        0 <= currentIndex < |photos| && imageKey == photos[currentIndex].key &&
        currentIndex == (if old(currentIndex) == |photos| - 1 then 0 else old(currentIndex) + 1) &&
        lastMetaReqId == old(lastMetaReqId) + 1
    {
      if !isOpen || |photos| == 0 {
        return None;
      }
      StepsStayInRange(if 0 <= currentIndex < |photos| then currentIndex else 0, |photos|);
      var next := JsRem(currentIndex + 1, |photos|);
      pending := SetLightboxContent(next);
    }

    /** `showPrev()`: from an open lightbox on photo `i` of `N`, photo
      * `(i - 1 + N) mod N`; nothing at all when closed or empty. */
    method ShowPrev() returns (pending: Option<Pending>)
      modifies this`currentIndex, this`imageKey, this`caption, this`lastMetaReqId
      ensures !old(isOpen) || photos == [] ==>
        pending.None? && currentIndex == old(currentIndex) && imageKey == old(imageKey) &&
        caption == old(caption) && lastMetaReqId == old(lastMetaReqId)
      ensures old(isOpen) && photos != [] ==>
        ContentSet(PrevIndex(old(currentIndex), |photos|), old(lastMetaReqId), old(caption), old(imageKey), pending)
      ensures old(isOpen) && 0 <= old(currentIndex) < |photos| ==>
        0 <= currentIndex < |photos| && imageKey == photos[currentIndex].key &&
        currentIndex == (if old(currentIndex) == 0 then |photos| - 1 else old(currentIndex) - 1) &&
        lastMetaReqId == old(lastMetaReqId) + 1
    {
      if !isOpen || |photos| == 0 {
        return None;
      }
      StepsStayInRange(if 0 <= currentIndex < |photos| then currentIndex else 0, |photos|);
      var prev := JsRem(currentIndex - 1 + |photos|, |photos|);
      pending := SetLightboxContent(prev);
    }

    /** The `keydown` listener: ignored while closed; Escape closes. */
    method OnKeyDown(key: string) returns (pending: Option<Pending>)
      modifies this`currentIndex, this`imageKey, this`caption, this`lastMetaReqId, this`isOpen, this`bodyOverflow
      ensures !old(isOpen) ==>
        pending.None? && currentIndex == old(currentIndex) && imageKey == old(imageKey) &&
        caption == old(caption) && lastMetaReqId == old(lastMetaReqId) && !isOpen && bodyOverflow == old(bodyOverflow)
      ensures old(isOpen) && key == "Escape" ==>
        pending.None? && !isOpen && currentIndex == -1 && imageKey == "" && bodyOverflow == "" &&
        caption == old(caption) && lastMetaReqId == old(lastMetaReqId)
      ensures old(isOpen) && key == "ArrowRight" && photos != [] ==>
        isOpen && bodyOverflow == old(bodyOverflow) &&
        ContentSet(NextIndex(old(currentIndex), |photos|), old(lastMetaReqId), old(caption), old(imageKey), pending)
      ensures old(isOpen) && key == "ArrowLeft" && photos != [] ==>
        isOpen && bodyOverflow == old(bodyOverflow) &&
        ContentSet(PrevIndex(old(currentIndex), |photos|), old(lastMetaReqId), old(caption), old(imageKey), pending)
      ensures old(isOpen) && key != "Escape" && (photos == [] || (key != "ArrowRight" && key != "ArrowLeft")) ==>
        pending.None? && unchanged(this)
    {
      pending := None;
      if !isOpen {
        return;
      }
      if key == "Escape" {
        CloseLightbox();
      } else if key == "ArrowRight" {
        pending := ShowNext();
      } else if key == "ArrowLeft" {
        pending := ShowPrev();
      }
    }
  }
}
