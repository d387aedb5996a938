/**
 * The event view of timeline.js: the photo list (`PHOTOS`) built from the
 * event's manifest, the heading shown above it, and the lightbox over it
 * (`currentIndex`, the `aria-hidden` flag, the image, the caption and the
 * body's overflow style). Each handler is a transition of the `Screen`
 * value; the class holds the same state in fields and its methods perform
 * those transitions in place.
 */
module Timeline {
  import opened Wrappers
  import opened Text
  import opened JsonValue
  import opened Manifest
  import opened Carousel

  /** `{ key, desc }` */
  datatype Photo = Photo(key: string, desc: string)

  /** `{ key: \`events/${eventId}/${file}\`, desc }` with the duck-typed reads of `p?.file`, `p?.desc`. */
  function PhotoOf(eventId: string, p: Json): Photo {
    Photo(ObjectKey(eventId, StringMember(p, "file")), StringMember(p, "desc"))
  }

  /** The key ends with "/" exactly when the file is empty or itself ends with "/". */
  lemma KeyEndsWithSlash(eventId: string, file: string)
    ensures EndsWith(ObjectKey(eventId, file), "/") <==> file == "" || EndsWith(file, "/")
  {
    var p := EventPrefix(eventId);
    var k := ObjectKey(eventId, file);
    assert k == p + file;
    if file != "" {
      assert k[|k| - 1..] == file[|file| - 1..];
    } else {
      assert k[|k| - 1..] == p[|p| - 1..];
    }
  }

  /** `photos.map(...).filter((p) => p.key && !p.key.endsWith("/"))` */
  function GalleryPhotos(eventId: string, photos: seq<Json>): (r: seq<Photo>)
    ensures |r| <= |photos|
  {
    if photos == [] then []
    else
      GalleryPhotos(eventId, photos[..|photos| - 1]) + Kept(PhotoOf(eventId, photos[|photos| - 1]))
  }

  /** The filter's verdict on one photo. */
  function Kept(p: Photo): (r: seq<Photo>)
    ensures r == [] || r == [p]
  {
    if EndsWith(p.key, "/") then [] else [p]
  }

  /** Manifest entry `p` is shown as photo `x`: it maps to `x` and names a
    * file that is neither empty nor ends with "/". */
  predicate ShownAs(eventId: string, p: Json, x: Photo) {
    PhotoOf(eventId, p) == x && StringMember(p, "file") != "" && !EndsWith(StringMember(p, "file"), "/")
  }

  lemma ShownAsKept(eventId: string, p: Json, x: Photo)
    ensures x in Kept(PhotoOf(eventId, p)) <==> ShownAs(eventId, p, x)
  {
    KeyEndsWithSlash(eventId, StringMember(p, "file"));
  }

  /** A photo is in the gallery exactly when some manifest entry is shown as it. */
  lemma {:induction false} GalleryPhotosMembers(eventId: string, photos: seq<Json>, x: Photo)
    ensures x in GalleryPhotos(eventId, photos) <==> exists j :: 0 <= j < |photos| && ShownAs(eventId, photos[j], x)
  {
    if photos != [] {
      var init, last := photos[..|photos| - 1], photos[|photos| - 1];
      assert photos == init + [last];
      GalleryPhotosSnoc(eventId, init, last);
      GalleryPhotosMembers(eventId, init, x);
      ShownAsKept(eventId, last, x);
      ShownSomewhereSnoc(eventId, init, last, x);
    }
  }

  /** Some entry of `init + [last]` is shown as `x` exactly when some entry
    * of `init` is, or `last` is. */
  lemma ShownSomewhereSnoc(eventId: string, init: seq<Json>, last: Json, x: Photo)
    ensures (exists j :: 0 <= j < |init + [last]| && ShownAs(eventId, (init + [last])[j], x)) <==>
            (exists j :: 0 <= j < |init| && ShownAs(eventId, init[j], x)) || ShownAs(eventId, last, x)
  {
    var all := init + [last];
    if exists j :: 0 <= j < |init| && ShownAs(eventId, init[j], x) {
      var j :| 0 <= j < |init| && ShownAs(eventId, init[j], x);
      assert all[j] == init[j];
    }
    if ShownAs(eventId, last, x) {
      assert all[|init|] == last;
    }
    if exists j :: 0 <= j < |all| && ShownAs(eventId, all[j], x) {
      var j :| 0 <= j < |all| && ShownAs(eventId, all[j], x);
      if j < |init| {
        assert init[j] == all[j];
      }
    }
  }

  /** Appending one entry to the manifest appends its photo, if kept. */
  lemma GalleryPhotosSnoc(eventId: string, photos: seq<Json>, x: Json)
    ensures GalleryPhotos(eventId, photos + [x]) == GalleryPhotos(eventId, photos) + Kept(PhotoOf(eventId, x))
  {
    var all := photos + [x];
    assert all[..|all| - 1] == photos;
    assert all[|all| - 1] == x;
  }

  /** After an upload of a file whose name neither is empty nor ends with
    * "/", reloading the event shows the photos it showed before and then the
    * new photo with its description. */
  lemma {:induction false} UploadedPhotoShownLast(eventId: string, m: Json, file: string, desc: string, now: string)
    requires m.JObj? && file != "" && !EndsWith(file, "/")
    ensures GalleryPhotos(eventId, ArrayMember(AppendPhoto(m, file, desc, now).value, "photos")) ==
            GalleryPhotos(eventId, ArrayMember(m, "photos")) + [Photo(ObjectKey(eventId, file), desc)]
  {
    var entry := PhotoEntry(file, desc, now);
    var r := AppendPhoto(m, file, desc, now).value;
    assert Member(r, "photos") == Some(JArr(ArrayMember(m, "photos") + [entry]));
    GalleryPhotosSnoc(eventId, ArrayMember(m, "photos"), entry);
    EntryShown(eventId, file, desc, now);
  }

  /** The entry of an uploaded file is shown with its key and description. */
  lemma EntryShown(eventId: string, file: string, desc: string, now: string)
    requires file != "" && !EndsWith(file, "/")
    ensures Kept(PhotoOf(eventId, PhotoEntry(file, desc, now))) == [Photo(ObjectKey(eventId, file), desc)]
  {
    var entry := PhotoEntry(file, desc, now);
    assert StringMember(entry, "file") == file && StringMember(entry, "desc") == desc;
    KeyEndsWithSlash(eventId, file);
  }

  /** `[date, note].filter(Boolean).join(" · ")` */
  function EventMeta(date: string, note: string): (r: string)
    ensures date == "" ==> r == note
    ensures note == "" ==> r == date
    ensures date != "" && note != "" ==> r == date + " · " + note
  {
    if date == "" then note else if note == "" then date else date + " · " + note
  }

  /** `typeof manifest?.title === "string" ? manifest.title : eventId` */
  function EventTitle(eventId: string, manifest: Json): (r: string)
    ensures IsStringMember(manifest, "title") ==> Member(manifest, "title") == Some(JStr(r))
    ensures !IsStringMember(manifest, "title") ==> r == eventId
  {
    if IsStringMember(manifest, "title") then StringMember(manifest, "title") else eventId
  }

  /** The state the event view's handlers read and write. `imageKey` is the
    * key behind `lightboxImg.src` ("" once cleared). */
  datatype Screen = Screen(photos: seq<Photo>, currentIndex: int, isOpen: bool,
                           imageKey: string, caption: string, bodyOverflow: string,
                           title: string, meta: string)

  /** The lightbox shows a photo of the list whenever it is open. */
  predicate Coherent(s: Screen) {
    s.isOpen ==> 0 <= s.currentIndex < |s.photos| &&
                 s.imageKey == s.photos[s.currentIndex].key && s.caption == s.photos[s.currentIndex].desc
  }

  /** `setLightboxContent(idx)`: `currentIndex` is assigned first; an index
    * outside the list then throws on `photo.key` and nothing else changes. */
  function SetContent(s: Screen, idx: int): (r: Screen)
    ensures r.currentIndex == idx && r.photos == s.photos && r.isOpen == s.isOpen
    ensures r.bodyOverflow == s.bodyOverflow && r.title == s.title && r.meta == s.meta
    ensures 0 <= idx < |s.photos| ==> r.imageKey == s.photos[idx].key && r.caption == s.photos[idx].desc
    ensures !(0 <= idx < |s.photos|) ==> r.imageKey == s.imageKey && r.caption == s.caption
  {
    if 0 <= idx < |s.photos| then
      s.(currentIndex := idx, imageKey := s.photos[idx].key, caption := s.photos[idx].desc)
    else s.(currentIndex := idx)
  }

  /** `openLightbox(idx)`: the lightbox opens only when the content was set. */
  function Open(s: Screen, idx: int): (r: Screen)
    ensures 0 <= idx < |s.photos| ==> r == SetContent(s, idx).(isOpen := true, bodyOverflow := "hidden")
    ensures !(0 <= idx < |s.photos|) ==> r == SetContent(s, idx)
  {
    var t := SetContent(s, idx);
    if 0 <= idx < |s.photos| then t.(isOpen := true, bodyOverflow := "hidden") else t
  }

  /** `closeLightbox()`: the caption is left as it was. */
  function Close(s: Screen): (r: Screen)
    ensures !r.isOpen && r.imageKey == "" && r.bodyOverflow == "" && r.currentIndex == -1
    ensures r.photos == s.photos && r.caption == s.caption && r.title == s.title && r.meta == s.meta
  {
    s.(isOpen := false, imageKey := "", bodyOverflow := "", currentIndex := -1)
  }

  /** `showNext()` */
  function ShowNext(s: Screen): Screen {
    if !s.isOpen || |s.photos| == 0 then s else SetContent(s, NextIndex(s.currentIndex, |s.photos|))
  }

  /** `showPrev()` */
  function ShowPrev(s: Screen): Screen {
    if !s.isOpen || |s.photos| == 0 then s else SetContent(s, PrevIndex(s.currentIndex, |s.photos|))
  }

  /** The `keydown` listener. */
  function KeyDown(s: Screen, key: string): Screen {
    if !s.isOpen then s
    else if key == "Escape" then Close(s)
    else if key == "ArrowRight" then ShowNext(s)
    else if key == "ArrowLeft" then ShowPrev(s)
    else s
  }

  /** `loadEvent(eventId)` once the manifest has been fetched: the heading
    * and the photo list are replaced; the lightbox is left alone. */
  function LoadEvent(s: Screen, eventId: string, manifest: Json): (r: Screen)
    ensures r.photos == GalleryPhotos(eventId, ArrayMember(manifest, "photos"))
    ensures r.title == EventTitle(eventId, manifest)
    ensures r.meta == EventMeta(StringMember(manifest, "date"), StringMember(manifest, "note"))
    ensures r.currentIndex == s.currentIndex && r.isOpen == s.isOpen && r.imageKey == s.imageKey
    ensures r.caption == s.caption && r.bodyOverflow == s.bodyOverflow
  {
    s.(photos := GalleryPhotos(eventId, ArrayMember(manifest, "photos")),
       title := EventTitle(eventId, manifest),
       meta := EventMeta(StringMember(manifest, "date"), StringMember(manifest, "note")))
  }

  /** Opening on a photo of the list shows that photo; opening outside it
    * throws and leaves the lightbox closed if it was closed. */
  lemma OpenShows(s: Screen, idx: int)
    ensures 0 <= idx < |s.photos| ==> Open(s, idx).isOpen && Coherent(Open(s, idx)) &&
                                      Open(s, idx).imageKey == s.photos[idx].key
    ensures !(0 <= idx < |s.photos|) ==> Open(s, idx).isOpen == s.isOpen
  {
  }

  /** `showNext` moves `i` to `(i + 1) mod N` and `showPrev` to
    * `(i - 1 + N) mod N`, each showing the photo it lands on. */
  lemma NavigationCycles(s: Screen)
    requires Coherent(s) && s.isOpen
    ensures var n, i := |s.photos|, s.currentIndex;
      ShowNext(s).currentIndex == (if i == n - 1 then 0 else i + 1) &&
      ShowPrev(s).currentIndex == (if i == 0 then n - 1 else i - 1)
    ensures Coherent(ShowNext(s)) && Coherent(ShowPrev(s)) && ShowNext(s).isOpen && ShowPrev(s).isOpen
    ensures ShowPrev(ShowNext(s)) == s && ShowNext(ShowPrev(s)) == s
  {
    var n, i := |s.photos|, s.currentIndex;
    StepsStayInRange(i, n);
    NextPrevInverse(i, n);
  }

  /** With the lightbox closed or the list empty, both moves do nothing. */
  lemma NavigationIdle(s: Screen)
    requires !s.isOpen || s.photos == []
    ensures ShowNext(s) == s && ShowPrev(s) == s
  {
  }

  /** Escape closes an open lightbox; every key is ignored while it is
    * closed; every transition keeps the lightbox showing a listed photo. */
  lemma KeysKeepCoherent(s: Screen, key: string)
    requires Coherent(s)
    ensures !s.isOpen ==> KeyDown(s, key) == s
    ensures s.isOpen && key == "Escape" ==> KeyDown(s, key) == Close(s) && KeyDown(s, key).currentIndex == -1
    ensures Coherent(KeyDown(s, key))
  {
    if s.isOpen && |s.photos| > 0 {
      NavigationCycles(s);
    }
  }

  /** The event view of timeline.js as mutable state. */
  class EventPage {
    var photos: seq<Photo>
    var currentIndex: int
    var isOpen: bool
    var imageKey: string
    var caption: string
    var bodyOverflow: string
    var title: string
    var meta: string

    ghost function View(): Screen
      reads this
    {
      Screen(photos, currentIndex, isOpen, imageKey, caption, bodyOverflow, title, meta)
    }

    /** The page as loaded: no photos, `currentIndex = -1`, lightbox hidden. */
    constructor ()
      ensures View() == Screen([], -1, false, "", "", "", "", "")
    {
      photos, currentIndex, isOpen := [], -1, false;
      imageKey, caption, bodyOverflow, title, meta := "", "", "", "", "";
    }

    method SetLightboxContent(idx: int)
      modifies this
      ensures View() == SetContent(old(View()), idx)
    {
      currentIndex := idx;
      if 0 <= idx < |photos| {
        var photo := photos[currentIndex];
        imageKey := photo.key;
        caption := photo.desc;
      }
    }

    method OpenLightbox(idx: int)
      modifies this
      ensures View() == Open(old(View()), idx)
    {
      SetLightboxContent(idx);
      if 0 <= idx < |photos| {
        isOpen := true;
        bodyOverflow := "hidden";
      }
    }

    method CloseLightbox()
      modifies this
      ensures View() == Close(old(View()))
    {
      isOpen := false;
      imageKey := "";
      bodyOverflow := "";
      currentIndex := -1;
    }

    method ShowNextPhoto()
      modifies this
      ensures View() == ShowNext(old(View()))
    {
      if !isOpen || |photos| == 0 {
        return;
      }
      var next := JsRem(currentIndex + 1, |photos|);
      SetLightboxContent(next);
    }

    method ShowPrevPhoto()
      modifies this
      ensures View() == ShowPrev(old(View()))
    {
      if !isOpen || |photos| == 0 {
        return;
      }
      var prev := JsRem(currentIndex - 1 + |photos|, |photos|);
      SetLightboxContent(prev);
    }

    method OnKeyDown(key: string)
      modifies this
      ensures View() == KeyDown(old(View()), key)
    {
      if !isOpen {
        return;
      }
      if key == "Escape" {
        CloseLightbox();
      } else if key == "ArrowRight" {
        ShowNextPhoto();
      } else if key == "ArrowLeft" {
        ShowPrevPhoto();
      }
    }

    /** `loadEvent` given the fetched manifest; a failed fetch throws before
      * any change and is not a call of this method. */
    method LoadEventPhotos(eventId: string, manifest: Json)
      modifies this
      ensures View() == LoadEvent(old(View()), eventId, manifest)
    {
      title := EventTitle(eventId, manifest);
      meta := EventMeta(StringMember(manifest, "date"), StringMember(manifest, "note"));
      photos := GalleryPhotos(eventId, ArrayMember(manifest, "photos"));
    }
  }
}
