/** `GET /api/img?key=...` (functions/api/img.js): the object with caching headers. */
module ImageServe {
  import opened Wrappers
  import opened Store

  const DefaultImageType := "image/jpeg"
  const ImageCacheControl := "private, max-age=3600"

  datatype ImageReply =
    | ImageFail(status: int, message: string)
    | NotModified
    | Image(body: Body, contentType: string, cacheControl: string, etag: Option<string>)

  /** The handler, given the `key` query parameter, the `httpEtag` the bucket
    * reports for the object at that key ("" when it has none) and the
    * `If-None-Match` request header. */
  function ServeImage(objects: map<string, StoredObject>, key: Option<string>, etag: string,
                      ifNoneMatch: Option<string>): (r: ImageReply)
    ensures (key.None? || key == Some("")) ==> r == ImageFail(400, "Missing key")
    ensures key.Some? && key.value != "" && key.value !in objects ==> r == ImageFail(404, "Not found")
    ensures r.NotModified? <==>
      key.Some? && key.value != "" && key.value in objects && etag != "" && ifNoneMatch == Some(etag)
    ensures r.Image? ==>
      key.Some? && key.value in objects &&
      r.body == objects[key.value].body &&
      r.contentType == (if objects[key.value].contentType != "" then objects[key.value].contentType else DefaultImageType) &&
      r.cacheControl == ImageCacheControl &&
      (r.etag.Some? <==> etag != "") && (r.etag.Some? ==> r.etag.value == etag)
    ensures key.Some? && key.value != "" && key.value in objects && !r.NotModified? ==> r.Image?
  {
    if key.None? || key.value == "" then ImageFail(400, "Missing key")
    else if key.value !in objects then ImageFail(404, "Not found")
    else if etag != "" && ifNoneMatch == Some(etag) then NotModified
    else
      var obj := objects[key.value];
      Image(obj.body, if obj.contentType != "" then obj.contentType else DefaultImageType,
            ImageCacheControl, if etag != "" then Some(etag) else None)
  }
}
