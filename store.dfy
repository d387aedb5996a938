/** What a handler receives and answers: multipart forms, files and replies. */
module Http {
  import opened Wrappers
  import opened Text

  /** A `File` entry of a multipart form. */
  datatype File = File(name: string, mime: string, size: nat)

  /** `form.get(name)`: `null`, a string entry or a file entry. */
  datatype FormEntry = Absent | Field(text: string) | Attachment(file: File)

  type Form = map<string, FormEntry>

  function FormGet(form: Form, name: string): FormEntry {
    if name in form then form[name] else Absent
  }

  /** A handler's answer: an error status with its plain-text message, a
    * success value, or an exception that escapes the handler. */
  datatype Reply<T> = Fail(status: int, message: string) | Ok(value: T) | Crash

  /** `(request.headers.get("content-type") || "").includes("multipart/form-data")` */
  predicate IsMultipart(contentType: Option<string>) {
    Contains(contentType.GetOr(""), "multipart/form-data")
  }

  /** `file.type?.startsWith("image/")` */
  predicate IsImageType(mime: string) {
    StartsWith(mime, "image/")
  }
}

/** The bucket: keyed objects, single puts, batch deletes and a paginated listing. */
module Store {
  import opened Wrappers
  import opened JsonValue
  import opened Http

  /** A stored body: a JSON document, or the bytes of an uploaded file
    * (which do not parse as JSON). */
  datatype Body = JsonText(doc: Json) | Bytes(file: File)

  /** An object with its HTTP content type ("" when none was recorded) and
    * the `desc` custom metadata entry, if any. */
  datatype StoredObject = StoredObject(body: Body, contentType: string, desc: Option<string>)

  const JsonContentType := "application/json; charset=utf-8"

  /** `await obj.json()`: the document, or `None` when parsing throws. */
  function ParseBody(b: Body): (r: Option<Json>)
    ensures r.Some? <==> b.JsonText?
    ensures r.Some? ==> r.value == b.doc
  {
    match b
    case JsonText(doc) => Some(doc)
    case Bytes(_) => None
  }

  /** `JSON.stringify(doc)` put with the JSON content type. */
  function StoredJson(doc: Json): StoredObject {
    StoredObject(JsonText(doc), JsonContentType, None)
  }

  function KeySet(keys: seq<string>): set<string> {
    set k | k in keys
  }

  /** One answer of `bucket.list({prefix, cursor, limit: 1000})`. */
  datatype Page = Page(keys: seq<string>, truncated: bool, cursor: string)

  /** The listing protocol, given the prefix and the cursor (`None` for the first call). */
  type PageSource = (string, Option<string>) -> Page

  const PageLimit := 1000

  /** The page loop is over after this page: not truncated, or no cursor to go on with. */
  predicate LastPage(p: Page) {
    !p.truncated || p.cursor == ""
  }

  /** The keys a cursor loop allowed `pages` more list calls collects, in listing order. */
  function ListedKeys(source: PageSource, prefix: string, cursor: Option<string>, pages: nat): seq<string>
    decreases pages
  {
    if pages == 0 then []
    else
      var p := source(prefix, cursor);
      if LastPage(p) then p.keys else p.keys + ListedKeys(source, prefix, Some(p.cursor), pages - 1)
  }

  /** The number of list calls that loop makes. */
  function ListCalls(source: PageSource, prefix: string, cursor: Option<string>, pages: nat): (n: nat)
    ensures n <= pages
    ensures pages > 0 ==> n >= 1
    decreases pages
  {
    if pages == 0 then 0
    else
      var p := source(prefix, cursor);
      if LastPage(p) then 1 else 1 + ListCalls(source, prefix, Some(p.cursor), pages - 1)
  }

  ghost predicate PagesWithinLimit(source: PageSource, prefix: string) {
    forall c :: |source(prefix, c).keys| <= PageLimit
  }

  /** With at most 1000 keys a page, a loop capped at `pages` calls collects
    * at most `1000 * pages` keys. */
  lemma {:induction false} ListedKeysBound(source: PageSource, prefix: string, cursor: Option<string>, pages: nat)
    requires PagesWithinLimit(source, prefix)
    ensures |ListedKeys(source, prefix, cursor, pages)| <= PageLimit * pages
    decreases pages
  {
    if pages > 0 {
      var p := source(prefix, cursor);
      if !LastPage(p) {
        ListedKeysBound(source, prefix, Some(p.cursor), pages - 1);
      }
    }
  }

  /** A single untruncated first page is the whole listing. */
  lemma {:induction false} ListedKeysSinglePage(source: PageSource, prefix: string, pages: nat)
    requires pages > 0 && LastPage(source(prefix, None))
    ensures ListedKeys(source, prefix, None, pages) == source(prefix, None).keys
    ensures ListCalls(source, prefix, None, pages) == 1
  {
  }

  /** `listAllWithPrefix`: the cursor loop, at most `maxPages` list calls. */
  method ListAllWithPrefix(source: PageSource, prefix: string, maxPages: nat) returns (keys: seq<string>, calls: nat)
    ensures keys == ListedKeys(source, prefix, None, maxPages)
    ensures calls == ListCalls(source, prefix, None, maxPages) && calls <= maxPages
  {
    keys, calls := [], 0;
    var cursor: Option<string> := None;
    var page := 0;
    while page < maxPages
      invariant 0 <= page <= maxPages
      invariant keys + ListedKeys(source, prefix, cursor, maxPages - page) == ListedKeys(source, prefix, None, maxPages)
      invariant calls + ListCalls(source, prefix, cursor, maxPages - page) == ListCalls(source, prefix, None, maxPages)
    {
      var listed := source(prefix, cursor);
      keys := keys + listed.keys;
      calls := calls + 1;
      if !listed.truncated {
        break;
      }
      cursor := Some(listed.cursor);
      if listed.cursor == "" {
        break;
      }
      assert keys + ListedKeys(source, prefix, cursor, maxPages - page - 1) == ListedKeys(source, prefix, None, maxPages);
      page := page + 1;
    }
  }

  /** The bucket store, as the state the handlers read and change. */
  class Bucket {
    var objects: map<string, StoredObject>

    constructor (initial: map<string, StoredObject>)
      ensures objects == initial
    {
      objects := initial;
    }

    /** `bucket.put(key, body, options)` */
    method Put(key: string, obj: StoredObject)
      modifies this
      ensures objects == old(objects)[key := obj]
    {
      objects := objects[key := obj];
    }

    /** `bucket.delete(keys)`: keys that are not stored are ignored. */
    method Delete(keys: seq<string>)
      modifies this
      ensures objects == old(objects) - KeySet(keys)
    {
      objects := objects - KeySet(keys);
    }
  }
}
