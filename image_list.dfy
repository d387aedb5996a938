/** `GET /api/list` (functions/api/list.js): the image keys of one listing page, sorted. */
module ImageList {
  import opened Text
  import opened Store
  import opened Sorting

  /** The suffixes of `/\.(png|jpe?g|gif|webp|avif)$/`. */
  const ImageSuffixes: seq<string> := [".png", ".jpg", ".jpeg", ".gif", ".webp", ".avif"]

  /** The pattern with its `i` flag. Case-insensitive matching without the
    * `u` flag never lets a non-ASCII character match an ASCII one, so
    * lower-casing the ASCII letters is exact. */
  predicate IsImageKey(k: string) {
    exists i :: 0 <= i < |ImageSuffixes| && EndsWith(Lower(k), ImageSuffixes[i])
  }

  function FilterImages(keys: seq<string>): (r: seq<string>)
    ensures forall k :: k in r <==> k in keys && IsImageKey(k)
    ensures multiset(r) <= multiset(keys) && |r| <= |keys|
    ensures forall k :: multiset(r)[k] == if IsImageKey(k) then multiset(keys)[k] else 0
  {
    if keys == [] then []
    else
      var rest := FilterImages(keys[..|keys| - 1]);
      var last := keys[|keys| - 1];
      assert keys == keys[..|keys| - 1] + [last];
      rest + (if IsImageKey(last) then [last] else [])
  }

  /** `listed.objects.map(o => o.key).filter(isImage).sort()`; `sort()`
    * without a comparator orders by UTF-16 code units. */
  function ListImages(page: Page): seq<string> {
    SortBy(FilterImages(page.keys), LexLeq)
  }

  lemma LexLeqIsTotalPreorder()
    ensures TotalPreorder(LexLeq)
  {
    forall a, b ensures LexLeq(a, b) || LexLeq(b, a) {
      LexLeqTotal(a, b);
    }
    forall a, b, c | LexLeq(a, b) && LexLeq(b, c) ensures LexLeq(a, c) {
      LexLeqTrans(a, b, c);
    }
  }

  /** The answer is sorted, holds exactly the image keys of the page (each as
    * often as listed) and so has at most as many keys as the page. */
  lemma ListImagesSpec(page: Page)
    ensures Sorted(ListImages(page), LexLeq)
    ensures forall k :: k in ListImages(page) <==> k in page.keys && IsImageKey(k)
    ensures multiset(ListImages(page)) <= multiset(page.keys)
    ensures forall k :: multiset(ListImages(page))[k] == if IsImageKey(k) then multiset(page.keys)[k] else 0
    ensures |ListImages(page)| <= |page.keys|
  {
    LexLeqIsTotalPreorder();
    SortBySorted(FilterImages(page.keys), LexLeq);
    var r, f := ListImages(page), FilterImages(page.keys);
    assert multiset(r) == multiset(f);
    forall k ensures k in r <==> k in f {
      assert k in r <==> k in multiset(r);
      assert k in f <==> k in multiset(f);
    }
  }
}
