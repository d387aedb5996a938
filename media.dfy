/**
 * `extFromType`, shared by functions/api/event-upload.js and
 * functions/api/upload.js: the extension an uploaded image is stored under.
 */
module Media {
  import opened Wrappers
  import opened Text

  /** The lookup table keyed by MIME type. */
  function KnownExt(mime: string): Option<string> {
    if mime == "image/jpeg" then Some("jpg")
    else if mime == "image/png" then Some("png")
    else if mime == "image/webp" then Some("webp")
    else if mime == "image/gif" then Some("gif")
    else if mime == "image/avif" then Some("avif")
    else None
  }

  /** The longest suffix of `s` made of `[a-z0-9]`. */
  function AlnumTail(s: string): (r: string)
    ensures |r| <= |s| && r == s[|s| - |r|..] && AllLowerAlnum(r)
    ensures |r| < |s| ==> !IsLowerAlnum(s[|s| - |r| - 1])
  {
    if s != [] && IsLowerAlnum(s[|s| - 1]) then
      var t := AlnumTail(s[..|s| - 1]);
      assert s[..|s| - 1][|s| - 1 - |t|..] + [s[|s| - 1]] == s[|s| - |t| - 1..];
      t + [s[|s| - 1]]
    else []
  }

  /** An all-`[a-z0-9]` suffix is never longer than the longest one. */
  lemma {:induction false} AlnumTailLongest(s: string, k: nat)
    requires k <= |s| && AllLowerAlnum(s[|s| - k..])
    ensures k <= |AlnumTail(s)|
  {
    assert forall j :: |s| - k <= j < |s| ==> IsLowerAlnum(s[j]) by {
      forall j | |s| - k <= j < |s| ensures IsLowerAlnum(s[j]) {
        assert s[j] == s[|s| - k..][j - (|s| - k)];
      }
    }
  }

  /** The longest suffix stops before a character outside `[a-z0-9]`. */
  lemma AlnumTailStops(s: string, j: nat)
    requires j < |s| && !IsLowerAlnum(s[j])
    ensures |AlnumTail(s)| <= |s| - j - 1
  {
    var t := AlnumTail(s);
    assert forall i :: |s| - |t| <= i < |s| ==> IsLowerAlnum(s[i]) by {
      forall i | |s| - |t| <= i < |s| ensures IsLowerAlnum(s[i]) {
        assert s[i] == t[i - (|s| - |t|)];
      }
    }
  }

  /** `/\.([a-z0-9]+)$/` on an already lower-cased name. */
  function DottedExt(l: string): (r: Option<string>)
    ensures r.Some? ==> r.value != [] && AllLowerAlnum(r.value)
  {
    var t := AlnumTail(l);
    if t != [] && |t| < |l| && l[|l| - |t| - 1] == '.' then Some(t) else None
  }

  /** `filename.toLowerCase().match(/\.([a-z0-9]+)$/)?.[1]` */
  function NameExt(name: string): (r: Option<string>)
    ensures r.Some? ==> r.value != [] && AllLowerAlnum(r.value)
  {
    DottedExt(Lower(name))
  }

  /** The regular expression's reading: the extension is exactly a non-empty
    * run of `[a-z0-9]` that the lower-cased name ends with, after a dot. */
  lemma NameExtMatches(name: string, e: string)
    ensures NameExt(name) == Some(e) <==> e != [] && AllLowerAlnum(e) && EndsWith(Lower(name), "." + e)
  {
    var l := Lower(name);
    if DottedExt(l) == Some(e) {
      DottedExtSound(l, e);
    }
    if e != [] && AllLowerAlnum(e) && EndsWith(l, "." + e) {
      DottedExtComplete(l, e);
    }
  }

  lemma DottedExtSound(l: string, e: string)
    requires DottedExt(l) == Some(e)
    ensures e != [] && AllLowerAlnum(e) && EndsWith(l, "." + e)
  {
    var t := AlnumTail(l);
    assert l[|l| - |t| - 1..] == "." + t;
  }

  lemma {:induction false} DottedExtComplete(l: string, e: string)
    requires e != [] && AllLowerAlnum(e) && EndsWith(l, "." + e)
    ensures DottedExt(l) == Some(e)
  {
    var t := AlnumTail(l);
    var d := |l| - |e| - 1;
    assert l[d..] == "." + e;
    assert l[d] == '.' && l[d + 1..] == e;
    AlnumTailLongest(l, |e|);
    AlnumTailStops(l, d);
    assert t == l[|l| - |e|..];
  }

  /** A name `base.ext` with a lower-case alphanumeric extension yields it. */
  lemma {:induction false} NameExtOfDotted(base: string, e: string)
    requires e != [] && AllLowerAlnum(e)
    ensures NameExt(base + "." + e) == Some(e)
  {
    var n := base + "." + e;
    var l := Lower(n);
    assert l[|l| - |"." + e|..] == "." + e by {
      forall i | 0 <= i < |"." + e| ensures l[|l| - |"." + e| + i] == ("." + e)[i] {
        assert n[|n| - |"." + e| + i] == ("." + e)[i];
      }
    }
    NameExtMatches(n, e);
  }

  /** `extFromType(type, filename)`: the table entry, else the name's
    * extension, else "bin". */
  function ExtFromType(mime: string, name: string): (r: string)
    ensures r != [] && AllLowerAlnum(r)
    ensures KnownExt(mime).Some? ==> r == KnownExt(mime).value
    ensures KnownExt(mime).None? && NameExt(name).Some? ==> r == NameExt(name).value
    ensures KnownExt(mime).None? && NameExt(name).None? ==> r == "bin"
  {
    match KnownExt(mime)
    case Some(e) => e
    case None => NameExt(name).GetOr("bin")
  }
}
