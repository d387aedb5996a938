/** `POST /api/upload` (functions/api/upload.js): the standalone upload into `uploads/`. */
module LegacyUpload {
  import opened Wrappers
  import opened Text
  import opened Http
  import opened Store
  import opened EventIds
  import opened Media

  /** `20 * 1024 * 1024` bytes. */
  const MaxLegacyUpload := 20 * 1024 * 1024
  const MaxDesc := 500

  /** `uploads/${yyyy}-${mm}-${dd}/${Date.now()}-${rnd}.${ext}`, given the
    * local year, the 0-based month (`getMonth()`), the day of the month,
    * the epoch milliseconds and the random hex digits. */
  function GenKey(ext: string, year: nat, month0: nat, day: nat, nowMs: nat, fraction: string): string
    requires AllHex(fraction)
  {
    "uploads/" + DateFolder(year, month0, day) + "/" + Decimal(nowMs) + "-" + RandomHex(fraction, 8) + "." + ext
  }

  /** `${yyyy}-${mm}-${dd}` with the month made 1-based and both padded to two digits. */
  function DateFolder(year: nat, month0: nat, day: nat): string {
    Decimal(year) + "-" + Pad2(month0 + 1) + "-" + Pad2(day)
  }

  /** For a four-digit year the folder has the `YYYY-MM-DD` shape and its
    * month and day read back as the 1-based month and the day. */
  lemma {:induction false} DateFolderShape(year: nat, month0: nat, day: nat)
    requires 1000 <= year <= 9999 && month0 < 12 && day < 100
    ensures var f := DateFolder(year, month0, day);
      IsDateShaped(f) && DigitsValue(f[5..7]) == month0 + 1 && DigitsValue(f[8..10]) == day
  {
    var y, m, d := Decimal(year), Pad2(month0 + 1), Pad2(day);
    Pad2RoundTrip(month0 + 1);
    Pad2RoundTrip(day);
    assert |y| == 4 by { DecimalLength4(year); }
    var f := DateFolder(year, month0, day);
    assert f[5..7] == m && f[8..10] == d;
    assert f[..4] == y;
    assert f[0] == y[0] && f[1] == y[1] && f[2] == y[2] && f[3] == y[3];
    assert f[5] == m[0] && f[6] == m[1] && f[8] == d[0] && f[9] == d[1];
  }

  lemma {:induction false} DecimalLength4(n: nat)
    requires 1000 <= n <= 9999
    ensures |Decimal(n)| == 4
  {
    assert |Decimal(n / 10)| == 3 by {
      assert |Decimal(n / 100)| == 2 by {
        assert |Decimal(n / 1000)| == 1;
      }
    }
  }

  /** The key lies under `uploads/` and keeps the file's extension. */
  lemma {:induction false} GenKeyShape(ext: string, year: nat, month0: nat, day: nat, nowMs: nat, fraction: string)
    requires AllHex(fraction) && ext != [] && AllLowerAlnum(ext)
    ensures StartsWith(GenKey(ext, year, month0, day, nowMs, fraction), "uploads/")
    ensures NameExt(GenKey(ext, year, month0, day, nowMs, fraction)) == Some(ext)
  {
    var base := "uploads/" + DateFolder(year, month0, day) + "/" + Decimal(nowMs) + "-" + RandomHex(fraction, 8);
    assert GenKey(ext, year, month0, day, nowMs, fraction) == base + "." + ext;
    UploadsPrefix(base, ext);
    NameExtOfDotted(base, ext);
  }

  lemma UploadsPrefix(base: string, ext: string)
    requires StartsWith(base, "uploads/")
    ensures StartsWith(base + "." + ext, "uploads/")
  {
    assert (base + "." + ext)[..8] == base[..8];
  }

  /** `String(form.get("desc") || "").slice(0, 500)`: a file entry is
    * rendered as "[object File]"; the text is not trimmed. */
  function LegacyDesc(e: FormEntry): (r: string)
    ensures |r| <= MaxDesc
    ensures e.Absent? ==> r == ""
    ensures e.Field? ==> |r| <= |e.text| && r == e.text[..|r|] && (|e.text| <= MaxDesc ==> r == e.text) && (|e.text| > MaxDesc ==> |r| == MaxDesc)
    ensures e.Attachment? ==> r == "[object File]"
  {
    match e
    case Absent => ""
    case Field(t) => SliceTo(t, MaxDesc)
    case Attachment(_) => "[object File]"
  }

  /**
   * The handler, given the content type, the parsed form, the clock readings
   * (local date parts and epoch milliseconds) and the random hex digits.
   */
  method HandleUpload(bucket: Bucket, contentType: Option<string>, form: Option<Form>,
                      year: nat, month0: nat, day: nat, nowMs: nat, fraction: string) returns (reply: Reply<string>)
    requires AllHex(fraction)
    modifies bucket
    ensures !IsMultipart(contentType) ==> reply == Fail(400, "Expected multipart/form-data")
    ensures IsMultipart(contentType) && form.None? ==> reply == Crash
    ensures IsMultipart(contentType) && form.Some? ==>
      var fileEntry := FormGet(form.value, "file");
      (!fileEntry.Attachment? ==> reply == Fail(400, "Missing file")) &&
      (fileEntry.Attachment? && !IsImageType(fileEntry.file.mime) ==> reply == Fail(400, "Only image uploads allowed")) &&
      (fileEntry.Attachment? && IsImageType(fileEntry.file.mime) && fileEntry.file.size > MaxLegacyUpload ==>
         reply == Fail(413, "File too large")) &&
      (fileEntry.Attachment? && IsImageType(fileEntry.file.mime) && fileEntry.file.size <= MaxLegacyUpload ==>
         var file := fileEntry.file;
         var key := GenKey(ExtFromType(file.mime, file.name), year, month0, day, nowMs, fraction);
         reply == Ok(key) &&
         bucket.objects == old(bucket.objects)[key := StoredObject(Bytes(file), file.mime, Some(LegacyDesc(FormGet(form.value, "desc"))))])
    ensures !reply.Ok? ==> bucket.objects == old(bucket.objects)
  {
    if !IsMultipart(contentType) {
      return Fail(400, "Expected multipart/form-data");
    }
    if form.None? {
      return Crash;
    }
    var fileEntry := FormGet(form.value, "file");
    var desc := LegacyDesc(FormGet(form.value, "desc"));
    if !fileEntry.Attachment? {
      return Fail(400, "Missing file");
    }
    var file := fileEntry.file;
    if !IsImageType(file.mime) {
      return Fail(400, "Only image uploads allowed");
    }
    if file.size > MaxLegacyUpload {
      return Fail(413, "File too large");
    }
    var ext := ExtFromType(file.mime, file.name);
    var key := GenKey(ext, year, month0, day, nowMs, fraction);
    bucket.Put(key, StoredObject(Bytes(file), file.mime, Some(desc)));
    return Ok(key);
  }
}
