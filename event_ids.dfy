/**
 * Event identifiers: the slug derived from a title, the id pattern
 * `^[a-z0-9-]{3,80}$`, the `YYYY-MM-DD` shape test and the composition
 * `{date}-{slug}-{suffix}` (functions/api/event-create.js).
 */
module EventIds {
  import opened Text

  /** `[a-z0-9-]` */
  predicate IsSlugChar(c: char) { IsLowerAlnum(c) || c == '-' }

  predicate AllSlug(s: string) { forall i :: 0 <= i < |s| ==> IsSlugChar(s[i]) }

  /** Positions `i` and `i + 1` both hold a dash. */
  predicate DashPairAt(s: string, i: int)
    requires 0 <= i < |s| - 1
  {
    s[i] == '-' && s[i + 1] == '-'
  }

  predicate NoDoubleDash(s: string) { forall i :: 0 <= i < |s| - 1 ==> !DashPairAt(s, i) }

  lemma AllSlugConcat(a: string, b: string)
    ensures AllSlug(a + b) <==> AllSlug(a) && AllSlug(b)
  {
    if AllSlug(a + b) {
      forall i | 0 <= i < |a| ensures IsSlugChar(a[i]) {
        assert a[i] == (a + b)[i];
      }
      forall i | 0 <= i < |b| ensures IsSlugChar(b[i]) {
        assert b[i] == (a + b)[|a| + i];
      }
    }
    if AllSlug(a) && AllSlug(b) {
      forall i | 0 <= i < |a + b| ensures IsSlugChar((a + b)[i]) {
        if i < |a| { assert (a + b)[i] == a[i]; } else { assert (a + b)[i] == b[i - |a|]; }
      }
    }
  }

  predicate NoEdgeDash(s: string) { s == [] || (s[0] != '-' && s[|s| - 1] != '-') }

  /** `.replace(/\s+/g, "-")`: every run of white space becomes one dash. */
  function DashSpaces(s: string): (r: string)
    ensures forall i :: 0 <= i < |r| ==> !IsSpace(r[i])
    ensures (forall i :: 0 <= i < |s| ==> !IsSpace(s[i])) ==> r == s
    decreases |s|
  {
    if s == [] then []
    else if IsSpace(s[0]) then
      var rest := TrimStart(s);
      assert |rest| < |s| by {
        assert rest == [] || rest[0] == s[|s| - |rest|];
      }
      "-" + DashSpaces(rest)
    else [s[0]] + DashSpaces(s[1..])
  }

  /** A maximal run of white space becomes one dash. */
  lemma DashSpacesRun(sp: string, t: string)
    requires sp != [] && forall i :: 0 <= i < |sp| ==> IsSpace(sp[i])
    requires t == [] || !IsSpace(t[0])
    ensures DashSpaces(sp + t) == "-" + DashSpaces(t)
  {
    TrimStartRun(sp, t);
    assert (sp + t)[0] == sp[0];
  }

  /** Any other character is copied. Together with `DashSpacesRun` this
    * fixes `DashSpaces` on every string. */
  lemma DashSpacesCons(c: char, t: string)
    requires !IsSpace(c)
    ensures DashSpaces([c] + t) == [c] + DashSpaces(t)
  {
    assert ([c] + t)[1..] == t;
  }

  /** Only white space is replaced: every other character but a dash
    * survives in order. */
  lemma {:induction false} DashSpacesKeeps(s: string, keep: char -> bool)
    requires forall c :: keep(c) ==> !IsSpace(c) && c != '-'
    ensures Filter(DashSpaces(s), keep) == Filter(s, keep)
    decreases |s|
  {
    if s == [] {
    } else if IsSpace(s[0]) {
      var rest := TrimStart(s);
      assert |rest| < |s| by {
        assert rest == [] || rest[0] == s[|s| - |rest|];
      }
      FilterSlice(s, |s| - |rest|, |s|, keep);
      assert s[|s| - |rest|..|s|] == rest;
      DashSpacesKeeps(rest, keep);
      FilterAppend("-", DashSpaces(rest), keep);
    } else {
      DashSpacesKeeps(s[1..], keep);
      FilterAppend([s[0]], DashSpaces(s[1..]), keep);
    }
  }

  /** `.replace(/[^a-z0-9-]/g, "")`: keeps exactly the slug characters, in order. */
  function KeepSlugChars(s: string): (r: string)
    ensures AllSlug(r) && |r| <= |s|
    ensures AllSlug(s) ==> r == s
  {
    if s == [] then []
    else
      var rest := KeepSlugChars(s[1..]);
      if IsSlugChar(s[0]) then [s[0]] + rest else rest
  }

  lemma {:induction false} KeepSlugCharsAppend(a: string, b: string)
    ensures KeepSlugChars(a + b) == KeepSlugChars(a) + KeepSlugChars(b)
  {
    if a == [] {
      assert a + b == b;
    } else {
      assert (a + b)[1..] == a[1..] + b;
      KeepSlugCharsAppend(a[1..], b);
    }
  }

  /** With `KeepSlugCharsAppend`: a slug character is kept, any other dropped. */
  lemma KeepSlugCharsSingle(c: char)
    ensures KeepSlugChars([c]) == if IsSlugChar(c) then [c] else []
  {
    assert [c][1..] == [];
  }

  /** Every slug character survives in order. */
  lemma {:induction false} KeepSlugCharsKeeps(s: string, keep: char -> bool)
    requires forall c :: keep(c) ==> IsSlugChar(c)
    ensures Filter(KeepSlugChars(s), keep) == Filter(s, keep)
  {
    if s != [] {
      KeepSlugCharsKeeps(s[1..], keep);
      if IsSlugChar(s[0]) {
        FilterAppend([s[0]], KeepSlugChars(s[1..]), keep);
      }
    }
  }

  /** Drops the leading dashes. */
  function SkipDashes(s: string): (r: string)
    ensures |r| <= |s| && r == s[|s| - |r|..]
    ensures forall i :: 0 <= i < |s| - |r| ==> s[i] == '-'
    ensures r == [] || r[0] != '-'
  {
    if |s| > 0 && s[0] == '-' then SkipDashes(s[1..]) else s
  }

  /** A run of dashes in front of a string that does not start with one is
    * what `SkipDashes` removes. */
  lemma {:induction false} SkipDashesRun(ds: string, t: string)
    requires forall i :: 0 <= i < |ds| ==> ds[i] == '-'
    requires t == [] || t[0] != '-'
    ensures SkipDashes(ds + t) == t
  {
    if ds == [] {
      assert ds + t == t;
    } else {
      assert (ds + t)[1..] == ds[1..] + t;
      SkipDashesRun(ds[1..], t);
    }
  }

  /** A character before a dash-free start adds no double dash. */
  lemma ConsNoDoubleDash(c: char, t: string)
    requires NoDoubleDash(t) && (c != '-' || t == [] || t[0] != '-')
    ensures NoDoubleDash([c] + t)
  {
    var r := [c] + t;
    forall i | 0 <= i < |r| - 1 ensures !DashPairAt(r, i) {
      if i > 0 {
        assert r[i] == t[i - 1] && r[i + 1] == t[i];
        assert !DashPairAt(t, i - 1);
      }
    }
  }

  /** `.replace(/-+/g, "-")`: every run of dashes becomes one dash. It keeps
    * the first and last characters and leaves no two dashes side by side. */
  function CollapseDashes(s: string): (r: string)
    ensures AllSlug(s) ==> AllSlug(r)
    ensures NoDoubleDash(r)
    ensures (r == []) == (s == [])
    ensures r != [] ==> r[0] == s[0] && r[|r| - 1] == s[|s| - 1]
    decreases |s|
  {
    if s == [] then []
    else if s[0] == '-' then
      var rest := SkipDashes(s);
      assert |rest| < |s| by {
        assert rest == [] || rest[0] == s[|s| - |rest|];
      }
      SliceKeepsSlug(s, |s| - |rest|, |s|);
      var tail := CollapseDashes(rest);
      ConsNoDoubleDash('-', tail);
      AllSlugConcat("-", tail);
      "-" + tail
    else
      SliceKeepsSlug(s, 1, |s|);
      var tail := CollapseDashes(s[1..]);
      ConsNoDoubleDash(s[0], tail);
      AllSlugConcat([s[0]], tail);
      [s[0]] + tail
  }

  /** A maximal run of dashes becomes one dash. */
  lemma CollapseDashesRun(ds: string, t: string)
    requires ds != [] && forall i :: 0 <= i < |ds| ==> ds[i] == '-'
    requires t == [] || t[0] != '-'
    ensures CollapseDashes(ds + t) == "-" + CollapseDashes(t)
  {
    SkipDashesRun(ds, t);
    assert (ds + t)[0] == ds[0];
  }

  /** Any other character is copied. Together with `CollapseDashesRun` this
    * fixes `CollapseDashes` on every string. */
  lemma CollapseDashesCons(c: char, t: string)
    requires c != '-'
    ensures CollapseDashes([c] + t) == [c] + CollapseDashes(t)
  {
    assert ([c] + t)[1..] == t;
  }

  /** Only dashes are dropped: every other character survives in order. */
  lemma {:induction false} CollapseDashesKeeps(s: string, keep: char -> bool)
    requires forall c :: keep(c) ==> c != '-'
    ensures Filter(CollapseDashes(s), keep) == Filter(s, keep)
    decreases |s|
  {
    if s == [] {
    } else if s[0] == '-' {
      var rest := SkipDashes(s);
      var k := |s| - |rest|;
      assert |rest| < |s| by {
        assert rest == [] || rest[0] == s[k];
      }
      FilterSlice(s, k, |s|, keep);
      assert s[k..|s|] == rest;
      CollapseDashesKeeps(rest, keep);
      FilterAppend("-", CollapseDashes(rest), keep);
    } else {
      CollapseDashesKeeps(s[1..], keep);
      FilterAppend([s[0]], CollapseDashes(s[1..]), keep);
    }
  }

  /** A string without two dashes side by side is left as it is. */
  lemma {:induction false} CollapseDashesFixes(s: string)
    requires NoDoubleDash(s)
    ensures CollapseDashes(s) == s
    decreases |s|
  {
    if s != [] {
      SliceKeepsSlug(s, 1, |s|);
      assert s[1..|s|] == s[1..];
      CollapseDashesFixes(s[1..]);
      CollapseDashesNoPair(s);
    }
  }

  /** Without a dash pair at the front the first character is copied. */
  lemma CollapseDashesNoPair(s: string)
    requires s != [] && (|s| > 1 ==> !DashPairAt(s, 0))
    ensures CollapseDashes(s) == [s[0]] + CollapseDashes(s[1..])
  {
    var c, t := s[0], s[1..];
    assert s == [c] + t;
    if c == '-' {
      CollapseDashesRun([c], t);
    } else {
      CollapseDashesCons(c, t);
    }
  }

  /** A slice keeps the slug characters and adds no double dash. */
  lemma SliceKeepsSlug(s: string, lo: nat, hi: nat)
    requires lo <= hi <= |s|
    ensures AllSlug(s) ==> AllSlug(s[lo..hi])
    ensures NoDoubleDash(s) ==> NoDoubleDash(s[lo..hi])
  {
    var r := s[lo..hi];
    if NoDoubleDash(s) {
      forall i | 0 <= i < |r| - 1 ensures !DashPairAt(r, i) {
        assert r[i] == s[lo + i] && r[i + 1] == s[lo + i + 1];
        assert !DashPairAt(s, lo + i);
      }
    }
  }

  /** `.replace(/^-|-$/g, "")`: removes one leading and one trailing dash,
    * each only when it is there, and nothing else. */
  function StripEdgeDashes(s: string): (r: string)
    ensures |r| <= |s| <= |r| + 2
    ensures NoEdgeDash(s) ==> r == s
    ensures AllSlug(s) ==> AllSlug(r)
    ensures NoDoubleDash(s) ==> NoDoubleDash(r) && NoEdgeDash(r)
  {
    var lo := if |s| > 0 && s[0] == '-' then 1 else 0;
    var hi := if |s| > lo && s[|s| - 1] == '-' then |s| - 1 else |s|;
    SliceKeepsSlug(s, lo, hi);
    assert NoDoubleDash(s) && lo < hi ==> s[lo] != '-' && s[hi - 1] != '-' by {
      if NoDoubleDash(s) && lo < hi {
        if lo == 1 { assert !DashPairAt(s, 0); }
        if hi < |s| { assert !DashPairAt(s, hi - 1); }
      }
    }
    s[lo..hi]
  }

  /** What `StripEdgeDashes` removes: the first character exactly when it is
    * a dash, then the last exactly when it is a dash, and nothing between. */
  lemma StripEdgeDashesEnds(s: string)
    ensures var r := StripEdgeDashes(s);
      && (s != [] && s[0] == '-' ==> |r| < |s| && r == s[1..|r| + 1])
      && ((s == [] || s[0] != '-') ==> r == s[..|r|])
      && (|s| >= 2 && s[|s| - 1] == '-' ==> |r| < |s| && r == s[|s| - 1 - |r|..|s| - 1])
      && ((s == [] || s[|s| - 1] != '-') ==> r == s[|s| - |r|..])
      && (|s| >= 2 && s[0] == '-' && s[|s| - 1] == '-' ==> |r| == |s| - 2)
  {
  }

  /** Only the edge dashes go: every other character survives in order. */
  lemma StripEdgeDashesKeeps(s: string, keep: char -> bool)
    requires forall c :: keep(c) ==> c != '-'
    ensures Filter(StripEdgeDashes(s), keep) == Filter(s, keep)
  {
    var lo := if |s| > 0 && s[0] == '-' then 1 else 0;
    var hi := if |s| > lo && s[|s| - 1] == '-' then |s| - 1 else |s|;
    FilterSlice(s, lo, hi, keep);
  }

  /** `slugify`: lower-case, trim, dash the white space, keep `[a-z0-9-]`,
    * collapse dashes, strip the edge dashes. */
  function Slugify(input: string): (r: string)
    ensures AllSlug(r)
    ensures NoDoubleDash(r)
    ensures NoEdgeDash(r)
  {
    StripEdgeDashes(CollapseDashes(KeepSlugChars(DashSpaces(Trim(Lower(input))))))
  }

  /** The letters and digits of `s`, in order: what a slug is made of. */
  function AlnumOf(s: string): string {
    Filter(s, IsLowerAlnum)
  }

  /** Letters and digits are slug characters, neither dashes nor white space. */
  lemma AlnumIsPlain()
    ensures forall c :: IsLowerAlnum(c) ==> !IsSpace(c)
    ensures forall c :: IsLowerAlnum(c) ==> c != '-' && IsSlugChar(c)
  {
  }

  /** Slugging drops and adds only white space, dashes and characters
    * outside `[a-z0-9-]`: the letters and digits of the lower-cased input
    * all survive, in order. */
  lemma SlugifyKeepsAlnum(input: string)
    ensures AlnumOf(Slugify(input)) == AlnumOf(Lower(input))
  {
    var lowered := Lower(input);
    var trimmed := Trim(lowered);
    var dashed := DashSpaces(trimmed);
    var kept := KeepSlugChars(dashed);
    var collapsed := CollapseDashes(kept);
    AlnumIsPlain();
    FilterTrim(lowered, IsLowerAlnum);
    DashSpacesKeeps(trimmed, IsLowerAlnum);
    KeepSlugCharsKeeps(dashed, IsLowerAlnum);
    CollapseDashesKeeps(kept, IsLowerAlnum);
    StripEdgeDashesKeeps(collapsed, IsLowerAlnum);
  }

  /** Slug characters are neither upper-case nor white space. */
  lemma SlugCharsFixed(s: string)
    requires AllSlug(s)
    ensures Lower(s) == s
    ensures forall i :: 0 <= i < |s| ==> !IsSpace(s[i])
  {
    forall i | 0 <= i < |s| ensures Lower(s)[i] == s[i] && !IsSpace(s[i]) {
      assert IsSlugChar(s[i]);
    }
  }

  /** A string that is already a slug slugs to itself. */
  lemma SlugifyFixes(s: string)
    requires AllSlug(s) && NoDoubleDash(s) && NoEdgeDash(s)
    ensures Slugify(s) == s
  {
    SlugCharsFixed(s);
    TrimNoSpace(s);
    CollapseDashesFixes(s);
  }

  /** `slugify(title) || "event"` */
  function SlugBase(title: string): (r: string)
    ensures r != [] && AllSlug(r) && NoDoubleDash(r) && NoEdgeDash(r)
    ensures Slugify(title) == [] ==> r == DefaultBase
    ensures Slugify(title) != [] ==> r == Slugify(title)
  {
    var s := Slugify(title);
    if s == [] then DefaultBaseIsSlug(); DefaultBase else s
  }

  /** The base used when the title slugs to nothing. */
  const DefaultBase := "event"

  lemma DefaultBaseIsSlug()
    ensures DefaultBase != [] && AllSlug(DefaultBase) && NoDoubleDash(DefaultBase) && NoEdgeDash(DefaultBase)
  {
  }

  /** `/^[a-z0-9-]{3,80}$/.test(id)` */
  predicate IsValidEventId(id: string) {
    3 <= |id| <= 80 && AllSlug(id)
  }

  /** `/^\d{4}-\d{2}-\d{2}$/.test(date)`: the shape only, not a calendar check. */
  predicate IsDateShaped(d: string) {
    |d| == 10 &&
    IsDigit(d[0]) && IsDigit(d[1]) && IsDigit(d[2]) && IsDigit(d[3]) && d[4] == '-' &&
    IsDigit(d[5]) && IsDigit(d[6]) && d[7] == '-' && IsDigit(d[8]) && IsDigit(d[9])
  }

  /** `${date}-${base}-${randomSuffix()}`, the suffix being the first six random hex digits */
  function ComposeEventId(date: string, title: string, fraction: string): string
    requires AllHex(fraction)
  {
    date + "-" + SlugBase(title) + "-" + RandomHex(fraction, 6)
  }

  /** A shaped date, a slug and hex digits joined with dashes give only slug
    * characters; the pattern then only bounds the length. */
  lemma {:induction false} JoinedIdValid(date: string, base: string, suffix: string)
    requires IsDateShaped(date) && AllSlug(base) && AllHex(suffix)
    ensures AllSlug(date + "-" + base + "-" + suffix)
    ensures IsValidEventId(date + "-" + base + "-" + suffix) <==> |base| + |suffix| <= 68
  {
    assert AllSlug(date) by {
      forall i | 0 <= i < |date| ensures IsSlugChar(date[i]) {
        assert i == 4 || i == 7 || IsDigit(date[i]);
      }
    }
    assert AllSlug(suffix);
    assert AllSlug("-");
    AllSlugConcat(date, "-");
    AllSlugConcat(date + "-", base);
    AllSlugConcat(date + "-" + base, "-");
    AllSlugConcat(date + "-" + base + "-", suffix);
  }

  /** For a date of the right shape the composed id contains only slug
    * characters, so it fails the id pattern exactly when it is longer than 80:
    * when the slug and the suffix together exceed 68 characters. */
  lemma {:induction false} ComposedEventIdValid(date: string, title: string, fraction: string)
    requires IsDateShaped(date) && AllHex(fraction)
    ensures AllSlug(ComposeEventId(date, title, fraction))
    ensures IsValidEventId(ComposeEventId(date, title, fraction)) <==>
            |SlugBase(title)| + |RandomHex(fraction, 6)| <= 68
  {
    JoinedIdValid(date, SlugBase(title), RandomHex(fraction, 6));
  }

  /** The id starts with the date, then a dash, then the slug base. */
  lemma ComposedEventIdPrefix(date: string, title: string, fraction: string)
    requires AllHex(fraction)
    ensures StartsWith(ComposeEventId(date, title, fraction), date + "-" + SlugBase(title) + "-")
  {
    var p := date + "-" + SlugBase(title) + "-";
    assert ComposeEventId(date, title, fraction) == p + RandomHex(fraction, 6);
    assert (p + RandomHex(fraction, 6))[..|p|] == p;
  }
}
