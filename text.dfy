/**
 * The string operations the handlers and the client scripts rely on:
 * trimming, ASCII lower-casing, prefix/suffix/substring tests, decimal
 * rendering, and the code-unit order used by `sort()`/`localeCompare`.
 * A Dafny `char` stands for one UTF-16 code unit.
 */
module Text {

  /** The characters `String.prototype.trim` and the regex class `\s` treat
    * as white space: ECMAScript WhiteSpace plus LineTerminator. */
  predicate IsSpace(c: char) {
    var n := c as int;
    n == 9 || n == 10 || n == 11 || n == 12 || n == 13 || n == 32 || n == 0xA0 ||
    n == 0x1680 || (0x2000 <= n <= 0x200A) || n == 0x2028 || n == 0x2029 ||
    n == 0x202F || n == 0x205F || n == 0x3000 || n == 0xFEFF
  }

  /** `\d` */
  predicate IsDigit(c: char) { '0' <= c <= '9' }

  /** `[a-z0-9]` */
  predicate IsLowerAlnum(c: char) { ('a' <= c <= 'z') || IsDigit(c) }

  /** One of the digits `Number.prototype.toString(16)` produces. */
  predicate IsHexDigit(c: char) { ('a' <= c <= 'f') || IsDigit(c) }

  predicate AllDigits(s: string) { forall i :: 0 <= i < |s| ==> IsDigit(s[i]) }
  predicate AllHex(s: string) { forall i :: 0 <= i < |s| ==> IsHexDigit(s[i]) }
  predicate AllLowerAlnum(s: string) { forall i :: 0 <= i < |s| ==> IsLowerAlnum(s[i]) }

  /** `toLowerCase` restricted to ASCII letters. */
  function AsciiLower(c: char): char {
    if 'A' <= c <= 'Z' then (c as int + 32) as char else c
  }

  function Lower(s: string): (r: string)
    ensures |r| == |s|
    ensures forall i :: 0 <= i < |s| ==> r[i] == AsciiLower(s[i])
  {
    seq(|s|, i requires 0 <= i < |s| => AsciiLower(s[i]))
  }

  /** Drops the leading white space: what is removed is all white space and
    * what remains is a suffix of `s` that does not start with any. */
  function TrimStart(s: string): (r: string)
    ensures |r| <= |s| && r == s[|s| - |r|..]
    ensures forall i :: 0 <= i < |s| - |r| ==> IsSpace(s[i])
    ensures r == [] || !IsSpace(r[0])
  {
    if |s| > 0 && IsSpace(s[0]) then TrimStart(s[1..]) else s
  }

  function TrimEnd(s: string): (r: string)
    ensures |r| <= |s| && r == s[..|r|]
    ensures forall i :: |r| <= i < |s| ==> IsSpace(s[i])
    ensures r == [] || !IsSpace(r[|r| - 1])
  {
    if |s| > 0 && IsSpace(s[|s| - 1]) then TrimEnd(s[..|s| - 1]) else s
  }

  /** `String.prototype.trim` */
  function Trim(s: string): (r: string)
    ensures r == [] || (!IsSpace(r[0]) && !IsSpace(r[|r| - 1]))
    ensures r == [] <==> forall i :: 0 <= i < |s| ==> IsSpace(s[i])
  {
    var t := TrimStart(s);
    var r := TrimEnd(t);
    assert r != [] ==> r[0] == t[0];
    r
  }

  /** What `trim` keeps is the slice of `s` between a leading and a trailing
    * run of white space. */
  lemma TrimIsSlice(s: string)
    ensures exists a, b ::
              && 0 <= a <= b <= |s| && Trim(s) == s[a..b]
              && (forall i :: 0 <= i < a ==> IsSpace(s[i]))
              && (forall i :: b <= i < |s| ==> IsSpace(s[i]))
  {
    var t := TrimStart(s);
    TrimSlice(s, |s| - |t|, t, TrimEnd(t));
  }

  /** A prefix `t[..|r|]` of the suffix `t == s[a..]` whose removed ends are
    * white space is a slice of `s` between two runs of white space. */
  lemma TrimSlice(s: string, a: nat, t: string, r: string)
    requires a <= |s| && t == s[a..] && |r| <= |t| && r == t[..|r|]
    requires forall i :: 0 <= i < a ==> IsSpace(s[i])
    requires forall i :: |r| <= i < |t| ==> IsSpace(t[i])
    ensures exists a, b ::
              && 0 <= a <= b <= |s| && r == s[a..b]
              && (forall i :: 0 <= i < a ==> IsSpace(s[i]))
              && (forall i :: b <= i < |s| ==> IsSpace(s[i]))
  {
    var b := a + |r|;
    assert r == s[a..b];
    forall i | b <= i < |s|
      ensures IsSpace(s[i])
    {
      assert s[i] == t[i - a];
    }
  }

  /** A run of white space in front of a string that does not start with
    * white space is what `TrimStart` removes. */
  lemma {:induction false} TrimStartRun(sp: string, t: string)
    requires forall i :: 0 <= i < |sp| ==> IsSpace(sp[i])
    requires t == [] || !IsSpace(t[0])
    ensures TrimStart(sp + t) == t
  {
    if sp == [] {
      assert sp + t == t;
    } else {
      assert (sp + t)[1..] == sp[1..] + t;
      TrimStartRun(sp[1..], t);
    }
  }

  /** Trimming drops only white space: every character `keep` accepts, none
    * of them white space, survives in order. */
  lemma FilterTrim(s: string, keep: char -> bool)
    requires forall c :: keep(c) ==> !IsSpace(c)
    ensures Filter(Trim(s), keep) == Filter(s, keep)
  {
    var t := TrimStart(s);
    FilterSlice(s, |s| - |t|, |s|, keep);
    assert s[|s| - |t|..|s|] == t;
    var r := TrimEnd(t);
    FilterSlice(t, 0, |r|, keep);
    assert t[0..|r|] == r;
  }

  /** A string without white space is its own trim. */
  lemma TrimNoSpace(s: string)
    requires forall i :: 0 <= i < |s| ==> !IsSpace(s[i])
    ensures Trim(s) == s
  {
    assert TrimStart(s) == s;
    assert TrimEnd(s) == s;
  }

  /** Trimming twice is trimming once. */
  lemma TrimIdempotent(s: string)
    ensures Trim(Trim(s)) == Trim(s)
  {
    var t := Trim(s);
    assert t == [] || !IsSpace(t[0]);
    assert TrimStart(t) == t;
    assert TrimEnd(t) == t;
  }

  /** The characters of `s` that `keep` accepts, in their order. */
  function Filter(s: string, keep: char -> bool): (r: string)
    ensures |r| <= |s|
    ensures forall i :: 0 <= i < |r| ==> keep(r[i])
  {
    if s == [] then [] else (if keep(s[0]) then [s[0]] else []) + Filter(s[1..], keep)
  }

  lemma {:induction false} FilterAppend(a: string, b: string, keep: char -> bool)
    ensures Filter(a + b, keep) == Filter(a, keep) + Filter(b, keep)
  {
    if a == [] {
      assert a + b == b;
    } else {
      assert (a + b)[1..] == a[1..] + b;
      FilterAppend(a[1..], b, keep);
    }
  }

  lemma {:induction false} FilterNone(s: string, keep: char -> bool)
    requires forall i :: 0 <= i < |s| ==> !keep(s[i])
    ensures Filter(s, keep) == []
  {
    if s != [] {
      FilterNone(s[1..], keep);
    }
  }

  lemma {:induction false} FilterAll(s: string, keep: char -> bool)
    requires forall i :: 0 <= i < |s| ==> keep(s[i])
    ensures Filter(s, keep) == s
  {
    if s != [] {
      FilterAll(s[1..], keep);
    }
  }

  /** Cutting off ends that hold nothing `keep` accepts changes nothing. */
  lemma FilterSlice(s: string, lo: nat, hi: nat, keep: char -> bool)
    requires lo <= hi <= |s|
    requires forall i :: 0 <= i < lo ==> !keep(s[i])
    requires forall i :: hi <= i < |s| ==> !keep(s[i])
    ensures Filter(s[lo..hi], keep) == Filter(s, keep)
  {
    FilterDropBack(s, hi, keep);
    var t := s[..hi];
    assert forall i :: 0 <= i < lo ==> t[i] == s[i];
    FilterDropFront(t, lo, keep);
    assert t[lo..] == s[lo..hi];
  }

  lemma {:induction false} FilterDropFront(s: string, k: nat, keep: char -> bool)
    requires k <= |s|
    requires forall i :: 0 <= i < k ==> !keep(s[i])
    ensures Filter(s[k..], keep) == Filter(s, keep)
  {
    if k > 0 {
      var t := s[1..];
      assert forall i :: 0 <= i < k - 1 ==> t[i] == s[i + 1];
      FilterDropFront(t, k - 1, keep);
      assert t[k - 1..] == s[k..];
    }
  }

  lemma FilterDropBack(s: string, k: nat, keep: char -> bool)
    requires k <= |s|
    requires forall i :: k <= i < |s| ==> !keep(s[i])
    ensures Filter(s[..k], keep) == Filter(s, keep)
  {
    var front, back := s[..k], s[k..];
    assert s == front + back;
    FilterAppend(front, back, keep);
    assert forall i :: 0 <= i < |back| ==> back[i] == s[k + i];
    FilterNone(back, keep);
  }

  /** Filtering by a wider test first changes nothing. */
  lemma {:induction false} FilterOfFilter(s: string, keep: char -> bool, wider: char -> bool)
    requires forall c :: keep(c) ==> wider(c)
    ensures Filter(Filter(s, wider), keep) == Filter(s, keep)
  {
    if s != [] {
      var head := if wider(s[0]) then [s[0]] else [];
      FilterAppend(head, Filter(s[1..], wider), keep);
      FilterOfFilter(s[1..], keep, wider);
      if wider(s[0]) {
        assert Filter(head, keep) == (if keep(s[0]) then [s[0]] else []) + Filter([], keep);
      }
    }
  }

  /** `s.startsWith(p)` */
  predicate StartsWith(s: string, p: string) {
    |p| <= |s| && s[..|p|] == p
  }

  /** `s.endsWith(p)` */
  predicate EndsWith(s: string, p: string) {
    |p| <= |s| && s[|s| - |p|..] == p
  }

  /** `s.includes(p)` */
  predicate Contains(s: string, p: string)
    decreases |s|
  {
    StartsWith(s, p) || (|s| > 0 && Contains(s[1..], p))
  }

  lemma {:induction false} ContainsAt(s: string, p: string, i: nat)
    requires i + |p| <= |s| && s[i..i + |p|] == p
    ensures Contains(s, p)
    decreases i
  {
    if i > 0 {
      assert s[1..][i - 1..i - 1 + |p|] == s[i..i + |p|];
      ContainsAt(s[1..], p, i - 1);
    }
  }

  lemma {:induction false} ContainsSelf(s: string, p: string)
    ensures Contains(p + s, p) && Contains(s + p, p)
  {
    assert (p + s)[..|p|] == p;
    ContainsAt(s + p, p, |s|);
  }

  function DigitChar(d: int): (c: char)
    requires 0 <= d < 10
    ensures IsDigit(c)
  {
    ('0' as int + d) as char
  }

  /** `String(n)` for a non-negative integer. */
  function Decimal(n: nat): (r: string)
    ensures |r| >= 1 && AllDigits(r)
    ensures |r| > 1 ==> r[0] != '0'
  {
    if n < 10 then [DigitChar(n)] else Decimal(n / 10) + [DigitChar(n % 10)]
  }

  /** The value a string of decimal digits denotes. */
  function DigitsValue(s: string): nat
    requires AllDigits(s)
  {
    if s == [] then 0 else DigitsValue(s[..|s| - 1]) * 10 + (s[|s| - 1] as int - '0' as int)
  }

  lemma {:induction false} DecimalRoundTrip(n: nat)
    ensures DigitsValue(Decimal(n)) == n
  {
    if n >= 10 {
      var d := Decimal(n);
      assert d[..|d| - 1] == Decimal(n / 10);
      DecimalRoundTrip(n / 10);
    }
  }

  /** `String(n).padStart(2, "0")` */
  function Pad2(n: nat): (r: string)
    ensures AllDigits(r)
  {
    var d := Decimal(n);
    if |d| < 2 then "0" + d else d
  }

  lemma {:induction false} DecimalSmall(n: nat)
    ensures n < 10 ==> |Decimal(n)| == 1
    ensures 10 <= n < 100 ==> |Decimal(n)| == 2
  {
  }

  /** A month or day below 100 is rendered as exactly two digits that read back as it. */
  lemma {:induction false} Pad2RoundTrip(n: nat)
    requires n < 100
    ensures |Pad2(n)| == 2 && DigitsValue(Pad2(n)) == n
  {
    DecimalSmall(n);
    DecimalRoundTrip(n);
    var d := Decimal(n);
    if |d| < 2 {
      var p := "0" + d;
      assert p[..1] == "0";
      assert DigitsValue(p[..1]) == 0 by {
        assert p[..1][..0] == [];
      }
      assert p[..|p| - 1] == "0";
      assert DigitsValue(d) == n;
      assert d[..0] == [];
    }
  }

  /** The code-unit order of strings (`a <= b` in JavaScript). */
  predicate LexLeq(a: string, b: string)
    decreases |a|
  {
    |a| == 0 || (|b| > 0 && (a[0] < b[0] || (a[0] == b[0] && LexLeq(a[1..], b[1..]))))
  }

  lemma {:induction false} LexLeqTotal(a: string, b: string)
    ensures LexLeq(a, b) || LexLeq(b, a)
    decreases |a|
  {
    if |a| > 0 && |b| > 0 && a[0] == b[0] {
      LexLeqTotal(a[1..], b[1..]);
    }
  }

  lemma {:induction false} LexLeqTrans(a: string, b: string, c: string)
    requires LexLeq(a, b) && LexLeq(b, c)
    ensures LexLeq(a, c)
    decreases |a|
  {
    if |a| > 0 && a[0] == b[0] && b[0] == c[0] {
      LexLeqTrans(a[1..], b[1..], c[1..]);
    }
  }

  lemma {:induction false} LexLeqAntisym(a: string, b: string)
    requires LexLeq(a, b) && LexLeq(b, a)
    ensures a == b
    decreases |a|
  {
    if |a| > 0 {
      LexLeqAntisym(a[1..], b[1..]);
      assert a == [a[0]] + a[1..];
      assert b == [b[0]] + b[1..];
    }
  }

  /** `Math.random().toString(16).slice(2, 2 + n)`, given the hex digits that
    * follow "0." in the rendering of the random number: the first `n` of
    * them, or all when there are fewer. */
  function RandomHex(fraction: string, n: nat): (r: string)
    requires AllHex(fraction)
    ensures |r| <= n && |r| <= |fraction| && AllHex(r)
    ensures r == fraction[..|r|]
    ensures |fraction| >= n ==> |r| == n
  {
    if |fraction| <= n then fraction else fraction[..n]
  }

  /** `s.slice(-n)` for `n > 0`: the last `n` elements, or all of them. */
  function TakeLast<T>(s: seq<T>, n: nat): (r: seq<T>)
    ensures |r| == if |s| < n then |s| else n
    ensures r == s[|s| - |r|..]
  {
    if |s| <= n then s else s[|s| - n..]
  }

  /** `s.slice(0, end)` with JavaScript's treatment of a negative `end`. */
  function SliceTo<T>(s: seq<T>, end: int): (r: seq<T>)
    ensures end >= 0 ==> |r| == if end < |s| then end else |s|
    ensures end < 0 ==> |r| == if |s| + end < 0 then 0 else |s| + end
    ensures r == s[..|r|]
  {
    var e := if end < 0 then |s| + end else end;
    if e <= 0 then [] else if e >= |s| then s else s[..e]
  }
}
