/**
 * The cover mosaic of each event card in timeline.js: how many tiles the
 * card has (`desired`), which sample keys fill them and how many colour
 * placeholders pad the rest. The seeded random source is given as the
 * integer choices it makes: `pick` for `Math.floor(rnd() * 4)` and, for the
 * Fisher–Yates shuffle, `picks[i]` for `Math.floor(rnd() * (i + 1))`.
 */
module Mosaic {
  import opened Text
  import opened JsonValue

  predicate Distinct<T(==)>(s: seq<T>) {
    forall i, j :: 0 <= i < j < |s| ==> s[i] != s[j]
  }

  /** The choices a shuffle of `n` elements draws: `picks[i]` lies in `[0, i]`. */
  predicate ValidPicks(picks: seq<nat>, n: nat) {
    |picks| == n && forall i :: 0 <= i < n ==> picks[i] <= i
  }

  /** `tmp = arr[i]; arr[i] = arr[j]; arr[j] = tmp` */
  function Swap<T>(s: seq<T>, i: nat, j: nat): (r: seq<T>)
    requires i < |s| && j < |s|
    ensures |r| == |s| && r[i] == s[j] && r[j] == s[i]
    ensures forall k :: 0 <= k < |s| && k != i && k != j ==> r[k] == s[k]
  {
    s[i := s[j]][j := s[i]]
  }

  lemma SwapPermutes<T>(s: seq<T>, i: nat, j: nat)
    requires i < |s| && j < |s|
    ensures multiset(Swap(s, i, j)) == multiset(s)
    ensures Distinct(s) ==> Distinct(Swap(s, i, j))
  {
    var t := s[i := s[j]];
    assert multiset(t) == multiset(s) - multiset{s[i]} + multiset{s[j]};
    if Distinct(s) {
      var r := Swap(s, i, j);
      forall a, b | 0 <= a < b < |r| ensures r[a] != r[b] {
        var a' := if a == i then j else if a == j then i else a;
        var b' := if b == i then j else if b == j then i else b;
        assert r[a] == s[a'] && r[b] == s[b'] && a' != b';
      }
    }
  }

  /** The loop of `shuffleInPlace` from index `i` down to 1. */
  function ShuffleFrom<T>(s: seq<T>, picks: seq<nat>, i: int): (r: seq<T>)
    requires ValidPicks(picks, |s|) && i < |s|
    ensures |r| == |s|
    decreases i
  {
    if i <= 0 then s else ShuffleFrom(Swap(s, i, picks[i]), picks, i - 1)
  }

  /** `shuffleInPlace(arr, rnd)` on the values. */
  function FisherYates<T>(s: seq<T>, picks: seq<nat>): (r: seq<T>)
    requires ValidPicks(picks, |s|)
    ensures |r| == |s|
  {
    ShuffleFrom(s, picks, |s| - 1)
  }

  /** Whatever the random choices, the shuffle only reorders: the result is
    * a permutation of the input and keeps it free of duplicates. */
  lemma {:induction false} ShuffleFromPermutes<T>(s: seq<T>, picks: seq<nat>, i: int)
    requires ValidPicks(picks, |s|) && i < |s|
    ensures multiset(ShuffleFrom(s, picks, i)) == multiset(s)
    ensures Distinct(s) ==> Distinct(ShuffleFrom(s, picks, i))
    decreases i
  {
    if i > 0 {
      SwapPermutes(s, i, picks[i]);
      ShuffleFromPermutes(Swap(s, i, picks[i]), picks, i - 1);
    }
  }

  lemma FisherYatesPermutes<T>(s: seq<T>, picks: seq<nat>)
    requires ValidPicks(picks, |s|)
    ensures multiset(FisherYates(s, picks)) == multiset(s)
    ensures forall x :: x in FisherYates(s, picks) <==> x in s
    ensures Distinct(s) ==> Distinct(FisherYates(s, picks))
  {
    ShuffleFromPermutes(s, picks, |s| - 1);
    forall x ensures x in FisherYates(s, picks) <==> x in s {
      assert x in FisherYates(s, picks) <==> x in multiset(FisherYates(s, picks));
      assert x in s <==> x in multiset(s);
    }
  }

  /** `shuffleInPlace(arr, rnd)` */
  method ShuffleInPlace<T>(a: array<T>, picks: seq<nat>)
    requires ValidPicks(picks, a.Length)
    modifies a
    ensures a[..] == FisherYates(old(a[..]), picks)
  {
    var i := a.Length - 1;
    while i > 0
      invariant -1 <= i < a.Length
      invariant i >= 0 || a.Length == 0
      invariant ShuffleFrom(a[..], picks, i) == FisherYates(old(a[..]), picks)
      decreases i
    {
      var j := picks[i];
      assert Swap(a[..], i, j) == a[..][i := a[j]][j := a[i]];
      a[i], a[j] := a[j], a[i];
      i := i - 1;
    }
  }

  /** `Array.from(new Set(keys))`: the first occurrence of each key, in order. */
  function Dedup(s: seq<string>): (r: seq<string>)
    ensures Distinct(r) && |r| <= |s|
    ensures forall x :: x in r <==> x in s
  {
    if s == [] then []
    else
      var d := Dedup(s[..|s| - 1]);
      var last := s[|s| - 1];
      assert s == s[..|s| - 1] + [last];
      if last in d then d else d + [last]
  }

  /** `rawKeys.filter((k) => typeof k === "string" && k)` */
  function UsableKeys(items: seq<Json>): (r: seq<string>)
    ensures forall k :: k in r <==> k != "" && JStr(k) in items
  {
    if items == [] then []
    else
      var rest := UsableKeys(items[1..]);
      assert items == [items[0]] + items[1..];
      match items[0]
      case JStr(k) => if k != "" then [k] + rest else rest
      case _ => rest
  }

  /** `typeof e.count === "number" ? e.count : 0` */
  function Count(e: Json): int {
    match Member(e, "count")
    case Some(JNum(n)) => n
    case _ => 0
  }

  /** `desired`: `3 + Math.floor(rnd() * 4)` above six photos, the count
    * itself from three to six, three below. */
  function Desired(count: int, pick: nat): (d: nat)
    requires pick < 4
    ensures 3 <= d <= 6
    ensures count < 3 ==> d == 3
    ensures 3 <= count <= 6 ==> d == count
    ensures count > 6 ==> d == 3 + pick
  {
    if count > 6 then 3 + pick else if count >= 3 then count else 3
  }

  /** The card's tiles: the image keys in order, and the placeholder count. */
  datatype Cover = Cover(desired: nat, keys: seq<string>, placeholders: nat)

  /** The distinct usable sample keys, shuffled. */
  function ShuffledKeys(e: Json, picks: seq<nat>): (u: seq<string>)
    requires ValidPicks(picks, |Dedup(UsableKeys(ArrayMember(e, "sampleKeys")))|)
    ensures Distinct(u)
    ensures forall k :: k in u <==> k != "" && JStr(k) in ArrayMember(e, "sampleKeys")
  {
    var d := Dedup(UsableKeys(ArrayMember(e, "sampleKeys")));
    FisherYatesPermutes(d, picks);
    FisherYates(d, picks)
  }

  function Max0(x: int): nat { if x < 0 then 0 else x }

  /** The selection of the lines after `uniqueKeys` is built. */
  function CoverOf(e: Json, pick: nat, picks: seq<nat>): (c: Cover)
    requires pick < 4
    requires ValidPicks(picks, |Dedup(UsableKeys(ArrayMember(e, "sampleKeys")))|)
  {
    var count := Count(e);
    var desired := Desired(count, pick);
    var u := ShuffledKeys(e, picks);
    if count < 3 then
      var keys := SliceTo(u, if count != 0 && count < |u| then count else |u|);
      Cover(desired, keys, Max0(3 - |keys|))
    else if count <= 6 then
      Cover(desired, u, Max0(desired - |u|))
    else
      var take := if desired < |u| then desired else |u|;
      Cover(desired, u[..take], Max0(desired - take))
  }

  /** The mosaic's images are distinct, non-empty string sample keys of the
    * event, and its `desired` is three to six. */
  lemma {:induction false} CoverKeysAreSamples(e: Json, pick: nat, picks: seq<nat>)
    requires pick < 4
    requires ValidPicks(picks, |Dedup(UsableKeys(ArrayMember(e, "sampleKeys")))|)
    ensures var c := CoverOf(e, pick, picks);
      Distinct(c.keys) && 3 <= c.desired <= 6 &&
      forall k :: k in c.keys ==> k != "" && JStr(k) in ArrayMember(e, "sampleKeys")
  {
    var u := ShuffledKeys(e, picks);
    var c := CoverOf(e, pick, picks);
    assert c.keys == u[..|c.keys|];
    forall k | k in c.keys ensures k in u {
      var i :| 0 <= i < |c.keys| && c.keys[i] == k;
      assert u[i] == k;
    }
  }

  /** Above six photos the card shows exactly `desired` tiles; with one or
    * two photos exactly three; from three to six at least `count`. */
  lemma CoverTileCount(e: Json, pick: nat, picks: seq<nat>)
    requires pick < 4
    requires ValidPicks(picks, |Dedup(UsableKeys(ArrayMember(e, "sampleKeys")))|)
    ensures var c := CoverOf(e, pick, picks);
      (Count(e) > 6 ==> |c.keys| + c.placeholders == c.desired && 3 + pick == c.desired) &&
      (1 <= Count(e) <= 2 ==> |c.keys| + c.placeholders == 3) &&
      (3 <= Count(e) <= 6 ==> |c.keys| + c.placeholders >= Count(e))
  {
  }
}
