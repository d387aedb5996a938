/** `hash32` (timeline.js): FNV-1a over the UTF-16 code units of a string. */
module Fnv {

  const OffsetBasis: bv32 := 2166136261
  const Prime: bv32 := 16777619

  /** One step: xor in the code unit, then `Math.imul` by the prime (the
    * product modulo 2^32). */
  function Step(h: bv32, c: char): bv32 {
    (h ^ (c as int as bv32)) * Prime
  }

  /** The hash state after folding `s` into `h`. */
  function FoldFrom(h: bv32, s: string): bv32
    decreases |s|
  {
    if s == [] then h else Step(FoldFrom(h, s[..|s| - 1]), s[|s| - 1])
  }

  function Fnv1a(s: string): bv32 {
    FoldFrom(OffsetBasis, s)
  }

  /** The hash is computed left to right: hashing `a + b` is hashing `b` from
    * the state `a` left. */
  lemma {:induction false} FoldFromAppend(h: bv32, a: string, b: string)
    ensures FoldFrom(h, a + b) == FoldFrom(FoldFrom(h, a), b)
    decreases |b|
  {
    if b == [] {
      assert a + b == a;
    } else {
      assert (a + b)[..|a + b| - 1] == a + b[..|b| - 1];
      assert (a + b)[|a + b| - 1] == b[|b| - 1];
      FoldFromAppend(h, a, b[..|b| - 1]);
    }
  }

  /** Two reference values of 32-bit FNV-1a. */
  lemma Fnv1aKnownValues()
    ensures Fnv1a("") == 0x811C9DC5
    ensures Fnv1a("a") == 0xE40C292C
  {
    assert "a"[..0] == [];
  }

  /** The loop of `hash32`; `h >>> 0` reads the state as unsigned, so the
    * result lies in [0, 2^32). */
  method Hash32(str: string) returns (r: nat)
    ensures r == Fnv1a(str) as nat && r < 0x1_0000_0000
  {
    var h: bv32 := OffsetBasis;
    for i := 0 to |str|
      invariant h == FoldFrom(OffsetBasis, str[..i])
    {
      assert str[..i + 1][..i] == str[..i];
      assert FoldFrom(OffsetBasis, str[..i + 1]) == Step(h, str[i]);
      h := Step(h, str[i]);
    }
    assert str[..|str|] == str;
    r := h as nat;
  }
}
