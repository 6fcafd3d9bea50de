/** Octets and the prefix facts that the decoders' truncation proofs share. */
module ByteSeq {

  type byte = x: int | 0 <= x < 0x100
  type Bytes = seq<byte>

  /** `p` is `s` cut short: a strict prefix of it. */
  predicate IsProperPrefix(p: Bytes, s: Bytes) {
    |p| < |s| && p == s[..|p|]
  }

  /** A strict prefix of `b + t` is either a strict prefix of `b`, or `b` followed by a strict prefix of `t`. */
  lemma SplitPrefix(p: Bytes, b: Bytes, t: Bytes)
    requires IsProperPrefix(p, b + t)
    ensures |p| < |b| ==> IsProperPrefix(p, b)
    ensures |p| >= |b| ==> p == b + p[|b|..] && IsProperPrefix(p[|b|..], t)
  {
    if |p| >= |b| {
      assert p[..|b|] == (b + t)[..|b|] == b;
      assert p == p[..|b|] + p[|b|..];
      assert p[|b|..] == (b + t)[|b|..|p|] == t[..|p| - |b|];
    }
  }

  lemma AppendAssoc(a: Bytes, b: Bytes, c: Bytes)
    ensures (a + b) + c == a + (b + c)
  {
  }
}
