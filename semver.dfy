/**
 * Parsed semantic versions and their order, as tooling/package-version-sync
 * compares them: major, minor and patch numerically, then the pre-release
 * (section 11 of Semantic Versioning 2.0.0: a version with a pre-release is
 * lower than the same version without one; identifiers compare field by
 * field, numeric ones by value and below alphanumeric ones, alphanumeric ones
 * in ASCII order, and a shorter list that is a prefix of a longer one is
 * lower), and finally the build metadata, which the standard ignores but the
 * version library orders: no metadata is lower than some, and otherwise the
 * identifiers compare field by field, all-digit ones by value, then by
 * length, and below the others.
 */
module SemVer {

  datatype Ordering = Less | Equal | Greater {
    function Flip(): Ordering {
      match this
      case Less => Greater
      case Equal => Equal
      case Greater => Less
    }
  }

  /** A pre-release identifier: a number without leading zeros, or text with at least one non-digit. */
  datatype Identifier = Numeric(number: nat) | AlphaNumeric(text: string)

  /** A parsed version `major.minor.patch[-pre][+build]`; build identifiers are kept as text, since they may have leading zeros. */
  datatype Version = Version(major: nat, minor: nat, patch: nat, pre: seq<Identifier>, build: seq<string>)

  function CompareNat(a: nat, b: nat): (r: Ordering)
    ensures r == Less <==> a < b
    ensures r == Greater <==> a > b
  {
    if a < b then Less else if a > b then Greater else Equal
  }

  /** Byte-wise order of text (identifiers are ASCII, so characters and bytes agree). */
  function CompareText(a: string, b: string): Ordering {
    if a == [] && b == [] then Equal
    else if a == [] then Less
    else if b == [] then Greater
    else if a[0] < b[0] then Less
    else if a[0] > b[0] then Greater
    else CompareText(a[1..], b[1..])
  }

  function CompareIdentifier(a: Identifier, b: Identifier): Ordering {
    match (a, b)
    case (Numeric(x), Numeric(y)) => CompareNat(x, y)
    case (Numeric(_), AlphaNumeric(_)) => Less
    case (AlphaNumeric(_), Numeric(_)) => Greater
    case (AlphaNumeric(x), AlphaNumeric(y)) => CompareText(x, y)
  }

  /** Field by field; a list that runs out first is lower. */
  function CompareIdentifiers(a: seq<Identifier>, b: seq<Identifier>): Ordering {
    if a == [] && b == [] then Equal
    else if a == [] then Less
    else if b == [] then Greater
    else
      var c := CompareIdentifier(a[0], b[0]);
      if c != Equal then c else CompareIdentifiers(a[1..], b[1..])
  }

  /** An empty pre-release ranks above every non-empty one. */
  function ComparePre(a: seq<Identifier>, b: seq<Identifier>): Ordering {
    if a == [] && b == [] then Equal
    else if a == [] then Greater
    else if b == [] then Less
    else CompareIdentifiers(a, b)
  }

  predicate IsDigit(c: char) {
    '0' <= c <= '9'
  }

  predicate AllDigits(s: string) {
    forall i :: 0 <= i < |s| ==> IsDigit(s[i])
  }

  /** The number a string of decimal digits denotes. */
  function DigitsValue(s: string): nat
    requires AllDigits(s)
  {
    if s == [] then 0 else DigitsValue(s[..|s| - 1]) * 10 + (s[|s| - 1] as int - '0' as int)
  }

  /** Build identifiers: all-digit ones by value and then by length (so "1" < "01"), and below the others. */
  function CompareBuildIdentifier(a: string, b: string): Ordering {
    if AllDigits(a) && AllDigits(b) then
      var c := CompareNat(DigitsValue(a), DigitsValue(b));
      if c != Equal then c else CompareNat(|a|, |b|)
    else if AllDigits(a) then Less
    else if AllDigits(b) then Greater
    else CompareText(a, b)
  }

  /** Field by field; a list that runs out first is lower, so no metadata is lower than some. */
  function CompareBuild(a: seq<string>, b: seq<string>): Ordering {
    if a == [] && b == [] then Equal
    else if a == [] then Less
    else if b == [] then Greater
    else
      var c := CompareBuildIdentifier(a[0], b[0]);
      if c != Equal then c else CompareBuild(a[1..], b[1..])
  }

  /** The version order: major, minor, patch, pre-release, build metadata. */
  function Compare(a: Version, b: Version): Ordering {
    var c := CompareNat(a.major, b.major);
    if c != Equal then c else
    var c := CompareNat(a.minor, b.minor);
    if c != Equal then c else
    var c := CompareNat(a.patch, b.patch);
    if c != Equal then c else
    var c := ComparePre(a.pre, b.pre);
    if c != Equal then c else
    CompareBuild(a.build, b.build)
  }

  /** `a > b` in the version order. */
  predicate Newer(a: Version, b: Version) {
    Compare(a, b) == Greater
  }

  lemma {:induction false} CompareTextLaws(a: string, b: string)
    ensures CompareText(b, a) == CompareText(a, b).Flip()
    ensures CompareText(a, b) == Equal <==> a == b
  {
    if a != [] && b != [] {
      CompareTextLaws(a[1..], b[1..]);
      if a[0] == b[0] && a[1..] == b[1..] {
        assert a == [a[0]] + a[1..] && b == [b[0]] + b[1..];
      }
    }
  }

  lemma IdentifierLaws(a: Identifier, b: Identifier)
    ensures CompareIdentifier(b, a) == CompareIdentifier(a, b).Flip()
    ensures CompareIdentifier(a, b) == Equal <==> a == b
  {
    if a.AlphaNumeric? && b.AlphaNumeric? {
      CompareTextLaws(a.text, b.text);
    }
  }

  lemma {:induction false} IdentifiersLaws(a: seq<Identifier>, b: seq<Identifier>)
    ensures CompareIdentifiers(b, a) == CompareIdentifiers(a, b).Flip()
    ensures CompareIdentifiers(a, b) == Equal <==> a == b
  {
    if a != [] && b != [] {
      IdentifierLaws(a[0], b[0]);
      IdentifiersLaws(a[1..], b[1..]);
      if a[0] == b[0] && a[1..] == b[1..] {
        assert a == [a[0]] + a[1..] && b == [b[0]] + b[1..];
      }
    }
  }

  lemma PreLaws(a: seq<Identifier>, b: seq<Identifier>)
    ensures ComparePre(b, a) == ComparePre(a, b).Flip()
    ensures ComparePre(a, b) == Equal <==> a == b
  {
    IdentifiersLaws(a, b);
  }

  /** Two digit strings of the same length and value are the same string. */
  lemma {:induction false} DigitsDetermined(a: string, b: string)
    requires AllDigits(a) && AllDigits(b) && |a| == |b|
    requires DigitsValue(a) == DigitsValue(b)
    ensures a == b
  {
    if a != [] {
      var n := |a| - 1;
      var da, db := a[n] as int - '0' as int, b[n] as int - '0' as int;
      assert AllDigits(a[..n]) && AllDigits(b[..n]);
      assert 0 <= da < 10 && 0 <= db < 10;
      assert DigitsValue(a[..n]) * 10 + da == DigitsValue(b[..n]) * 10 + db;
      assert da == db && DigitsValue(a[..n]) == DigitsValue(b[..n]);
      DigitsDetermined(a[..n], b[..n]);
      assert a == a[..n] + [a[n]] && b == b[..n] + [b[n]];
    }
  }

  lemma BuildIdentifierLaws(a: string, b: string)
    ensures CompareBuildIdentifier(b, a) == CompareBuildIdentifier(a, b).Flip()
    ensures CompareBuildIdentifier(a, b) == Equal <==> a == b
  {
    if AllDigits(a) && AllDigits(b) {
      if DigitsValue(a) == DigitsValue(b) && |a| == |b| {
        DigitsDetermined(a, b);
      }
    } else if !AllDigits(a) && !AllDigits(b) {
      CompareTextLaws(a, b);
    }
  }

  lemma {:induction false} BuildLaws(a: seq<string>, b: seq<string>)
    ensures CompareBuild(b, a) == CompareBuild(a, b).Flip()
    ensures CompareBuild(a, b) == Equal <==> a == b
  {
    if a != [] && b != [] {
      BuildIdentifierLaws(a[0], b[0]);
      BuildLaws(a[1..], b[1..]);
      if a[0] == b[0] && a[1..] == b[1..] {
        assert a == [a[0]] + a[1..] && b == [b[0]] + b[1..];
      }
    }
  }

  /** The order is antisymmetric, and two versions rank equal exactly when they are the same version, build metadata included. */
  lemma CompareLaws(a: Version, b: Version)
    ensures Compare(b, a) == Compare(a, b).Flip()
    ensures Compare(a, b) == Equal <==> a == b
  {
    PreLaws(a.pre, b.pre);
    BuildLaws(a.build, b.build);
  }

  /** Of two different versions exactly one is newer. */
  lemma NewerTrichotomy(a: Version, b: Version)
    ensures a == b ==> !Newer(a, b) && !Newer(b, a)
    ensures a != b ==> (Newer(a, b) <==> !Newer(b, a))
  {
    CompareLaws(a, b);
  }

  /** Major, then minor, then patch decide before anything else. */
  lemma CoreDecides(a: Version, b: Version)
    ensures a.major > b.major ==> Newer(a, b)
    ensures a.major == b.major && a.minor > b.minor ==> Newer(a, b)
    ensures a.major == b.major && a.minor == b.minor && a.patch > b.patch ==> Newer(a, b)
  {
  }

  /** A pre-release is older than the release with the same numbers, whatever the build metadata. */
  lemma PreReleaseOlder(a: Version, b: Version)
    requires a.major == b.major && a.minor == b.minor && a.patch == b.patch
    requires a.pre != [] && b.pre == []
    ensures Newer(b, a)
  {
  }

  /** Build metadata breaks a tie: with equal numbers and pre-release, a version with metadata is newer than one without. */
  lemma BuildMetadataNewer(a: Version, b: Version)
    requires a.major == b.major && a.minor == b.minor && a.patch == b.patch && a.pre == b.pre
    requires a.build != [] && b.build == []
    ensures Newer(a, b)
  {
    PreLaws(a.pre, b.pre);
  }

  /** 1.1.0 > 1.0.9, 2.0.0 > 1.9.9, 1.0.0 > 1.0.0-alpha.1 and 1.0.0+build.1 > 1.0.0. */
  lemma Examples()
    ensures Newer(Version(1, 1, 0, [], []), Version(1, 0, 9, [], []))
    ensures Newer(Version(2, 0, 0, [], []), Version(1, 9, 9, [], []))
    ensures Newer(Version(1, 0, 0, [], []), Version(1, 0, 0, [AlphaNumeric("alpha"), Numeric(1)], []))
    ensures Newer(Version(1, 0, 0, [], ["build", "1"]), Version(1, 0, 0, [], []))
  {
  }
}
