/**
 * Keeping the version of a Rust crate's Cargo.toml and of its package.json in
 * step (tooling/package-version-sync/src/lib.rs).
 *
 * Parsing the two manifests and the version strings is done by libraries
 * that are not part of this model: what reaches the decision is, for each
 * manifest, whether it parsed, whether it holds a version string, and that
 * string's parsed version if it is valid semver.
 */
module VersionSync {
  import opened Wrappers
  import opened SemVer

  /** What the parsers report about one manifest. */
  datatype Extracted =
    | Malformed                                      // the file is not valid JSON / TOML
    | NoVersion                                      // no string-valued version field
    | Found(text: string, parsed: Option<Version>)   // the version text; None when it is not semver

  datatype Error =
    | Io
    | VersionError(message: string)
    | Semver
    | Serde
    | Toml

  /** Which file's version wins when they differ. */
  datatype SourceOfTruth = CargoToml | PackageJson

  datatype SyncContentsResult =
    | NoChanges
    | UpdatedCargoToml(cargoToml: string)
    | UpdatedPackageJson(packageJson: string)

  const PACKAGE_VERSION_NOT_FOUND: string := "package version not found"
  const CARGO_VERSION_NOT_FOUND: string := "cargo toml version not found"

  /** `p` occurs in `s` at index `i`. */
  predicate OccursAt(s: string, p: string, i: nat) {
    i + |p| <= |s| && s[i..i + |p|] == p
  }

  /** str::replace for a non-empty pattern: every occurrence, scanning left to right without overlap. */
  function Replace(s: string, p: string, r: string): string
    requires p != []
  {
    if |s| < |p| then s
    else if s[..|p|] == p then r + Replace(s[|p|..], p, r)
    else [s[0]] + Replace(s[1..], p, r)
  }

  /** The Cargo.toml line that carries version `v`. */
  function CargoVersionLine(v: string): (line: string)
    ensures line != [] && line[0] == 'v'
  {
    "version = \"" + v + "\""
  }

  /** The package.json member that carries version `v`. */
  function JsonVersionMember(v: string): (member: string)
    ensures |member| > 1 && member[0] == '"' && member[1] == 'v'
  {
    "\"version\": \"" + v + "\""
  }

  /** patch_cargo_toml_version */
  function PatchCargoTomlVersion(contents: string, oldVersion: string, newVersion: string): string {
    Replace(contents, CargoVersionLine(oldVersion), CargoVersionLine(newVersion))
  }

  /** patch_package_json_version */
  function PatchPackageJsonVersion(contents: string, oldVersion: string, newVersion: string): string {
    Replace(contents, JsonVersionMember(oldVersion), JsonVersionMember(newVersion))
  }

  /**
   * sync_contents: fails on the first problem in the order package.json
   * parse, package.json version, package.json semver, Cargo.toml parse,
   * Cargo.toml version, Cargo.toml semver; otherwise leaves equal versions
   * alone, lets an explicit source of truth win, and else rewrites the file
   * with the older version.
   */
  function SyncContents(
    cargoTomlContents: string, cargoToml: Extracted,
    packageJsonContents: string, packageJson: Extracted,
    sourceOfTruth: Option<SourceOfTruth>): Result<SyncContentsResult, Error>
  {
    if packageJson.Malformed? then Err(Serde)
    else if packageJson.NoVersion? then Err(VersionError(PACKAGE_VERSION_NOT_FOUND))
    else if packageJson.parsed.None? then Err(Semver)
    else if cargoToml.Malformed? then Err(Toml)
    else if cargoToml.NoVersion? then Err(VersionError(CARGO_VERSION_NOT_FOUND))
    else if cargoToml.parsed.None? then Err(Semver)
    else
      var cargoVersion, packageVersion := cargoToml.parsed.value, packageJson.parsed.value;
      var updateCargo := UpdatedCargoToml(PatchCargoTomlVersion(cargoTomlContents, cargoToml.text, packageJson.text));
      var updatePackage := UpdatedPackageJson(PatchPackageJsonVersion(packageJsonContents, packageJson.text, cargoToml.text));
      if cargoVersion == packageVersion then Ok(NoChanges)
      else if sourceOfTruth == Some(PackageJson) then Ok(updateCargo)
      else if sourceOfTruth == Some(CargoToml) then Ok(updatePackage)
      else if Newer(packageVersion, cargoVersion) then Ok(updateCargo)
      else if Newer(cargoVersion, packageVersion) then Ok(updatePackage)
      else Ok(NoChanges)
  }

  /** Both manifests hold a valid semver version. */
  predicate BothValid(cargoToml: Extracted, packageJson: Extracted) {
    cargoToml.Found? && cargoToml.parsed.Some? && packageJson.Found? && packageJson.parsed.Some?
  }

  /** The errors, each with exactly the condition that produces it: every earlier check passed and this one failed. */
  lemma ErrorOrder(cargoTomlContents: string, cargoToml: Extracted, packageJsonContents: string, packageJson: Extracted,
                   sourceOfTruth: Option<SourceOfTruth>)
    ensures var r := SyncContents(cargoTomlContents, cargoToml, packageJsonContents, packageJson, sourceOfTruth);
      && (r == Err(Serde) <==> packageJson.Malformed?)
      && (r == Err(VersionError(PACKAGE_VERSION_NOT_FOUND)) <==> packageJson.NoVersion?)
      && (r == Err(Toml) <==> packageJson.Found? && packageJson.parsed.Some? && cargoToml.Malformed?)
      && (r == Err(VersionError(CARGO_VERSION_NOT_FOUND)) <==> packageJson.Found? && packageJson.parsed.Some? && cargoToml.NoVersion?)
      && (r == Err(Semver) <==>
            (packageJson.Found? && packageJson.parsed.None?)
            || (packageJson.Found? && packageJson.parsed.Some? && cargoToml.Found? && cargoToml.parsed.None?))
      && (r.Ok? <==> BothValid(cargoToml, packageJson))
  {
    assert PACKAGE_VERSION_NOT_FOUND[0] != CARGO_VERSION_NOT_FOUND[0];
  }

  /** Equal versions give NoChanges, whatever the source of truth. */
  lemma EqualVersionsUnchanged(cargoTomlContents: string, cargoToml: Extracted, packageJsonContents: string, packageJson: Extracted,
                               sourceOfTruth: Option<SourceOfTruth>)
    requires BothValid(cargoToml, packageJson)
    ensures SyncContents(cargoTomlContents, cargoToml, packageJsonContents, packageJson, sourceOfTruth) == Ok(NoChanges)
            <==> cargoToml.parsed == packageJson.parsed
  {
    var c, p := cargoToml.parsed.value, packageJson.parsed.value;
    NewerTrichotomy(c, p);
  }

  /** Cargo.toml's version is the one kept: it is named the source of truth, or without one it is the newer. */
  predicate CargoWins(cargoToml: Extracted, packageJson: Extracted, sourceOfTruth: Option<SourceOfTruth>)
    requires BothValid(cargoToml, packageJson)
  {
    sourceOfTruth == Some(CargoToml) || (sourceOfTruth == None && Newer(cargoToml.parsed.value, packageJson.parsed.value))
  }

  /**
   * Different versions always rewrite one file: the one the source of truth
   * does not name, or without one the file holding the older version, which
   * then takes the other file's version text.
   */
  lemma DifferentVersionsSynced(cargoTomlContents: string, cargoToml: Extracted, packageJsonContents: string, packageJson: Extracted,
                                sourceOfTruth: Option<SourceOfTruth>)
    requires BothValid(cargoToml, packageJson) && cargoToml.parsed != packageJson.parsed
    ensures SyncContents(cargoTomlContents, cargoToml, packageJsonContents, packageJson, sourceOfTruth)
            == if CargoWins(cargoToml, packageJson, sourceOfTruth)
               then Ok(UpdatedPackageJson(PatchPackageJsonVersion(packageJsonContents, packageJson.text, cargoToml.text)))
               else Ok(UpdatedCargoToml(PatchCargoTomlVersion(cargoTomlContents, cargoToml.text, packageJson.text)))
  {
    NewerTrichotomy(cargoToml.parsed.value, packageJson.parsed.value);
    match sourceOfTruth
    case None =>
    case Some(CargoToml) =>
    case Some(PackageJson) =>
  }

  /** A string without the pattern's `j`-th character holds no occurrence of it. */
  lemma NoOccurrence(s: string, p: string, j: nat)
    requires j < |p| && p[j] !in s
    ensures forall i: nat :: !OccursAt(s, p, i)
  {
    forall i: nat ensures !OccursAt(s, p, i) {
      if i + |p| <= |s| {
        assert s[i..i + |p|][j] == s[i + j] != p[j];
      }
    }
  }

  /** Text without an occurrence of the pattern comes back unchanged. */
  lemma {:induction false} ReplaceNothing(s: string, p: string, r: string)
    requires p != [] && forall i: nat :: !OccursAt(s, p, i)
    ensures Replace(s, p, r) == s
  {
    if |s| >= |p| {
      assert !OccursAt(s, p, 0);
      forall i: nat ensures !OccursAt(s[1..], p, i) {
        assert !OccursAt(s, p, i + 1);
        if i + |p| <= |s[1..]| {
          assert s[1..][i..i + |p|] == s[i + 1..i + 1 + |p|];
        }
      }
      ReplaceNothing(s[1..], p, r);
      assert s == [s[0]] + s[1..];
    }
  }

  /** Dropping the first character of `a` keeps `a`'s remaining positions free of occurrences. */
  lemma NoOccurrenceAfterFirst(a: string, p: string, b: string)
    requires a != []
    requires forall i: nat :: i < |a| ==> !OccursAt(a + p + b, p, i)
    ensures (a + p + b)[1..] == a[1..] + p + b
    ensures forall i: nat :: i < |a[1..]| ==> !OccursAt(a[1..] + p + b, p, i)
  {
    var s := a + p + b;
    assert s[1..] == a[1..] + p + b;
    forall i: nat | i < |a[1..]| ensures !OccursAt(a[1..] + p + b, p, i) {
      assert !OccursAt(s, p, i + 1);
      assert s[i + 1..i + 1 + |p|] == s[1..][i..i + |p|];
    }
  }

  /** Where the pattern does not occur at the front, the front character is kept. */
  lemma KeepFront(s: string, p: string, r: string)
    requires p != [] && s != [] && !OccursAt(s, p, 0)
    ensures Replace(s, p, r) == [s[0]] + Replace(s[1..], p, r)
  {
  }

  /** Text before the first occurrence is kept as it is, the occurrence is replaced, and the scan resumes after it. */
  lemma {:induction false} ReplaceFirst(a: string, p: string, b: string, r: string)
    requires p != []
    requires forall i: nat :: i < |a| ==> !OccursAt(a + p + b, p, i)
    ensures Replace(a + p + b, p, r) == a + r + Replace(b, p, r)
  {
    var s := a + p + b;
    if a == [] {
      assert s[..|p|] == p && s[|p|..] == b;
    } else {
      KeepFront(s, p, r);
      NoOccurrenceAfterFirst(a, p, b);
      ReplaceFirst(a[1..], p, b, r);
      assert a == [a[0]] + a[1..];
      assert [a[0]] + (a[1..] + r + Replace(b, p, r)) == a + r + Replace(b, p, r);
    }
  }

  /**
   * No occurrence starts inside `a` when the pattern's `j`-th character is
   * absent from `a` and differs from every earlier character of the pattern.
   */
  lemma NoEarlyOccurrence(a: string, p: string, b: string, j: nat)
    requires j < |p| && p[j] !in a
    requires forall k :: 0 <= k < j ==> p[k] != p[j]
    ensures forall i: nat :: i < |a| ==> !OccursAt(a + p + b, p, i)
  {
    var s := a + p + b;
    forall i: nat | i < |a| ensures !OccursAt(s, p, i) {
      if i + |p| <= |s| {
        if i + j < |a| {
          assert s[i..i + |p|][j] == a[i + j] != p[j];
        } else {
          assert s[i..i + |p|][j] == p[i + j - |a|] != p[j];
        }
      }
    }
  }

  /** Text without the pattern's first character passes through unchanged, and the scan goes on after it. */
  lemma {:induction false} ReplaceSkips(a: string, s: string, p: string, r: string)
    requires p != [] && p[0] !in a
    ensures Replace(a + s, p, r) == a + Replace(s, p, r)
  {
    if a != [] {
      var t := a + s;
      if |t| >= |p| {
        assert t[..|p|][0] == a[0] != p[0];
      }
      assert t[1..] == a[1..] + s;
      ReplaceSkips(a[1..], s, p, r);
      assert a == [a[0]] + a[1..];
    } else {
      assert a + s == s;
    }
  }

  /** Cargo.toml as the tests write it, with version `v`. */
  function CargoTemplate(v: string): string {
    "[package]\nname = \"test-package\"\n" + CargoVersionLine(v) + "\nedition = \"2021\"\n"
  }

  /** package.json as the tests write it, with version `v`. */
  function JsonTemplate(v: string): string {
    "{\n  \"name\": \"test-package\",\n  " + JsonVersionMember(v) + ",\n  \"type\": \"module\"\n}"
  }

  /** Patching the tests' Cargo.toml rewrites its version line and nothing else. */
  lemma PatchCargoTemplate(v: string, w: string)
    ensures PatchCargoTomlVersion(CargoTemplate(v), v, w) == CargoTemplate(w)
  {
    var a, b := "[package]\nname = \"test-package\"\n", "\nedition = \"2021\"\n";
    var p := CargoVersionLine(v);
    NoEarlyOccurrence(a, p, b, 0);
    NoOccurrence(b, p, 0);
    ReplaceFirst(a, p, b, CargoVersionLine(w));
    ReplaceNothing(b, p, CargoVersionLine(w));
  }

  /** Patching the tests' package.json rewrites its version member and nothing else. */
  lemma PatchJsonTemplate(v: string, w: string)
    ensures PatchPackageJsonVersion(JsonTemplate(v), v, w) == JsonTemplate(w)
  {
    var a, b := "{\n  \"name\": \"test-package\",\n  ", ",\n  \"type\": \"module\"\n}";
    var p := JsonVersionMember(v);
    NoEarlyOccurrence(a, p, b, 1);
    NoOccurrence(b, p, 1);
    ReplaceFirst(a, p, b, JsonVersionMember(w));
    ReplaceNothing(b, p, JsonVersionMember(w));
  }

  /** The Cargo.toml of the complex-structure test, with version `v`: a `[dependencies]` and a `[dev-dependencies]` table follow. */
  function ComplexCargo(v: string): string {
    COMPLEX_HEAD + CargoVersionLine(v) + (COMPLEX_MIDDLE + ("v" + COMPLEX_REST))
  }

  const COMPLEX_HEAD: string := "[package]\nname = \"test-package\"\n"
  const COMPLEX_MIDDLE: string := COMPLEX_EDITION + COMPLEX_DEPENDENCIES
  const COMPLEX_EDITION: string := "\nedition = \"2021\"\n\n"
  const COMPLEX_DEPENDENCIES: string := "[dependencies]\nserde = \"1.0\"\n\n[de"
  /** What follows the 'v' of "dev-dependencies". */
  const COMPLEX_REST: string := "-dependencies]\ntokio = \"1.0\"\n"

  /** The complex package.json test's manifest; only its version matters to the decision. */
  const COMPLEX_PACKAGE_JSON: string :=
    "{\n  \"name\": \"test-package\",\n  \"version\": \"2.0.0\",\n  \"type\": \"module\",\n  \"scripts\": {\n"
    + "    \"build\": \"echo 'building'\"\n  },\n  \"dependencies\": {\n    \"react\": \"^18.0.0\"\n  }\n}"

  /** The tail holds no occurrence of a Cargo version line: its 'v' is followed by '-'. */
  lemma ReplaceTail(v: string, r: string)
    ensures Replace("v" + COMPLEX_REST, CargoVersionLine(v), r) == "v" + COMPLEX_REST
  {
    var p, t := CargoVersionLine(v), "v" + COMPLEX_REST;
    assert 'v' !in COMPLEX_REST;
    assert t[1..] == COMPLEX_REST;
    if |t| >= |p| {
      assert t[..|p|][1] == COMPLEX_REST[0] == '-';
    }
    ReplaceSkips(COMPLEX_REST, [], p, r);
    assert COMPLEX_REST + [] == COMPLEX_REST;
    assert t == [t[0]] + t[1..];
  }

  /** A pattern that starts neither `h` nor `m` is replaced once in `h + p + (m + t)` when `t` holds no occurrence. */
  lemma ReplaceBetween(h: string, m: string, t: string, p: string, r: string)
    requires p != [] && p[0] !in h && p[0] !in m
    requires Replace(t, p, r) == t
    ensures Replace(h + p + (m + t), p, r) == h + r + (m + t)
  {
    assert h + p + (m + t) == h + (p + (m + t));
    ReplaceSkips(h, p + (m + t), p, r);
    ReplaceFirst([], p, m + t, r);
    assert [] + p + (m + t) == p + (m + t);
    ReplaceSkips(m, t, p, r);
  }

  /** Patching the complex Cargo.toml rewrites the package version and leaves both dependency tables alone. */
  lemma PatchComplexCargo(v: string, w: string)
    ensures PatchCargoTomlVersion(ComplexCargo(v), v, w) == ComplexCargo(w)
  {
    assert 'v' !in COMPLEX_HEAD;
    assert 'v' !in COMPLEX_EDITION && 'v' !in COMPLEX_DEPENDENCIES;
    assert 'v' !in COMPLEX_MIDDLE;
    ReplaceTail(v, CargoVersionLine(w));
    ReplaceBetween(COMPLEX_HEAD, COMPLEX_MIDDLE, "v" + COMPLEX_REST, CargoVersionLine(v), CargoVersionLine(w));
  }

  /** The patch is a substring replace, not a line match: a dependency's inline table holding the old version line is rewritten too. */
  lemma InlineTableRewritten(v: string, w: string)
    ensures PatchCargoTomlVersion(InlineTable(v), v, w) == InlineTable(w)
  {
    var h, t := "foo = { ", " }";
    var p, r := CargoVersionLine(v), CargoVersionLine(w);
    assert 'v' !in h && 'v' !in t;
    ReplaceBetween(h, [], t, p, r);
    assert [] + t == t;
  }

  /** A dependency given as an inline table with version `v`: `foo = { version = "<v>" }`. */
  function InlineTable(v: string): string {
    "foo = { " + CargoVersionLine(v) + " }"
  }

  function V(major: nat, minor: nat, patch: nat): Version {
    Version(major, minor, patch, [], [])
  }

  /** Both test manifests, holding versions `c` (Cargo.toml) and `p` (package.json). */
  function SyncTemplates(c: string, cv: Version, p: string, pv: Version, sourceOfTruth: Option<SourceOfTruth>): Result<SyncContentsResult, Error> {
    SyncContents(CargoTemplate(c), Found(c, Some(cv)), JsonTemplate(p), Found(p, Some(pv)), sourceOfTruth)
  }

  /** Equal versions change nothing; otherwise the newer version is copied to the other file. */
  lemma TestNewerWins()
    ensures SyncTemplates("1.2.3", V(1, 2, 3), "1.2.3", V(1, 2, 3), None) == Ok(NoChanges)
    ensures SyncTemplates("1.2.3", V(1, 2, 3), "1.2.4", V(1, 2, 4), None) == Ok(UpdatedCargoToml(CargoTemplate("1.2.4")))
    ensures SyncTemplates("1.2.4", V(1, 2, 4), "1.2.3", V(1, 2, 3), None) == Ok(UpdatedPackageJson(JsonTemplate("1.2.4")))
  {
    PatchCargoTemplate("1.2.3", "1.2.4");
    PatchJsonTemplate("1.2.3", "1.2.4");
  }

  /** A source of truth wins even when it holds the older version. */
  lemma TestSourceOfTruth()
    ensures SyncTemplates("1.2.4", V(1, 2, 4), "1.2.3", V(1, 2, 3), Some(PackageJson)) == Ok(UpdatedCargoToml(CargoTemplate("1.2.3")))
    ensures SyncTemplates("1.2.3", V(1, 2, 3), "1.2.4", V(1, 2, 4), Some(CargoToml)) == Ok(UpdatedPackageJson(JsonTemplate("1.2.3")))
  {
    PatchCargoTemplate("1.2.4", "1.2.3");
    PatchJsonTemplate("1.2.4", "1.2.3");
  }

  /** Major, minor and patch compare as numbers. */
  lemma TestNumericOrder()
    ensures SyncTemplates("2.0.0", V(2, 0, 0), "1.9.9", V(1, 9, 9), None) == Ok(UpdatedPackageJson(JsonTemplate("2.0.0")))
    ensures SyncTemplates("1.1.0", V(1, 1, 0), "1.0.9", V(1, 0, 9), None) == Ok(UpdatedPackageJson(JsonTemplate("1.1.0")))
    ensures SyncTemplates("1.0.1", V(1, 0, 1), "1.0.0", V(1, 0, 0), None) == Ok(UpdatedPackageJson(JsonTemplate("1.0.1")))
  {
    PatchJsonTemplate("1.9.9", "2.0.0");
    PatchJsonTemplate("1.0.9", "1.1.0");
    PatchJsonTemplate("1.0.0", "1.0.1");
  }

  /** A pre-release loses to its release; build metadata beats none. */
  lemma TestPreReleaseAndBuild()
    ensures SyncTemplates("1.0.0-alpha.1", Version(1, 0, 0, [AlphaNumeric("alpha"), Numeric(1)], []), "1.0.0", V(1, 0, 0), None)
            == Ok(UpdatedCargoToml(CargoTemplate("1.0.0")))
    ensures SyncTemplates("1.0.0+build.1", Version(1, 0, 0, [], ["build", "1"]), "1.0.0", V(1, 0, 0), None)
            == Ok(UpdatedPackageJson(JsonTemplate("1.0.0+build.1")))
  {
    PatchCargoTemplate("1.0.0-alpha.1", "1.0.0");
    PatchJsonTemplate("1.0.0", "1.0.0+build.1");
    Examples();
  }

  /** Other tables and members are left byte-identical; only the version line changes. */
  lemma TestComplexStructures()
    ensures SyncContents(ComplexCargo("1.0.0"), Found("1.0.0", Some(V(1, 0, 0))), JsonTemplate("2.0.0"), Found("2.0.0", Some(V(2, 0, 0))), None)
            == Ok(UpdatedCargoToml(ComplexCargo("2.0.0")))
    ensures SyncContents(CargoTemplate("1.0.0"), Found("1.0.0", Some(V(1, 0, 0))), COMPLEX_PACKAGE_JSON, Found("2.0.0", Some(V(2, 0, 0))), None)
            == Ok(UpdatedCargoToml(CargoTemplate("2.0.0")))
  {
    PatchComplexCargo("1.0.0", "2.0.0");
    PatchCargoTemplate("1.0.0", "2.0.0");
  }
}
