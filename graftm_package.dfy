/** GraftM packages: the CONTENTS.json manifest, the checks made when a
    package is acquired, the paths it hands out, and the manifest `compile`
    writes for a new package. Loading and writing the JSON file and
    copying files are outside the model; the manifest is the decoded JSON
    object. */
module GraftmPackage {
  import opened Wrappers
  import opened Strings

  /** A decoded JSON value. */
  datatype Json =
    | JNull
    | JBool(b: bool)
    | JInt(i: int)
    | JReal(x: real)
    | JStr(s: string)
    | JList(items: seq<Json>)
    | JObject(fields: map<string, Json>)

  type Contents = map<string, Json>

  const DiamondDatabaseKey: string := "diamond_database"
  const VersionKey: string := "graftm_package_version"
  const AlignmentHmmKey: string := "align_hmm"
  const SearchHmmKey: string := "search_hmms"
  const ReferencePackageKey: string := "refpkg"
  const HmmTrustedCutoffKey: string := "trusted_cutoff"
  const RangeKey: string := "range"
  const ContentsFileName: string := "CONTENTS.json"

  const CurrentVersion: int := 2

  /** The keys a version 2 package must hold. The diamond database is not
      among them (nucleotide packages have none), and neither is the
      range. */
  const Version2RequiredKeys: seq<string> :=
    [VersionKey, AlignmentHmmKey, SearchHmmKey, ReferencePackageKey, HmmTrustedCutoffKey]

  datatype PackageError =
    | NoVersion                 // "No version information in graftm package"
    | BadVersion(found: Json)   // "Bad version: ..."
    | MissingKey(key: string)   // "package missing key ...", or a KeyError
    | NotAString(key: string)   // a path component that is not a string
    | AlreadyExists             // the output path of `compile` exists

  /** Python truthiness of a JSON value. */
  predicate Truthy(v: Json) {
    match v
    case JNull => false
    case JBool(b) => b
    case JInt(i) => i != 0
    case JReal(x) => x != 0.0
    case JStr(s) => s != ""
    case JList(items) => items != []
    case JObject(fields) => fields != map[]
  }

  /** Python's `v == n` for a decoded value and an int: numbers compare by
      value and booleans count as 0 and 1. */
  predicate PyEqualsInt(v: Json, n: int) {
    match v
    case JInt(i) => i == n
    case JReal(x) => x == n as real
    case JBool(b) => (if b then 1 else 0) == n
    case _ => false
  }

  // ---------------------------------------------------------------------------
  // The checks
  // ---------------------------------------------------------------------------

  /** `check_universal_keys`: the version must be present and equal to the
      one requested. */
  function CheckUniversalKeys(contents: Contents, version: int): (r: Result<(), PackageError>)
    ensures r.Ok? <==> VersionKey in contents && PyEqualsInt(contents[VersionKey], version)
    ensures r == Err(NoVersion) <==> VersionKey !in contents
    ensures r.Err? && r != Err(NoVersion) ==> r == Err(BadVersion(contents[VersionKey]))
  {
    if VersionKey !in contents then Err(NoVersion)
    else if !PyEqualsInt(contents[VersionKey], version) then Err(BadVersion(contents[VersionKey]))
    else Ok(())
  }

  /** The first of `keys` that `contents` lacks. */
  function FirstMissing(contents: Contents, keys: seq<string>): (r: Option<string>)
    ensures r.None? <==> forall k <- keys :: k in contents
    ensures r.Some? ==> exists j :: 0 <= j < |keys| && keys[j] == r.value && r.value !in contents
                                    && forall i :: 0 <= i < j ==> keys[i] in contents
  {
    if keys == [] then None
    else if keys[0] !in contents then Some(keys[0])
    else
      var rest := FirstMissing(contents, keys[1..]);
      if rest.Some? then
        var j :| 0 <= j < |keys[1..]| && keys[1..][j] == rest.value && rest.value !in contents
                 && forall i :: 0 <= i < j ==> keys[1..][i] in contents;
        assert keys[j + 1] == rest.value;
        assert forall i :: 0 < i < j + 1 ==> keys[i] == keys[1..][i - 1];
        rest
      else
        assert forall k <- keys :: k == keys[0] || k in keys[1..];
        rest
  }

  /** `check_required_keys`, the loop over the required keys: it fails, on
      the first key missing, exactly when some key is missing. */
  method CheckRequiredKeys(contents: Contents, keys: seq<string>) returns (r: Result<(), PackageError>)
    ensures r.Ok? <==> forall k <- keys :: k in contents
    ensures r.Err? ==> r == Err(MissingKey(FirstMissing(contents, keys).value))
  {
    for i := 0 to |keys|
      invariant forall j :: 0 <= j < i ==> keys[j] in contents
      invariant FirstMissing(contents, keys[i..]) == FirstMissing(contents, keys)
    {
      FirstMissingStep(contents, keys, i);
      if keys[i] !in contents {
        return Err(MissingKey(keys[i]));
      }
    }
    assert forall k <- keys :: k in contents by {
      forall k <- keys ensures k in contents {
        var j :| 0 <= j < |keys| && keys[j] == k;
      }
    }
    r := Ok(());
  }

  /** The search from position `i` looks at `keys[i]` first. */
  lemma FirstMissingStep(contents: Contents, keys: seq<string>, i: nat)
    requires i < |keys|
    ensures keys[i] !in contents ==> FirstMissing(contents, keys[i..]) == Some(keys[i])
    ensures keys[i] in contents ==> FirstMissing(contents, keys[i..]) == FirstMissing(contents, keys[i + 1..])
  {
    assert keys[i..][0] == keys[i] && keys[i..][1..] == keys[i + 1..];
  }

  /** A package: where it lives and its manifest. */
  datatype Package = Package(base: string, contents: Contents)

  /** `acquire` after loading the manifest: version 2 and the version 2
      keys. */
  function Acquire(base: string, contents: Contents): (r: Result<Package, PackageError>)
    ensures r.Ok? <==>
              && VersionKey in contents && PyEqualsInt(contents[VersionKey], CurrentVersion)
              && forall k <- Version2RequiredKeys :: k in contents
    ensures r.Ok? ==> r.value == Package(base, contents)
    ensures r.Err? && VersionKey in contents && PyEqualsInt(contents[VersionKey], CurrentVersion) ==>
              r == Err(MissingKey(FirstMissing(contents, Version2RequiredKeys).value))
  {
    match CheckUniversalKeys(contents, CurrentVersion)
    case Err(e) => Err(e)
    case Ok(_) =>
      match FirstMissing(contents, Version2RequiredKeys)
      case Some(k) => Err(MissingKey(k))
      case None => Ok(Package(base, contents))
  }

  /** The diamond database and the range are not needed: a manifest that is
      accepted stays accepted without them. */
  lemma AcquireIgnoresOptionalKeys(base: string, contents: Contents)
    requires Acquire(base, contents).Ok?
    ensures Acquire(base, contents - {DiamondDatabaseKey, RangeKey}).Ok?
  {
    var smaller := contents - {DiamondDatabaseKey, RangeKey};
    assert VersionKey in smaller;
    forall k <- Version2RequiredKeys ensures k in smaller {
      assert k != DiamondDatabaseKey && k != RangeKey;
    }
  }

  // ---------------------------------------------------------------------------
  // Paths (POSIX `os.path`)
  // ---------------------------------------------------------------------------

  /** `os.path.join(a, b)`: an absolute `b` replaces `a`; otherwise `b` is
      appended after a `/` unless `a` is empty or already ends in one. */
  function Join(a: string, b: string): (r: string)
    ensures b != [] && b[0] == '/' ==> r == b
    ensures (b == [] || b[0] != '/') ==>
      && |a| + |b| <= |r| <= |a| + |b| + 1
      && r[..|a|] == a && r[|r| - |b|..] == b
      && (|r| == |a| + |b| <==> a == [] || Last(a) == '/')
      && (|r| == |a| + |b| + 1 ==> r[|a|] == '/')
  {
    if b != [] && b[0] == '/' then b
    else if a == [] || a[|a| - 1] == '/' then
      assert a + "" + b == a + b;
      a + b
    else a + "/" + b
  }

  /** `os.path.basename(p)`: what follows the last `/`. */
  function Basename(p: string): (r: string)
    ensures '/' !in r
    ensures exists k :: 0 <= k <= |p| && r == p[k..] && (k == 0 || p[k - 1] == '/')
  {
    if p == [] then
      assert p[0..] == [];
      []
    else if p[|p| - 1] == '/' then
      assert p[|p|..] == [];
      []
    else
      var init := Basename(p[..|p| - 1]);
      var k :| 0 <= k <= |p| - 1 && init == p[..|p| - 1][k..] && (k == 0 || p[..|p| - 1][k - 1] == '/');
      assert p[k..] == init + [p[|p| - 1]];
      init + [p[|p| - 1]]
  }

  /** A manifest value used as a path component, joined to the base. */
  function PathOf(pkg: Package, key: string): (r: Result<string, PackageError>)
    ensures r.Ok? <==> key in pkg.contents && pkg.contents[key].JStr?
    ensures r.Ok? ==> r.value == Join(pkg.base, pkg.contents[key].s)
  {
    if key !in pkg.contents then Err(MissingKey(key))
    else match pkg.contents[key]
      case JStr(s) => Ok(Join(pkg.base, s))
      case _ => Err(NotAString(key))
  }

  function AlignmentHmmPath(pkg: Package): Result<string, PackageError> {
    PathOf(pkg, AlignmentHmmKey)
  }

  function ReferencePackagePath(pkg: Package): Result<string, PackageError> {
    PathOf(pkg, ReferencePackageKey)
  }

  /** `use_hmm_trusted_cutoff` and `maximum_range` hand back the stored
      value. */
  function Lookup(pkg: Package, key: string): (r: Result<Json, PackageError>)
    ensures r.Ok? <==> key in pkg.contents
    ensures r.Ok? ==> r.value == pkg.contents[key]
  {
    if key in pkg.contents then Ok(pkg.contents[key]) else Err(MissingKey(key))
  }

  function UseHmmTrustedCutoff(pkg: Package): Result<Json, PackageError> {
    Lookup(pkg, HmmTrustedCutoffKey)
  }

  function MaximumRange(pkg: Package): Result<Json, PackageError> {
    Lookup(pkg, RangeKey)
  }

  /** Each element of a search-HMM list joined to the base; every element
      must be a string. */
  function JoinEach(base: string, items: seq<Json>): (r: Result<seq<string>, PackageError>)
    ensures r.Ok? <==> forall k :: 0 <= k < |items| ==> items[k].JStr?
    ensures r.Ok? ==> |r.value| == |items| && forall k :: 0 <= k < |items| ==> r.value[k] == Join(base, items[k].s)
  {
    if items == [] then Ok([])
    else if !items[0].JStr? then Err(NotAString(SearchHmmKey))
    else match JoinEach(base, items[1..])
      case Err(e) =>
        assert !items[1..][IndexOfBad(items[1..])].JStr?;
        Err(e)
      case Ok(rest) =>
        assert forall k :: 0 < k < |items| ==> items[k] == items[1..][k - 1];
        Ok([Join(base, items[0].s)] + rest)
  }

  /** Some element of `items` is not a string. */
  function IndexOfBad(items: seq<Json>): (k: nat)
    requires exists k :: 0 <= k < |items| && !items[k].JStr?
    ensures k < |items| && !items[k].JStr?
  {
    if !items[0].JStr? then 0 else
      assert exists k :: 0 <= k < |items[1..]| && !items[1..][k].JStr? by {
        var k :| 0 <= k < |items| && !items[k].JStr?;
        assert items[1..][k - 1] == items[k];
      }
      IndexOfBad(items[1..]) + 1
  }

  /** `search_hmm_paths`: the stored list joined to the base, same length
      and order. A stored string is iterated by character, as Python does. */
  function SearchHmmPaths(pkg: Package): (r: Result<seq<string>, PackageError>)
    ensures SearchHmmKey in pkg.contents && pkg.contents[SearchHmmKey].JList? ==>
              var items := pkg.contents[SearchHmmKey].items;
              (r.Ok? <==> forall k :: 0 <= k < |items| ==> items[k].JStr?)
              && (r.Ok? ==> |r.value| == |items| && forall k :: 0 <= k < |items| ==> r.value[k] == Join(pkg.base, items[k].s))
    ensures SearchHmmKey !in pkg.contents ==> r == Err(MissingKey(SearchHmmKey))
  {
    if SearchHmmKey !in pkg.contents then Err(MissingKey(SearchHmmKey))
    else match pkg.contents[SearchHmmKey]
      case JList(items) => JoinEach(pkg.base, items)
      case JStr(s) => Ok(seq(|s|, k requires 0 <= k < |s| => Join(pkg.base, [s[k]])))
      case _ => Err(NotAString(SearchHmmKey))
  }

  /** `diamond_database_path` as written: it indexes the manifest, so a
      package without the key fails with a KeyError. */
  function DiamondDatabasePathAsWritten(pkg: Package): (r: Result<Option<string>, PackageError>)
    ensures DiamondDatabaseKey !in pkg.contents ==> r == Err(MissingKey(DiamondDatabaseKey))
    ensures DiamondDatabaseKey in pkg.contents ==> r == DiamondValue(pkg, pkg.contents[DiamondDatabaseKey])
  {
    if DiamondDatabaseKey !in pkg.contents then Err(MissingKey(DiamondDatabaseKey))
    else DiamondValue(pkg, pkg.contents[DiamondDatabaseKey])
  }

  /** `diamond_database_path` as intended: no database, whether the key is
      absent or holds a false value, gives `None`. */
  function DiamondDatabasePath(pkg: Package): (r: Result<Option<string>, PackageError>)
    ensures DiamondDatabaseKey !in pkg.contents ==> r == Ok(None)
    ensures DiamondDatabaseKey in pkg.contents ==> r == DiamondDatabasePathAsWritten(pkg)
  {
    if DiamondDatabaseKey !in pkg.contents then Ok(None)
    else DiamondValue(pkg, pkg.contents[DiamondDatabaseKey])
  }

  /** A stored database value: a false one gives `None`, a string is joined
      to the base. */
  function DiamondValue(pkg: Package, v: Json): (r: Result<Option<string>, PackageError>)
    ensures !Truthy(v) ==> r == Ok(None)
    ensures Truthy(v) && v.JStr? ==> r == Ok(Some(Join(pkg.base, v.s)))
    ensures Truthy(v) && !v.JStr? ==> r == Err(NotAString(DiamondDatabaseKey))
  {
    if !Truthy(v) then Ok(None)
    else if v.JStr? then Ok(Some(Join(pkg.base, v.s)))
    else Err(NotAString(DiamondDatabaseKey))
  }

  /** `taxtastic_seqinfo_path` and `taxtastic_taxonomy_path`, given the
      reference package's own decoded manifest: its `files` entry names the
      file inside the reference package. */
  function RefpkgFilePath(pkg: Package, refpkgContents: Contents, which: string): (r: Result<string, PackageError>)
    ensures ReferencePackagePath(pkg).Err? ==> r == Err(ReferencePackagePath(pkg).error)
    ensures r.Ok? <==> && ReferencePackagePath(pkg).Ok? && "files" in refpkgContents
                       && refpkgContents["files"].JObject? && which in refpkgContents["files"].fields
                       && refpkgContents["files"].fields[which].JStr?
    ensures r.Ok? ==> && refpkgContents["files"].JObject? && which in refpkgContents["files"].fields
                      && refpkgContents["files"].fields[which].JStr?
                      && r.value == Join(ReferencePackagePath(pkg).value, refpkgContents["files"].fields[which].s)
    ensures ReferencePackagePath(pkg).Ok? && "files" !in refpkgContents ==> r == Err(MissingKey("files"))
  {
    match ReferencePackagePath(pkg)
    case Err(e) => Err(e)
    case Ok(dir) =>
      if "files" !in refpkgContents then Err(MissingKey("files"))
      else match refpkgContents["files"]
        case JObject(files) =>
          if which !in files then Err(MissingKey(which))
          else if !files[which].JStr? then Err(NotAString(which))
          else Ok(Join(dir, files[which].s))
        case _ => Err(NotAString("files"))
  }

  function TaxtasticSeqinfoPath(pkg: Package, refpkgContents: Contents): Result<string, PackageError> {
    RefpkgFilePath(pkg, refpkgContents, "seq_info")
  }

  function TaxtasticTaxonomyPath(pkg: Package, refpkgContents: Contents): Result<string, PackageError> {
    RefpkgFilePath(pkg, refpkgContents, "taxonomy")
  }

  // ---------------------------------------------------------------------------
  // `compile`
  // ---------------------------------------------------------------------------

  /** The manifest `compile` writes. The output path must not exist yet;
      files are stored under their base names. */
  function Compile(outputPath: string, refpkgPath: string, hmmPath: string, diamondFile: Option<string>,
                   maxRange: Json, trustedCutoff: Json, existing: set<string>): (r: Result<Contents, PackageError>)
    ensures r.Err? <==> outputPath in existing
    ensures r.Ok? ==>
              && {VersionKey, AlignmentHmmKey, SearchHmmKey, ReferencePackageKey, HmmTrustedCutoffKey, RangeKey} <= r.value.Keys
              && r.value[VersionKey] == JInt(CurrentVersion)
              && r.value[AlignmentHmmKey] == JStr(Basename(hmmPath))
              && r.value[SearchHmmKey] == JList([JStr(Basename(hmmPath))])
              && r.value[ReferencePackageKey] == JStr(Basename(refpkgPath))
              && r.value[HmmTrustedCutoffKey] == trustedCutoff
              && r.value[RangeKey] == maxRange
    ensures r.Ok? ==> (DiamondDatabaseKey in r.value <==> Given(diamondFile))
    ensures r.Ok? && Given(diamondFile) ==> r.value[DiamondDatabaseKey] == JStr(Basename(diamondFile.value))
    ensures r.Ok? ==> r.value.Keys <= {VersionKey, AlignmentHmmKey, SearchHmmKey, ReferencePackageKey,
                                       HmmTrustedCutoffKey, RangeKey, DiamondDatabaseKey}
  {
    if outputPath in existing then Err(AlreadyExists)
    else
      var hmm := Basename(hmmPath);
      var contents := map[VersionKey := JInt(CurrentVersion),
                          AlignmentHmmKey := JStr(hmm),
                          SearchHmmKey := JList([JStr(hmm)]),
                          ReferencePackageKey := JStr(Basename(refpkgPath)),
                          HmmTrustedCutoffKey := trustedCutoff,
                          RangeKey := maxRange];
      if Given(diamondFile) then Ok(contents[DiamondDatabaseKey := JStr(Basename(diamondFile.value))])
      else Ok(contents)
  }

  /** `compile` as the source writes it: the dictionary literal, then the
      diamond key inserted in place when a database file was given. */
  method CompileContents(outputPath: string, refpkgPath: string, hmmPath: string, diamondFile: Option<string>,
                         maxRange: Json, trustedCutoff: Json, existing: set<string>)
    returns (r: Result<Contents, PackageError>)
    ensures r == Compile(outputPath, refpkgPath, hmmPath, diamondFile, maxRange, trustedCutoff, existing)
  {
    if outputPath in existing {
      return Err(AlreadyExists);
    }
    var hmmFileInGpkg := Basename(hmmPath);
    var refpkgInGpkg := Basename(refpkgPath);
    var contents: Contents := map[];
    contents := contents[VersionKey := JInt(CurrentVersion)];
    contents := contents[AlignmentHmmKey := JStr(hmmFileInGpkg)];
    contents := contents[SearchHmmKey := JList([JStr(hmmFileInGpkg)])];
    contents := contents[ReferencePackageKey := JStr(refpkgInGpkg)];
    contents := contents[HmmTrustedCutoffKey := trustedCutoff];
    contents := contents[RangeKey := maxRange];
    if Given(diamondFile) {
      contents := contents[DiamondDatabaseKey := JStr(Basename(diamondFile.value))];
    }
    r := Ok(contents);
  }

  /** Whatever `compile` writes, `acquire` accepts. */
  lemma CompiledIsAcquired(outputPath: string, refpkgPath: string, hmmPath: string, diamondFile: Option<string>,
                           maxRange: Json, trustedCutoff: Json, existing: set<string>)
    requires Compile(outputPath, refpkgPath, hmmPath, diamondFile, maxRange, trustedCutoff, existing).Ok?
    ensures Acquire(outputPath, Compile(outputPath, refpkgPath, hmmPath, diamondFile, maxRange, trustedCutoff, existing).value).Ok?
  {
  }

  /** ... and the acquired package hands back, inside the output directory,
      the files `compile` stored there: the HMM for alignment and search,
      the reference package, and the diamond database exactly when one was
      given and its base name is not empty. */
  lemma CompiledPaths(outputPath: string, refpkgPath: string, hmmPath: string, diamondFile: Option<string>,
                      maxRange: Json, trustedCutoff: Json, existing: set<string>)
    requires Compile(outputPath, refpkgPath, hmmPath, diamondFile, maxRange, trustedCutoff, existing).Ok?
    ensures var pkg := Acquire(outputPath, Compile(outputPath, refpkgPath, hmmPath, diamondFile, maxRange, trustedCutoff, existing).value);
            && pkg.Ok?
            && AlignmentHmmPath(pkg.value) == Ok(Join(outputPath, Basename(hmmPath)))
            && SearchHmmPaths(pkg.value) == Ok([Join(outputPath, Basename(hmmPath))])
            && ReferencePackagePath(pkg.value) == Ok(Join(outputPath, Basename(refpkgPath)))
            && UseHmmTrustedCutoff(pkg.value) == Ok(trustedCutoff)
            && MaximumRange(pkg.value) == Ok(maxRange)
            && DiamondDatabasePath(pkg.value) ==
                 if Given(diamondFile) && Basename(diamondFile.value) != "" then Ok(Some(Join(outputPath, Basename(diamondFile.value))))
                 else Ok(None)
  {
    var c := Compile(outputPath, refpkgPath, hmmPath, diamondFile, maxRange, trustedCutoff, existing).value;
    var pkg := Package(outputPath, c);
    var items := c[SearchHmmKey].items;
    assert |items| == 1 && items[0] == JStr(Basename(hmmPath));
    assert SearchHmmPaths(pkg).value == [Join(outputPath, Basename(hmmPath))];
  }

  /** A nucleotide package, compiled without a diamond database, makes the
      accessor as written fail, where the manifest's design calls for
      `None`. */
  lemma NucleotidePackageDiamondFails(outputPath: string, refpkgPath: string, hmmPath: string,
                                      maxRange: Json, trustedCutoff: Json, existing: set<string>)
    requires outputPath !in existing
    ensures var pkg := Acquire(outputPath, Compile(outputPath, refpkgPath, hmmPath, None, maxRange, trustedCutoff, existing).value);
            && pkg.Ok?
            && DiamondDatabasePathAsWritten(pkg.value) == Err(MissingKey(DiamondDatabaseKey))
            && DiamondDatabasePath(pkg.value) == Ok(None)
  {
  }
}
