/** The Yarn generation detector: decides whether a project directory uses
    Yarn Classic (1.x) or Yarn Berry (2+) from three top-level files, checked
    in a fixed order where the first check with a verdict wins:
      1. `.yarnrc.yml` exists                     -> Berry
      2. `package.json`'s `packageManager` field  -> Berry, or no verdict
      3. the first 512 bytes of `yarn.lock`       -> Berry, or no verdict
      4. otherwise                                -> Classic
    and reads the optional `.yarnrc.yml` configuration.

    The filesystem is a snapshot of the project directory (file name to what
    the existence check and the read would report), and the JSON and YAML
    libraries are functions handed in as parameters, so every operation here
    is a function of its inputs. */
module YarnDetector {
  import opened Wrappers
  import opened GoStrings

  // ---------------------------------------------------------------------------
  // Versions

  /** Go's `YarnVersion int` (64 bits); the detector only ever produces the
      two named constants. */
  newtype YarnVersion = v: int | -0x8000_0000_0000_0000 <= v < 0x8000_0000_0000_0000

  const YarnClassic: YarnVersion := 0
  const YarnBerry: YarnVersion := 1

  /** The label of a version: one label per named constant, "Unknown" for
      every other value of the underlying integer. */
  function String(v: YarnVersion): (r: string)
    ensures r == "Classic" <==> v == YarnClassic
    ensures r == "Berry" <==> v == YarnBerry
    ensures r == "Unknown" <==> v != YarnClassic && v != YarnBerry
  {
    if v == YarnClassic then "Classic"
    else if v == YarnBerry then "Berry"
    else "Unknown"
  }

  // ---------------------------------------------------------------------------
  // The project directory, as the detector observes it

  /** An operating-system error, kept only for its message. */
  datatype IoError = IoError(message: string)

  /** What reading an existing file reports, for the reader the detector
      uses on that file. `OpenFailed` is an open that fails. `ReadFailed`
      depends on the reader: for `package.json` and `.yarnrc.yml`, read with
      `os.ReadFile`, it is any error `os.ReadFile` returns after the open,
      whether or not some bytes arrived first; for `yarn.lock`, read by one
      `Read` into a buffer, it is that read returning no bytes and an error
      (a directory, an I/O fault). `Readable` carries the whole contents, read
      without error. */
  datatype ReadResult =
    | OpenFailed(openErr: IoError)
    | ReadFailed(readErr: IoError)
    | Readable(contents: seq<byte>)

  /** What the existence check reports for one name, and, for a file that
      exists, what reading it reports. */
  datatype FileEntry =
    | StatFailed(statErr: IoError)
    | Missing
    | Present(read: ReadResult)

  /** The top-level entries of the project directory. A name the map does not
      hold does not exist. */
  type Directory = map<string, FileEntry>

  const YarnrcFile := ".yarnrc.yml"
  const PackageJsonFile := "package.json"
  const YarnLockFile := "yarn.lock"

  function Lookup(dir: Directory, name: string): FileEntry {
    if name in dir then dir[name] else Missing
  }

  // ---------------------------------------------------------------------------
  // The JSON and YAML libraries

  /** A value decoded from YAML (Go's `interface{}`). Floats are exact reals;
      nested mappings keep string keys only. */
  datatype YamlValue =
    | YamlNull
    | YamlBool(b: bool)
    | YamlInt(i: int)
    | YamlFloat(f: real)
    | YamlString(s: string)
    | YamlList(items: seq<YamlValue>)
    | YamlMapping(entries: map<string, YamlValue>)

  /** The parsed `.yarnrc.yml` (Go's `map[string]interface{}`). */
  type YarnrcConfig = map<string, YamlValue>

  /** The library calls the detector makes:
      - `packageManager`: `json.Unmarshal` into a struct holding the string
        field `packageManager`; None when decoding fails, Some("") when the
        field is absent or empty;
      - `yamlParses`: whether `yaml.Unmarshal` into an `interface{}` succeeds;
      - `yamlMapping`: `yaml.Unmarshal` into a `map[string]interface{}`, or
        the error it returns. */
  datatype Libraries = Libraries(
    packageManager: seq<byte> -> Option<string>,
    yamlParses: seq<byte> -> bool,
    yamlMapping: seq<byte> -> Result<YarnrcConfig, YamlError>)

  /** An error returned by the YAML library, kept only for its message. */
  datatype YamlError = YamlError(message: string)

  // ---------------------------------------------------------------------------
  // Results and errors

  /** Which step failed; each stands for the message the error is wrapped in. */
  datatype Context =
    | CheckingYarnrc                // "failed to check for .yarnrc.yml"
    | CheckingPackageJson           // "failed to check for package.json"
    | CheckingPackageManagerField   // "failed to check packageManager field"
    | CheckingYarnLock              // "failed to check for yarn.lock"
    | CheckingYarnLockFormat        // "failed to check yarn.lock format"

  datatype DetectError = DetectError(context: Context, cause: IoError)

  /** The `(YarnVersion, error)` pair DetectYarnVersion returns. */
  datatype Detection = Detection(version: YarnVersion, err: Option<DetectError>)

  /** The `(bool, error)` pair the two content checks return. */
  datatype Check = Check(isBerry: bool, err: Option<IoError>)

  // ---------------------------------------------------------------------------
  // package.json

  const YarnPrefix := "yarn@"

  /** A version token that names a Berry release: a channel name, or a
      version number whose first character is 2 to 9. */
  ghost predicate BerryToken(version: string) {
    version == "berry" || version == "stable" || (|version| > 0 && '2' <= version[0] <= '9')
  }

  /** The field declares Yarn followed by a Berry version token. */
  ghost predicate DeclaresBerry(pm: string) {
    exists version :: pm == YarnPrefix + version && BerryToken(version)
  }

  /** The string rule applied to the `packageManager` field: `yarn@` followed
      by `berry`, `stable`, or anything whose first character is 2 to 9. */
  function IsBerryPackageManager(pm: string): (b: bool)
    ensures b <==> DeclaresBerry(pm)
  {
    if pm == "" then false
    else if HasPrefix(pm, YarnPrefix) then
      var version := TrimPrefix(pm, YarnPrefix);
      if version == "berry" || version == "stable" then true
      else |version| > 0 && '2' <= version[0] <= '9'
    else false
  }

  /** Sample fields and their verdicts. Only the first
      character of the version is inspected, so `yarn@10.0.0` gives no verdict. */
  lemma PackageManagerExamples()
    ensures IsBerryPackageManager("yarn@3.6.0")
    ensures IsBerryPackageManager("yarn@berry")
    ensures IsBerryPackageManager("yarn@stable")
    ensures IsBerryPackageManager("yarn@2.4.3")
    ensures !IsBerryPackageManager("")
    ensures !IsBerryPackageManager("yarn@")
    ensures !IsBerryPackageManager("yarn@1.22.19")
    ensures !IsBerryPackageManager("yarn@10.0.0")
    ensures !IsBerryPackageManager("npm@9.0.0")
    ensures !IsBerryPackageManager("pnpm@8.6.0")
  {
    assert HasPrefix("yarn@3.6.0", YarnPrefix);
    assert HasPrefix("yarn@berry", YarnPrefix);
    assert HasPrefix("yarn@stable", YarnPrefix);
    assert HasPrefix("yarn@2.4.3", YarnPrefix);
    assert HasPrefix("yarn@1.22.19", YarnPrefix);
    assert HasPrefix("yarn@10.0.0", YarnPrefix);
    assert "npm@9.0.0"[0] != YarnPrefix[0];
    assert "pnpm@8.6.0"[0] != YarnPrefix[0];
  }

  /** checkPackageManagerField: read the whole manifest; a read failure is an
      error, malformed JSON is no verdict, and otherwise the verdict is the
      string rule on the field. */
  function CheckPackageManagerField(file: ReadResult, libs: Libraries): (r: Check)
    ensures r.err.Some? <==> !file.Readable?
    ensures r.err.Some? ==> r.err.value == Cause(file)
    ensures r.err.Some? ==> !r.isBerry
    ensures file.Readable? && libs.packageManager(file.contents).None? ==> r == Check(false, None)
    ensures r.isBerry <==>
      file.Readable? && libs.packageManager(file.contents).Some? &&
      DeclaresBerry(libs.packageManager(file.contents).value)
  {
    match file
    case OpenFailed(e) => Check(false, Some(e))
    case ReadFailed(e) => Check(false, Some(e))
    case Readable(content) =>
      match libs.packageManager(content)
      case None => Check(false, None)
      case Some(pm) => Check(IsBerryPackageManager(pm), None)
  }

  // ---------------------------------------------------------------------------
  // yarn.lock

  /** Size of the buffer the first read of `yarn.lock` fills. */
  const SampleSize := 512

  /** The bytes one read into the 512-byte buffer yields. */
  function Sample(contents: seq<byte>): (r: seq<byte>)
    ensures |r| == if |contents| < SampleSize then |contents| else SampleSize
    ensures r == contents[..|r|]
  {
    if |contents| <= SampleSize then contents else contents[..SampleSize]
  }

  /** The three markers searched for in the sample, as bytes. */
  const ClassicHeader: seq<byte> := [0x23, 0x20, 0x79, 0x61, 0x72, 0x6e, 0x20, 0x6c, 0x6f, 0x63, 0x6b, 0x66, 0x69, 0x6c, 0x65, 0x20, 0x76, 0x31]
  const MetadataMarker: seq<byte> := [0x5f, 0x5f, 0x6d, 0x65, 0x74, 0x61, 0x64, 0x61, 0x74, 0x61, 0x3a]
  const VersionMarker: seq<byte> := [0x76, 0x65, 0x72, 0x73, 0x69, 0x6f, 0x6e, 0x3a]

  /** The marker bytes spell `# yarn lockfile v1`, `__metadata:` and `version:`. */
  lemma MarkersSpellOut()
    ensures Spells(ClassicHeader, "# yarn lockfile v1")
    ensures Spells(MetadataMarker, "__metadata:")
    ensures Spells(VersionMarker, "version:")
  {
  }

  /** checkLockFileFormat: open the lockfile (failure is an error), read one
      buffer (no bytes is no verdict), then classify the sample: the Classic
      header means no verdict; otherwise a Berry marker plus a sample that
      parses as YAML means Berry. */
  function CheckLockFileFormat(file: ReadResult, libs: Libraries): (r: Check)
    ensures r.err.Some? <==> file.OpenFailed?
    ensures r.err.Some? ==> r.err.value == file.openErr
    ensures r.err.Some? ==> !r.isBerry
    ensures r.isBerry <==>
      file.Readable? && |file.contents| > 0 &&
      !Contains(Sample(file.contents), ClassicHeader) &&
      (Contains(Sample(file.contents), MetadataMarker) || Contains(Sample(file.contents), VersionMarker)) &&
      libs.yamlParses(Sample(file.contents))
  {
    match file
    case OpenFailed(e) => Check(false, Some(e))
    case ReadFailed(_) => Check(false, None)
    case Readable(contents) =>
      if |contents| == 0 then Check(false, None)
      else
        var content := Sample(contents);
        if Contains(content, ClassicHeader) then Check(false, None)
        else if (Contains(content, MetadataMarker) || Contains(content, VersionMarker)) && libs.yamlParses(content) then
          Check(true, None)
        else Check(false, None)
  }

  /** Only the first 512 bytes of the lockfile decide its format. */
  lemma LockFileSampleDecides(a: seq<byte>, b: seq<byte>, libs: Libraries)
    requires Sample(a) == Sample(b)
    ensures CheckLockFileFormat(Readable(a), libs) == CheckLockFileFormat(Readable(b), libs)
  {
  }

  /** A lockfile that starts with the Classic header is never Berry, whatever
      markers follow. */
  lemma ClassicHeaderFirst(contents: seq<byte>, libs: Libraries)
    requires HasPrefix(contents, ClassicHeader)
    ensures CheckLockFileFormat(Readable(contents), libs) == Check(false, None)
  {
  }

  /** A lockfile holding just a Berry lockfile's opening lines is Berry, when
      the YAML library accepts it; so is a project holding only that lockfile. */
  lemma BerryLockFileExample(contents: seq<byte>, libs: Libraries)
    requires Spells(contents, "__metadata:\n  version: 6\n")
    requires libs.yamlParses(contents)
    ensures CheckLockFileFormat(Readable(contents), libs) == Check(true, None)
    ensures DetectYarnVersion(map[YarnLockFile := Present(Readable(contents))], libs) == Detection(YarnBerry, None)
  {
    assert Sample(contents) == contents;
    assert contents[..|MetadataMarker|] == MetadataMarker;
    if Contains(contents, ClassicHeader) {
      FirstElementOccurs(contents, ClassicHeader);
      var i :| 0 <= i < |contents| && contents[i] == ClassicHeader[0];
      assert false;
    }
  }

  /** A Berry verdict rests on a marker that is really in the lockfile, not
      only in the sample. */
  lemma BerryLockFileHasMarker(contents: seq<byte>, libs: Libraries)
    requires CheckLockFileFormat(Readable(contents), libs).isBerry
    ensures Contains(contents, MetadataMarker) || Contains(contents, VersionMarker)
  {
    var sample := Sample(contents);
    assert sample == contents[..|sample|];
    if Contains(sample, MetadataMarker) {
      ContainedInPrefix(contents, |sample|, MetadataMarker);
    } else {
      ContainedInPrefix(contents, |sample|, VersionMarker);
    }
  }

  // ---------------------------------------------------------------------------
  // The cascade

  /** DetectYarnVersion: the marker file, then the manifest, then the
      lockfile, then the Classic default. Every error is reported with
      Classic. */
  function DetectYarnVersion(dir: Directory, libs: Libraries): (r: Detection)
    ensures r.version == YarnClassic || r.version == YarnBerry
    ensures r.err.Some? ==> r.version == YarnClassic
    ensures Lookup(dir, YarnrcFile).Present? ==> r == Detection(YarnBerry, None)
    ensures (Lookup(dir, YarnrcFile).Missing? && Lookup(dir, PackageJsonFile).Missing? &&
             Lookup(dir, YarnLockFile).Missing?) ==> r == Detection(YarnClassic, None)
  {
    match Lookup(dir, YarnrcFile)
    case StatFailed(e) => Detection(YarnClassic, Some(DetectError(CheckingYarnrc, e)))
    case Present(_) => Detection(YarnBerry, None)
    case Missing =>
      var manifest := Lookup(dir, PackageJsonFile);
      if manifest.StatFailed? then
        Detection(YarnClassic, Some(DetectError(CheckingPackageJson, manifest.statErr)))
      else
        var field := if manifest.Present? then CheckPackageManagerField(manifest.read, libs) else Check(false, None);
        if field.err.Some? then
          Detection(YarnClassic, Some(DetectError(CheckingPackageManagerField, field.err.value)))
        else if field.isBerry then
          Detection(YarnBerry, None)
        else
          var lock := Lookup(dir, YarnLockFile);
          if lock.StatFailed? then
            Detection(YarnClassic, Some(DetectError(CheckingYarnLock, lock.statErr)))
          else
            var format := if lock.Present? then CheckLockFileFormat(lock.read, libs) else Check(false, None);
            if format.err.Some? then
              Detection(YarnClassic, Some(DetectError(CheckingYarnLockFormat, format.err.value)))
            else if format.isBerry then
              Detection(YarnBerry, None)
            else
              Detection(YarnClassic, None)
  }

  /** The outcome of one stage: a detection that ends the cascade, or none. */
  datatype Verdict = Decided(detection: Detection) | NoVerdict

  /** One stage of the cascade in isolation: the file's existence check, then
      its content check. A failed existence check is wrapped in
      `existsContext`, a failed content check in `checkContext`. */
  function Stage(entry: FileEntry, existsContext: Context, checkContext: Context,
                 check: ReadResult -> Check): Verdict
  {
    match entry
    case StatFailed(e) => Decided(Detection(YarnClassic, Some(DetectError(existsContext, e))))
    case Missing => NoVerdict
    case Present(read) =>
      var c := check(read);
      if c.err.Some? then Decided(Detection(YarnClassic, Some(DetectError(checkContext, c.err.value))))
      else if c.isBerry then Decided(Detection(YarnBerry, None))
      else NoVerdict
  }

  /** The three stages in precedence order. The marker file's content check
      says Berry whatever the file holds. */
  function Stages(dir: Directory, libs: Libraries): seq<Verdict> {
    [ Stage(Lookup(dir, YarnrcFile), CheckingYarnrc, CheckingYarnrc, _ => Check(true, None)),
      Stage(Lookup(dir, PackageJsonFile), CheckingPackageJson, CheckingPackageManagerField,
            read => CheckPackageManagerField(read, libs)),
      Stage(Lookup(dir, YarnLockFile), CheckingYarnLock, CheckingYarnLockFormat,
            read => CheckLockFileFormat(read, libs)) ]
  }

  /** The first decided stage's detection, or Classic without error when no
      stage decides. */
  function FirstVerdict(stages: seq<Verdict>): (r: Detection)
    ensures r == Detection(YarnClassic, None) || Decided(r) in stages
    ensures (forall i | 0 <= i < |stages| :: stages[i] == NoVerdict) ==> r == Detection(YarnClassic, None)
  {
    if stages == [] then Detection(YarnClassic, None)
    else if stages[0].Decided? then stages[0].detection
    else FirstVerdict(stages[1..])
  }

  /** A decided stage wins over everything after it. */
  lemma {:induction false} FirstVerdictWins(before: seq<Verdict>, d: Detection, after: seq<Verdict>)
    requires forall i | 0 <= i < |before| :: before[i] == NoVerdict
    ensures FirstVerdict(before + [Decided(d)] + after) == d
  {
    if before != [] {
      assert (before + [Decided(d)] + after)[1..] == before[1..] + [Decided(d)] + after;
      FirstVerdictWins(before[1..], d, after);
    }
  }

  /** DetectYarnVersion is the ordered cascade of its three stages. */
  lemma DetectIsCascade(dir: Directory, libs: Libraries)
    ensures DetectYarnVersion(dir, libs) == FirstVerdict(Stages(dir, libs))
  {
    var s := Stages(dir, libs);
    assert FirstVerdict(s) == if s[0].Decided? then s[0].detection else FirstVerdict(s[1..]);
    assert FirstVerdict(s[1..]) == if s[1].Decided? then s[1].detection else FirstVerdict(s[2..]);
    assert FirstVerdict(s[2..]) == if s[2].Decided? then s[2].detection else FirstVerdict(s[3..]);
    assert s[3..] == [];
  }

  /** A Berry verdict from package.json wins whatever yarn.lock holds. */
  lemma ManifestVerdictWins(dir: Directory, libs: Libraries, lock: FileEntry)
    requires Lookup(dir, YarnrcFile).Missing?
    requires Lookup(dir, PackageJsonFile).Present?
    requires CheckPackageManagerField(Lookup(dir, PackageJsonFile).read, libs).isBerry
    ensures DetectYarnVersion(dir, libs) == Detection(YarnBerry, None)
    ensures DetectYarnVersion(dir[YarnLockFile := lock], libs) == Detection(YarnBerry, None)
  {
  }

  /** Malformed package.json is tolerated: detection is what it would be
      without the manifest. */
  lemma MalformedManifestFallsThrough(dir: Directory, libs: Libraries)
    requires Lookup(dir, PackageJsonFile).Present?
    requires Lookup(dir, PackageJsonFile).read.Readable?
    requires libs.packageManager(Lookup(dir, PackageJsonFile).read.contents).None?
    ensures DetectYarnVersion(dir, libs) == DetectYarnVersion(dir - {PackageJsonFile}, libs)
  {
  }

  /** Only the three named files matter: any other entry of the directory can
      change without changing the detection. */
  lemma OtherFilesIgnored(dir: Directory, libs: Libraries, name: string, entry: FileEntry)
    requires name != YarnrcFile && name != PackageJsonFile && name != YarnLockFile
    ensures DetectYarnVersion(dir[name := entry], libs) == DetectYarnVersion(dir, libs)
  {
  }

  /** The error a failed read reports. */
  function Cause(read: ReadResult): IoError
    requires !read.Readable?
  {
    if read.OpenFailed? then read.openErr else read.readErr
  }

  /** package.json gives no verdict: it does not exist, or its check neither
      fails nor says Berry. */
  predicate ManifestSilent(dir: Directory, libs: Libraries) {
    Lookup(dir, PackageJsonFile).Missing? ||
    (Lookup(dir, PackageJsonFile).Present? &&
     CheckPackageManagerField(Lookup(dir, PackageJsonFile).read, libs) == Check(false, None))
  }

  /** Errors are never swallowed: a failed existence check, and a failed read
      of a file the cascade reaches, are reported, wrapped in the step that
      failed. The one tolerated failure is a lockfile read that yields no
      bytes. */
  lemma ErrorsPropagate(dir: Directory, libs: Libraries)
    ensures Lookup(dir, YarnrcFile).StatFailed? ==>
      DetectYarnVersion(dir, libs).err == Some(DetectError(CheckingYarnrc, Lookup(dir, YarnrcFile).statErr))
    ensures Lookup(dir, YarnrcFile).Missing? && Lookup(dir, PackageJsonFile).StatFailed? ==>
      DetectYarnVersion(dir, libs).err == Some(DetectError(CheckingPackageJson, Lookup(dir, PackageJsonFile).statErr))
    ensures Lookup(dir, YarnrcFile).Missing? && Lookup(dir, PackageJsonFile).Present? &&
            !Lookup(dir, PackageJsonFile).read.Readable? ==>
      DetectYarnVersion(dir, libs).err ==
        Some(DetectError(CheckingPackageManagerField, Cause(Lookup(dir, PackageJsonFile).read)))
    ensures Lookup(dir, YarnrcFile).Missing? && ManifestSilent(dir, libs) && Lookup(dir, YarnLockFile).StatFailed? ==>
      DetectYarnVersion(dir, libs).err == Some(DetectError(CheckingYarnLock, Lookup(dir, YarnLockFile).statErr))
    ensures Lookup(dir, YarnrcFile).Missing? && ManifestSilent(dir, libs) &&
            Lookup(dir, YarnLockFile).Present? && Lookup(dir, YarnLockFile).read.OpenFailed? ==>
      DetectYarnVersion(dir, libs).err ==
        Some(DetectError(CheckingYarnLockFormat, Lookup(dir, YarnLockFile).read.openErr))
    ensures Lookup(dir, YarnrcFile).Missing? && ManifestSilent(dir, libs) &&
            Lookup(dir, YarnLockFile).Present? && Lookup(dir, YarnLockFile).read.ReadFailed? ==>
      DetectYarnVersion(dir, libs) == Detection(YarnClassic, None)
  {
  }

  /** With no marker file and no verdict from the manifest, a Classic
      lockfile gives Classic. */
  lemma ClassicLockFileGivesClassic(dir: Directory, libs: Libraries)
    requires Lookup(dir, YarnrcFile).Missing?
    requires ManifestSilent(dir, libs)
    requires Lookup(dir, YarnLockFile).Present? && Lookup(dir, YarnLockFile).read.Readable?
    requires HasPrefix(Lookup(dir, YarnLockFile).read.contents, ClassicHeader)
    ensures DetectYarnVersion(dir, libs) == Detection(YarnClassic, None)
  {
  }

  // ---------------------------------------------------------------------------
  // .yarnrc.yml configuration

  datatype ConfigError =
    | YarnrcStatFailed(statErr: IoError)    // "failed to check for .yarnrc.yml"
    | YarnrcReadFailed(readErr: IoError)    // "failed to read .yarnrc.yml"
    | YarnrcParseFailed(parseErr: YamlError)  // "failed to parse .yarnrc.yml"

  /** GetYarnrcConfig: the parsed `.yarnrc.yml`, an empty mapping when the file
      does not exist, and an error when it cannot be checked, read or parsed. */
  function GetYarnrcConfig(dir: Directory, libs: Libraries): (r: Result<YarnrcConfig, ConfigError>)
    ensures Lookup(dir, YarnrcFile).Missing? ==> r == Success(map[])
    ensures Lookup(dir, YarnrcFile).StatFailed? ==> r == Failure(YarnrcStatFailed(Lookup(dir, YarnrcFile).statErr))
    ensures Lookup(dir, YarnrcFile).Present? && !Lookup(dir, YarnrcFile).read.Readable? ==>
      r == Failure(YarnrcReadFailed(Cause(Lookup(dir, YarnrcFile).read)))
    ensures Lookup(dir, YarnrcFile).Present? && Lookup(dir, YarnrcFile).read.Readable? &&
            libs.yamlMapping(Lookup(dir, YarnrcFile).read.contents).Failure? ==>
      r == Failure(YarnrcParseFailed(libs.yamlMapping(Lookup(dir, YarnrcFile).read.contents).error))
    ensures r.Success? && Lookup(dir, YarnrcFile).Present? ==>
      Lookup(dir, YarnrcFile).read.Readable? &&
      libs.yamlMapping(Lookup(dir, YarnrcFile).read.contents) == Success(r.value)
    ensures r.Failure? <==>
      !(Lookup(dir, YarnrcFile).Missing? ||
        (Lookup(dir, YarnrcFile).Present? && Lookup(dir, YarnrcFile).read.Readable? &&
         libs.yamlMapping(Lookup(dir, YarnrcFile).read.contents).Success?))
  {
    match Lookup(dir, YarnrcFile)
    case StatFailed(e) => Failure(YarnrcStatFailed(e))
    case Missing => Success(map[])
    case Present(read) =>
      match read
      case OpenFailed(e) => Failure(YarnrcReadFailed(e))
      case ReadFailed(e) => Failure(YarnrcReadFailed(e))
      case Readable(content) =>
        match libs.yamlMapping(content)
        case Failure(e) => Failure(YarnrcParseFailed(e))
        case Success(config) => Success(config)
  }

  /** A project detected as Classic without error has no `.yarnrc.yml`, so its
      configuration is the empty mapping. */
  lemma ClassicHasNoConfig(dir: Directory, libs: Libraries)
    requires DetectYarnVersion(dir, libs) == Detection(YarnClassic, None)
    ensures GetYarnrcConfig(dir, libs) == Success(map[])
  {
  }

  /** The two operations agree on `.yarnrc.yml`: a configuration read without
      error that is not empty comes from an existing file, so detection says
      Berry; an existence failure is reported by both. */
  lemma ConfigAgreesWithDetection(dir: Directory, libs: Libraries)
    ensures GetYarnrcConfig(dir, libs).Success? && GetYarnrcConfig(dir, libs).value != map[] ==>
      DetectYarnVersion(dir, libs) == Detection(YarnBerry, None)
    ensures GetYarnrcConfig(dir, libs).Failure? && GetYarnrcConfig(dir, libs).error.YarnrcStatFailed? ==>
      DetectYarnVersion(dir, libs).err == Some(DetectError(CheckingYarnrc, GetYarnrcConfig(dir, libs).error.statErr))
  {
  }
}
