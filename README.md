# Yarn generation detector, modelled in Dafny

This project models `yarn_detector.go`, the part of the yarn-start buildpack
that decides whether an application uses Yarn Classic (1.x) or Yarn Berry
(2 and later). `DetectYarnVersion` runs an ordered cascade over three
top-level files of the project directory, and the first check with a verdict
wins:

1. `.yarnrc.yml` exists: Berry.
2. `package.json`'s `packageManager` field is `yarn@` followed by `berry`,
   `stable`, or a version whose first character is `2` to `9`: Berry.
3. The first 512 bytes of `yarn.lock` do not hold `# yarn lockfile v1`, do
   hold `__metadata:` or `version:`, and parse as YAML: Berry.
4. Otherwise: Classic.

Every failure is returned together with Classic. Malformed JSON in
`package.json`, a lockfile read that yields no bytes and a lockfile sample
that is not YAML are not errors: they give no verdict. `GetYarnrcConfig`
returns the parsed `.yarnrc.yml`, or an empty mapping when the file does not
exist. A failed existence check, read or YAML parse of that file is an error.

Files:

- `wrappers.dfy`: `Option` and `Result`.
- `go_strings.dfy`: Go's `strings.HasPrefix`, `strings.TrimPrefix` and
  `strings.Contains`, over any element type. The module also has the byte
  type and `Spells`, which says which bytes an ASCII literal is made of.
- `yarn_detector.dfy`: the detector.

How the model is built:

- The filesystem is a snapshot of the project directory. It maps a file name
  to what `fs.Exists` reports for it (`StatFailed`, `Missing` or `Present`).
  For a file that exists, it also holds what reading the file reports:
  `OpenFailed`, `ReadFailed` or `Readable` with the contents. What
  `ReadFailed` means depends on the reader. `package.json` and `.yarnrc.yml`
  are read with `os.ReadFile`, and `ReadFailed` is any error it returns after
  the open, even when some bytes arrived first. `yarn.lock` is read by one
  `Read` into a 512-byte buffer, and `ReadFailed` is that read returning no
  bytes and an error. `filepath.Join` with
  the project path is folded into the snapshot: the snapshot *is* the
  directory at `projectPath`.
- `encoding/json` and `gopkg.in/yaml.v2` are passed in as a `Libraries`
  value that holds three functions:
  - `packageManager` is the field `json.Unmarshal` decodes. It is `None` when
    decoding fails. It is `Some("")` when the field is absent or empty,
    because Go cannot tell those two apart.
  - `yamlParses` says whether `yaml.Unmarshal` into an `interface{}`
    succeeds.
  - `yamlMapping` is `yaml.Unmarshal` into a `map[string]interface{}`: the
    mapping, or the error the library returns.
- Errors are tags. A `DetectError` names the step that failed (one
  constructor per `fmt.Errorf` message) and carries the underlying
  `IoError`.
- Every operation is a function of the snapshot and the libraries. Calling
  `DetectYarnVersion` twice on an unchanged filesystem therefore returns the
  same result by construction, and no lemma states it.
- The cascade also has a second, independent definition: a list of three
  `Stage`s folded by `FirstVerdict`, the first decided stage winning.
  `DetectIsCascade` proves that the Go-shaped if-chain equals this fold.
- Version strings follow the source's first-character rule. `yarn@10.0.0`
  gives no verdict, because its first character is `1`. The model keeps this
  limitation and `PackageManagerExamples` shows it.

## Model

| member | source | states |
|---|---|---|
| `YarnDetector.String` | yarn_detector.go:23-31 | "Classic" exactly for YarnClassic, "Berry" exactly for YarnBerry, "Unknown" exactly for every other integer value |
| `GoStrings.TrimPrefix` | yarn_detector.go:109-110 | after a matched prefix, the prefix followed by the result is the original field; without the prefix the field is unchanged |
| `GoStrings.ContainsIffOccurs` | yarn_detector.go:143-148 | the left-to-right scan used for `strings.Contains` holds exactly when the marker occurs at some position of the sample |
| `YarnDetector.IsBerryPackageManager` | yarn_detector.go:103-121 | the field rule (empty check, HasPrefix, TrimPrefix, channel names, first character 2 to 9) holds exactly when the field is `yarn@` followed by a Berry version token |
| `YarnDetector.PackageManagerExamples` | yarn_detector.go:107-118 | `yarn@3.6.0`, `yarn@2.4.3`, `yarn@berry` and `yarn@stable` are Berry; `""`, `yarn@`, `yarn@1.22.19`, `yarn@10.0.0`, `npm@9.0.0` and `pnpm@8.6.0` give no verdict |
| `YarnDetector.CheckPackageManagerField` | yarn_detector.go:87-122 | an error exactly when the manifest cannot be read, and then the read's own error, never together with true; malformed JSON gives (false, no error); true exactly when the decoded field declares Berry |
| `YarnDetector.Sample` | yarn_detector.go:133-140 | the bytes examined are the first min(512, length) bytes of the lockfile |
| `YarnDetector.MarkersSpellOut` | yarn_detector.go:143-148 | the three marker byte strings are the ASCII bytes of `# yarn lockfile v1`, `__metadata:` and `version:` |
| `YarnDetector.CheckLockFileFormat` | yarn_detector.go:125-158 | an error exactly when the open fails, and then the open's own error, never together with true; true exactly when a non-empty sample lacks the Classic header, holds a Berry marker and parses as YAML |
| `YarnDetector.LockFileSampleDecides` | yarn_detector.go:133-140 | two lockfiles with the same first 512 bytes get the same verdict |
| `YarnDetector.ClassicHeaderFirst` | yarn_detector.go:142-145 | a lockfile starting with `# yarn lockfile v1` gives (false, no error), whatever Berry markers follow |
| `YarnDetector.BerryLockFileExample` | yarn_detector.go:147-153 | the lockfile `__metadata:\n  version: 6\n` is Berry when the YAML library accepts it, and a project holding only that lockfile is detected as (Berry, no error) |
| `YarnDetector.BerryLockFileHasMarker` | yarn_detector.go:140-153 | a Berry verdict implies a Berry marker is in the lockfile itself, not only in the sample |
| `YarnDetector.DetectYarnVersion` | yarn_detector.go:47-84 | the result is Classic or Berry; an error always comes with Classic; an existing `.yarnrc.yml` gives (Berry, no error); no files at all give (Classic, no error) |
| `YarnDetector.FirstVerdict` | yarn_detector.go:48-83 | the result is the detection of some decided stage or the default (Classic, no error); with no decided stage it is the default |
| `YarnDetector.FirstVerdictWins` | yarn_detector.go:48-83 | a decided stage preceded only by undecided ones determines the result, whatever follows it |
| `YarnDetector.DetectIsCascade` | yarn_detector.go:47-84 | detection equals the first verdict of the marker, manifest and lockfile stages taken in that order |
| `YarnDetector.ManifestVerdictWins` | yarn_detector.go:58-68 | with no `.yarnrc.yml`, a Berry `packageManager` field gives (Berry, no error) whatever `yarn.lock` is replaced with |
| `YarnDetector.MalformedManifestFallsThrough` | yarn_detector.go:97-101 | a `package.json` whose JSON does not decode leaves detection the same as with no `package.json` |
| `YarnDetector.OtherFilesIgnored` | yarn_detector.go:51-80 | changing any directory entry other than the three named files leaves detection unchanged |
| `YarnDetector.ErrorsPropagate` | yarn_detector.go:50-80 | each failed existence check or read that the cascade reaches is the reported error, wrapped with its step; a lockfile read with no bytes gives (Classic, no error) |
| `YarnDetector.ClassicLockFileGivesClassic` | yarn_detector.go:70-83 | with no marker file and a manifest that is missing or gives no verdict (such as one without a `packageManager` field), a lockfile starting with the Classic header gives (Classic, no error) |
| `YarnDetector.GetYarnrcConfig` | yarn_detector.go:161-184 | missing file gives the empty mapping; existence, read and parse failures each give their own error carrying the underlying error; otherwise the result is exactly the mapping the YAML library returns |
| `YarnDetector.ClassicHasNoConfig` | yarn_detector.go:164-171 | a project detected as (Classic, no error) has the empty configuration |
| `YarnDetector.ConfigAgreesWithDetection` | yarn_detector.go:162-166 | a non-empty configuration implies detection gives (Berry, no error); an existence failure of `.yarnrc.yml` is reported by both operations with the same cause |

## Left out

- Filesystem calls (`fs.Exists`, `os.ReadFile`, `os.Open`, `Read`, `Close`, `filepath.Join`) are replaced by the directory snapshot. Path joining, file handles and closing are not modelled.
- `Sample` assumes the single `Read` of `yarn.lock` fills the buffer as far as the file allows. A short read of fewer bytes from a longer file is not modelled. A read that returns no bytes and an error is modelled as `ReadFailed`.
- The internals of `encoding/json` and `gopkg.in/yaml.v2` are not modelled. They are parameters, and the model proves nothing about JSON or YAML grammar.
- `yaml.Unmarshal` of an empty document leaves Go's map `nil` and returns no error. The model has no `nil` map, so the library function returns the empty mapping in that case.
- YAML values are a small datatype. Floats are exact reals (`YamlFloat`), so the `float64` values yaml.v2 produces for `.nan`, `.inf` and `-.inf`, and `float64` rounding, are not modelled.
- yaml.v2 decodes every mapping nested inside the top-level `map[string]interface{}` as `map[interface{}]interface{}`, whatever its keys. The model's `YamlMapping` has string keys only, so nested mappings with non-string keys are not modelled, and the Go key type of nested mappings is not distinguished.
- Error messages are not modelled word for word. Each `fmt.Errorf` wrapping is a tag naming its step, and it keeps the underlying error.
- `NewYarnDetector` and the `projectPath` field only store the path. The path is folded into the snapshot.
- The integration test and its fixture server (`integration/`) are container and network orchestration. They contain no detector logic and are not part of this model.
