# pan-collector: credential redaction and export building, in Dafny

pan-collector asks a Panorama management appliance for the effective running
configuration of every firewall it manages and for its own candidate
configuration. It blanks credential fields in each tree and gathers the trees
into one export mapping, keyed by device serial, with `"panorama"` for
Panorama itself. This project models that core in Dafny:

- `json_tree.dfy` (module `JsonTree`): the configuration tree. It is an
  inductive `Json` datatype of mappings, sequences and primitive leaves.
- `sensitive_keys.dfy` (module `SensitiveKeys`): the key-name rule. A key is
  lower-cased, then matched against the tokens `password`, `secret`, `key`,
  `phash` and `users` by substring, and against a fixed set of exact names.
- `sanitizer.dfy` (module `Sanitizer`): `sanitize` as a pure function from
  a mapping to a new mapping. It also defines two independent descriptions
  of the result. `Redacted` says that every sensitive key at every level the
  walk reaches holds `""`. `BlankedFrom` says that the only change is
  blanking values of sensitive keys.
- `collector.dfy` (module `Collector`): the device loop of `collect_devices`,
  the store in `collect_panorama` and their sequencing in `main`. The
  appliance's answers arrive as inputs: one `Fetch` outcome per device, in
  list order, and one for Panorama.

The walk is deliberately shallow. A sequence held directly under a key is
entered only at its mapping elements. A sequence nested inside a sequence is
never entered, so a secret inside it survives (`DeepListSecretSurvives`).
This is the behaviour of the code and it is kept as is.

## Model

| member | source | states |
|---|---|---|
| `SensitiveKeys.Lower` | src/pan_collector/main.py:20 | lower-casing keeps the length, leaves no upper-case letter behind and keeps every character that is not upper-case |
| `SensitiveKeys.LowerMapsUpper` | src/pan_collector/main.py:20 | `A`-`Z` become the letter 32 code points on (`a`-`z`), and the KELVIN SIGN becomes `k` |
| `SensitiveKeys.CaseIgnored` | src/pan_collector/main.py:20-22 | a key and its lower-cased form are sensitive alike, for every key |
| `SensitiveKeys.ExactNamesContainTokens` | src/pan_collector/main.py:13-22 | every name in the exact-match set contains one of the five tokens |
| `SensitiveKeys.SensitiveIffToken` | src/pan_collector/main.py:21-22 | a key is sensitive exactly when its lower-cased name contains a token, so the exact-match disjunct never changes the outcome |
| `SensitiveKeys.NoTokenLettersNotSensitive` | src/pan_collector/main.py:20-22 | a key with no `p`, `c`, `k` or `u` in either case (nor the KELVIN SIGN) is never redacted |
| `SensitiveKeys.MixedCaseNameNotSensitive` | src/pan_collector/main.py:20-22 | `HostName` and `NOTE` are not sensitive |
| `SensitiveKeys.SensitiveUnderEmbedding` | src/pan_collector/main.py:20-21 | any key that embeds a sensitive key, with any prefix and suffix, is itself sensitive |
| `SensitiveKeys.UpperCaseTokenIsSensitive` | src/pan_collector/main.py:20-21 | matching ignores case: `Bind-PASSWORD` is sensitive |
| `SensitiveKeys.SubstringOverMatch` | src/pan_collector/main.py:21 | substring matching catches `subkeychain` |
| `Sanitizer.SanitizeObject` | src/pan_collector/main.py:19-23 | the key set of a mapping is unchanged, and every sensitive key maps to `""`, whatever its value was |
| `Sanitizer.SanitizeIsRedacted` | src/pan_collector/main.py:11-29 | after sanitizing, every sensitive key at every level the walk reaches maps to `""` |
| `Sanitizer.SanitizeOnlyBlanks` | src/pan_collector/main.py:19-29 | sanitizing only blanks values of sensitive keys: keys are never added or removed, sequence lengths and all other leaves are kept, a sequence nested in a sequence is kept exactly, and a blanked value is dropped wholesale |
| `Sanitizer.OnlyOneSanitized` | src/pan_collector/main.py:11-29 | the sanitized mapping is the only redacted mapping obtained from the input by blanking values of sensitive keys, so `SanitizeIsRedacted` and `SanitizeOnlyBlanks` together pin the result down |
| `Sanitizer.RedactedIsFixpoint` | src/pan_collector/main.py:11-29 | a tree that is already redacted is left exactly as it is |
| `Sanitizer.FixpointIffRedacted` | src/pan_collector/main.py:11-29 | sanitizing leaves a tree unchanged if and only if it is redacted |
| `Sanitizer.SanitizeIdempotent` | src/pan_collector/main.py:11-29 | sanitizing twice gives the same tree as sanitizing once |
| `Sanitizer.LeafKept` | src/pan_collector/main.py:24-29 | a leaf under a key that is not sensitive is kept unchanged |
| `Sanitizer.ObjectWalked` | src/pan_collector/main.py:24-25 | a mapping under a key that is not sensitive keeps its keys and is redacted at every reachable level |
| `Sanitizer.ListWalkedOneLevel` | src/pan_collector/main.py:26-29 | a sequence under a key that is not sensitive keeps its length; non-mapping elements, nested sequences included, are kept; mapping elements keep their keys and are redacted below |
| `Sanitizer.DeepListSecretSurvives` | src/pan_collector/main.py:26-29 | a `password` inside a mapping in a sequence nested in a sequence is not blanked |
| `Sanitizer.ExampleKeys` | src/pan_collector/main.py:13-22 | `bind-password` and `auth-password` are sensitive; `hostname`, `nested` and `note` are not |
| `Sanitizer.SanitizeExample` | src/pan_collector/main.py:11-29 | the worked example: the two password fields become `""`, the hostname and note are kept, and the nested mapping is walked |
| `Collector.LatestConfig` | src/pan_collector/main.py:39-49 | a configuration is found for a serial exactly when some device with that serial succeeded |
| `Collector.LatestConfigIsLast` | src/pan_collector/main.py:39-49 | the configuration found is the one fetched by a successful device with that serial, and no later device with that serial succeeded |
| `Collector.CollectDevices` | src/pan_collector/main.py:39-49 | the export keeps its earlier keys and gains exactly the serials of successful devices; each maps to the sanitized tree of the last successful device with that serial; every other earlier entry is unchanged, and failed devices add nothing |
| `Collector.CollectDevicesAsWritten` | src/pan_collector/main.py:39-55 | the run completes exactly when no device fails, with the same export as `CollectDevices`; otherwise it stops at the first failed device |
| `Collector.FailedDeviceAbortsAsWritten` | src/pan_collector/main.py:50-55 | one failing device before a good one stops the run as written, where skipping it keeps the good device's tree |
| `Collector.FailureLog` | src/pan_collector/main.py:50-55 | when the error text mentions a password and the serial does not, the failure line does not contain `password`; every later line is the fixed password hint; when the error text does not mention a password, the single failure line ends with the error text |
| `Collector.RedactedLogIgnoresMessage` | src/pan_collector/main.py:53-55 | when the error text mentions a password, the report is the same for every such text: the fixed notice line and the hint, so the text is never echoed |
| `Collector.NoticeLineClean` | src/pan_collector/main.py:54 | the redacted failure line contains `password` only if the serial does |
| `Collector.CollectPanorama` | src/pan_collector/main.py:59-67 | `"panorama"` is added or overwritten with a redacted tree that is the configuration with only values of sensitive keys blanked (by `OnlyOneSanitized`, exactly the sanitized configuration), and no other key changes |
| `Collector.CollectAll` | src/pan_collector/main.py:95-97 | a run completes exactly when the Panorama fetch succeeds, whatever devices fail; the export holds the successful serials plus `"panorama"`, which holds Panorama's sanitized tree |
| `Collector.CollectDevicesKeepsRedacted` | src/pan_collector/main.py:48-49 | if every tree already in the export is a redacted mapping, that still holds after the device loop |
| `Collector.ExportIsRedacted` | src/pan_collector/main.py:95-97 | every tree in a completed export is a mapping redacted at every reachable level |
| `Collector.SucceededSize` | src/pan_collector/main.py:39-49 | with distinct serials, the number of successful serials is the number of devices minus the failures |
| `Collector.ExportSize` | src/pan_collector/main.py:39-66 | with N devices of distinct serials, none of them `"panorama"`, of which M fail, a completed export has N - M + 1 entries |

## Left out

- The appliance calls `list_connected`, `op_on_device` and `op`, and the construction of `AppConfig` and `PanoramaSession` (src/pan_collector/main.py:5-8, 35, 43-47, 61-64, 89-92). These are foreign calls with no visible behaviour. Their results are inputs: a `Fetch` per device and one for Panorama.
- The two fixed command strings (src/pan_collector/main.py:45, 63). They are passed only to those calls.
- The extraction of the device entries from the `list_connected` answer (src/pan_collector/main.py:36). The device list is an input.
- `device["serial"]` (src/pan_collector/main.py:40) sits outside the `try`, so an entry with no serial raises `KeyError` and ends the run. Every modelled device has a serial.
- A fetched configuration that is not a mapping, or that has a non-string key at a level the walk reaches, is not modelled. `sanitize` would raise on it (src/pan_collector/main.py:19-20). In the device loop the handler would catch that raise, then itself raise `TypeError` at line 51 and end the run (see Findings).
- Non-string keys at levels the walk does not reach (inside a sequence nested in a sequence, or below a blanked value) would not make `sanitize` raise. They are outside the model only because `Json` mappings have string keys.
- `write_json` (src/pan_collector/main.py:70-77): file I/O, the clock, `strftime` and `json.dump`. The `export_<stamp>.json` file name shape is not modelled either.
- `main` (src/pan_collector/main.py:80-100): the `config.json` existence check and the progress messages. Only its sequencing at lines 95-97 is modelled, by `CollectAll`.
- The progress messages of `collect_devices` and `collect_panorama` (src/pan_collector/main.py:34, 37, 41, 56, 60, 67): console output that changes no state. Only the failure report at lines 50-55 is modelled, by `FailureLog`.
- SensitiveKeys.Lower: only ASCII `A`-`Z` and the KELVIN SIGN U+212A are lower-cased; all other characters are kept. Python's `str.lower` also lower-cases other non-ASCII letters. None of those becomes a letter of an ASCII token, so whether a key matches is the same.
- Numbers are opaque `int` leaves; no floating point is modelled.
- Mapping key order is not modelled. It affects only the order of the written JSON.
- In-place mutation and shared objects: the model returns a new tree and treats the tree as a value. Python mutates in place, so a mapping object shared at two places is changed at both. If both places are reached by the walk, the result is the same, because sanitizing is idempotent (`SanitizeIdempotent`). If one place is out of the walk's reach (for example inside a sequence nested in a sequence), Python blanks it through the other place, while the model leaves it as it was. Trees parsed from the appliance's answer share no objects, so this case is not modelled.
- Collector.FailureLog: models the evidently intended test on the exception's text (`str(e)`), not the code as written. As written, the test raises (see Findings).

## Findings

| source | as written | input that shows it | evidently intended | confidence | as-written member | corrected member |
|---|---|---|---|---|---|---|
| src/pan_collector/main.py:50-55 | `'password' not in e` tests membership in the exception object itself. A plain exception is not iterable, so the handler raises `TypeError`, and the first failed device ends the whole run before anything is written | a device whose fetch raises a connection error, followed by a device that succeeds | a failed device is logged, with the text redacted if it mentions a password, and skipped; the run continues | high; not executed | `Collector.CollectDevicesAsWritten`, `Collector.FailedDeviceAbortsAsWritten` | `Collector.CollectDevices`, `Collector.CollectAll`, `Collector.FailureLog` |

Three further behaviours of the code may surprise a reader. They are not
defects, and the model keeps each of them. First, only the levels the walk reaches are
redacted; a secret inside a sequence nested in a sequence survives. Second,
a device whose serial is `"panorama"` has its entry overwritten by
Panorama's tree. Third, a later device with the same serial as an earlier
one overwrites that entry.
