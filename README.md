# bfm: metadata cache and add command, modelled in Dafny

bfm keeps a Brewfile (a manifest of Homebrew taps, formulae, casks and Mac App
Store apps) in sync with a cache of package metadata. This project models three
parts of it:

- the metadata cache of `brew/infoCache.go` (module `Brew`, file `info_cache.dfy`):
  - `Refresh` runs the command it is given, creates the bolt bucket `"brew"`,
    decodes the output and puts the records one transaction at a time;
  - `Find` looks a package up by full name;
- the decisions of the `add` command in `cmd/add.go` (module `AddCmd`, file `add.dfy`):
  - the order of its checks;
  - the restart-mode translation and the choice of expansion policy;
  - rendering and sorting the brew section;
  - appending and sorting tap, cask and mas lines;
  - the tap-format and mas-id tests;
- the manifest-line helpers of `cmd/helpers.go` (module `Helpers`, file `helpers.dfy`).

Supporting modules:

- `Text` (`text.dfy`): the parts of Go's standard library the core leans on.
  - `sort.Strings` is modelled by an insertion sort over Go's string order. `SortedUnique` shows that any sort yields the same result.
  - Go's `len` on a string counts UTF-8 bytes; `ByteLength` models it.
  - `strings.Contains` is modelled, and `strings.HasPrefix` is Dafny's `<=` on sequences.
- `Seqs` (`seqs.dfy`): enumerations of a set, which model Go's map iteration orders, and subsequences.
- `Wrappers` (`wrappers.dfy`): `Option` and `Result`.

State the source changes in place is a class:

- The bolt database is `Brew.Store`. Its fields say whether bucket `"brew"` exists and give the bucket as a `map<string, Info>`.
- The `InfoCache` slice is `Brew.InfoCache`.
- `brewfile.Packages` is `AddCmd.Packages`, whose four sections `Add` reassigns.

Collaborators whose code is not part of this model are parameters. The model
assumes nothing about them:

- the command's result;
- the outcome of each bolt transaction;
- the JSON decoder;
- the dependency resolver `brew.CacheMap.Add`, seeded with the brew section;
- `brew.Entry.Format`;
- `brewfile.Packages.Bytes`.

Go's map iteration order is not fixed. `AddBrewPackage` models it with a nondeterministic choice of the next key.

Behaviour worth noting:

- Refresh creates the bucket *before* decoding, so a decode failure leaves a created but unchanged bucket.
- A restart mode of at most one byte (empty, or one ASCII character) passes through untranslated. A single non-ASCII character such as `é` is two bytes or more and is refused. The literal `"true"` is refused.
- When several type flags are given, the type chosen by precedence names the line added to every selected section. For example, `-t -c` puts a `tap '...'` line into the cask section.

## Model

| member | source | states |
|---|---|---|
| `Brew.InfoCache.Refresh` | brew/infoCache.go:88-137 | a failing command returns its error and changes neither the store nor the slice; a refused bucket creation returns `create bucket` and changes nothing; a failure of the creating transaction itself is returned unwrapped and changes nothing; after creation the bucket exists; a decode failure returns its error and leaves the bucket's contents; otherwise the slice becomes the decoded list and the bucket is the old bucket with the records before the first failing put stored in order (`PutAll`), the error being that put's error or none |
| `Brew.InfoCache.Find` | brew/infoCache.go:139-163 | on an existing bucket, a stored key yields its record and no error; an absent key yields the zero `Info` and `CouldNotFindPackageInfo(key)` |
| `Brew.StoredCount` | brew/infoCache.go:114-134 | the loop stores exactly the records before the first failing put: no put before the count fails, and the put at the count fails unless all were stored |
| `Brew.PutAll` | brew/infoCache.go:114-129 | after the puts the keys are the old keys plus the full names put: refresh never deletes a key |
| `Brew.PutAllKeepsOthers` | brew/infoCache.go:114-134 | a key no record is named after keeps its previous value (stale entries survive, including those after a failing put) |
| `Brew.PutAllLastWins` | brew/infoCache.go:114-129 | when records share a full name, the store holds the last of them |
| `Brew.PutAllAppend` | brew/infoCache.go:114-134 | putting a list is putting its prefix and then the rest, so a refresh that stops part way leaves exactly a prefix applied |
| `Brew.PutAllIdempotent` | brew/infoCache.go:114-134 | putting the same records again leaves the store unchanged |
| `Helpers.FlagProvided` | cmd/helpers.go:26-28 | true exactly when the flag of one of the four package types is set |
| `Helpers.GetPackageType` | cmd/helpers.go:30-48 | "" exactly when no type flag is set; otherwise a set type such that no type before it in the order tap, brew, cask, mas is set |
| `Helpers.ConstructBaseEntry` | cmd/helpers.go:50-52 | the entry is the type, a space, the name in single quotes, and nothing else |
| `Helpers.BaseEntryInjective` | cmd/helpers.go:50-52 | `type 'name'` determines both type and name when the type has no space |
| `Helpers.EntryExists` | cmd/helpers.go:54-62 | true exactly when `type 'name'` occurs as a contiguous piece of the manifest text |
| `Helpers.LongerLineCounts` | cmd/helpers.go:54-62 | a line carrying text after the base entry (args, id) still makes the entry exist |
| `Helpers.GetPackages` | cmd/helpers.go:64-73 | the result is a subsequence of the lines, holds each line with the prefix as often as the input does and no other line, and is no longer than the input |
| `Helpers.GetPackagesHavePrefix` | cmd/helpers.go:64-73 | every kept line starts with the type |
| `Text.Sort` | cmd/add.go:194 | `sort.Strings` yields an ascending permutation of its input |
| `Text.SortedUnique` | cmd/add.go:194 | two ascending sequences with the same elements are equal |
| `Text.SortDeterminedByElements` | cmd/add.go:194 | sorting depends only on the elements, not on their order |
| `Text.ByteLength` | cmd/add.go:158 | Go's `len` of a string: at least its length in characters and at most four times it; zero exactly for the empty string |
| `Text.ByteLengthAtMostOne` | cmd/add.go:158 | a string has at most one byte exactly when it is empty or one ASCII character |
| `Text.Contains` | cmd/helpers.go:57 | `strings.Contains` holds exactly when the piece occurs at some index |
| `AddCmd.Message` | cmd/add.go:95-165 | the already-present message starts with the base entry; resolver and format errors are passed through unchanged; the restart error carries the source's text |
| `AddCmd.NormaliseRestart` | cmd/add.go:158-167 | accepted exactly when the mode is at most one byte long in UTF-8 or is `always` or `changed`; `always` becomes `true`, `changed` becomes `:changed`, modes of at most one byte are kept; anything else is the restart error |
| `AddCmd.ShortModesPassThrough` | cmd/add.go:158-167 | a mode is kept untranslated exactly when it is empty or a single ASCII character |
| `AddCmd.AsWrittenRestartMessageNamesRejectedValue` | cmd/add.go:165 | the source's restart message offers `'true'`, which the translation refuses |
| `AddCmd.CorrectedRestartMessage` | cmd/add.go:165 | a restart message with the source's wording up to the list of options, differing from the source's text |
| `AddCmd.RestartMessageNamesAcceptedValues` | cmd/add.go:158-167 | every value the corrected restart message names is accepted |
| `AddCmd.ChoosePolicy` | cmd/add.go:169-181 | `AddAll` exactly when `--all`; `AddPackageAndRequired` exactly when `--required` without `--all`; package-only otherwise |
| `AddCmd.Lines` | cmd/add.go:183-192 | one line per visited key, each the rendering of that key's entry |
| `AddCmd.LinesPermutation` | cmd/add.go:183-192 | visiting the same keys in another order gives the same lines in another order |
| `AddCmd.IterationOrderIrrelevant` | cmd/add.go:183-195 | for any two iteration orders of the resolved map the sorted lines are equal |
| `AddCmd.AddBrewPackage` | cmd/add.go:157-196 | a bad restart mode returns the restart error; a resolver error is returned as such; otherwise it fails only if some entry does not render, with that entry's error; on success the lines are the sorted renderings of every entry of the map, one per entry, whatever the iteration order; on failure the lines are empty |
| `AddCmd.AddPackage` | cmd/add.go:198-207 | the section with exactly one line appended and the earlier lines unchanged; the line starts with `type 'name'` and carries `, id: <id>` exactly when the type is `mas` |
| `AddCmd.AppendMasID` | cmd/add.go:218-220 | the entry followed by `, id: ` and the id |
| `AddCmd.AddedLineIsFound` | cmd/add.go:106 | once an added line is in the manifest text, the duplicate check finds the package |
| `AddCmd.TapFormatIsRegexMatch` | cmd/add.go:209-212 | a slash with a non-newline character on each side occurs exactly when the unanchored pattern `.+/.+` (with `.` excluding newline) matches some piece of the name |
| `AddCmd.HasCorrectTapFormat` | cmd/add.go:209-212 | the tap test holds exactly when `.+/.+` matches some piece of the name |
| `AddCmd.HasMasID` | cmd/add.go:214-216 | true exactly when the id is non-empty |
| `AddCmd.UpdatedSection` | cmd/add.go:121-122 | the section re-sorted with the new line: ascending, holding the old lines and the new one, one longer |
| `AddCmd.Add` | cmd/add.go:95-155 | no type flag, then an entry already in the manifest, then a bad tap format, then a brew-section error, then a missing mas id: each returns its error with the sections as far as updated; otherwise each selected tap, cask and mas section gets its new line and is re-sorted, the brew section is the rendered one, and the manifest text is printed on a dry run and written otherwise |

## Left out

- Process and file I/O. `errorExit`, `readFileContents`, reading the Brewfile, reading the metadata snapshot and `ioutil.WriteFile` are out of the model. An I/O error in them exits the process in the source. The model assumes these calls succeed: reading yields the parsed sections it is given, and writing yields the `Written` outcome.
- Console output. The "Added ..." message and the dry-run text are not printed. The dry run is the `Printed` outcome carrying the text.
- The cobra command, flag registration and `RootCmd` wiring. They are library plumbing.
- The dependency resolver. `brew.CacheMap` (`FromPackages`, `ResolveRequiredDependencyMap`, `Add`) and `Entry.Format` are not part of this model. They are parameters, so nothing about dependency traversal, cycles or policies is proved. `Add` ignores the results of `FromPackages` and `ResolveRequiredDependencyMap`, and the model follows that.
- `brewfile.Packages.FromBrewfile` and `Bytes` are not part of this model. `Add` takes the parsed sections and the rendering function as parameters.
- JSON. Encoding then decoding a stored record is the identity. So `Find`'s unmarshal error (brew/infoCache.go:150-153) cannot occur, and the decoder of the command output is a parameter.
- A decode failure is modelled as leaving the receiver slice unchanged. That is what `encoding/json` does on a syntax error. On a type error it may fill the slice in part, and that case is not modelled.
- Bolt. Each `db.Update` is atomic, and its failure is a parameter. How the bucket-creating transaction ends is one parameter: committed, refused by `CreateBucketIfNotExists` (wrapped as `create bucket: ...`), or failed by bolt when it begins or commits (returned unwrapped). Each put's error, from marshalling or `Put`, is a function of its position and record. Bolt's own rules for when `Put` fails are not part of this model.
- A command output that is the JSON literal `null`. `json.Unmarshal` then sets the slice pointer to nil, and the conversion at brew/infoCache.go:114 panics. The decoder parameter yields only a list or an error, so that path is not modelled.
- `Find` on a database without bucket `"brew"`. `Bucket` returns nil there and `Get` panics, so `Find` requires the bucket to exist.
- `Info` fields other than the full name and the four dependency lists are data with no behaviour and are left out.
- `Text.LessEq` compares characters, while Go compares UTF-8 bytes. The two orders agree on valid strings. Invalid UTF-8 is not modelled.
- The snapshot reader `InfoCache.Read` and the clean command are not part of this model.
- The commented-out `constructFileContents` is not modelled.
- AddCmd.AddBrewPackage: when several entries fail to render, which error comes back depends on Go's random map order. The contract says only that it is the error of some failing entry.
- AddCmd.Add: on a brew-section failure the contract says only that the error is one of the brew-section errors. `AddBrewPackage` states which one.

## Findings

| source | as written | input that shows it | evidently intended | confidence | as-written member | corrected member |
|---|---|---|---|---|---|---|
| cmd/add.go:165 | the error for an unknown restart mode says the valid options are 'true' and 'changed' | `bfm add -b vim --restart-service true` is refused with a message that offers `true` again | the message names the values the switch accepts, `always` and `changed`, as the flag's help text at cmd/add.go:46 does | high; not executed | `AddCmd.AsWrittenRestartMessageNamesRejectedValue` | `AddCmd.RestartMessageNamesAcceptedValues` |
