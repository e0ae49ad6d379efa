# NetCDF quantize test: file pairing and data check

This project models the test script `netcdf_examples/quantize_test/test_diff.py`. The script checks the output of a data-quantization demonstration in two phases.

- `check_files_match` reads the directory listing. It takes the base names of the entries ending in `cdl` and of those ending in `nc`. It makes sure each NetCDF output has a CDL description with the same base name, and each CDL description has a NetCDF output. Any name left without a partner is reported, and the process exits with status 1.
- `check_data` visits each NetCDF base name. It regenerates `<root>_ref.nc` from `<root>.cdl` with `ncgen` and compares the `field` arrays. It counts the roots whose arrays differ and exits with status 1 when that count is positive.

The model has four modules:

- `PyBuiltins` (`py_builtins.dfy`) covers the Python built-ins the script calls: `str.split` for a one-character separator, `''.join`, the slice `s[-n:]`, and `list.remove` with its `ValueError`. It also defines `Join` (`str.join` with a separator) and `IndexOf` (the position of the leftmost occurrence), which the script does not call; they serve only to state the round trip of `split` (`JoinSplit`) and which occurrence `remove` takes out (`ListRemoveLeftmost`).
- `FileNames` (`file_names.dfy`) covers the base-name expression `''.join(f.split('.')[:-1])`. It also covers the suffix filters `f[-3:] == 'cdl'` and `f[-2:] == 'nc'`, and the two list comprehensions built from them.
- `Pairing` (`pairing.dfy`) covers `check_files_match`. The two removal loops are one imperative method, `RemoveMatched`, called twice. Its loop updates a copy of the list. It is tied to `RemovalLoop`, a function following the same steps, whose outcome is proved against an independent reference, `DropLeftmost`, and against the counting condition `RemoveRaises`. The outcome is `Matched`, `Mismatched` (the two leftover lists and the messages written to standard error), or `RemoveFailed` (the uncaught `ValueError`).
- `DataCheck` (`data_check.dfy`) covers the counting loop of `check_data` and the entry point. The numeric comparison of a root is the parameter `agrees: string -> bool`.

Points of the code's behaviour that the model makes explicit:

- Base names are lists with repetitions, not sets, and each match removes one occurrence. The pairing therefore compares them as multisets: it succeeds exactly when the two lists are equal as multisets (`CheckFilesMatch`), and each name occurs as often as there are selected entries with that base name (`SelectedBaseNamesCount`). This reduces to set equality only when both lists are free of duplicates.
- Every dot is deleted, not only the one before the extension, because the pieces are joined with `''`: `a.b.nc` has base name `ab`, the same as `ab.nc` (`InnerDotsDropped`). A pair `a.b.nc`/`a.b.cdl` passes the pairing check, but the data check then opens `ab.nc` and `ab.cdl`, which are not in the listing (`DottedEntriesPairUnderOtherNames`).
- A name is selected by its last characters only. No dot is required, so `xnc` is a NetCDF entry with base name `""` (`SelectedIsSuffix`, `DotlessBaseNameIsEmpty`).
- When duplicate base names outnumber their partners, `list.remove` raises `ValueError` before the `try` block is reached. That exception is not caught, so the process ends with status 1 and no `FAIL` report (`RemoveMatched`, `CheckFilesMatch`, `DuplicateCdlNamesRaise`).

The three `os.listdir('.')` calls are modelled as one listing (`listing: seq<string>`), because nothing changes the directory between them. Exit statuses are values: `Status` is `Continues` or `Exits(code)`, and `RunChecks` returns the process's exit code.

## Model

| member | source | states |
|---|---|---|
| `PyBuiltins.Split` | netcdf_examples/quantize_test/test_diff.py:14 | `f.split('.')` yields at least one piece, and no piece contains the separator |
| `PyBuiltins.JoinSplit` | netcdf_examples/quantize_test/test_diff.py:14 | joining the pieces of a split with the same separator gives the original string back |
| `PyBuiltins.ConcatSplit` | netcdf_examples/quantize_test/test_diff.py:14 | `''.join` of the pieces is the string with every separator deleted |
| `PyBuiltins.Erase` | netcdf_examples/quantize_test/test_diff.py:14 | the result has no occurrence of the erased character, is no longer than the input, and keeps every other character that occurs in the input |
| `PyBuiltins.Tail` | netcdf_examples/quantize_test/test_diff.py:15 | `s[-n:]` is the suffix of length `min(n, len(s))`; a short string is returned whole, with no error |
| `PyBuiltins.ListRemove` | netcdf_examples/quantize_test/test_diff.py:22 | `list.remove(x)` raises exactly when `x` is absent; otherwise the result is one element shorter |
| `PyBuiltins.ListRemoveMultiset` | netcdf_examples/quantize_test/test_diff.py:22 | a successful `remove(x)` takes out one `x` and keeps every other element with its count |
| `PyBuiltins.ListRemoveLeftmost` | netcdf_examples/quantize_test/test_diff.py:25 | the occurrence removed is the leftmost one, and the rest keep their order |
| `FileNames.Stem` | netcdf_examples/quantize_test/test_diff.py:16 | independent reference: the prefix of `f` before its last `.` (empty when there is none) |
| `FileNames.BaseNameIsErasedStem` | netcdf_examples/quantize_test/test_diff.py:14-16 | `''.join(f.split('.')[:-1])` is the part of `f` before its last dot, with all remaining dots deleted |
| `FileNames.BaseNameHasNoDots` | netcdf_examples/quantize_test/test_diff.py:14-16 | a base name never contains a dot |
| `FileNames.DotlessBaseNameIsEmpty` | netcdf_examples/quantize_test/test_diff.py:14-16 | a name with no dot has the empty base name |
| `FileNames.BaseNameOfDotted` | netcdf_examples/quantize_test/test_diff.py:14-16 | the base name of `<b>.<ext>`, with no dot in `ext`, is `b` with its dots deleted |
| `FileNames.BaseNameOfExtended` | netcdf_examples/quantize_test/test_diff.py:33-38 | appending `.ext` to a dot-free name and taking the base name again returns that name |
| `FileNames.InnerDotsDropped` | netcdf_examples/quantize_test/test_diff.py:14-16 | `a.b.<ext>` and `ab.<ext>` both have base name `ab` |
| `FileNames.SelectedIsSuffix` | netcdf_examples/quantize_test/test_diff.py:14-17 | an entry is selected exactly when its last `|suffix|` characters equal the suffix; shorter entries are skipped |
| `FileNames.FiltersDisjoint` | netcdf_examples/quantize_test/test_diff.py:14-17 | no entry is selected as both CDL and NetCDF |
| `FileNames.SelectedBaseNames` | netcdf_examples/quantize_test/test_diff.py:14-17 | every name in the comprehension is dot-free, and there are at most as many names as entries |
| `FileNames.SelectedBaseNamesMembers` | netcdf_examples/quantize_test/test_diff.py:14-17 | a name is in the comprehension exactly when it is the base name of some selected entry |
| `FileNames.SelectedBaseNamesCount` | netcdf_examples/quantize_test/test_diff.py:14-17 | each name occurs in the comprehension exactly as many times as there are listing positions whose entry is selected and has that base name |
| `Pairing.DropLeftmostMultiset` | netcdf_examples/quantize_test/test_diff.py:20-25 | the reference for a reduced copy, `DropLeftmost(s, m)`, holds the original's multiset of names minus the removals asked for |
| `Pairing.DropLeftmostStep` | netcdf_examples/quantize_test/test_diff.py:21-22 | one more successful `remove(x)` on the copy equals asking for one more `x` to be dropped |
| `Pairing.DropLeftmostAbsent` | netcdf_examples/quantize_test/test_diff.py:21 | a name that is not in the list changes nothing |
| `Pairing.DropLeftmostIsSubsequence` | netcdf_examples/quantize_test/test_diff.py:18-25 | the reduced copy is a subsequence of the original list |
| `Pairing.DropLeftmostWithin` | netcdf_examples/quantize_test/test_diff.py:18-25 | every leftover name was in the original list |
| `Pairing.DropLeftmostOfDistinct` | netcdf_examples/quantize_test/test_diff.py:20-25 | for a duplicate-free list, the reduced copy is exactly the names not in the other list, in original order |
| `Pairing.DistinctLists` | netcdf_examples/quantize_test/test_diff.py:20-29 | between duplicate-free lists no `remove` raises, and multiset equality is set equality |
| `Pairing.RaisesAt` | netcdf_examples/quantize_test/test_diff.py:21-22 | a `remove` that finds the copy exhausted marks a name that occurs fewer times in the guard list than in the source list |
| `Pairing.RemovalStep` | netcdf_examples/quantize_test/test_diff.py:20-22 | one iteration keeps the copy equal to `DropLeftmost` of the names handled so far, and keeps every name within its count in the guard list |
| `Pairing.RemovalLoopFrom` | netcdf_examples/quantize_test/test_diff.py:20-22 | the loop run from any position, with the copy the earlier names left, raises exactly when some name is outnumbered, and otherwise leaves `DropLeftmost(guard, multiset(source))` |
| `Pairing.RemovalLoopOutcome` | netcdf_examples/quantize_test/test_diff.py:18-22 | the same for the whole loop, started from an untouched copy |
| `Pairing.RemoveMatched` | netcdf_examples/quantize_test/test_diff.py:18-25 | the loop ends as `RemovalLoop` says; it returns its reduced copy, equal to `DropLeftmost(guard, multiset(source))`, exactly when no name occurs in `guard` fewer (but more than zero) times than in `source`; otherwise it reports such a name as the one whose `remove` raised |
| `Pairing.EmptyResidualsIffSameNames` | netcdf_examples/quantize_test/test_diff.py:26-28 | both leftover multisets are empty exactly when the two name lists are equal as multisets |
| `Pairing.WithExtensionRoundTrip` | netcdf_examples/quantize_test/test_diff.py:33-38 | each reported file name `<name>.<ext>` passes the same suffix filter and has `<name>` as its base name |
| `Pairing.MismatchReports` | netcdf_examples/quantize_test/test_diff.py:32-41 | the CDL list (`<name>.cdl`) is reported exactly when it is non-empty, and likewise the NetCDF list (`<name>.nc`); there is one report per non-empty list and no other report, no report is empty, and CDL comes before NetCDF |
| `Pairing.PairingStatus` | netcdf_examples/quantize_test/test_diff.py:26-42 | the process continues exactly when the pairing matched; otherwise it exits with status 1 |
| `Pairing.CheckFilesMatch` | netcdf_examples/quantize_test/test_diff.py:9-42 | the check yields OK exactly when the CDL and NetCDF base names are equal as multisets. It raises exactly when a name is outnumbered, the first loop's error taking precedence. On FAIL the leftovers are the reduced copies (subsets of the originals, not both empty) with their reports. For duplicate-free lists it never raises, OK is set equality, and the leftovers are the two set differences in listing order |
| `Pairing.OutnumberedCdlNameRaises` | netcdf_examples/quantize_test/test_diff.py:14-22 | two CDL entries and one NetCDF entry with the same base name make the first loop's `remove` raise |
| `Pairing.DuplicateCdlNamesRaise` | netcdf_examples/quantize_test/test_diff.py:20-22 | for the listing `a.b.cdl`, `ab.cdl`, `ab.nc`, the first loop's `remove` raises |
| `DataCheck.ReferenceNameProperties` | netcdf_examples/quantize_test/test_diff.py:55-59 | `root_ref.nc` is never the test file `root.nc`, but it is the test file of the root `root_ref`, and it passes the NetCDF filter with that base name |
| `DataCheck.DottedEntriesPairUnderOtherNames` | netcdf_examples/quantize_test/test_diff.py:50-59 | `a.b.nc` and `a.b.cdl` pair as `ab`, but the files then opened (`ab.nc`, `ab.cdl`) are not in the listing |
| `DataCheck.FailuresCountsFailingPositions` | netcdf_examples/quantize_test/test_diff.py:64-67 | the failure counter equals the number of positions whose comparison fails |
| `DataCheck.NoFailuresIffAllAgree` | netcdf_examples/quantize_test/test_diff.py:64-72 | no failure is counted exactly when every root's comparison passes |
| `DataCheck.FailuresBounded` | netcdf_examples/quantize_test/test_diff.py:64-67 | the counter never exceeds the number of roots |
| `DataCheck.CheckData` | netcdf_examples/quantize_test/test_diff.py:44-72 | every NetCDF root is visited, in order, whatever the earlier results. Each visit runs `ncgen -k nc4 -o <root>_ref.nc <root>.cdl`, opens `<root>.nc` and records the comparison. `nfailures` counts the failing roots. The status is `Exits(1)` exactly when `nfailures > 0`, that is, exactly when some comparison fails |
| `DataCheck.RunChecks` | netcdf_examples/quantize_test/test_diff.py:75-77 | the exit code is 0 or 1, and it is 0 exactly when the base names pair as multisets and every NetCDF root's comparison passes |

## Left out

- Console output: the `sys.stdout` progress lines (`OK`, `FAIL`, `Checking file ...`) are not modelled. Of the `sys.stderr` messages, only which files they list is kept (`Report`), not their wording.
- `os.listdir('.')`: the listing is an input sequence. The order in which the operating system returns entries is whatever that sequence holds.
- `subprocess.run(['ncgen', ...])`: only its argument vector is modelled (`NcgenArgs`). The external process and its ignored return code are not modelled.
- `netCDF4.Dataset(...)['field'][:]`, `numpy.allclose(..., rtol=5e-3)` and the unused `diff` array: these are floating-point comparisons of arrays read from binary files. The comparison is the opaque predicate `agrees` on the root. The I/O faults that a missing or corrupt file would raise are not modelled.
- `os.remove(reference_ncfile)`: deleting the temporary file is filesystem I/O and is not modelled.
- `copy.deepcopy`: lists are values in the model, so the copy is an assignment. The original lists `cdl_filenames` and `netcdf_filenames` cannot change, and only the copies shrink.
- `CheckData`, `RunChecks`: the comparison of a root is taken to be independent of the earlier visits and to raise nothing. In the code it is not always so. The visit of `r` writes `r_ref.nc` and then deletes it (lines 55-57, 70), and that file is the test file of the root `r_ref` (`ReferenceNameProperties`). With `r.nc`, `r.cdl`, `r_ref.nc` and `r_ref.cdl` listed, the pairing passes. If `r` is visited first, the later visit of `r_ref` fails to open its file, an uncaught exception that ends the process with status 1. If `r_ref` is visited first, it is compared normally. Likewise the unused `diff` (line 61) raises on arrays of different shapes and ends the loop. The claims that every root is visited and that the exit code is 0 exactly when every comparison passes hold only under this abstraction.
- `CheckFilesMatch`, `RunChecks`: assertions are assumed enabled. The OK/FAIL decision rests on two `assert` statements (lines 27-28). Under `python -O` they are stripped, so the script would always print `OK` and never exit from the pairing check; the model does not cover that mode.
