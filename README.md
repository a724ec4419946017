# env-es: executable resolution, PATH/PATHEXT editing and the delimiter codec, in Dafny

This project models the logic of the env-es library for Deno. The library lists delimited environment variables, edits `PATH` and `PATHEXT`, and finds executables along `PATH`. All of the model is proved with the Dafny verifier.

The project has one module per concern:

- **`Delimitation`** (`delimitation.dfy`): the codec for delimited variables.
  - The delimiter is `;` on Windows and `:` elsewhere.
  - `getEnvWithDelimitation` splits the stored string and drops empty pieces.
  - `setEnvWithDelimitation` drops empty values and joins the rest.
  - The environment is a `map<string, string>` that is passed in and returned. An unset variable reads as `""`.
  - The JavaScript `split` and `join` are written out. The module proves their round trips, and from them the round trip of the codec, its normalisation, and that, when no value contains the delimiter, stored strings never contain an empty piece.
- **`OrderedSets`** (`ordered_sets.dfy`): a JavaScript `Set`, modelled as a sequence without repetitions in insertion order.
  - `new Set(array)` is `FromSeq`, `add` is `Insert`, and `delete` is `Remove`.
  - `AddEach` and `DeleteEach` are the `for` loops of the edit operations, over the set held as a sequence value (the source's `Set` is local to each call). Each is proved against a specification function.
- **`EnvPath`** (`path.dfy`) and **`EnvPathExt`** (`pathext.dfy`): `get`, `add` and `delete` for `PATH` and `PATHEXT`.
  - They validate their arguments: an absolute path for `PATH`, a text starting with `.` for `PATHEXT`. A bad argument is a `Failure` before anything is read or written.
  - `PATHEXT` upper-cases what it adds, is `null` off Windows, and falls back to `[".EXE", ".CMD", ".BAT", ".COM"]`.
  - The helpers' flag `hasDuplicated` is modelled as written: it is true when the stored list has *no* repeated entry. A delete with at least one value (and, for `PATHEXT`, on Windows) therefore writes whenever the stored list has no repetition, and leaves a list with repetitions alone when nothing was removed.
- **`Executable`** (`executable.dfy`): the executability tests, the resolution loop and the single lookup.
  - The POSIX test works on permission bits. Besides the execute bit of each class, it lets the superuser execute when any execute bit is set. Identity errors are raised only after a regular file has been recognised.
  - The Windows test is a case-insensitive suffix match against PATHEXT. It compares the *whole path* with each extension, so a file whose path is only `.exe` is rejected, but `C:\bin\.exe` is accepted.
  - The wrapper around `stat` turns NotFound into `false` when `mayNotExist` is set.
  - `getAllExecutable` is a method with the nested loops of the source and the `yielded` set.
    - It is proved equal to a specification: `Scan` lists the directory entries met in search order together with the error that ended the loop. `Yield` lists the entries that pass the test and the filters and were not yielded before.
    - Every error of the per-entry test, the "unable to get the ID" errors included, skips the entry.
    - NotADirectory, NotFound and PermissionDenied skip the directory; any other directory error ends the loop.
  - `getExecutable` returns the first entry of the resolution whose filters are `[specifier]`. Its `Omit<GetExecutableOptions, "filter">` names a field that does not exist, but the filters are replaced anyway, so the typo has no effect.

The synchronous and asynchronous variants are identical apart from `await` and the synchronous calls (`Deno.readDirSync`, `Deno.statSync`), so each pair is modelled once.

The host is a value, `Executable.Host`. It holds:

- the platform flag (`isOSWindows` and `Deno.build.os`);
- the environment;
- `Deno.cwd()`, `Deno.gid()` and `Deno.uid()`;
- the file system, as a map from directory to listing and a map from path to `stat` result; anything absent is NotFound.

The path library's `isAbsolute` and `join`, and `RegExp.prototype.test`, are function-valued parameters about which nothing is assumed. `extname` is written out for directory-entry names.

## Model

| member | source | states |
|---|---|---|
| Delimitation.DELIMITER_COLON | delimitation.ts:8 | `delimiterColon`, the POSIX delimiter `:` |
| Delimitation.DELIMITER_SEMI_COLON | delimitation.ts:12 | `delimiterSemiColon`, the Windows delimiter `;` |
| Delimitation.Delimiter | delimitation.ts:8-16 | the delimiter is `;` exactly on Windows and `:` exactly elsewhere |
| Delimitation.Split | delimitation.ts:59 | `String.prototype.split` on one character gives at least one piece, and no piece contains the delimiter |
| Delimitation.NonEmpty | delimitation.ts:59-61 | the `length > 0` filter keeps exactly the non-empty values |
| Delimitation.NonEmptyKeepsOrder | delimitation.ts:59-61 | the filter keeps order and multiplicity: each value stays in place exactly when it is not empty |
| Delimitation.GetEnvWithDelimitation | delimitation.ts:58-62 | no value read is empty or contains the delimiter; an unset variable reads as `[]` |
| Delimitation.SetEnvWithDelimitation | delimitation.ts:75-79 | the variable becomes the non-empty values joined by the delimiter; every other variable is unchanged |
| Delimitation.SetTwice | delimitation.ts:75-79 | a second write of the same variable replaces the first, whatever the values of either |
| Delimitation.Join | delimitation.ts:78 | `Array.prototype.join` with the delimiter; its contract is stated by SplitJoin and JoinSplit, which make it the inverse of Split |
| Delimitation.Raw | delimitation.ts:59 | `getEnv(key) ?? ""`: an unset variable reads as the empty string; stated through GetEnvWithDelimitation |
| Delimitation.JoinSplit | delimitation.ts:59 | joining the pieces of a split with the same character gives back the string |
| Delimitation.SplitJoin | delimitation.ts:76-78 | splitting a join of delimiter-free pieces gives back the pieces |
| Delimitation.RoundTrip | delimitation.ts:58-79 | after `set(k, vs)`, `get(k)` is `vs` without its empty values, when no value contains the delimiter |
| Delimitation.StoredHasNoEmptyPieces | delimitation.ts:75-79 | when no value contains the delimiter, the stored string is empty or each of its pieces is a non-empty value that was written |
| Delimitation.Normalisation | delimitation.ts:58-79 | writing back what was read and reading again gives the same list |
| Wrappers.FirstFailing | path.ts:4-8 | `forEach` with a throwing check fails on the first value that fails, and succeeds exactly when every value passes |
| Wrappers.Checked | path.ts:29-30 | validation comes first: its error is the outcome, and only without one does the edit happen (also path.ts:49-50 and pathext.ts:70-71, 91-92); a definition used by the edit methods' contracts |
| OrderedSets.Insert | path.ts:33 | `Set.add` keeps a set without repetitions and adds exactly the value |
| OrderedSets.FromSeq | path.ts:12 | `new Set(array)` has no repetitions, no more elements, and the same members |
| OrderedSets.Without | path.ts:56-58 | deleting values leaves exactly the members that are not among them |
| OrderedSets.FromSeqKeepsLength | path.ts:14 | the set is as long as the array exactly when the array has no repetition |
| OrderedSets.FromSeqOfDistinct | path.ts:74 | the set of an array without repetitions is that array, in order |
| OrderedSets.FromSeqAbsorbs | path.ts:31-35 | adding values to the set of an array is the set of the concatenation |
| OrderedSets.FromSeqPrefix | path.ts:31-35 | adding to a set keeps its existing members first, in their order |
| OrderedSets.FromSeqAppend | path.ts:31-35 | the set of `a + b`, for `a` without repetitions, is `a` followed by the set of the values of `b` not in `a` |
| OrderedSets.WithoutDistinct | path.ts:56-58 | deleting from a set keeps it free of repetitions |
| OrderedSets.Remove | path.ts:57 | `Set.delete(x)` is filtering out `x`, keeping the order of the rest |
| OrderedSets.RemoveMembers | path.ts:57 | after `Set.delete(x)` the members are those before but `x`, and a set stays free of repetitions |
| OrderedSets.RemoveWithout | path.ts:57 | one more `delete` removes one more value |
| OrderedSets.AddEach | path.ts:32-34 | the `add` loop over the values turns the set of the stored list into the set of the stored list followed by the values |
| OrderedSets.DeleteEach | path.ts:55-58 | the `delete` loop leaves the set without the values; `isModified` ends up true exactly when it started true or some value was a member |
| EnvPath.KEY | path.ts:11 | the variable the module edits, `PATH` |
| EnvPath.SyntaxError | path.ts:6 | the `SyntaxError` thrown for a value that is not absolute, carrying that value |
| EnvPath.PathList | path.ts:13-16 | the `{ hasDuplicated, result }` object of `getEnvPathInternal` |
| EnvPath.AssertValuesAbsolutePath | path.ts:3-9 | no error exactly when every value is absolute; otherwise the error names the first value that is not |
| EnvPath.GetEnvPathInternal | path.ts:10-17 | the result is the decoded `PATH` without repetitions and with the same members; `hasDuplicated` holds exactly when the decoded list has no repetition |
| EnvPath.GetEnvPath | path.ts:73-75 | the decoded entries without repetitions, each non-empty and free of the delimiter |
| EnvPath.AddEnvPath | path.ts:28-37 | a bad value fails before any write; otherwise `PATH` is rewritten as the set of the stored list followed by the values, and zero values change nothing |
| EnvPath.DeleteEnvPath | path.ts:48-63 | a bad value fails before any write; otherwise the set without the values is written exactly when a value was removed or the flag was set |
| EnvPath.PathAdded | path.ts:30-36 | the environment after an add: with values, `PATH` is the set of the stored list followed by the values; no other variable changes (its order and idempotence are AddAppendsNewValues and AddIdempotent) |
| EnvPath.DeleteWrites | path.ts:50-59 | a delete writes exactly when there are values and either the misnamed flag is set or some value is stored; a definition, characterised by DeleteKeepsDuplicatesWhenNothingRemoved and DeleteFromUnsetWritesEmpty |
| EnvPath.PathDeleted | path.ts:50-61 | the environment after a delete: when it writes, `PATH` is the set without the values; no other variable changes (the result is DeleteRemovesValues) |
| EnvPath.AddReadsBack | path.ts:30-36 | after an add of non-empty values none of which contains the delimiter, reading `PATH` gives the set of the old list followed by the values |
| EnvPath.AddAppendsNewValues | path.ts:30-36 | after an add of at least one value, none of them empty or containing the delimiter, `getEnvPath` is the old result followed by the added values not yet present, in argument order |
| EnvPath.AddIdempotent | path.ts:28-37 | when no value is empty or contains the delimiter, adding the same values twice leaves the same environment as adding them once |
| EnvPath.DeleteRemovesValues | path.ts:55-61 | once a delete has written, `getEnvPath` is the old result without the values, in the same order, and holds none of them |
| EnvPath.DeleteKeepsDuplicatesWhenNothingRemoved | path.ts:55-61 | with repeated entries and no value present, a delete changes nothing (the flag of line 14 is false) |
| EnvPath.DeleteFromUnsetWritesEmpty | path.ts:48-63 | deleting from an unset `PATH` sets it to the empty string, because an empty list has no repetition |
| EnvPath.ZeroValuesWriteNothing | path.ts:28-63 | calling add or delete with no values changes nothing |
| EnvPathExt.KEY | pathext.ts:11 | the variable the module edits, `PATHEXT` |
| EnvPathExt.SyntaxError | pathext.ts:6 | the `SyntaxError` thrown for a value not starting with `.`, carrying that value |
| EnvPathExt.PathExtList | pathext.ts:13-16 | the `{ hasDuplicated, result }` object of `getEnvPathExtInternal` |
| EnvPathExt.DEFAULT_PATHEXT | pathext.ts:124 | the fallback list `.EXE`, `.CMD`, `.BAT`, `.COM`, in this order |
| EnvPathExt.IsFileExtension | pathext.ts:5 | a value is an extension when it starts with `.`; a definition, characterised by AssertValuesFileExtension |
| EnvPathExt.AssertValuesFileExtension | pathext.ts:3-9 | no error exactly when every value starts with `.`; otherwise the error names the first value that does not |
| EnvPathExt.GetEnvPathExtInternal | pathext.ts:10-17 | the decoded `PATHEXT` without repetitions and with the same members; the flag holds exactly when there is no repetition |
| EnvPathExt.GetEnvPathExt | pathext.ts:116-125 | `null` exactly off Windows; on Windows the distinct stored values, or the default list when none is stored, never empty |
| EnvPathExt.UpperAll | pathext.ts:73-75 | each added value is upper-cased, position by position |
| EnvPathExt.AddEnvPathExt | pathext.ts:69-78 | a bad value fails before the platform check; on Windows with values, the set of the stored list followed by the upper-cased values is written; otherwise nothing changes |
| EnvPathExt.DeleteEnvPathExt | pathext.ts:90-105 | a bad value fails before the platform check; on Windows the set without the values is written exactly when a value was removed or the flag was set |
| EnvPathExt.PathExtAdded | pathext.ts:71-77 | the environment after an add: on Windows with values, `PATHEXT` is the set of the stored list followed by the upper-cased values; no other variable changes |
| EnvPathExt.DeleteWrites | pathext.ts:92-101 | a delete writes exactly on Windows, with values, when the misnamed flag is set or some value is stored; a definition, characterised by DeleteKeepsDuplicatesWhenNothingRemoved |
| EnvPathExt.PathExtDeleted | pathext.ts:92-103 | the environment after a delete: when it writes, `PATHEXT` is the set without the exact values; no other variable changes |
| EnvPathExt.UpperKeepsExtension | pathext.ts:74 | upper-casing keeps a value non-empty, starting with `.` and free of `;` |
| EnvPathExt.AddAppendsUpperCased | pathext.ts:71-77 | after an add on Windows of at least one valid value, none containing `;`, the stored list is the old distinct list followed by the upper-cased values not yet present, in argument order |
| EnvPathExt.DefaultNotPersisted | pathext.ts:120-124 | with `PATHEXT` unset, `get` gives the default list, and after an add on Windows of at least one valid value, none containing `;`, it gives only the added values: the default was never written |
| EnvPathExt.DeleteRemovesExactMatches | pathext.ts:97-103 | once a delete has written, the stored list is the old one without exactly the given values, in order |
| EnvPathExt.DeleteIsCaseSensitive | pathext.ts:98-99 | deleting `.exe` keeps a stored `.EXE` |
| EnvPathExt.DeleteKeepsDuplicatesWhenNothingRemoved | pathext.ts:97-103 | with repeated entries and no value present, a delete changes nothing |
| EnvPathExt.EditsOffWindowsWriteNothing | pathext.ts:71-92 | off Windows, or with no values, valid add and delete calls change nothing |
| Text.Lower | executable.ts:322 | `toLowerCase` maps each character, keeping the length |
| Text.Upper | pathext.ts:74 | `toUpperCase` maps each character, keeping the length |
| Text.StartsWith | pathext.ts:5 | `startsWith`: the text begins with the prefix; a definition |
| Text.EndsWith | executable.ts:325 | `endsWith`: the text ends with the suffix; a definition, used by IsExecutableWindows and Extname |
| Text.LowerSuffix | executable.ts:322-325 | lower-casing commutes with taking a suffix, which makes `endsWith` on lower-cased text a suffix test |
| Text.LowerIdempotent | executable.ts:322-324 | lower-casing twice is lower-casing once |
| Text.LowerUpper | executable.ts:322-324 | lower-casing an upper-cased text is lower-casing the text |
| Executable.FileInfo | executable.ts:280-303 | the fields of `Deno.FileInfo` the tests read: `isFile`, and `mode`, `uid`, `gid`, each possibly `null` |
| Executable.FsError | executable.ts:109-111 | the `Deno.errors` classes the code tells apart (NotFound, NotADirectory, PermissionDenied), and every other file-system error |
| Executable.ExecError | executable.ts:287-302 | what the executability test throws: a `stat` error, or one of the five "unable to get" errors of the POSIX test |
| Executable.Listing | executable.ts:72 | the names `Deno.readDir` yields in order, then the error that ended the iteration, if any |
| Executable.FileSystem | executable.ts:72 | the host's directory listings and `stat` results by path; anything absent is NotFound |
| Executable.Host | executable.ts:61-66 | the running process: platform flag, environment, `Deno.cwd()`, `Deno.gid()`, `Deno.uid()` and the file system |
| Executable.PathOps | executable.ts:68-73 | the path library's `isAbsolute` and `join`, as parameters |
| Executable.NO_OPTIONS | executable.ts:76 | the `{}` the resolution loop passes to the executability test: no `mayNotExist` and no caller ids |
| Executable.IsExecutableOptions | executable.ts:249-267 | `IsExecutablePathOptions`: `mayNotExist`, `gid` and `uid`, each optional |
| Executable.ReadDir | executable.ts:72 | `Deno.readDir(dir)`: the names in listing order, then the error that ended it, if any; an unknown directory is NotFound |
| Executable.Stat | executable.ts:345 | `Deno.stat(path)`: the file's information or the error; an unknown path is NotFound |
| Executable.OrElse | executable.ts:284-285 | `a ?? b`: the caller's id when given, otherwise the process id |
| Executable.MODE_OTHERS | executable.ts:305 | `parseInt('001', 8)`, the others execute bit |
| Executable.MODE_GROUP | executable.ts:304 | `parseInt('010', 8)`, the group execute bit |
| Executable.MODE_USER | executable.ts:306 | `parseInt('100', 8)`, the user execute bit |
| Executable.ModeBits | executable.ts:308-311 | the operand of `&`: the low 32 bits of the mode; a definition, read by the bit lemmas behind PosixRuleByOctalDigits |
| Executable.PosixRule | executable.ts:307-312 | the returned disjunction, written out over the masks; a definition, characterised by PosixRuleByOctalDigits and the Posix* lemmas |
| Executable.IsExecutablePosix | executable.ts:280-313 | a non-file is `false` before any lookup; each missing id or mode raises its own error in source order; caller ids override the process ids; otherwise the result is the rule of lines 307-312 |
| Executable.PosixRuleByOctalDigits | executable.ts:304-312 | the rule, read on the octal digits of the mode: others execute; group execute with the same gid; user execute with the same uid; user or group execute for uid 0 |
| Executable.PosixSuperuser | executable.ts:307-312 | for uid 0 the rule holds exactly when some execute bit (0o111) is set |
| Executable.PosixNoExecuteBit | executable.ts:307-312 | without an execute bit the rule rejects everybody |
| Executable.PosixUserBitOnly | executable.ts:307-312 | with only the user bit, exactly the owner and the superuser pass |
| Executable.PosixGroupBitOnly | executable.ts:307-312 | with only the group bit, exactly the group members and the superuser pass |
| Executable.PosixOthersBit | executable.ts:308 | the others bit lets everybody pass |
| Executable.PosixMoreBits | executable.ts:307-312 | setting more mode bits never takes execution away |
| Executable.ExtensionMatches | executable.ts:324-325 | the callback of `some`: the lower-cased path differs from and ends with the lower-cased extension; a definition, characterised by WindowsLongerPath and WindowsBareExtension |
| Executable.SomeExtensionMatches | executable.ts:323-326 | `some` holds exactly when one extension matches |
| Executable.IsExecutableWindows | executable.ts:318-327 | accepts exactly a regular file whose lower-cased path differs from, and ends with, some lower-cased extension |
| Executable.WindowsIgnoresCase | executable.ts:322-325 | upper- or lower-casing the path does not change the answer |
| Executable.WindowsLongerPath | executable.ts:325 | for a path longer than the extension, matching is just the suffix test |
| Executable.WindowsBareExtension | executable.ts:325 | the path `.exe` is rejected, and `C:\bin\.exe` is accepted |
| Executable.WindowsExamples | executable.ts:318-327 | a mixed-case `GIT.Exe` passes, `git.exe.txt` does not, and a directory never does |
| Executable.IsExecutablePathInternal | executable.ts:342-356 | NotFound gives `false` when `mayNotExist` is set and is raised otherwise; other `stat` errors are raised; a non-file is `false`; Windows uses the given extensions or `getEnvPathExt()`; POSIX uses the POSIX test (the same holds for lines 371-385) |
| Executable.IsExecutablePath | executable.ts:402-404 | a `stat` error is raised exactly when it is not a tolerated NotFound; identity errors come only from a regular file on POSIX (the same holds for lines 421-423) |
| Executable.LastIndexOf | executable.ts:84 | the position of the last occurrence of the character, or -1 when it does not occur |
| Executable.Extname | executable.ts:84 | `extname` is empty, or a suffix of the name that starts with its last `.` and is shorter than the name; it is empty exactly for names with no `.` after the first character, and for `..` |
| Executable.DerivedName | executable.ts:84 | on Windows the name followed by its extension is the basename; elsewhere the name is the basename; a non-empty basename has a non-empty name |
| Executable.Filter | executable.ts:20 | a filter is a string or a RegExp, the latter by its `test` |
| Executable.FilterMatches | executable.ts:88-96 | a string filter matches by equality, a RegExp by `test`, on basename, name or path; a definition, characterised by ExactFilter |
| Executable.SomeFilterMatches | executable.ts:87-97 | `some` holds exactly when one filter matches basename, name or path |
| Executable.Selected | executable.ts:85-97 | no filters, or some filter matches; a definition, characterised by ExactFilter |
| Executable.ExactFilter | executable.ts:215-219 | the filter `[specifier]` selects exactly the entries whose basename, name or path equals the specifier |
| Executable.Cwd | executable.ts:16 | the `cwd` option: `false`, `true` (the process directory) or a directory |
| Executable.GetExecutableOptions | executable.ts:7-21 | the options of `getAllExecutable`: `cwd` and `filters` |
| Executable.ExecutableEntry | executable.ts:22-38 | an entry yielded: `basename`, `name` and `path` |
| Executable.EnvPaths | executable.ts:62-67 | the `PATH` entries with the working directory unshifted when asked; a definition, characterised by SearchOrder |
| Executable.KeepAbsolute | executable.ts:68-70 | the directories kept are exactly the absolute ones |
| Executable.SearchDirs | executable.ts:68-70 | the directories the loop reads: the absolute ones of `envPaths`, in order; a definition, characterised by SearchOrder |
| Executable.KeepAbsoluteAppend | executable.ts:68-70 | the filter keeps the order of the directories |
| Executable.SearchOrder | executable.ts:62-70 | the search runs through the given or process working directory (when absolute) first, then the absolute `PATH` entries in order |
| Executable.DirCandidates | executable.ts:72-73 | one candidate per listed name, in listing order, with the joined path |
| Executable.Skippable | executable.ts:108-112 | NotADirectory, NotFound and PermissionDenied are the directory errors skipped |
| Executable.Fatal | executable.ts:107-116 | a listing ends the loop when it failed with an error that is not skippable |
| Executable.Scan | executable.ts:107-116 | the loop never ends on a skippable directory error |
| Executable.ScanSucceeds | executable.ts:107-116 | the loop ends without an error exactly when no searched directory fails with another error |
| Executable.ScanCandidates | executable.ts:72-73 | every entry met is a name listed in a searched directory, joined with it |
| Executable.ScanStops | executable.ts:115 | after a fatal directory error nothing more is read |
| Executable.ScanPrefix | executable.ts:68-72 | the entries of earlier directories are met first |
| Executable.ScanFailure | executable.ts:107-116 | the error that ends the loop comes from the first directory that fails fatally |
| Executable.ScanComplete | executable.ts:68-73 | every name listed in a searched directory is met, joined with it, unless an earlier directory failed fatally |
| Executable.Yield | executable.ts:74-105 | no path is yielded twice |
| Executable.YieldPrefix | executable.ts:99-104 | what earlier entries yield is yielded first |
| Executable.YieldSound | executable.ts:74-105 | every entry yielded comes from an entry met that passes the test and the filters |
| Executable.YieldComplete | executable.ts:74-105 | every entry met that passes has its path yielded |
| Executable.YieldFirst | executable.ts:74-105 | nothing is yielded exactly when no entry passes; otherwise the first entry yielded is that of the first entry that passes |
| Executable.EntryOf | executable.ts:100-104 | the entry yielded for a candidate: its basename, the derived name and its path |
| Executable.Passes | executable.ts:74-97 | the per-entry condition: the test with `{}` and the extensions read at the start returned `true`, and the filters select the entry; a definition, used by YieldSound, YieldComplete and ResolveEntries |
| Executable.Resolution | executable.ts:55-120 | what a run of the resolution loop produces: the yielded entries in order, and the directory error that ended it, if any |
| Executable.Resolve | executable.ts:55-118 | the specification of `getAllExecutable`: what the candidates met in search order yield, and the error that ended the search; no path twice, and never a skippable error |
| Executable.YieldListing | executable.ts:72-106 | the inner loop over one listing extends the yielded entries as the specification does, and keeps `yielded` equal to the yielded paths |
| Executable.GetAllExecutable | executable.ts:55-118 | the entries yielded, in order, and the error raised are those of the resolution specification (the same holds for lines 135-198) |
| Executable.Lookup | executable.ts:215-223 | the specification of `getExecutable`: the first entry of the resolution with `[specifier]`, else its error, else `undefined`; the error is never a skippable one |
| Executable.GetExecutable | executable.ts:215-223 | the first entry of the resolution with the filter `[specifier]`; otherwise the error that ended it, or `undefined` (the same holds for lines 240-248) |
| Executable.ResolveEntries | executable.ts:68-105 | every entry comes from a listed name in a searched directory, passes the test with `{}` and the filters, and its name is the derived name |
| Executable.ResolveComplete | executable.ts:68-105 | conversely, every name listed in a searched directory that passes the test and the filters has its path yielded, unless an earlier directory failed fatally |
| Executable.SkippableErrorsContinue | executable.ts:107-116 | when every failing directory fails with NotADirectory, NotFound or PermissionDenied, the resolution raises nothing |
| Executable.UnknownGidYieldsNothing | executable.ts:74-83 | on POSIX with an unknown process gid, the test of every regular file raises and is swallowed, and every other entry is `false`: nothing is yielded, and only directory errors are raised |
| Executable.LookupFound | executable.ts:215-222 | a found entry matches the specifier by basename, name or path, and is the entry of the first entry met that passes |
| Executable.LookupNotFound | executable.ts:215-223 | `undefined` exactly when no directory fails fatally and no entry met passes with the filter `[specifier]` |
| Executable.LookupFailure | executable.ts:215-223 | an error is raised only when a fatal directory error ended the search and no entry before it passed |

## Left out

- File-system and process I/O: `Deno.readDir`, `Deno.stat`, `Deno.cwd`, `Deno.gid`, `Deno.uid` and `Deno.env` become values of `Executable.Host`. An error thrown by `Deno.cwd()`, `Deno.gid()` or `Deno.uid()` (for example without the `sys` permission), or by reading or writing the environment, is not modelled. In the source a throwing `Deno.gid()` or `Deno.uid()` is swallowed per entry by the resolution loop (executable.ts:81-83) and raised by `isExecutablePath`; the model has no such error, only the `null` ids.
- Async versus sync scheduling: one deterministic order is modelled. Concurrent changes to the environment or the file system during a call are not modelled.
- Laziness of the generators: `Executable.GetExecutable` takes the first entry of the whole resolution. Its result is the same because a generator's later steps cannot change its first element. The release of the directory handle when the `for await` returns early is not modelled.
- `isAbsolute` and `join` of the path library are parameters about which nothing is assumed, so properties that depend on their behaviour, such as `join` being injective, are not stated.
- Executable.Extname: models `extname` for names without path separators, which is what `Deno.readDir` yields. The path library's handling of separators and drive-letter prefixes is not modelled.
- `RegExp.prototype.test` is a pure predicate. The `lastIndex` state of a RegExp with the global or sticky flag, which makes repeated `test` calls differ, is not modelled.
- Text.Lower: maps ASCII letters only. Unicode case mapping, including mappings that change the length such as `ß` to `SS`, is not modelled.
- Text.Upper: maps ASCII letters only, so an extension such as `.ÿ`, which `toUpperCase` turns into `.Ÿ`, is stored unchanged by the model. Unicode case mapping, including mappings that change the length such as `ß` to `SS`, is not modelled.
- Environment keys are the names as the host resolves them and are compared exactly. On Windows the host looks variables up without regard to case (the variable is usually spelled `Path`), and that case-insensitive lookup is not modelled: the model reads `Path` and `PATH` as two variables, also in the contracts saying that no other variable changes.
- Executable.ModeBits: a mode is an integer, and `&` uses its low 32 bits. Fractional or non-finite modes are not modelled.
- `env.ts` (thin wrappers over `Deno.env`), `mod.ts` (re-exports), `_info.ts` (the platform flag, modelled as `Host.isWindows` and the `isWindows` parameters), and the tests and the benchmark, which depend on the host machine and its timing.
- The error messages of the thrown errors: only their kind and the offending value are modelled.
