/** executable.ts: deciding whether a path is executable on the current platform and
    resolving executables along the working directory and `PATH`.

    The process is a `Host` value: the platform flag, the environment, the working
    directory, `Deno.gid()`/`Deno.uid()` and a file system given as two maps (directory
    listings and `stat` results). `isAbsolute` and `join` of the path library and the
    `test` of a RegExp filter are function values. The asynchronous and the synchronous
    variants of each operation run the same statements, so each pair is modelled once. */
module Executable {
  import opened Wrappers
  import opened Text
  import opened OrderedSets
  import opened Delimitation
  import EnvPath
  import EnvPathExt

  /* ---------------------------------------------------------------- host ---- */

  /** The fields of `Deno.FileInfo` that the predicates read; `null` is `None`. */
  datatype FileInfo = FileInfo(isFile: bool, mode: Option<int>, uid: Option<int>, gid: Option<int>)

  /** The `Deno.errors` classes the code tells apart, and every other file-system error. */
  datatype FsError = NotFound | NotADirectory | PermissionDenied | OtherFsError(name: string)

  /** What the executability test can throw: an error of `stat`, or one of the plain
      `Error`s of the POSIX predicate. */
  datatype ExecError =
    | FsFailure(fsError: FsError)
    | UnknownProcessGid
    | UnknownProcessUid
    | UnknownFileGid
    | UnknownFileMode
    | UnknownFileUid

  /** Iterating `readDir(dir)`: the names in listing order, then the error that ended the
      iteration, if any. A directory that cannot be opened has no names and an error. */
  datatype Listing = Listing(names: seq<string>, failure: Option<FsError>)

  /** Directory listings and `stat` results by path; anything absent is `NotFound`. */
  datatype FileSystem = FileSystem(dirs: map<string, Listing>, stats: map<string, Result<FileInfo, FsError>>)

  function ReadDir(fs: FileSystem, dir: string): Listing {
    if dir in fs.dirs then fs.dirs[dir] else Listing([], Some(NotFound))
  }

  function Stat(fs: FileSystem, path: string): Result<FileInfo, FsError> {
    if path in fs.stats then fs.stats[path] else Failure(NotFound)
  }

  /** The running process: `isOSWindows`, the environment, `Deno.cwd()`, `Deno.gid()`,
      `Deno.uid()` (either may be `null`) and the file system. */
  datatype Host = Host(isWindows: bool, env: Env, cwd: string, gid: Option<int>, uid: Option<int>, fs: FileSystem)

  /** `isAbsolute` and `join` of the path library. */
  datatype PathOps = PathOps(isAbsolute: string -> bool, join: (string, string) -> string)

  /** `IsExecutablePathOptions`; an absent option is `false` or `None`. */
  datatype IsExecutableOptions = IsExecutableOptions(mayNotExist: bool, gid: Option<int>, uid: Option<int>)

  /** The `{}` the resolution loop passes. */
  const NO_OPTIONS: IsExecutableOptions := IsExecutableOptions(false, None, None)

  /** `a ?? b`. */
  function OrElse(a: Option<int>, b: Option<int>): Option<int> {
    if a.Some? then a else b
  }

  /* ------------------------------------------------------ POSIX predicate ---- */

  /** `parseInt('001', 8)`, `parseInt('010', 8)` and `parseInt('100', 8)`. */
  const MODE_OTHERS: bv32 := 0x1
  const MODE_GROUP: bv32 := 0x8
  const MODE_USER: bv32 := 0x40

  /** The operand of `&`: JavaScript takes the low 32 bits of an integral number. */
  function ModeBits(mode: int): bv32 {
    (mode % 0x1_0000_0000) as bv32
  }

  /** The returned disjunction of `isExecutablePathInternalPOSIX`. */
  predicate PosixRule(mode: int, ownGid: int, ownUid: int, fileGid: int, fileUid: int) {
    var m := ModeBits(mode);
    m & MODE_OTHERS != 0
    || (m & MODE_GROUP != 0 && ownGid == fileGid)
    || (m & MODE_USER != 0 && fileUid == ownUid)
    || (m & (MODE_USER | MODE_GROUP) != 0 && ownUid == 0)
  }

  /** `isExecutablePathInternalPOSIX(stat, options)`, with `Deno.gid()` and `Deno.uid()`
      given. A non-file is `false` before anything else is looked at; the caller's ids
      replace the process ids; each missing id or mode raises its own error, in the order
      process gid, process uid, file gid, file mode, file uid. */
  function IsExecutablePosix(stat: FileInfo, options: IsExecutableOptions, processGid: Option<int>, processUid: Option<int>)
    : (r: Result<bool, ExecError>)
    ensures !stat.isFile ==> r == Success(false)
    ensures r == Failure(UnknownProcessGid) <==> stat.isFile && OrElse(options.gid, processGid).None?
    ensures r == Failure(UnknownProcessUid) <==>
              stat.isFile && OrElse(options.gid, processGid).Some? && OrElse(options.uid, processUid).None?
    ensures r == Failure(UnknownFileGid) <==>
              stat.isFile && OrElse(options.gid, processGid).Some? && OrElse(options.uid, processUid).Some?
              && stat.gid.None?
    ensures r == Failure(UnknownFileMode) <==>
              stat.isFile && OrElse(options.gid, processGid).Some? && OrElse(options.uid, processUid).Some?
              && stat.gid.Some? && stat.mode.None?
    ensures r == Failure(UnknownFileUid) <==>
              stat.isFile && OrElse(options.gid, processGid).Some? && OrElse(options.uid, processUid).Some?
              && stat.gid.Some? && stat.mode.Some? && stat.uid.None?
    ensures r.Failure? ==> !r.error.FsFailure?
    ensures stat.isFile && r.Success? ==>
              r.value == PosixRule(stat.mode.value, OrElse(options.gid, processGid).value,
                                   OrElse(options.uid, processUid).value, stat.gid.value, stat.uid.value)
  {
    if !stat.isFile then Success(false)
    else
      var ownGid := OrElse(options.gid, processGid);
      var ownUid := OrElse(options.uid, processUid);
      if ownGid.None? then Failure(UnknownProcessGid)
      else if ownUid.None? then Failure(UnknownProcessUid)
      else if stat.gid.None? then Failure(UnknownFileGid)
      else if stat.mode.None? then Failure(UnknownFileMode)
      else if stat.uid.None? then Failure(UnknownFileUid)
      else Success(PosixRule(stat.mode.value, ownGid.value, ownUid.value, stat.gid.value, stat.uid.value))
  }

  /** Whether octal digit `k` (0 for others, 1 for group, 2 for user) of the mode has its
      execute bit: an arithmetic reading of the permission triplets. */
  predicate OctalExecute(mode: int, k: nat)
    requires k <= 2
  {
    var digit := (mode % 0x1_0000_0000) / (if k == 0 then 1 else if k == 1 then 8 else 64) % 8;
    digit % 2 == 1
  }

  lemma OddDigit(y: int)
    requires 0 <= y
    ensures y % 8 % 2 == y % 2
  {
  }

  lemma OthersBit(n: int)
    requires 0 <= n < 0x1_0000_0000
    ensures (n as bv32) & MODE_OTHERS != 0 <==> n % 2 == 1
  {
  }

  lemma GroupBit(n: int)
    requires 0 <= n < 0x1_0000_0000
    ensures (n as bv32) & MODE_GROUP != 0 <==> n / 8 % 2 == 1
  {
  }

  lemma UserBit(n: int)
    requires 0 <= n < 0x1_0000_0000
    ensures (n as bv32) & MODE_USER != 0 <==> n / 64 % 2 == 1
  {
  }

  /** The POSIX rule read on octal digits: execute for others; execute for the group when
      the group matches; execute for the user when the owner matches; execute for user or
      group when the caller is uid 0. This is wider than the kernel's rule, which looks
      only at the class the caller falls in. */
  lemma PosixRuleByOctalDigits(mode: int, ownGid: int, ownUid: int, fileGid: int, fileUid: int)
    ensures PosixRule(mode, ownGid, ownUid, fileGid, fileUid) <==>
              OctalExecute(mode, 0)
              || (OctalExecute(mode, 1) && ownGid == fileGid)
              || (OctalExecute(mode, 2) && fileUid == ownUid)
              || ((OctalExecute(mode, 1) || OctalExecute(mode, 2)) && ownUid == 0)
  {
    var n := mode % 0x1_0000_0000;
    OthersBit(n);
    GroupBit(n);
    UserBit(n);
    OddDigit(n);
    OddDigit(n / 8);
    OddDigit(n / 64);
    assert ModeBits(mode) == n as bv32;
  }

  /** The superuser may execute exactly when some execute bit is set. */
  lemma PosixSuperuser(mode: int, ownGid: int, fileGid: int, fileUid: int)
    ensures PosixRule(mode, ownGid, 0, fileGid, fileUid) <==> ModeBits(mode) & (MODE_USER | MODE_GROUP | MODE_OTHERS) != 0
  {
  }

  /** Without any execute bit nobody may execute. */
  lemma PosixNoExecuteBit(mode: int, ownGid: int, ownUid: int, fileGid: int, fileUid: int)
    requires ModeBits(mode) & (MODE_USER | MODE_GROUP | MODE_OTHERS) == 0
    ensures !PosixRule(mode, ownGid, ownUid, fileGid, fileUid)
  {
  }

  /** With only the user execute bit, the owner and the superuser may execute. */
  lemma PosixUserBitOnly(mode: int, ownGid: int, ownUid: int, fileGid: int, fileUid: int)
    requires ModeBits(mode) & (MODE_USER | MODE_GROUP | MODE_OTHERS) == MODE_USER
    ensures PosixRule(mode, ownGid, ownUid, fileGid, fileUid) <==> fileUid == ownUid || ownUid == 0
  {
  }

  /** With only the group execute bit, members of the file's group and the superuser may
      execute, the owner included when it is in the group. */
  lemma PosixGroupBitOnly(mode: int, ownGid: int, ownUid: int, fileGid: int, fileUid: int)
    requires ModeBits(mode) & (MODE_USER | MODE_GROUP | MODE_OTHERS) == MODE_GROUP
    ensures PosixRule(mode, ownGid, ownUid, fileGid, fileUid) <==> ownGid == fileGid || ownUid == 0
  {
  }

  /** The others execute bit lets everybody execute, the owner included. */
  lemma PosixOthersBit(mode: int, ownGid: int, ownUid: int, fileGid: int, fileUid: int)
    requires ModeBits(mode) & MODE_OTHERS != 0
    ensures PosixRule(mode, ownGid, ownUid, fileGid, fileUid)
  {
  }

  /** Setting more mode bits never takes execution away. */
  lemma PosixMoreBits(mode: int, more: int, ownGid: int, ownUid: int, fileGid: int, fileUid: int)
    requires ModeBits(mode) & ModeBits(more) == ModeBits(mode)
    requires PosixRule(mode, ownGid, ownUid, fileGid, fileUid)
    ensures PosixRule(more, ownGid, ownUid, fileGid, fileUid)
  {
  }

  /* ---------------------------------------------------- Windows predicate ---- */

  /** The callback of `pathExts.some(...)`, on the lower-cased path. */
  predicate ExtensionMatches(pathLower: string, pathExt: string) {
    pathLower != Lower(pathExt) && EndsWith(pathLower, Lower(pathExt))
  }

  function SomeExtensionMatches(pathLower: string, pathExts: seq<string>): (r: bool)
    ensures r <==> exists i :: 0 <= i < |pathExts| && ExtensionMatches(pathLower, pathExts[i])
  {
    if |pathExts| == 0 then false
    else ExtensionMatches(pathLower, pathExts[0]) || SomeExtensionMatches(pathLower, pathExts[1..])
  }

  /** `isExecutablePathInternalWindows(path, stat, pathExts)`: a regular file whose whole
      path, lower-cased, ends with a lower-cased extension of the list and is not equal to
      it. */
  function IsExecutableWindows(path: string, stat: FileInfo, pathExts: seq<string>): (r: bool)
    ensures r <==> stat.isFile &&
                   exists i :: 0 <= i < |pathExts| && Lower(path) != Lower(pathExts[i]) && EndsWith(Lower(path), Lower(pathExts[i]))
  {
    stat.isFile && SomeExtensionMatches(Lower(path), pathExts)
  }

  /** The test ignores the ASCII case of the path. */
  lemma WindowsIgnoresCase(path: string, stat: FileInfo, pathExts: seq<string>)
    ensures IsExecutableWindows(Upper(path), stat, pathExts) == IsExecutableWindows(path, stat, pathExts)
    ensures IsExecutableWindows(Lower(path), stat, pathExts) == IsExecutableWindows(path, stat, pathExts)
  {
    LowerUpper(path);
    LowerIdempotent(path);
  }

  /** A path longer than an extension matches it exactly when it ends with it: the
      inequality only rejects a path that is nothing but the extension. */
  lemma WindowsLongerPath(path: string, pathExt: string)
    requires |path| > |pathExt|
    ensures ExtensionMatches(Lower(path), pathExt) <==> EndsWith(Lower(path), Lower(pathExt))
  {
  }

  /** The inequality compares the whole path: a path that is just `.exe` is rejected,
      while a file named `.exe` inside a directory is accepted. */
  lemma WindowsBareExtension()
    ensures !IsExecutableWindows(".exe", FileInfo(true, None, None, None), [".EXE"])
    ensures IsExecutableWindows("C:\\bin\\.exe", FileInfo(true, None, None, None), [".EXE"])
  {
    assert Lower(".EXE") == ".exe";
    assert Lower(".exe") == ".exe";
    var p := "C:\\bin\\.exe";
    assert Lower(p) == "c:\\bin\\.exe";
    assert EndsWith(Lower(p), Lower(".EXE"));
  }

  /** Case does not matter, and the extension must end the path. */
  lemma WindowsExamples()
    ensures IsExecutableWindows("C:\\Git\\GIT.Exe", FileInfo(true, None, None, None), [".COM", ".EXE"])
    ensures !IsExecutableWindows("C:\\Git\\git.exe.txt", FileInfo(true, None, None, None), [".EXE"])
    ensures !IsExecutableWindows("C:\\Git\\git.exe", FileInfo(false, None, None, None), [".EXE"])
  {
    assert Lower(".EXE") == ".exe";
    var q := "C:\\Git\\GIT.Exe";
    assert Lower(q) == "c:\\git\\git.exe";
    assert ExtensionMatches(Lower(q), [".COM", ".EXE"][1]);
    var t := "C:\\Git\\git.exe.txt";
    assert Lower(t)[|t| - 4..] == ".txt";
  }

  /* ------------------------------------------------------ NotFound wrapper ---- */

  /** `isExecutablePathInternal(Sync)(path, options, pathExts)`: `stat` the path, then run
      the predicate of the platform (on Windows with the given extensions, or else those of
      `getEnvPathExt()`). A `NotFound` while `mayNotExist` is set becomes `false`; every
      other error, the POSIX predicate's included, propagates. */
  function IsExecutablePathInternal(host: Host, path: string, options: IsExecutableOptions, pathExts: Option<seq<string>>)
    : (r: Result<bool, ExecError>)
    ensures Stat(host.fs, path) == Failure(NotFound) ==>
              r == if options.mayNotExist then Success(false) else Failure(FsFailure(NotFound))
    ensures Stat(host.fs, path).Failure? && Stat(host.fs, path).error != NotFound ==>
              r == Failure(FsFailure(Stat(host.fs, path).error))
    ensures Stat(host.fs, path).Success? && !Stat(host.fs, path).value.isFile ==> r == Success(false)
    ensures Stat(host.fs, path).Success? && host.isWindows ==>
              r == Success(IsExecutableWindows(path, Stat(host.fs, path).value,
                             if pathExts.Some? then pathExts.value else EnvPathExt.GetEnvPathExt(host.env, true).value))
    ensures Stat(host.fs, path).Success? && !host.isWindows ==>
              r == IsExecutablePosix(Stat(host.fs, path).value, options, host.gid, host.uid)
  {
    match Stat(host.fs, path)
    case Failure(e) =>
      if e == NotFound && options.mayNotExist then Success(false) else Failure(FsFailure(e))
    case Success(stat) =>
      if host.isWindows then
        var exts := if pathExts.Some? then pathExts.value else EnvPathExt.GetEnvPathExt(host.env, host.isWindows).value;
        Success(IsExecutableWindows(path, stat, exts))
      else IsExecutablePosix(stat, options, host.gid, host.uid)
  }

  /** `isExecutablePath(Sync)(path, options)`. An error is either the error of `stat`
      (other than a tolerated `NotFound`) or, on POSIX only and for a regular file, a
      missing id or mode. */
  function IsExecutablePath(host: Host, path: string, options: IsExecutableOptions): (r: Result<bool, ExecError>)
    ensures r.Failure? && r.error.FsFailure? ==>
              Stat(host.fs, path) == Failure(r.error.fsError) && !(r.error.fsError == NotFound && options.mayNotExist)
    ensures r.Failure? && !r.error.FsFailure? ==>
              !host.isWindows && Stat(host.fs, path).Success? && Stat(host.fs, path).value.isFile
    ensures Stat(host.fs, path).Failure? && !(Stat(host.fs, path).error == NotFound && options.mayNotExist) ==> r.Failure?
  {
    IsExecutablePathInternal(host, path, options, None)
  }

  /* ------------------------------------------------------------- names ---- */

  /** Index of the last `c` in `s`, or -1. */
  function LastIndexOf(s: string, c: char): (r: int)
    ensures -1 <= r < |s|
    ensures r == -1 <==> c !in s
    ensures 0 <= r ==> s[r] == c && c !in s[r + 1..]
  {
    if |s| == 0 then -1
    else if s[|s| - 1] == c then |s| - 1
    else
      var init := s[..|s| - 1];
      var r := LastIndexOf(init, c);
      assert s == init + [s[|s| - 1]];
      assert c in s <==> c in init;
      assert 0 <= r ==> s[r] == init[r] && s[r + 1..] == init[r + 1..] + [s[|s| - 1]];
      r
  }

  /** `extname` of the path library on a directory-entry name, which holds no separator:
      the text from the last `.` on, or "" when there is no `.`, when the only one is the
      first character, and for `..`. */
  function Extname(basename: string): (ext: string)
    ensures ext == "" || (ext[0] == '.' && EndsWith(basename, ext) && '.' !in ext[1..] && |ext| < |basename|)
    ensures ext == "" <==> |basename| == 0 || '.' !in basename[1..] || basename == ".."
  {
    var dot := LastIndexOf(basename, '.');
    if dot <= 0 || basename == ".." then ""
    else
      assert basename[1..][dot - 1] == '.';
      basename[dot..]
  }

  /** The `name` of an entry: on Windows the basename without its extension, elsewhere
      the basename itself. */
  function DerivedName(basename: string, isWindows: bool): (name: string)
    ensures isWindows ==> name + Extname(basename) == basename
    ensures !isWindows ==> name == basename
    ensures |basename| > 0 ==> |name| > 0
  {
    if isWindows then basename[..|basename| - |Extname(basename)|] else basename
  }

  /* ----------------------------------------------------------- filters ---- */

  /** A filter of `GetExecutableOptions`: a string matches by equality, a RegExp by its
      `test`. */
  datatype Filter = Exact(text: string) | Pattern(test: string -> bool)

  predicate FilterMatches(filter: Filter, basename: string, name: string, path: string) {
    match filter
    case Exact(text) => text == basename || text == name || text == path
    case Pattern(test) => test(basename) || test(name) || test(path)
  }

  function SomeFilterMatches(filters: seq<Filter>, basename: string, name: string, path: string): (r: bool)
    ensures r <==> exists i :: 0 <= i < |filters| && FilterMatches(filters[i], basename, name, path)
  {
    if |filters| == 0 then false
    else FilterMatches(filters[0], basename, name, path) || SomeFilterMatches(filters[1..], basename, name, path)
  }

  /** The filter condition of the loop: no filters, or some filter matches. */
  predicate Selected(filters: seq<Filter>, basename: string, name: string, path: string) {
    |filters| == 0 || (|filters| > 0 && SomeFilterMatches(filters, basename, name, path))
  }

  /** A single string filter, as `getExecutable` passes, selects an entry exactly when it
      equals the basename, the name or the path. */
  lemma ExactFilter(specifier: string, basename: string, name: string, path: string)
    ensures Selected([Exact(specifier)], basename, name, path) <==> specifier == basename || specifier == name || specifier == path
  {
    assert [Exact(specifier)][0] == Exact(specifier);
  }

  /* -------------------------------------------------------- resolution ---- */

  /** `cwd` of `GetExecutableOptions`: `false`, `true` or a string. */
  datatype Cwd = NoCwd | ProcessCwd | DirCwd(dir: string)

  datatype GetExecutableOptions = GetExecutableOptions(cwd: Cwd, filters: seq<Filter>)

  datatype ExecutableEntry = ExecutableEntry(basename: string, name: string, path: string)

  /** `envPaths` after the optional `unshift` of the working directory. */
  function EnvPaths(host: Host, cwd: Cwd): seq<string> {
    var envPaths := EnvPath.GetEnvPath(host.env, host.isWindows);
    match cwd
    case NoCwd => envPaths
    case ProcessCwd => [host.cwd] + envPaths
    case DirCwd(dir) => [dir] + envPaths
  }

  /** `dirs.filter(isAbsolute)`. */
  function KeepAbsolute(dirs: seq<string>, isAbsolute: string -> bool): (r: seq<string>)
    ensures forall d :: d in r <==> d in dirs && isAbsolute(d)
    ensures |r| <= |dirs|
  {
    if |dirs| == 0 then []
    else
      var r := KeepAbsolute(dirs[..|dirs| - 1], isAbsolute);
      assert dirs == dirs[..|dirs| - 1] + [dirs[|dirs| - 1]];
      if isAbsolute(dirs[|dirs| - 1]) then r + [dirs[|dirs| - 1]] else r
  }

  /** The directories the loop reads, in order. */
  function SearchDirs(host: Host, ops: PathOps, cwd: Cwd): seq<string> {
    KeepAbsolute(EnvPaths(host, cwd), ops.isAbsolute)
  }

  /** Filtering distributes over concatenation, so it keeps the order of the entries. */
  lemma {:induction false} KeepAbsoluteAppend(a: seq<string>, b: seq<string>, isAbsolute: string -> bool)
    ensures KeepAbsolute(a + b, isAbsolute) == KeepAbsolute(a, isAbsolute) + KeepAbsolute(b, isAbsolute)
    decreases |b|
  {
    if |b| == 0 {
      assert a + b == a;
    } else {
      var b' := b[..|b| - 1];
      assert (a + b)[..|a + b| - 1] == a + b';
      KeepAbsoluteAppend(a, b', isAbsolute);
    }
  }

  /** Search order: the working directory asked for comes first when it is absolute, then
      the absolute `PATH` entries in the order of `getEnvPath`. */
  lemma SearchOrder(host: Host, ops: PathOps, cwd: Cwd)
    ensures cwd.NoCwd? ==> SearchDirs(host, ops, cwd) == KeepAbsolute(EnvPath.GetEnvPath(host.env, host.isWindows), ops.isAbsolute)
    ensures cwd.ProcessCwd? ==>
              SearchDirs(host, ops, cwd) == (if ops.isAbsolute(host.cwd) then [host.cwd] else [])
                                            + KeepAbsolute(EnvPath.GetEnvPath(host.env, host.isWindows), ops.isAbsolute)
    ensures cwd.DirCwd? ==>
              SearchDirs(host, ops, cwd) == (if ops.isAbsolute(cwd.dir) then [cwd.dir] else [])
                                            + KeepAbsolute(EnvPath.GetEnvPath(host.env, host.isWindows), ops.isAbsolute)
  {
    var envPaths := EnvPath.GetEnvPath(host.env, host.isWindows);
    match cwd
    case NoCwd =>
    case ProcessCwd =>
      KeepAbsoluteFirst(host.cwd, envPaths, ops.isAbsolute);
    case DirCwd(dir) =>
      KeepAbsoluteFirst(dir, envPaths, ops.isAbsolute);
  }

  lemma KeepAbsoluteFirst(dir: string, rest: seq<string>, isAbsolute: string -> bool)
    ensures KeepAbsolute([dir] + rest, isAbsolute) == (if isAbsolute(dir) then [dir] else []) + KeepAbsolute(rest, isAbsolute)
  {
    KeepAbsoluteAppend([dir], rest, isAbsolute);
    assert [dir][..0] == [];
  }

  /** One directory entry met by the loop: the directory, `basename` and `join(dir, basename)`. */
  datatype Candidate = Candidate(dir: string, basename: string, path: string)

  function DirCandidates(dir: string, names: seq<string>, join: (string, string) -> string): (r: seq<Candidate>)
    ensures |r| == |names|
    ensures forall k :: 0 <= k < |names| ==> r[k] == Candidate(dir, names[k], join(dir, names[k]))
  {
    seq(|names|, k requires 0 <= k < |names| => Candidate(dir, names[k], join(dir, names[k])))
  }

  /** The directory errors after which the loop goes on with the next directory. */
  predicate Skippable(e: FsError) {
    e == NotADirectory || e == NotFound || e == PermissionDenied
  }

  predicate Fatal(listing: Listing) {
    listing.failure.Some? && !Skippable(listing.failure.value)
  }

  /** The entries met in `dirs`, in order, and the error that ended the loop. */
  datatype Scanned = Scanned(candidates: seq<Candidate>, failure: Option<FsError>)

  /** Reading the directories in order; the first error that is not skippable ends the
      loop, after the entries listed before it. */
  function Scan(fs: FileSystem, join: (string, string) -> string, dirs: seq<string>): (r: Scanned)
    ensures r.failure.Some? ==> !Skippable(r.failure.value)
  {
    if |dirs| == 0 then Scanned([], None)
    else
      var before := Scan(fs, join, dirs[..|dirs| - 1]);
      var dir := dirs[|dirs| - 1];
      if before.failure.Some? then before
      else
        var listing := ReadDir(fs, dir);
        var candidates := before.candidates + DirCandidates(dir, listing.names, join);
        if Fatal(listing) then Scanned(candidates, listing.failure) else Scanned(candidates, None)
  }

  /** The loop ends without an error exactly when no directory error is fatal. */
  lemma {:induction false} ScanSucceeds(fs: FileSystem, join: (string, string) -> string, dirs: seq<string>)
    ensures Scan(fs, join, dirs).failure.None? <==> forall k :: 0 <= k < |dirs| ==> !Fatal(ReadDir(fs, dirs[k]))
  {
    if |dirs| > 0 {
      var n := |dirs| - 1;
      ScanSucceeds(fs, join, dirs[..n]);
      assert forall k :: 0 <= k < n ==> dirs[..n][k] == dirs[k];
    }
  }

  /** Every entry met is a name listed in one of the directories, joined with it. */
  lemma {:induction false} ScanCandidates(fs: FileSystem, join: (string, string) -> string, dirs: seq<string>, c: Candidate)
    requires c in Scan(fs, join, dirs).candidates
    ensures c.dir in dirs && c.basename in ReadDir(fs, c.dir).names && c.path == join(c.dir, c.basename)
  {
    var n := |dirs| - 1;
    var before := Scan(fs, join, dirs[..n]);
    assert dirs == dirs[..n] + [dirs[n]];
    if c in before.candidates {
      ScanCandidates(fs, join, dirs[..n], c);
    } else {
      var names := ReadDir(fs, dirs[n]).names;
      var k :| 0 <= k < |names| && DirCandidates(dirs[n], names, join)[k] == c;
    }
  }

  /** The loop over one more directory. */
  lemma ScanNext(fs: FileSystem, join: (string, string) -> string, dirs: seq<string>, i: nat, candidates: seq<Candidate>)
    requires i < |dirs|
    requires Scan(fs, join, dirs[..i]) == Scanned(candidates, None)
    ensures Scan(fs, join, dirs[..i + 1]) ==
              Scanned(candidates + DirCandidates(dirs[i], ReadDir(fs, dirs[i]).names, join),
                      if Fatal(ReadDir(fs, dirs[i])) then ReadDir(fs, dirs[i]).failure else None)
  {
    assert dirs[..i + 1][..i] == dirs[..i];
  }

  /** Nothing is read after a fatal directory error. */
  lemma {:induction false} ScanStops(fs: FileSystem, join: (string, string) -> string, dirs: seq<string>, k: nat)
    requires k <= |dirs|
    requires Scan(fs, join, dirs[..k]).failure.Some?
    ensures Scan(fs, join, dirs) == Scan(fs, join, dirs[..k])
    decreases |dirs| - k
  {
    if k < |dirs| {
      var n := |dirs| - 1;
      assert dirs[..n][..k] == dirs[..k];
      ScanStops(fs, join, dirs[..n], k);
    } else {
      assert dirs[..k] == dirs;
    }
  }

  /** The entries of earlier directories come first: scanning a prefix of the directories
      without a fatal error meets a prefix of the entries. */
  lemma {:induction false} ScanPrefix(fs: FileSystem, join: (string, string) -> string, dirs: seq<string>, k: nat)
    requires k <= |dirs|
    requires Scan(fs, join, dirs[..k]).failure.None?
    ensures Scan(fs, join, dirs[..k]).candidates <= Scan(fs, join, dirs).candidates
    decreases |dirs| - k
  {
    if k == |dirs| {
      assert dirs[..k] == dirs;
    } else {
      var n := |dirs| - 1;
      assert dirs[..n][..k] == dirs[..k];
      ScanPrefix(fs, join, dirs[..n], k);
    }
  }

  /** The error that ends the loop is that of the first directory whose error is fatal. */
  lemma {:induction false} ScanFailure(fs: FileSystem, join: (string, string) -> string, dirs: seq<string>)
    requires Scan(fs, join, dirs).failure.Some?
    ensures exists k :: 0 <= k < |dirs| && Fatal(ReadDir(fs, dirs[k]))
                        && ReadDir(fs, dirs[k]).failure == Scan(fs, join, dirs).failure
                        && forall m :: 0 <= m < k ==> !Fatal(ReadDir(fs, dirs[m]))
  {
    var n := |dirs| - 1;
    var before := Scan(fs, join, dirs[..n]);
    if before.failure.Some? {
      ScanFailure(fs, join, dirs[..n]);
      var k :| 0 <= k < n && Fatal(ReadDir(fs, dirs[..n][k])) && ReadDir(fs, dirs[..n][k]).failure == before.failure
               && forall m :: 0 <= m < k ==> !Fatal(ReadDir(fs, dirs[..n][m]));
      assert dirs[..n][k] == dirs[k];
      assert forall m :: 0 <= m < k ==> dirs[..n][m] == dirs[m];
    } else {
      ScanSucceeds(fs, join, dirs[..n]);
      assert forall m :: 0 <= m < n ==> dirs[..n][m] == dirs[m];
    }
  }

  function Paths(entries: seq<ExecutableEntry>): (r: seq<string>)
    ensures |r| == |entries|
    ensures forall k :: 0 <= k < |entries| ==> r[k] == entries[k].path
  {
    seq(|entries|, k requires 0 <= k < |entries| => entries[k].path)
  }

  lemma PathsAppend(entries: seq<ExecutableEntry>, e: ExecutableEntry)
    ensures Paths(entries + [e]) == Paths(entries) + [e.path]
  {
  }

  function EntryOf(c: Candidate, isWindows: bool): ExecutableEntry {
    ExecutableEntry(c.basename, DerivedName(c.basename, isWindows), c.path)
  }

  /** Whether the loop yields a candidate it has not yielded before: the test with `{}`
      and the extensions read at the start returned `true` (a thrown error skips the
      entry), and the filters select it. */
  predicate Passes(host: Host, filters: seq<Filter>, c: Candidate) {
    IsExecutablePathInternal(host, c.path, NO_OPTIONS, EnvPathExt.GetEnvPathExt(host.env, host.isWindows)) == Success(true)
    && Selected(filters, c.basename, DerivedName(c.basename, host.isWindows), c.path)
  }

  /** `Passes` for one host and filter list: the test `Yield` applies. */
  function Accepts(host: Host, filters: seq<Filter>): Candidate -> bool {
    c => Passes(host, filters, c)
  }

  /** What the loop yields for the candidates in order: each one that passes and whose
      path is not in `yielded` yet. */
  function Yield(passes: Candidate -> bool, isWindows: bool, candidates: seq<Candidate>): (r: seq<ExecutableEntry>)
    ensures Distinct(Paths(r))
  {
    if |candidates| == 0 then []
    else
      var before := Yield(passes, isWindows, candidates[..|candidates| - 1]);
      var c := candidates[|candidates| - 1];
      if passes(c) && c.path !in Paths(before) then
        var r := before + [EntryOf(c, isWindows)];
        PathsAppend(before, EntryOf(c, isWindows));
        r
      else before
  }

  /** The loop over one more candidate. */
  lemma YieldNext(passes: Candidate -> bool, isWindows: bool, candidates: seq<Candidate>, c: Candidate)
    ensures Yield(passes, isWindows, candidates + [c]) ==
              if passes(c) && c.path !in Paths(Yield(passes, isWindows, candidates))
              then Yield(passes, isWindows, candidates) + [EntryOf(c, isWindows)]
              else Yield(passes, isWindows, candidates)
  {
    assert (candidates + [c])[..|candidates|] == candidates;
  }

  /** What earlier candidates yield comes first. */
  lemma {:induction false} YieldPrefix(passes: Candidate -> bool, isWindows: bool, candidates: seq<Candidate>, k: nat)
    requires k <= |candidates|
    ensures Yield(passes, isWindows, candidates[..k]) <= Yield(passes, isWindows, candidates)
    decreases |candidates| - k
  {
    if k == |candidates| {
      assert candidates[..k] == candidates;
    } else {
      var n := |candidates| - 1;
      assert candidates[..n][..k] == candidates[..k];
      YieldPrefix(passes, isWindows, candidates[..n], k);
    }
  }

  /** Every yielded entry is the entry of a candidate that passes. */
  lemma {:induction false} YieldSound(passes: Candidate -> bool, isWindows: bool, candidates: seq<Candidate>, e: ExecutableEntry)
    requires e in Yield(passes, isWindows, candidates)
    ensures exists k :: 0 <= k < |candidates| && passes(candidates[k]) && e == EntryOf(candidates[k], isWindows)
  {
    var n := |candidates| - 1;
    if e in Yield(passes, isWindows, candidates[..n]) {
      YieldSound(passes, isWindows, candidates[..n], e);
      var k :| 0 <= k < n && passes(candidates[..n][k]) && e == EntryOf(candidates[..n][k], isWindows);
      assert candidates[..n][k] == candidates[k];
    }
  }

  /** Every candidate that passes has its path yielded, by it or by an earlier candidate
      with the same path. */
  lemma {:induction false} YieldComplete(passes: Candidate -> bool, isWindows: bool, candidates: seq<Candidate>, k: nat)
    requires k < |candidates|
    requires passes(candidates[k])
    ensures candidates[k].path in Paths(Yield(passes, isWindows, candidates))
    decreases |candidates|
  {
    var n := |candidates| - 1;
    var before := Yield(passes, isWindows, candidates[..n]);
    if k < n {
      assert candidates[..n][k] == candidates[k];
      YieldComplete(passes, isWindows, candidates[..n], k);
      YieldPrefix(passes, isWindows, candidates, n);
      var i :| 0 <= i < |before| && Paths(before)[i] == candidates[k].path;
      assert Yield(passes, isWindows, candidates)[i] == before[i];
    } else if candidates[k].path !in Paths(before) {
      var r := Yield(passes, isWindows, candidates);
      assert r[|r| - 1].path == candidates[k].path;
    }
  }

  /** The first entry yielded is that of the first candidate that passes, and nothing is
      yielded exactly when no candidate passes. */
  lemma {:induction false} YieldFirst(passes: Candidate -> bool, isWindows: bool, candidates: seq<Candidate>)
    ensures Yield(passes, isWindows, candidates) == [] <==> forall k :: 0 <= k < |candidates| ==> !passes(candidates[k])
    ensures Yield(passes, isWindows, candidates) != [] ==>
              exists k :: 0 <= k < |candidates| && passes(candidates[k])
                          && Yield(passes, isWindows, candidates)[0] == EntryOf(candidates[k], isWindows)
                          && forall m :: 0 <= m < k ==> !passes(candidates[m])
  {
    if |candidates| > 0 {
      var n := |candidates| - 1;
      var before := Yield(passes, isWindows, candidates[..n]);
      YieldFirst(passes, isWindows, candidates[..n]);
      assert forall m :: 0 <= m < n ==> candidates[..n][m] == candidates[m];
      if before != [] {
        var k :| 0 <= k < n && passes(candidates[..n][k])
                 && before[0] == EntryOf(candidates[..n][k], isWindows)
                 && forall m :: 0 <= m < k ==> !passes(candidates[..n][m]);
        YieldPrefix(passes, isWindows, candidates, n);
      }
    }
  }

  /** The inner loop over one more name of a listing. */
  lemma YieldListingNext(host: Host, filters: seq<Filter>, candidates: seq<Candidate>, dir: string, names: seq<string>,
                         j: nat, join: (string, string) -> string)
    requires j < |names|
    ensures var before := Yield(Accepts(host, filters), host.isWindows, candidates + DirCandidates(dir, names[..j], join));
            var c := Candidate(dir, names[j], join(dir, names[j]));
            Yield(Accepts(host, filters), host.isWindows, candidates + DirCandidates(dir, names[..j + 1], join)) ==
              if Passes(host, filters, c) && c.path !in Paths(before) then before + [EntryOf(c, host.isWindows)] else before
  {
    var c := Candidate(dir, names[j], join(dir, names[j]));
    assert DirCandidates(dir, names[..j + 1], join) == DirCandidates(dir, names[..j], join) + [c];
    assert candidates + DirCandidates(dir, names[..j + 1], join) == (candidates + DirCandidates(dir, names[..j], join)) + [c];
    YieldNext(Accepts(host, filters), host.isWindows, candidates + DirCandidates(dir, names[..j], join), c);
  }

  /** What `getAllExecutable(Sync)(options)` produces: the entries it yields, in order,
      and the error it throws after them, if any. */
  datatype Resolution = Resolution(entries: seq<ExecutableEntry>, failure: Option<FsError>)

  function Resolve(host: Host, ops: PathOps, options: GetExecutableOptions): (r: Resolution)
    ensures Distinct(Paths(r.entries))
    ensures r.failure.Some? ==> !Skippable(r.failure.value)
  {
    var scanned := Scan(host.fs, ops.join, SearchDirs(host, ops, options.cwd));
    Resolution(Yield(Accepts(host, options.filters), host.isWindows, scanned.candidates), scanned.failure)
  }

  /** The resolution once the loop has read `dirs[..k]` and either read them all or met
      a fatal error. */
  lemma ResolveAfter(host: Host, ops: PathOps, options: GetExecutableOptions, dirs: seq<string>, k: nat,
                     candidates: seq<Candidate>, failure: Option<FsError>)
    requires dirs == SearchDirs(host, ops, options.cwd)
    requires k <= |dirs| && Scan(host.fs, ops.join, dirs[..k]) == Scanned(candidates, failure)
    requires k == |dirs| || failure.Some?
    ensures Resolve(host, ops, options) == Resolution(Yield(Accepts(host, options.filters), host.isWindows, candidates), failure)
  {
    if k == |dirs| {
      assert dirs[..k] == dirs;
    } else {
      ScanStops(host.fs, ops.join, dirs, k);
    }
  }

  /** The inner loop of `getAllExecutable(Sync)` over the names of one listing: each name
      is joined with the directory, tested with `{}`, and yielded when the test returned
      `true`, its path is not in `yielded` yet and the filters select it. */
  method YieldListing(host: Host, filters: seq<Filter>, envPathExts: Option<seq<string>>, join: (string, string) -> string,
                      dir: string, names: seq<string>, ghost candidates: seq<Candidate>,
                      entries0: seq<ExecutableEntry>, yielded0: set<string>)
    returns (entries: seq<ExecutableEntry>, yielded: set<string>)
    requires envPathExts == EnvPathExt.GetEnvPathExt(host.env, host.isWindows)
    requires entries0 == Yield(Accepts(host, filters), host.isWindows, candidates)
    requires forall p :: p in yielded0 <==> p in Paths(entries0)
    ensures entries == Yield(Accepts(host, filters), host.isWindows, candidates + DirCandidates(dir, names, join))
    ensures forall p :: p in yielded <==> p in Paths(entries)
  {
    entries, yielded := entries0, yielded0;
    assert candidates + DirCandidates(dir, names[..0], join) == candidates;
    var j := 0;
    while j < |names|
      invariant 0 <= j <= |names|
      invariant entries == Yield(Accepts(host, filters), host.isWindows, candidates + DirCandidates(dir, names[..j], join))
      invariant forall p :: p in yielded <==> p in Paths(entries)
    {
      var basename := names[j];
      var path := join(dir, basename);
      YieldListingNext(host, filters, candidates, dir, names, j, join);
      var isExecutable := IsExecutablePathInternal(host, path, NO_OPTIONS, envPathExts);
      if isExecutable == Success(true) && path !in yielded {
        var name := DerivedName(basename, host.isWindows);
        if Selected(filters, basename, name, path) {
          yielded := yielded + {path};
          PathsAppend(entries, ExecutableEntry(basename, name, path));
          entries := entries + [ExecutableEntry(basename, name, path)];
        }
      }
      j := j + 1;
    }
    assert names[..j] == names;
  }

  /** `getAllExecutable(Sync)(options)`: the outer loop over the absolute search
      directories, the inner loop over each listing, and the `yielded` set. */
  method GetAllExecutable(host: Host, ops: PathOps, options: GetExecutableOptions)
    returns (entries: seq<ExecutableEntry>, failure: Option<FsError>)
    ensures Resolution(entries, failure) == Resolve(host, ops, options)
  {
    var yielded: set<string> := {};
    entries := [];
    var envPathExts := EnvPathExt.GetEnvPathExt(host.env, host.isWindows);
    var envPaths := EnvPath.GetEnvPath(host.env, host.isWindows);
    match options.cwd {
      case DirCwd(dir) =>
        envPaths := [dir] + envPaths;
      case ProcessCwd =>
        envPaths := [host.cwd] + envPaths;
      case NoCwd =>
    }
    var dirs := KeepAbsolute(envPaths, ops.isAbsolute);
    assert dirs == SearchDirs(host, ops, options.cwd);
    ghost var candidates: seq<Candidate> := [];
    var i := 0;
    while i < |dirs|
      invariant 0 <= i <= |dirs|
      invariant Scan(host.fs, ops.join, dirs[..i]) == Scanned(candidates, None)
      invariant entries == Yield(Accepts(host, options.filters), host.isWindows, candidates)
      invariant forall p :: p in yielded <==> p in Paths(entries)
    {
      var dir := dirs[i];
      var listing := ReadDir(host.fs, dir);
      entries, yielded := YieldListing(host, options.filters, envPathExts, ops.join, dir, listing.names,
                                       candidates, entries, yielded);
      ScanNext(host.fs, ops.join, dirs, i, candidates);
      candidates := candidates + DirCandidates(dir, listing.names, ops.join);
      if listing.failure.Some? && !Skippable(listing.failure.value) {
        ResolveAfter(host, ops, options, dirs, i + 1, candidates, listing.failure);
        return entries, listing.failure;
      }
      i := i + 1;
    }
    ResolveAfter(host, ops, options, dirs, i, candidates, None);
    return entries, None;
  }

  /** `getExecutable(Sync)(specifier, options)`: the first entry of the resolution with
      the specifier as the only filter, or `undefined`. The generator is abandoned after
      its first entry, so an error of a later directory is not seen. */
  function Lookup(host: Host, ops: PathOps, specifier: string, cwd: Cwd): (r: Result<Option<ExecutableEntry>, FsError>)
    ensures r.Failure? ==> !Skippable(r.error)
  {
    var resolution := Resolve(host, ops, GetExecutableOptions(cwd, [Exact(specifier)]));
    if |resolution.entries| > 0 then Success(Some(resolution.entries[0]))
    else if resolution.failure.Some? then Failure(resolution.failure.value)
    else Success(None)
  }

  /** The `for await ... return element` of `getExecutable(Sync)`. The `filters` of the
      options are replaced by the specifier. */
  method GetExecutable(host: Host, ops: PathOps, specifier: string, options: GetExecutableOptions)
    returns (r: Result<Option<ExecutableEntry>, FsError>)
    ensures r == Lookup(host, ops, specifier, options.cwd)
  {
    var entries, failure := GetAllExecutable(host, ops, GetExecutableOptions(options.cwd, [Exact(specifier)]));
    if |entries| > 0 {
      return Success(Some(entries[0]));
    }
    if failure.Some? {
      return Failure(failure.value);
    }
    return Success(None);
  }

  /* ---------------------------------------------------- resolution lemmas ---- */

  /** An entry is yielded only for a name listed in a searched directory, joined with that
      directory, that passes the test and the filters (ResolveComplete is the converse). */
  lemma ResolveEntries(host: Host, ops: PathOps, options: GetExecutableOptions, e: ExecutableEntry)
    requires e in Resolve(host, ops, options).entries
    ensures exists dir :: dir in SearchDirs(host, ops, options.cwd) && e.basename in ReadDir(host.fs, dir).names
                          && e.path == ops.join(dir, e.basename)
                          && Passes(host, options.filters, Candidate(dir, e.basename, e.path))
    ensures e.name == DerivedName(e.basename, host.isWindows)
  {
    var candidates := Scan(host.fs, ops.join, SearchDirs(host, ops, options.cwd)).candidates;
    YieldSound(Accepts(host, options.filters), host.isWindows, candidates, e);
    var k :| 0 <= k < |candidates| && Accepts(host, options.filters)(candidates[k]) && e == EntryOf(candidates[k], host.isWindows);
    var c := candidates[k];
    ScanCandidates(host.fs, ops.join, SearchDirs(host, ops, options.cwd), c);
    assert c == Candidate(c.dir, e.basename, e.path);
    assert Passes(host, options.filters, Candidate(c.dir, e.basename, e.path));
  }

  /** Every name listed in a searched directory is met, joined with it, unless an earlier
      directory failed fatally. */
  lemma {:induction false} ScanComplete(fs: FileSystem, join: (string, string) -> string, dirs: seq<string>, k: nat, name: string)
    requires k < |dirs|
    requires forall m :: 0 <= m < k ==> !Fatal(ReadDir(fs, dirs[m]))
    requires name in ReadDir(fs, dirs[k]).names
    ensures Candidate(dirs[k], name, join(dirs[k], name)) in Scan(fs, join, dirs).candidates
  {
    var c := Candidate(dirs[k], name, join(dirs[k], name));
    ScanSucceeds(fs, join, dirs[..k]);
    assert forall m :: 0 <= m < k ==> dirs[..k][m] == dirs[m];
    var before := Scan(fs, join, dirs[..k]).candidates;
    ScanNext(fs, join, dirs, k, before);
    var names := ReadDir(fs, dirs[k]).names;
    var j :| 0 <= j < |names| && names[j] == name;
    var met := Scan(fs, join, dirs[..k + 1]).candidates;
    assert met[|before| + j] == c;
    if Scan(fs, join, dirs[..k + 1]).failure.Some? {
      ScanStops(fs, join, dirs, k + 1);
    } else {
      ScanPrefix(fs, join, dirs, k + 1);
      assert Scan(fs, join, dirs).candidates[|before| + j] == c;
    }
  }

  /** Every name listed in a searched directory that passes the test and the filters has
      its path yielded, unless an earlier directory failed fatally. */
  lemma ResolveComplete(host: Host, ops: PathOps, options: GetExecutableOptions, k: nat, name: string)
    requires k < |SearchDirs(host, ops, options.cwd)|
    requires forall m :: 0 <= m < k ==> !Fatal(ReadDir(host.fs, SearchDirs(host, ops, options.cwd)[m]))
    requires name in ReadDir(host.fs, SearchDirs(host, ops, options.cwd)[k]).names
    requires Passes(host, options.filters, Candidate(SearchDirs(host, ops, options.cwd)[k], name,
                                                      ops.join(SearchDirs(host, ops, options.cwd)[k], name)))
    ensures ops.join(SearchDirs(host, ops, options.cwd)[k], name) in Paths(Resolve(host, ops, options).entries)
  {
    var dirs := SearchDirs(host, ops, options.cwd);
    var c := Candidate(dirs[k], name, ops.join(dirs[k], name));
    ScanComplete(host.fs, ops.join, dirs, k, name);
    var candidates := Scan(host.fs, ops.join, dirs).candidates;
    var i :| 0 <= i < |candidates| && candidates[i] == c;
    assert Accepts(host, options.filters)(candidates[i]);
    YieldComplete(Accepts(host, options.filters), host.isWindows, candidates, i);
  }

  /** The skippable directory errors never end the resolution. */
  lemma SkippableErrorsContinue(host: Host, ops: PathOps, options: GetExecutableOptions)
    requires forall d :: d in SearchDirs(host, ops, options.cwd) && ReadDir(host.fs, d).failure.Some? ==>
               Skippable(ReadDir(host.fs, d).failure.value)
    ensures Resolve(host, ops, options).failure.None?
  {
    var dirs := SearchDirs(host, ops, options.cwd);
    ScanSucceeds(host.fs, ops.join, dirs);
    assert forall k :: 0 <= k < |dirs| ==> dirs[k] in dirs;
  }

  /** On POSIX, when the process gid is unknown, every regular file raises and the error
      is swallowed, so nothing is yielded; directory errors are reported as usual. */
  lemma UnknownGidYieldsNothing(host: Host, ops: PathOps, options: GetExecutableOptions)
    requires !host.isWindows && host.gid.None?
    ensures Resolve(host, ops, options).entries == []
    ensures Resolve(host, ops, options).failure == Scan(host.fs, ops.join, SearchDirs(host, ops, options.cwd)).failure
  {
    var candidates := Scan(host.fs, ops.join, SearchDirs(host, ops, options.cwd)).candidates;
    forall k | 0 <= k < |candidates| ensures !Passes(host, options.filters, candidates[k]) {
      var r := IsExecutablePathInternal(host, candidates[k].path, NO_OPTIONS, EnvPathExt.GetEnvPathExt(host.env, host.isWindows));
      assert r != Success(true);
    }
    YieldFirst(Accepts(host, options.filters), host.isWindows, candidates);
  }

  /** The entries the resolution meets for a working-directory option, in order. */
  function Met(host: Host, ops: PathOps, cwd: Cwd): Scanned {
    Scan(host.fs, ops.join, SearchDirs(host, ops, cwd))
  }

  /** `getExecutable` returns the entry of the first entry met, in search order, that is
      executable and whose basename, name or path is the specifier. */
  lemma LookupFound(host: Host, ops: PathOps, specifier: string, cwd: Cwd, e: ExecutableEntry)
    requires Lookup(host, ops, specifier, cwd) == Success(Some(e))
    ensures e.basename == specifier || e.name == specifier || e.path == specifier
    ensures var met := Met(host, ops, cwd).candidates;
            exists k :: 0 <= k < |met| && Passes(host, [Exact(specifier)], met[k]) && e == EntryOf(met[k], host.isWindows)
                        && forall m :: 0 <= m < k ==> !Passes(host, [Exact(specifier)], met[m])
  {
    var met := Met(host, ops, cwd).candidates;
    var filters := [Exact(specifier)];
    var entries := Yield(Accepts(host, filters), host.isWindows, met);
    assert e == entries[0];
    YieldFirst(Accepts(host, filters), host.isWindows, met);
    var k :| 0 <= k < |met| && Accepts(host, filters)(met[k]) && entries[0] == EntryOf(met[k], host.isWindows)
             && forall m :: 0 <= m < k ==> !Accepts(host, filters)(met[m]);
    assert Passes(host, filters, met[k]);
    ExactFilter(specifier, met[k].basename, DerivedName(met[k].basename, host.isWindows), met[k].path);
  }

  /** `getExecutable` returns `undefined` exactly when no directory error is fatal and no
      entry met is executable with the specifier as its basename, name or path. */
  lemma LookupNotFound(host: Host, ops: PathOps, specifier: string, cwd: Cwd)
    ensures Lookup(host, ops, specifier, cwd) == Success(None) <==>
              Met(host, ops, cwd).failure.None? &&
              forall k :: 0 <= k < |Met(host, ops, cwd).candidates| ==> !Passes(host, [Exact(specifier)], Met(host, ops, cwd).candidates[k])
  {
    YieldFirst(Accepts(host, [Exact(specifier)]), host.isWindows, Met(host, ops, cwd).candidates);
  }

  /** `getExecutable` rejects only with the fatal directory error, and only when no entry
      met before it matches. */
  lemma LookupFailure(host: Host, ops: PathOps, specifier: string, cwd: Cwd, error: FsError)
    requires Lookup(host, ops, specifier, cwd) == Failure(error)
    ensures Met(host, ops, cwd).failure == Some(error) && !Skippable(error)
    ensures forall k :: 0 <= k < |Met(host, ops, cwd).candidates| ==> !Passes(host, [Exact(specifier)], Met(host, ops, cwd).candidates[k])
  {
    YieldFirst(Accepts(host, [Exact(specifier)]), host.isWindows, Met(host, ops, cwd).candidates);
  }
}
