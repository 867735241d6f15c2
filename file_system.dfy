/**
 * The pure path helpers of the file system subsystem (splitting a path into
 * directory, file name and extension, adding a trailing slash, taking the parent
 * directory, recognising absolute paths), the directory scan over an abstract
 * directory tree, and the bookkeeping of asynchronous command requests.
 */
module FileSystem {
  import opened Str
  import opened Path
  import opened Arith

  // ---------------------------------------------------------------------------
  // SplitPath and its derivatives

  datatype PathParts = PathParts(pathName: string, fileName: string, extension: string)

  /** Splits `rest` at its last '/'; the directory part keeps the slash. */
  function SplitName(rest: string, extension: string): (r: PathParts)
    ensures r.pathName + r.fileName == rest && r.extension == extension
    ensures r.pathName == [] || r.pathName[|r.pathName| - 1] == '/'
    ensures '/' !in r.fileName
  {
    match FindLast(rest, '/')
    case Some(p) =>
      assert rest == rest[..p + 1] + rest[p + 1..];
      PathParts(rest[..p + 1], rest[p + 1..], extension)
    case None => PathParts([], rest, extension)
  }

  /**
   * SplitPath: the extension is the text from the last '.' when that '.' comes after
   * the last '/'; the rest is split at its last '/'.
   */
  function SplitPath(fullPath: string, lowercaseExtension: bool): (r: PathParts)
    ensures !lowercaseExtension ==> r.pathName + r.fileName + r.extension == ToInternal(fullPath)
    ensures r.pathName == [] || r.pathName[|r.pathName| - 1] == '/'
    ensures '/' !in r.fileName
    ensures r.extension == [] || (r.extension[0] == '.' && '/' !in r.extension && '.' !in r.extension[1..])
    ensures r.extension == [] ==> '.' !in r.fileName
    ensures |r.pathName + r.fileName| <= |fullPath|
    ensures r.pathName + r.fileName == ToInternal(fullPath)[..|r.pathName + r.fileName|]
  {
    var copy := ToInternal(fullPath);
    var (rest, ext) := CutExtension(copy, lowercaseExtension);
    SplitName(rest, ext)
  }

  /** The first half of SplitPath: the text before the extension, and the extension. */
  function CutExtension(copy: string, lowercaseExtension: bool): (r: (string, string))
    ensures |r.0| <= |copy| && r.0 == copy[..|r.0|]
    ensures !lowercaseExtension ==> r.0 + r.1 == copy
    ensures r.1 == [] || (r.1[0] == '.' && '/' !in r.1 && '.' !in r.1[1..])
    ensures r.1 == [] ==> r.0 == copy && '.' !in SplitName(copy, []).fileName
  {
    var extPos := FindLast(copy, '.');
    var pathPos := FindLast(copy, '/');
    if extPos.Some? && (pathPos.None? || extPos.value > pathPos.value) then
      var e := extPos.value;
      var r := (copy[..e], if lowercaseExtension then ToLower(copy[e..]) else copy[e..]);
      ExtensionShape(copy, e, pathPos);
      ExtensionCut(copy, lowercaseExtension, e, r);
      r
    else
      NoExtensionNoDot(copy, extPos, pathPos, SplitName(copy, []));
      WholeText(copy);
      (copy, [])
  }

  /** The whole text as a slice, and with nothing appended. */
  lemma WholeText(s: string)
    ensures s[..|s|] == s && s + [] == s
  {
  }

  /** Cutting at the last '.' after the last '/': a prefix of the text, and a well-formed extension. */
  lemma ExtensionCut(copy: string, lowercaseExtension: bool, e: nat, r: (string, string))
    requires e < |copy| && copy[e] == '.' && '.' !in copy[e + 1..] && '/' !in copy[e..]
    requires r == (copy[..e], if lowercaseExtension then ToLower(copy[e..]) else copy[e..])
    ensures |r.0| <= |copy| && r.0 == copy[..|r.0|]
    ensures !lowercaseExtension ==> r.0 + r.1 == copy
    ensures |r.1| > 0 && r.1[0] == '.' && '/' !in r.1 && '.' !in r.1[1..]
  {
    var raw := copy[e..];
    assert raw[1..] == copy[e + 1..];
    LowerKeepsShape(raw);
    assert copy == copy[..e] + raw;
  }

  lemma ExtensionShape(copy: string, e: nat, pathPos: Option<nat>)
    requires e < |copy| && copy[e] == '.' && '.' !in copy[e + 1..]
    requires pathPos == FindLast(copy, '/') && (pathPos.None? || e > pathPos.value)
    ensures var raw := copy[e..]; raw[0] == '.' && '/' !in raw && '.' !in raw[1..]
  {
    var raw := copy[e..];
    assert raw[1..] == copy[e + 1..];
    if pathPos.Some? {
      assert forall k :: 0 <= k < |raw| ==> raw[k] == copy[pathPos.value + 1..][k + e - pathPos.value - 1];
    }
  }

  lemma LowerKeepsShape(raw: string)
    requires |raw| > 0 && raw[0] == '.' && '/' !in raw && '.' !in raw[1..]
    ensures var ext := ToLower(raw); |ext| > 0 && ext[0] == '.' && '/' !in ext && '.' !in ext[1..]
  {
    var ext := ToLower(raw);
    forall k | 1 <= k < |ext| ensures ext[k] != '.' { assert raw[1..][k - 1] == raw[k]; }
    assert forall k :: 0 <= k < |ext| ==> ext[k] != '/';
  }

  lemma NoExtensionNoDot(copy: string, extPos: Option<nat>, pathPos: Option<nat>, r: PathParts)
    requires extPos == FindLast(copy, '.') && pathPos == FindLast(copy, '/')
    requires !(extPos.Some? && (pathPos.None? || extPos.value > pathPos.value))
    requires r == SplitName(copy, [])
    ensures '.' !in r.fileName
  {
    if extPos.Some? {
      var e := extPos.value;
      var p := pathPos.value;
      assert copy[e] == '.' && '.' !in copy[e + 1..];
      assert copy[p] == '/';
      assert r.fileName == copy[p + 1..];
      DotBeforeSlash(copy, e, p);
    }
  }

  /** Past a '/' that follows the last '.', there is no '.'. */
  lemma DotBeforeSlash(copy: string, e: nat, p: nat)
    requires e < |copy| && p < |copy| && e <= p
    requires copy[e] == '.' && '.' !in copy[e + 1..] && copy[p] == '/'
    ensures '.' !in copy[p + 1..]
  {
    NotInLaterSuffix(copy, e + 1, p + 1, '.');
  }

  /** The directory part: a prefix of the internal form, empty or ending in '/'. */
  function GetPath(fullPath: string): (r: string)
    ensures r == [] || r[|r| - 1] == '/'
    ensures |r| <= |fullPath| && r == ToInternal(fullPath)[..|r|]
  {
    SplitPath(fullPath, false).pathName
  }

  /** The file name without directory or extension: no '/', and no '.' when there is no extension. */
  function GetFileName(fullPath: string): (r: string)
    ensures '/' !in r
    ensures GetExtension(fullPath, false) == [] ==> '.' !in r
  {
    SplitPath(fullPath, false).fileName
  }

  /** The extension: empty, or a '.' that is its only one, with no '/' after it. */
  function GetExtension(fullPath: string, lowercaseExtension: bool): (r: string)
    ensures r == [] || (r[0] == '.' && '/' !in r && '.' !in r[1..])
  {
    SplitPath(fullPath, lowercaseExtension).extension
  }

  function GetFileNameAndExtension(fileName: string, lowercaseExtension: bool): (r: string)
    ensures '/' !in r
    ensures !lowercaseExtension ==> ToInternal(fileName) == GetPath(fileName) + r
  {
    var parts := SplitPath(fileName, lowercaseExtension);
    assert '/' !in parts.fileName && '/' !in parts.extension;
    ConcatAssoc(parts.pathName, parts.fileName, parts.extension);
    parts.fileName + parts.extension
  }

  function ReplaceExtension(fullPath: string, newExtension: string): (r: string)
    ensures r == ToInternal(fullPath)[..|ToInternal(fullPath)| - |GetExtension(fullPath, false)|] + newExtension
  {
    var parts := SplitPath(fullPath, false);
    parts.pathName + parts.fileName + newExtension
  }

  /** Lower-casing touches only the extension. */
  lemma SplitPathLowercase(fullPath: string)
    ensures var a := SplitPath(fullPath, false); var b := SplitPath(fullPath, true);
      b.pathName == a.pathName && b.fileName == a.fileName && b.extension == ToLower(a.extension)
  {
    var copy := ToInternal(fullPath);
    CutExtensionLowercase(copy);
    var (rest, ext) := CutExtension(copy, false);
    SplitNameExtension(rest, ext, ToLower(ext));
  }

  /** Lower-casing in CutExtension changes only the extension. */
  lemma CutExtensionLowercase(copy: string)
    ensures CutExtension(copy, true).0 == CutExtension(copy, false).0
    ensures CutExtension(copy, true).1 == ToLower(CutExtension(copy, false).1)
  {
  }

  /** SplitName carries the extension through untouched. */
  lemma SplitNameExtension(rest: string, e1: string, e2: string)
    ensures SplitName(rest, e2) == SplitName(rest, e1).(extension := e2)
  {
  }

  /** The three parts cover the internal form of the path exactly. */
  lemma PathPartsReconstruct(fullPath: string)
    ensures GetPath(fullPath) + GetFileName(fullPath) + GetExtension(fullPath, false) == ToInternal(fullPath)
  {
  }

  predicate WellFormedExtension(e: string)
  {
    |e| > 0 && e[0] == '.' && '.' !in e[1..] && '/' !in e && '\\' !in e
  }

  /**
   * Replacing the extension with a well-formed one keeps the directory and the file
   * name, and the new extension is what a following split finds.
   */
  lemma {:induction false} ReplaceExtensionRoundTrip(fullPath: string, e: string)
    requires WellFormedExtension(e)
    ensures SplitPath(ReplaceExtension(fullPath, e), false) == SplitPath(fullPath, false).(extension := e)
  {
    var parts := SplitPath(fullPath, false);
    var pre := parts.pathName + parts.fileName;
    var s := pre + e;
    assert s == ReplaceExtension(fullPath, e);
    NoBackslashInPrefix(ToInternal(fullPath), pre, e);
    ToInternalFixed(s);
    LastDotIsExtension(pre, e);
    LastSlashBeforeExtension(pre, e);
    assert s[..|pre|] == pre && s[|pre|..] == e;
    assert CutExtension(s, false) == (pre, e);
    SplitOfStem(fullPath, e);
  }

  /** A prefix of a text without '\\', followed by a text without '\\', has none. */
  lemma NoBackslashInPrefix(t: string, pre: string, e: string)
    requires '\\' !in t && |pre| <= |t| && pre == t[..|pre|] && '\\' !in e
    ensures '\\' !in pre + e
  {
    assert forall k :: 0 <= k < |pre| ==> pre[k] == t[k];
  }

  lemma LastDotIsExtension(pre: string, e: string)
    requires WellFormedExtension(e)
    ensures FindLast(pre + e, '.') == Some(|pre|)
  {
    var s := pre + e;
    assert s[|pre|] == '.';
    assert forall k :: |pre| < k < |s| ==> s[k] == e[1..][k - |pre| - 1];
  }

  lemma LastSlashBeforeExtension(pre: string, e: string)
    requires '/' !in e
    ensures var slash := FindLast(pre + e, '/'); slash.None? || slash.value < |pre|
  {
    var s := pre + e;
    assert forall k :: |pre| <= k < |s| ==> s[k] == e[k - |pre|];
  }

  /** Splitting the part of a path before its extension gives the original directory and file name. */
  lemma SplitOfStem(fullPath: string, e: string)
    ensures var parts := SplitPath(fullPath, false);
      SplitName(parts.pathName + parts.fileName, e) == parts.(extension := e)
  {
  }

  // ---------------------------------------------------------------------------
  // AddTrailingSlash, GetParentPath, IsAbsolutePath

  /** Trims blanks, converts '\\' to '/', and appends '/' to a non-empty result lacking one. */
  function AddTrailingSlash(pathName: string): (r: string)
    ensures '\\' !in r
    ensures r == [] || r[|r| - 1] == '/'
  {
    var ret := Replaced(Trimmed(pathName), '\\', '/');
    if |ret| > 0 && ret[|ret| - 1] != '/' then ret + "/" else ret
  }

  /** The result is empty only for a blank input, starts with a non-blank and ends with '/' otherwise, and holds no '\\'. */
  lemma AddTrailingSlashShape(pathName: string)
    ensures var r := AddTrailingSlash(pathName);
            && (r == [] <==> Trimmed(pathName) == [])
            && (r != [] ==> !IsBlank(r[0]) && r[|r| - 1] == '/')
            && '\\' !in r
            && (r == ToInternal(Trimmed(pathName)) || r == ToInternal(Trimmed(pathName)) + "/")
  {
    var ret := Replaced(Trimmed(pathName), '\\', '/');
    TrimmedReplaced(pathName);
    if |ret| > 0 && ret[|ret| - 1] != '/' {
      assert AddTrailingSlash(pathName) == ret + "/";
    } else {
      assert AddTrailingSlash(pathName) == ret;
    }
  }

  /** The trimmed path with '\\' converted: the internal form, free of '\\', not starting with a blank. */
  lemma TrimmedReplaced(pathName: string)
    ensures var ret := Replaced(Trimmed(pathName), '\\', '/');
            && ToInternal(Trimmed(pathName)) == ret && '\\' !in ret
            && |ret| == |Trimmed(pathName)| && (ret != [] ==> !IsBlank(ret[0]))
  {
    var t := Trimmed(pathName);
    ReplacedRemoves(t, '\\', '/');
    if |t| > 0 {
      TrimmedShape(pathName);
    }
  }

  lemma AddTrailingSlashIdempotent(pathName: string)
    ensures AddTrailingSlash(AddTrailingSlash(pathName)) == AddTrailingSlash(pathName)
  {
    AddTrailingSlashShape(pathName);
    AddTrailingSlashFixed(AddTrailingSlash(pathName));
  }

  /** A path without '\\', with no blank at its start and '/' at its end, is left as it is. */
  lemma AddTrailingSlashFixed(r: string)
    requires '\\' !in r && (r != [] ==> !IsBlank(r[0]) && r[|r| - 1] == '/')
    ensures AddTrailingSlash(r) == r
  {
    TrimmedFixed(r);
    ReplacedFixed(r, '\\', '/');
  }

  /** The original path up to and including the last '/' of its slash-trimmed form. */
  function GetParentPath(path: string): (r: string)
    ensures r == [] || |r| <= |TrimEndSlash(path)| < |path| || |r| < |TrimEndSlash(path)| == |path|
    ensures r == [] <==> '/' !in TrimEndSlash(path)
    ensures r != [] ==> r == path[..|r|] && r[|r| - 1] == '/' && '/' !in TrimEndSlash(path)[|r|..]
  {
    match FindLast(TrimEndSlash(path), '/')
    case Some(pos) => path[..pos + 1]
    case None => []
  }

  function IsAlpha(c: char): bool
  {
    'a' <= c <= 'z' || 'A' <= c <= 'Z'
  }

  /**
   * IsAbsolutePath: a leading '/' (or '\\', which is converted to '/'); on Windows also
   * a drive letter followed by ':'.
   */
  function IsAbsolutePath(pathName: string, windows: bool): (r: bool)
    ensures pathName == [] ==> !r
    ensures |pathName| > 0 && (pathName[0] == '/' || pathName[0] == '\\') ==> r
    ensures !windows ==> (r <==> |pathName| > 0 && (pathName[0] == '/' || pathName[0] == '\\'))
    ensures windows && |pathName| > 1 && IsAlpha(pathName[0]) && pathName[1] == ':' ==> r
  {
    if |pathName| == 0 then false
    else
      var path := ToInternal(pathName);
      if path[0] == '/' then true
      else if windows && |path| > 1 && IsAlpha(path[0]) && path[1] == ':' then true
      else false
  }

  // ---------------------------------------------------------------------------
  // Directory scan

  const SCAN_FILES: bv32 := 1
  const SCAN_DIRS: bv32 := 2
  const SCAN_HIDDEN: bv32 := 4

  /** What stat reports for a directory entry: failure, a directory (with its listing), or another file. */
  datatype Stat = StatFailed | IsDirectory(entries: seq<Entry>) | IsFile
  datatype Entry = Entry(name: string, stat: Stat)

  /** The filter's extension (from its last '.'), or "" when there is no '.' or it holds a '*'. */
  function FilterExtension(filter: string): (r: string)
    ensures r == [] || (r[0] == '.' && '*' !in r && '.' !in r[1..] && EndsWith(filter, r))
    ensures '.' !in filter ==> r == []
    ensures '.' in filter && '*' !in filter ==> |r| > 0
  {
    match FindLast(filter, '.')
    case None => []
    case Some(p) =>
      var ext := filter[p..];
      assert ext[1..] == filter[p + 1..];
      if '*' in ext then [] else ext
  }

  predicate NormalEntry(name: string)
  {
    name != "." && name != ".."
  }

  /** Skipped before stat: a hidden (dot-prefixed) name that is not "." or "..", unless hidden entries are wanted. */
  predicate SkippedAsHidden(name: string, flags: bv32)
  {
    NormalEntry(name) && flags & SCAN_HIDDEN == 0 && |name| > 0 && name[0] == '.'
  }

  /** A file is listed when files are wanted and it ends with the filter extension (if any). */
  predicate FileListed(name: string, filterExtension: string, flags: bv32)
  {
    flags & SCAN_FILES != 0 && (filterExtension == [] || EndsWith(name, filterExtension))
  }

  function DeltaPath(path: string, startPath: string): string
  {
    if |path| > |startPath| then path[|startPath|..] else []
  }

  /** The names a scan of `path` (listing `entries`) appends to the result. */
  function ScanListing(entries: seq<Entry>, path0: string, startPath: string, filter: string, flags: bv32, recursive: bool): seq<string>
    decreases entries, 2
  {
    var path := AddTrailingSlash(path0);
    ScanEntries(entries, |entries|, path, DeltaPath(path, startPath), startPath, filter, flags, recursive)
  }

  /** The names appended for the first `n` entries. */
  function ScanEntries(entries: seq<Entry>, n: nat, path: string, deltaPath: string, startPath: string,
                       filter: string, flags: bv32, recursive: bool): seq<string>
    requires n <= |entries|
    decreases entries, 0, n
  {
    if n == 0 then []
    else
      ScanEntries(entries, n - 1, path, deltaPath, startPath, filter, flags, recursive)
      + ScanEntry(entries, n - 1, path, deltaPath, startPath, filter, flags, recursive)
  }

  function ScanEntry(entries: seq<Entry>, i: nat, path: string, deltaPath: string, startPath: string,
                     filter: string, flags: bv32, recursive: bool): seq<string>
    requires i < |entries|
    decreases entries, 0, 0
  {
    var e := entries[i];
    if SkippedAsHidden(e.name, flags) then []
    else match e.stat
      case StatFailed => []
      case IsFile => if FileListed(e.name, FilterExtension(filter), flags) then [deltaPath + e.name] else []
      case IsDirectory(sub) =>
        assert e in entries;
        (if flags & SCAN_DIRS != 0 then [deltaPath + e.name] else [])
        + (if recursive && NormalEntry(e.name) then ScanListing(sub, path + e.name, startPath, filter, flags, recursive) else [])
  }

  /** ScanDirInternal: appends the names found under `path` to `result`, recursing into subdirectories. */
  method ScanDirInternal(result: seq<string>, entries: seq<Entry>, path0: string, startPath: string,
                         filter: string, flags: bv32, recursive: bool) returns (out: seq<string>)
    ensures out == result + ScanListing(entries, path0, startPath, filter, flags, recursive)
    decreases entries, 3
  {
    var path := AddTrailingSlash(path0);
    var deltaPath: string := [];
    if |path| > |startPath| {
      deltaPath := path[|startPath|..];
    }
    var filterExtension := FilterExtension(filter);
    out := ScanEntriesInto(result, entries, path, deltaPath, startPath, filter, filterExtension, flags, recursive);
  }

  /** The loop of ScanDirInternal over the entries of one directory. */
  method ScanEntriesInto(result: seq<string>, entries: seq<Entry>, path: string, deltaPath: string, startPath: string,
                         filter: string, filterExtension: string, flags: bv32, recursive: bool) returns (out: seq<string>)
    requires filterExtension == FilterExtension(filter)
    ensures out == result + ScanEntries(entries, |entries|, path, deltaPath, startPath, filter, flags, recursive)
    decreases entries, 2
  {
    out := result;
    var i := 0;
    while i < |entries|
      invariant 0 <= i <= |entries|
      invariant out == result + ScanEntries(entries, i, path, deltaPath, startPath, filter, flags, recursive)
    {
      out := ScanDirEntry(out, entries, i, path, deltaPath, startPath, filter, filterExtension, flags, recursive);
      ScanEntriesStep(entries, i, path, deltaPath, startPath, filter, flags, recursive);
      ConcatAssoc(result, ScanEntries(entries, i, path, deltaPath, startPath, filter, flags, recursive),
                  ScanEntry(entries, i, path, deltaPath, startPath, filter, flags, recursive));
      i := i + 1;
    }
  }

  /** The names for one more entry are those for the entries before it followed by its own. */
  lemma ScanEntriesStep(entries: seq<Entry>, i: nat, path: string, deltaPath: string, startPath: string,
                        filter: string, flags: bv32, recursive: bool)
    requires i < |entries|
    ensures ScanEntries(entries, i + 1, path, deltaPath, startPath, filter, flags, recursive)
         == ScanEntries(entries, i, path, deltaPath, startPath, filter, flags, recursive)
            + ScanEntry(entries, i, path, deltaPath, startPath, filter, flags, recursive)
  {
  }

  /** One pass of the loop in ScanDirInternal: the entry at `i`. */
  method ScanDirEntry(result: seq<string>, entries: seq<Entry>, i: nat, path: string, deltaPath: string,
                      startPath: string, filter: string, filterExtension: string, flags: bv32, recursive: bool)
    returns (out: seq<string>)
    requires i < |entries| && filterExtension == FilterExtension(filter)
    ensures out == result + ScanEntry(entries, i, path, deltaPath, startPath, filter, flags, recursive)
    decreases entries, 1
  {
    var name := entries[i].name;
    ghost var added := ScanEntry(entries, i, path, deltaPath, startPath, filter, flags, recursive);
    out := result;
    if SkippedAsHidden(name, flags) {
      assert added == [];
    } else {
      match entries[i].stat {
        case StatFailed =>
          assert added == [];
        case IsFile =>
          if FileListed(name, filterExtension, flags) {
            out := out + [deltaPath + name];
            assert added == [deltaPath + name];
          } else {
            assert added == [];
          }
        case IsDirectory(sub) =>
          out := ScanDirDirectory(result, entries, i, sub, path, deltaPath, startPath, filter, flags, recursive);
      }
    }
    assert result + [] == result;
  }

  /** The directory case of ScanDirEntry: the name when directories are listed, then its contents when recursing. */
  method ScanDirDirectory(result: seq<string>, entries: seq<Entry>, i: nat, sub: seq<Entry>, path: string, deltaPath: string,
                          startPath: string, filter: string, flags: bv32, recursive: bool)
    returns (out: seq<string>)
    requires i < |entries| && entries[i].stat == IsDirectory(sub) && !SkippedAsHidden(entries[i].name, flags)
    ensures out == result + ScanEntry(entries, i, path, deltaPath, startPath, filter, flags, recursive)
    decreases entries, 0
  {
    var name := entries[i].name;
    ghost var dirPart: seq<string> := [];
    out := result;
    if flags & SCAN_DIRS != 0 {
      out := out + [deltaPath + name];
      dirPart := [deltaPath + name];
    } else {
      assert out == result + dirPart;
    }
    ghost var subPart: seq<string> := [];
    if recursive && NormalEntry(name) {
      assert entries[i] in entries;
      out := ScanDirInternal(out, sub, path + name, startPath, filter, flags, recursive);
      subPart := ScanListing(sub, path + name, startPath, filter, flags, recursive);
    } else {
      assert out == result + dirPart + subPart;
    }
    assert ScanEntry(entries, i, path, deltaPath, startPath, filter, flags, recursive) == dirPart + subPart;
    ConcatAssoc(result, dirPart, subPart);
  }

  /** ScanDir: clears the result and scans from the path with a trailing slash. */
  method ScanDir(entries: seq<Entry>, pathName: string, filter: string, flags: bv32, recursive: bool)
    returns (result: seq<string>)
    ensures result == ScanListing(entries, pathName, AddTrailingSlash(pathName), filter, flags, recursive)
  {
    var initialPath := AddTrailingSlash(pathName);
    AddTrailingSlashIdempotent(pathName);
    result := ScanDirInternal([], entries, initialPath, initialPath, filter, flags, recursive);
  }

  /** With neither files nor directories requested, a scan finds nothing, however deep. */
  lemma {:induction false} ScanNothingRequested(entries: seq<Entry>, path0: string, startPath: string,
                                                filter: string, flags: bv32, recursive: bool)
    requires flags & SCAN_FILES == 0 && flags & SCAN_DIRS == 0
    ensures ScanListing(entries, path0, startPath, filter, flags, recursive) == []
    decreases entries, 1
  {
    var path := AddTrailingSlash(path0);
    ScanEntriesNothing(entries, |entries|, path, DeltaPath(path, startPath), startPath, filter, flags, recursive);
  }

  lemma {:induction false} ScanEntriesNothing(entries: seq<Entry>, n: nat, path: string, deltaPath: string,
                                              startPath: string, filter: string, flags: bv32, recursive: bool)
    requires n <= |entries|
    requires flags & SCAN_FILES == 0 && flags & SCAN_DIRS == 0
    ensures ScanEntries(entries, n, path, deltaPath, startPath, filter, flags, recursive) == []
    decreases entries, 0, n
  {
    if n > 0 {
      ScanEntriesNothing(entries, n - 1, path, deltaPath, startPath, filter, flags, recursive);
      var e := entries[n - 1];
      if !SkippedAsHidden(e.name, flags) && e.stat.IsDirectory? && recursive && NormalEntry(e.name) {
        assert e in entries;
        ScanNothingRequested(e.stat.entries, path + e.name, startPath, filter, flags, recursive);
      }
    }
  }

  /**
   * A files-only scan with an extension filter lists only names ending with that
   * extension, at every depth.
   */
  lemma {:induction false} ScanFilesMatchFilter(entries: seq<Entry>, path0: string, startPath: string,
                                                filter: string, flags: bv32, recursive: bool)
    requires flags & SCAN_DIRS == 0 && FilterExtension(filter) != []
    ensures forall s :: (s in ScanListing(entries, path0, startPath, filter, flags, recursive)
                         ==> EndsWith(s, FilterExtension(filter)))
    decreases entries, 1
  {
    var path := AddTrailingSlash(path0);
    ScanEntriesMatchFilter(entries, |entries|, path, DeltaPath(path, startPath), startPath, filter, flags, recursive);
  }

  lemma {:induction false} ScanEntriesMatchFilter(entries: seq<Entry>, n: nat, path: string, deltaPath: string,
                                                  startPath: string, filter: string, flags: bv32, recursive: bool)
    requires n <= |entries|
    requires flags & SCAN_DIRS == 0 && FilterExtension(filter) != []
    ensures forall s :: (s in ScanEntries(entries, n, path, deltaPath, startPath, filter, flags, recursive)
                         ==> EndsWith(s, FilterExtension(filter)))
    decreases entries, 0, n
  {
    if n > 0 {
      ScanEntriesMatchFilter(entries, n - 1, path, deltaPath, startPath, filter, flags, recursive);
      ScanEntryMatchesFilter(entries, n - 1, path, deltaPath, startPath, filter, flags, recursive);
      ScanEntriesStep(entries, n - 1, path, deltaPath, startPath, filter, flags, recursive);
    }
  }

  lemma {:induction false} ScanEntryMatchesFilter(entries: seq<Entry>, i: nat, path: string, deltaPath: string,
                                                  startPath: string, filter: string, flags: bv32, recursive: bool)
    requires i < |entries|
    requires flags & SCAN_DIRS == 0 && FilterExtension(filter) != []
    ensures forall s :: (s in ScanEntry(entries, i, path, deltaPath, startPath, filter, flags, recursive)
                         ==> EndsWith(s, FilterExtension(filter)))
    decreases entries, 0, 0
  {
    var e := entries[i];
    var ext := FilterExtension(filter);
    if !SkippedAsHidden(e.name, flags) {
      match e.stat {
        case StatFailed =>
        case IsFile =>
          if FileListed(e.name, ext, flags) {
            var s := deltaPath + e.name;
            assert s[|s| - |ext|..] == e.name[|e.name| - |ext|..];
          }
        case IsDirectory(sub) =>
          if recursive && NormalEntry(e.name) {
            assert e in entries;
            ScanFilesMatchFilter(sub, path + e.name, startPath, filter, flags, recursive);
          }
      }
    }
  }

  // ---------------------------------------------------------------------------
  // Asynchronous execution requests

  const MAX_UNSIGNED: int := 0xFFFF_FFFF
  type U32 = x: int | 0 <= x <= MAX_UNSIGNED

  /** What the request constructor does to the counter it is handed: increment, skipping the reserved maximum. */
  function NextRequestID(id: U32): (r: U32)
    ensures 1 <= id < MAX_UNSIGNED ==> 1 <= r < MAX_UNSIGNED && r != id
    ensures id + 1 < MAX_UNSIGNED ==> r == id + 1
  {
    var n := (id + 1) % (MAX_UNSIGNED + 1);
    if n == MAX_UNSIGNED then 1 else n
  }

  /** The counter after `k` requests, when each request advances it. */
  function IdAfter(start: U32, k: nat): U32
  {
    if k == 0 then start else NextRequestID(IdAfter(start, k - 1))
  }

  /** IDs returned by `n` successive submissions as the code is written: the counter is never advanced. */
  function IssuedIdsAsWritten(start: U32, n: nat): (r: seq<U32>)
    ensures |r| == n
  {
    if n == 0 then [] else IssuedIdsAsWritten(start, n - 1) + [start]
  }

  /** IDs returned by `n` successive submissions when the counter advances on every one. */
  function IssuedIds(start: U32, n: nat): (r: seq<U32>)
    ensures |r| == n && forall k :: 0 <= k < n ==> r[k] == IdAfter(start, k)
  {
    if n == 0 then [] else IssuedIds(start, n - 1) + [IdAfter(start, n - 1)]
  }

  /** As written, two submissions in a row get the same request ID. */
  lemma AsWrittenRepeatsId(start: U32)
    ensures IssuedIdsAsWritten(start, 2)[0] == IssuedIdsAsWritten(start, 2)[1]
  {
  }

  /** The advancing counter cycles through 1 .. MAX_UNSIGNED-1. */
  lemma IdAfterClosedForm(start: U32, k: nat)
    requires 1 <= start < MAX_UNSIGNED
    ensures IdAfter(start, k) == (start - 1 + k) % (MAX_UNSIGNED - 1) + 1
  {
    IdAfterCycle(start, k);
  }

  /** The ID `k` places after `start` in the cycle 1 .. MAX_UNSIGNED-1. */
  function CyclePos(start: U32, k: nat): (r: U32)
    requires 1 <= start
    ensures 1 <= r < MAX_UNSIGNED
  {
    (start - 1 + k) % (MAX_UNSIGNED - 1) + 1
  }

  lemma {:induction false} IdAfterCycle(start: U32, k: nat)
    requires 1 <= start < MAX_UNSIGNED
    ensures IdAfter(start, k) == CyclePos(start, k)
  {
    if k == 0 {
      ModUnique(start - 1, MAX_UNSIGNED - 1, 0, start - 1);
    } else {
      IdAfterCycle(start, k - 1);
      CycleStep(start, k);
    }
  }

  /** One more request moves one place on in the cycle. */
  lemma CycleStep(start: U32, k: nat)
    requires 1 <= start && k > 0
    ensures NextRequestID(CyclePos(start, k - 1)) == CyclePos(start, k)
  {
    var a := start - 1 + (k - 1);
    NextInCycle(a % (MAX_UNSIGNED - 1));
    ModStep(a, MAX_UNSIGNED - 1);
  }

  /** From 1 .. MAX_UNSIGNED-1 the next ID is the following one, wrapping from the last back to 1. */
  lemma NextInCycle(q: nat)
    requires q < MAX_UNSIGNED - 1
    ensures NextRequestID(q + 1) == (if q == MAX_UNSIGNED - 2 then 0 else q + 1) + 1
  {
    assert (q + 2) % (MAX_UNSIGNED + 1) == q + 2;
  }

  /** With the advancing counter, any MAX_UNSIGNED-1 consecutive requests get distinct IDs. */
  lemma IssuedIdsDistinct(start: U32, n: nat)
    requires 1 <= start < MAX_UNSIGNED && n <= MAX_UNSIGNED - 1
    ensures forall i, j :: 0 <= i < j < n ==> IssuedIds(start, n)[i] != IssuedIds(start, n)[j]
  {
    forall i, j | 0 <= i < j < n
      ensures IssuedIds(start, n)[i] != IssuedIds(start, n)[j]
    {
      IdsDistinctAt(start, i, j);
    }
  }

  lemma IdsDistinctAt(start: U32, i: nat, j: nat)
    requires 1 <= start < MAX_UNSIGNED && i < j < MAX_UNSIGNED - 1
    ensures IdAfter(start, i) != IdAfter(start, j)
  {
    IdAfterClosedForm(start, i);
    IdAfterClosedForm(start, j);
    ModDistinct(start - 1, i, j, MAX_UNSIGNED - 1);
  }

  datatype AsyncRequest = AsyncRequest(requestID: U32, exitCode: int, completed: bool)
  datatype FinishedEvent = FinishedEvent(requestID: U32, exitCode: int)

  /** The requests still running, in queue order. */
  function Pending(queue: seq<AsyncRequest>): (r: seq<AsyncRequest>)
    ensures forall k :: 0 <= k < |r| ==> !r[k].completed
  {
    if |queue| == 0 then []
    else
      var last := queue[|queue| - 1];
      Pending(queue[..|queue| - 1]) + (if last.completed then [] else [last])
  }

  /** The finish events for the completed requests, in queue order. */
  function Finished(queue: seq<AsyncRequest>): seq<FinishedEvent>
  {
    if |queue| == 0 then []
    else
      var last := queue[|queue| - 1];
      Finished(queue[..|queue| - 1])
      + (if last.completed then [FinishedEvent(last.requestID, last.exitCode)] else [])
  }

  lemma DrainSnoc(queue: seq<AsyncRequest>, x: AsyncRequest)
    ensures Pending(queue + [x]) == Pending(queue) + (if x.completed then [] else [x])
    ensures Finished(queue + [x]) == Finished(queue) + (if x.completed then [FinishedEvent(x.requestID, x.exitCode)] else [])
  {
    assert (queue + [x])[..|queue|] == queue;
  }

  /** Every request either stays queued or produces exactly one finish event. */
  lemma {:induction false} DrainPartitions(queue: seq<AsyncRequest>)
    ensures |Pending(queue)| + |Finished(queue)| == |queue|
    ensures forall r :: r in queue && !r.completed ==> r in Pending(queue)
    ensures forall r :: r in queue && r.completed ==> FinishedEvent(r.requestID, r.exitCode) in Finished(queue)
  {
    if |queue| > 0 {
      var init := queue[..|queue| - 1];
      var last := queue[|queue| - 1];
      DrainPartitions(init);
      assert queue == init + [last];
      DrainSnoc(init, last);
    }
  }

  /** Draining twice without new completions emits nothing the second time and keeps the queue. */
  lemma {:induction false} DrainIdempotent(queue: seq<AsyncRequest>)
    ensures Pending(Pending(queue)) == Pending(queue)
    ensures Finished(Pending(queue)) == []
  {
    if |queue| > 0 {
      var init := queue[..|queue| - 1];
      var last := queue[|queue| - 1];
      assert queue == init + [last];
      DrainSnoc(init, last);
      DrainIdempotent(init);
      if !last.completed {
        DrainSnoc(Pending(init), last);
      } else {
        assert Pending(queue) == Pending(init) + [] == Pending(init);
      }
    }
  }

  class FileSystemState {
    var nextAsyncExecID: U32
    var asyncExecQueue: seq<AsyncRequest>
    var events: seq<FinishedEvent>

    constructor()
      ensures nextAsyncExecID == 1 && asyncExecQueue == [] && events == []
    {
      nextAsyncExecID := 1;
      asyncExecQueue := [];
      events := [];
    }

    /**
     * SystemCommandAsync / SystemRunAsync as written: the request object receives a
     * copy of the counter, so the increment in its constructor is lost.
     */
    method SubmitAsyncAsWritten(threading: bool) returns (id: U32)
      modifies this
      ensures threading ==> (id == old(nextAsyncExecID)
                             && asyncExecQueue == old(asyncExecQueue) + [AsyncRequest(id, 0, false)])
      ensures !threading ==> id == MAX_UNSIGNED && asyncExecQueue == old(asyncExecQueue)
      ensures nextAsyncExecID == old(nextAsyncExecID) && events == old(events)
    {
      if threading {
        id := nextAsyncExecID;
        var copy := nextAsyncExecID;
        copy := NextRequestID(copy);
        asyncExecQueue := asyncExecQueue + [AsyncRequest(id, 0, false)];
      } else {
        id := MAX_UNSIGNED;
      }
    }

    /** SystemCommandAsync / SystemRunAsync with the counter advanced for the next request. */
    method SubmitAsync(threading: bool) returns (id: U32)
      modifies this
      ensures threading ==> (id == old(nextAsyncExecID)
                             && asyncExecQueue == old(asyncExecQueue) + [AsyncRequest(id, 0, false)]
                             && nextAsyncExecID == NextRequestID(old(nextAsyncExecID)))
      ensures !threading ==> (id == MAX_UNSIGNED && asyncExecQueue == old(asyncExecQueue)
                              && nextAsyncExecID == old(nextAsyncExecID))
      ensures events == old(events)
    {
      if threading {
        id := nextAsyncExecID;
        nextAsyncExecID := NextRequestID(nextAsyncExecID);
        asyncExecQueue := asyncExecQueue + [AsyncRequest(id, 0, false)];
      } else {
        id := MAX_UNSIGNED;
      }
    }

    /** The worker thread of request `index` finishing with `exitCode`. */
    method Complete(index: nat, exitCode: int)
      requires index < |asyncExecQueue|
      modifies this
      ensures asyncExecQueue == old(asyncExecQueue)[index := old(asyncExecQueue)[index].(exitCode := exitCode, completed := true)]
      ensures nextAsyncExecID == old(nextAsyncExecID) && events == old(events)
    {
      asyncExecQueue := asyncExecQueue[index := asyncExecQueue[index].(exitCode := exitCode, completed := true)];
    }

    /** HandleBeginFrame: sends a finish event for, and removes, every completed request. */
    method HandleBeginFrame()
      modifies this
      ensures asyncExecQueue == Pending(old(asyncExecQueue))
      ensures events == old(events) + Finished(old(asyncExecQueue))
      ensures nextAsyncExecID == old(nextAsyncExecID)
    {
      var queue := asyncExecQueue;
      var kept: seq<AsyncRequest> := [];
      var i := 0;
      while i < |queue|
        invariant 0 <= i <= |queue|
        invariant kept == Pending(queue[..i])
        invariant events == old(events) + Finished(queue[..i])
        invariant nextAsyncExecID == old(nextAsyncExecID)
      {
        var request := queue[i];
        assert queue[..i + 1] == queue[..i] + [request];
        DrainSnoc(queue[..i], request);
        if request.completed {
          events := events + [FinishedEvent(request.requestID, request.exitCode)];
        } else {
          kept := kept + [request];
        }
        i := i + 1;
      }
      assert queue[..i] == queue;
      asyncExecQueue := kept;
    }
  }
}
