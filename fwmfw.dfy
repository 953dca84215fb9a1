/**
 * The reconciliation driver of FWMFW (Source/FWMFW.cxx, main): it reads
 * the block list line by line, registers every executable it names under
 * a display key, diffs that request against the outbound rules the tool
 * already owns, and then adds the missing block rules and removes the
 * ones no longer requested.
 *
 * The block-list file is given as its sequence of lines, and the file
 * system as an oracle value (which paths exist, which are directories,
 * what getFilesInDirectory lists). Whether the firewall policy object can
 * be created is a parameter; the rule store is the WinNetFW model.
 */
module Driver {
  import opened Wrappers
  import Utils
  import WinNetFW

  const RULE_NAME_PREFIX: string := "FWMFW_"
  const RULE_IN_NAME_PREFIX: string := RULE_NAME_PREFIX + "IN_"
  const RULE_OUT_NAME_PREFIX: string := RULE_NAME_PREFIX + "OUT_"

  /** The driver's prefixes are the ones the store adapter names its rules with. */
  lemma PrefixesAgree()
    ensures RULE_IN_NAME_PREFIX == WinNetFW.IN_RULE_NAME_PREFIX
    ensures RULE_OUT_NAME_PREFIX == WinNetFW.OUT_RULE_NAME_PREFIX
    ensures |RULE_OUT_NAME_PREFIX| == WinNetFW.OUT_PREFIX_LENGTH
  {
  }

  // ---------------------------------------------------------------------
  // std::string::find_last_of and the display key
  // ---------------------------------------------------------------------

  /** 2^64: std::size_t arithmetic wraps modulo this. */
  const SIZE_T_MODULUS: nat := 0x1_0000_0000_0000_0000
  /** std::string::npos, the largest size_t. */
  const NPOS: nat := SIZE_T_MODULUS - 1

  /** The highest index below `n` holding `c`. */
  function LastIndexBelow(s: string, c: char, n: nat): (r: Option<nat>)
    requires n <= |s|
    ensures r.Some? ==> r.value < n && s[r.value] == c
    ensures forall i :: 0 <= i < n && s[i] == c ==> r.Some? && i <= r.value
  {
    if n == 0 then None
    else if s[n - 1] == c then Some(n - 1)
    else LastIndexBelow(s, c, n - 1)
  }

  /** std::string::find_last_of(c, pos): the last index at or before `pos` holding `c`; None stands for npos. */
  function FindLastOf(s: string, c: char, pos: nat): (r: Option<nat>)
    ensures r.Some? ==> r.value < |s| && r.value <= pos && s[r.value] == c
    ensures forall i :: 0 <= i < |s| && i <= pos && s[i] == c ==> r.Some? && i <= r.value
  {
    LastIndexBelow(s, c, if pos < |s| then pos + 1 else |s|)
  }

  /** A find result as the size_t the code computes with. */
  function AsSize(r: Option<nat>): nat
  {
    if r.None? then NPOS else r.value
  }

  /**
   * startIdx = s.find_last_of('\\', s.find_last_of('\\') - 1) + 1, with
   * both the subtraction and the addition wrapping as size_t does: one
   * past the second-to-last backslash. It never exceeds the length.
   */
  function KeyStart(s: string): (r: nat)
    ensures r <= |s|
  {
    var last := AsSize(FindLastOf(s, '\\', NPOS));
    var before := AsSize(FindLastOf(s, '\\', (last + NPOS) % SIZE_T_MODULUS));
    if before == NPOS then 0 else before + 1
  }

  /**
   * With two or more backslashes, the key starts just after the
   * second-to-last one. (A std::string is shorter than npos.)
   */
  lemma KeyStartAfterSecondToLast(s: string, i: nat, j: nat)
    requires |s| < NPOS
    requires i < j < |s| && s[i] == '\\' && s[j] == '\\'
    requires forall m :: i < m < |s| && m != j ==> s[m] != '\\'
    ensures KeyStart(s) == i + 1
  {
    assert FindLastOf(s, '\\', NPOS) == Some(j);
    assert (j + NPOS) % SIZE_T_MODULUS == j - 1;
    assert FindLastOf(s, '\\', j - 1) == Some(i);
  }

  /**
   * With a single backslash, the key is the whole string; when that
   * backslash is the first character, last - 1 wraps to npos and the key
   * is the string without it.
   */
  lemma KeyStartSingle(s: string, j: nat)
    requires |s| < NPOS
    requires j < |s| && s[j] == '\\'
    requires forall m :: 0 <= m < |s| && m != j ==> s[m] != '\\'
    ensures KeyStart(s) == if j == 0 then 1 else 0
  {
    assert FindLastOf(s, '\\', NPOS) == Some(j);
    if j == 0 {
      assert (j + NPOS) % SIZE_T_MODULUS == NPOS;
      assert FindLastOf(s, '\\', NPOS) == Some(0);
    } else {
      assert (j + NPOS) % SIZE_T_MODULUS == j - 1;
      assert FindLastOf(s, '\\', j - 1) == None;
    }
  }

  /** Without a backslash both searches give npos and the key is the whole string. */
  lemma KeyStartNone(s: string)
    requires |s| < NPOS
    requires forall m :: 0 <= m < |s| ==> s[m] != '\\'
    ensures KeyStart(s) == 0
  {
    assert FindLastOf(s, '\\', NPOS) == None;
    assert FindLastOf(s, '\\', (NPOS + NPOS) % SIZE_T_MODULUS) == None;
  }

  /**
   * A file listed under a directory string is keyed by the directory's
   * own key followed by the rest of the file's path.
   */
  lemma ListedFileKey(dir: string, f: string)
    requires Utils.StartsWith(f, dir)
    ensures KeyStart(dir) <= |f|
    ensures f[KeyStart(dir)..] == dir[KeyStart(dir)..] + f[|dir|..]
  {
    assert f == dir + f[|dir|..];
  }

  // ---------------------------------------------------------------------
  // The file system oracle
  // ---------------------------------------------------------------------

  /**
   * What the driver learns from the file system: the paths that have
   * attributes (GetFileAttributesA succeeds), which of them are
   * directories, and what getFilesInDirectory(dir, ".exe", true) returns
   * for a directory string.
   */
  datatype FileSystem = FileSystem(existing: set<string>, directories: set<string>, listing: map<string, seq<string>>)

  /** Utils::doesDirectoryExist. */
  predicate DirectoryExists(fs: FileSystem, path: string)
  {
    path in fs.directories
  }

  /** Utils::doesFileExist: the path has attributes of any kind. */
  predicate FileExists(fs: FileSystem, path: string)
  {
    path in fs.existing || path in fs.directories
  }

  /** Utils::getFilesInDirectory; a directory that cannot be searched lists nothing. */
  function FilesInDirectory(fs: FileSystem, dir: string): seq<string>
  {
    if dir in fs.listing then fs.listing[dir] else []
  }

  /**
   * What getFilesInDirectory guarantees: every path it returns is the
   * directory string followed by a file name ending in ".exe".
   */
  predicate WellFormed(fs: FileSystem)
  {
    forall dir, f :: dir in fs.listing && f in fs.listing[dir] ==> Utils.StartsWith(f, dir) && Utils.EndsWith(f, ".exe")
  }

  // ---------------------------------------------------------------------
  // Reading the block list
  // ---------------------------------------------------------------------

  /** What aborts reading the block list. */
  datatype ParseFault = KeyOutOfRange   // f.substr(startIdx) threw std::out_of_range

  /**
   * A block-list line as main reads it: whitespace trimmed; None when
   * nothing is left or the rest is a comment (it starts with '#');
   * otherwise the path with every '/' turned into '\'.
   */
  function BlockListItem(line: string): (r: Option<string>)
    ensures r.None? <==>
      var n := Utils.LeadingRun(line, Utils.IsSpace);
      n == |line| || line[n] == '#'
    ensures r.Some? ==>
      && |r.value| > 0 && r.value[0] != '#' && '/' !in r.value
      && !Utils.IsSpace(r.value[0]) && !Utils.IsSpace(r.value[|r.value| - 1])
  {
    var item := Utils.Trimmed(line, Utils.IsSpace);
    if |item| == 0 || item[0] == '#' then None
    else
      Utils.ReplacedAllLeavesNone(item, '/', '\\');
      Some(Utils.Replaced(item, '/', '\\', false))
  }

  /**
   * The directory string a directory line is listed with: its leading and
   * trailing backslashes trimmed, then exactly one backslash appended.
   */
  function DirectoryPath(item: string): (dir: string)
    ensures dir == Utils.Trimmed(item, Utils.IsBackslash) + "\\"
    ensures dir[|dir| - 1] == '\\' && (|dir| == 1 || dir[|dir| - 2] != '\\')
  {
    var trimmed := Utils.Trimmed(item, Utils.IsBackslash);
    if Utils.EndsWith(trimmed, "\\") then trimmed else trimmed + "\\"
  }

  /**
   * Registering the listed `files` in `m` in order, each keyed by its
   * suffix from `start`. It fails, at the first file shorter than
   * `start`, exactly when some file is; otherwise the listed files are
   * added and keyed by that suffix, and the other entries are kept.
   */
  function AddListing(m: map<string, string>, files: seq<string>, start: nat): (r: Result<map<string, string>, ParseFault>)
    ensures r.Success? <==> forall k :: 0 <= k < |files| ==> start <= |files[k]|
    ensures r.Success? ==> forall f :: f in r.value <==> f in m || f in files
    ensures r.Success? ==> forall f :: f in files ==> start <= |f| && r.value[f] == f[start..]
    ensures r.Success? ==> forall f :: f in m && f !in files ==> r.value[f] == m[f]
  {
    if files == [] then Success(m)
    else
      var f := files[|files| - 1];
      match AddListing(m, files[..|files| - 1], start)
      case Failure(e) => Failure(e)
      case Success(m') =>
        if |f| < start then Failure(KeyOutOfRange)
        else Success(m'[f := f[start..]])
  }

  /**
   * Where the display key starts in the paths a block-list item registers:
   * for a directory, after the second-to-last backslash of its directory
   * string; for a file, after the second-to-last backslash of its own path.
   */
  function ItemKeyStart(fs: FileSystem, item: string): nat
  {
    if DirectoryExists(fs, item) then KeyStart(DirectoryPath(item)) else KeyStart(item)
  }

  /**
   * What the normalised block-list entry `item` adds to the request map
   * `m`: a directory's listed files, or an existing ".exe" file, each
   * mapped to its display key. Only a directory can fail; the other
   * entries are kept.
   */
  function AddItem(fs: FileSystem, m: map<string, string>, item: string): (r: Result<map<string, string>, ParseFault>)
    ensures r.Failure? ==> DirectoryExists(fs, item)
    ensures r.Success? ==> forall f :: f in r.value <==> f in m || RegistersItem(fs, item, f)
    ensures r.Success? ==> forall f :: RegistersItem(fs, item, f) ==>
      ItemKeyStart(fs, item) <= |f| && r.value[f] == f[ItemKeyStart(fs, item)..]
    ensures r.Success? ==> forall f :: f in m && !RegistersItem(fs, item, f) ==> r.value[f] == m[f]
  {
    if DirectoryExists(fs, item) then
      var dir := DirectoryPath(item);
      var files := FilesInDirectory(fs, dir);
      AddListing(m, files, KeyStart(dir))
    else if FileExists(fs, item) && Utils.EndsWith(item, ".exe") then
      Success(m[item := item[KeyStart(item)..]])
    else
      Success(m)
  }

  /**
   * What one block-list line adds to the request map `m`. A skipped line
   * adds nothing; only a directory line can fail; on success the keys are
   * the old ones plus the paths the line registers, each of those mapped
   * to its display key, and the other entries are kept.
   */
  function AddLine(fs: FileSystem, m: map<string, string>, line: string): (r: Result<map<string, string>, ParseFault>)
    ensures BlockListItem(line).None? ==> r == Success(m)
    ensures r.Failure? ==> BlockListItem(line).Some? && DirectoryExists(fs, BlockListItem(line).value)
    ensures r.Success? ==> forall f :: f in r.value <==> f in m || Registers(fs, line, f)
    ensures r.Success? && BlockListItem(line).Some? ==> forall f :: Registers(fs, line, f) ==>
      var start := ItemKeyStart(fs, BlockListItem(line).value);
      start <= |f| && r.value[f] == f[start..]
    ensures r.Success? ==> forall f :: f in m && !Registers(fs, line, f) ==> r.value[f] == m[f]
  {
    match BlockListItem(line)
    case None => Success(m)
    case Some(item) => AddItem(fs, m, item)
  }

  /** Every value of `m` is a suffix of its key. */
  predicate KeysAreSuffixes(m: map<string, string>)
  {
    forall f :: f in m ==> |m[f]| <= |f| && m[f] == f[|f| - |m[f]|..]
  }

  /**
   * The request map main builds from the block list: the lines in order,
   * a later registration of the same path overwriting an earlier one.
   * Every key it registers is the path's own suffix.
   */
  function Request(fs: FileSystem, lines: seq<string>): (r: Result<map<string, string>, ParseFault>)
    ensures r.Success? ==> KeysAreSuffixes(r.value)
  {
    if lines == [] then Success(map[])
    else
      match Request(fs, lines[..|lines| - 1])
      case Failure(e) => Failure(e)
      case Success(m) => AddLineKeepsSuffixes(fs, m, lines[|lines| - 1]); AddLine(fs, m, lines[|lines| - 1])
  }

  lemma AddLineKeepsSuffixes(fs: FileSystem, m: map<string, string>, line: string)
    requires KeysAreSuffixes(m)
    ensures AddLine(fs, m, line).Success? ==> KeysAreSuffixes(AddLine(fs, m, line).value)
  {
    if BlockListItem(line).Some? {
      AddItemKeepsSuffixes(fs, m, BlockListItem(line).value);
    }
  }

  lemma AddItemKeepsSuffixes(fs: FileSystem, m: map<string, string>, item: string)
    requires KeysAreSuffixes(m)
    ensures AddItem(fs, m, item).Success? ==> KeysAreSuffixes(AddItem(fs, m, item).value)
  {
    if DirectoryExists(fs, item) {
      var dir := DirectoryPath(item);
      ListingKeepsSuffixes(m, FilesInDirectory(fs, dir), KeyStart(dir));
    } else if FileExists(fs, item) && Utils.EndsWith(item, ".exe") {
      var v := item[KeyStart(item)..];
      assert v == item[|item| - |v|..];
      var r := m[item := v];
      assert AddItem(fs, m, item) == Success(r);
      forall f | f in r ensures |r[f]| <= |f| && r[f] == f[|f| - |r[f]|..] {
        if f != item {
          assert r[f] == m[f];
        }
      }
    }
  }

  lemma ListingKeepsSuffixes(m: map<string, string>, files: seq<string>, start: nat)
    requires KeysAreSuffixes(m)
    ensures AddListing(m, files, start).Success? ==> KeysAreSuffixes(AddListing(m, files, start).value)
  {
    var r := AddListing(m, files, start);
    if r.Success? {
      forall f | f in r.value
        ensures |r.value[f]| <= |f| && r.value[f] == f[|f| - |r.value[f]|..]
      {
        if f in files {
          assert r.value[f] == f[start..];
        }
      }
    }
  }

  /** The entry `item` registers the path `f`: a file listed under its directory, or the executable it names. */
  predicate RegistersItem(fs: FileSystem, item: string, f: string)
  {
    if DirectoryExists(fs, item) then f in FilesInDirectory(fs, DirectoryPath(item))
    else FileExists(fs, item) && Utils.EndsWith(item, ".exe") && f == item
  }

  /** `line` registers the path `f`: a line that is not skipped, whose entry registers it. */
  predicate Registers(fs: FileSystem, line: string, f: string)
  {
    match BlockListItem(line)
    case None => false
    case Some(item) => RegistersItem(fs, item, f)
  }

  /**
   * With a well-formed file system, reading the block list succeeds; its
   * keys are exactly the paths some line registers, and every one of them
   * ends in ".exe".
   */
  lemma {:induction false} RequestOfWellFormed(fs: FileSystem, lines: seq<string>)
    requires WellFormed(fs)
    ensures Request(fs, lines).Success?
    ensures forall f :: f in Request(fs, lines).value <==> exists line :: line in lines && Registers(fs, line, f)
    ensures forall f :: f in Request(fs, lines).value ==> Utils.EndsWith(f, ".exe")
  {
    if lines != [] {
      var n := |lines| - 1;
      var front := lines[..n];
      assert lines == front + [lines[n]];
      RequestOfWellFormed(fs, front);
      var m := Request(fs, front).value;
      AddLineWellFormed(fs, m, lines[n]);
      assert Request(fs, lines) == AddLine(fs, m, lines[n]);
    }
  }

  /**
   * With a well-formed file system, a line adds to the map exactly the
   * paths it registers, all ending in ".exe".
   */
  lemma AddLineWellFormed(fs: FileSystem, m: map<string, string>, line: string)
    requires WellFormed(fs)
    ensures AddLine(fs, m, line).Success?
    ensures forall f :: f in AddLine(fs, m, line).value <==> f in m || Registers(fs, line, f)
    ensures forall f :: f in AddLine(fs, m, line).value && f !in m ==> Utils.EndsWith(f, ".exe")
  {
    if BlockListItem(line).Some? && DirectoryExists(fs, BlockListItem(line).value) {
      var dir := DirectoryPath(BlockListItem(line).value);
      var files := FilesInDirectory(fs, dir);
      var start := KeyStart(dir);
      forall k | 0 <= k < |files| ensures start <= |files[k]| && Utils.EndsWith(files[k], ".exe") {
        assert dir in fs.listing && files[k] in fs.listing[dir];
        assert Utils.StartsWith(files[k], dir);
      }
      assert AddLine(fs, m, line) == AddListing(m, files, start);
    }
  }

  /**
   * The value requested for a path is its display key as the last line
   * registering it gives it: a later registration overwrites an earlier one.
   */
  lemma {:induction false} RequestKeyFromLastLine(fs: FileSystem, lines: seq<string>, f: string, i: nat)
    requires Request(fs, lines).Success?
    requires i < |lines| && Registers(fs, lines[i], f)
    requires forall j :: i < j < |lines| ==> !Registers(fs, lines[j], f)
    ensures f in Request(fs, lines).value
    ensures var start := ItemKeyStart(fs, BlockListItem(lines[i]).value);
            start <= |f| && Request(fs, lines).value[f] == f[start..]
  {
    var n := |lines| - 1;
    var front := lines[..n];
    assert Request(fs, front).Success?;
    var m := Request(fs, front).value;
    var r := AddLine(fs, m, lines[n]);
    assert Request(fs, lines) == r;
    if i < n {
      assert front[i] == lines[i];
      forall j | i < j < n ensures !Registers(fs, front[j], f) {
        assert front[j] == lines[j];
      }
      RequestKeyFromLastLine(fs, front, f, i);
      assert !Registers(fs, lines[n], f);
      assert r.value[f] == m[f];
    } else {
      assert i == n;
      assert BlockListItem(lines[n]).Some?;
      var item := BlockListItem(lines[n]).value;
      assert RegistersItem(fs, item, f);
      assert r == AddItem(fs, m, item);
      assert ItemKeyStart(fs, item) <= |f| && r.value[f] == f[ItemKeyStart(fs, item)..];
    }
  }

  /** A block list of blank and comment lines requests nothing, whatever the file system. */
  lemma {:induction false} SkippedLinesRequestNothing(fs: FileSystem, lines: seq<string>)
    requires forall k :: 0 <= k < |lines| ==> BlockListItem(lines[k]).None?
    ensures Request(fs, lines) == Success(map[])
  {
    if lines != [] {
      SkippedLinesRequestNothing(fs, lines[..|lines| - 1]);
    }
  }

  /** Once reading part of the block list has failed, reading all of it fails the same way. */
  lemma {:induction false} RequestFailureSticks(fs: FileSystem, lines: seq<string>, i: nat)
    requires i <= |lines| && Request(fs, lines[..i]).Failure?
    ensures Request(fs, lines) == Request(fs, lines[..i])
    decreases |lines| - i
  {
    if i < |lines| {
      assert lines[..i + 1][..i] == lines[..i];
      RequestFailureSticks(fs, lines, i + 1);
    } else {
      assert lines[..i] == lines;
    }
  }

  /**
   * main's reading loop: each line is trimmed, skipped or normalised, and
   * the paths it names are written into the request map.
   */
  method ReadBlockList(fs: FileSystem, lines: seq<string>) returns (requested: Result<map<string, string>, ParseFault>)
    ensures requested == Request(fs, lines)
  {
    var m: map<string, string> := map[];
    for i := 0 to |lines|
      invariant Request(fs, lines[..i]) == Success(m)
    {
      RequestStep(fs, lines, i, m);
      var lineOutcome := ReadLine(fs, m, lines[i]);
      if lineOutcome.Failure? {
        RequestFailureSticks(fs, lines, i + 1);
        return lineOutcome;
      }
      m := lineOutcome.value;
    }
    assert lines[..|lines|] == lines;
    return Success(m);
  }

  /** Reading one more line of the block list applies that line to the map read so far. */
  lemma RequestStep(fs: FileSystem, lines: seq<string>, i: nat, m: map<string, string>)
    requires i < |lines| && Request(fs, lines[..i]) == Success(m)
    ensures Request(fs, lines[..i + 1]) == AddLine(fs, m, lines[i])
  {
    assert lines[..i + 1][..i] == lines[..i];
  }

  /** The body of main's reading loop for one line. */
  method ReadLine(fs: FileSystem, m: map<string, string>, line: string) returns (r: Result<map<string, string>, ParseFault>)
    ensures r == AddLine(fs, m, line)
  {
    var item := Utils.TrimWhiteSpaces(line);
    if |item| == 0 || item[0] == '#' {
      return Success(m);
    }
    Utils.ReplacedAllLeavesNone(item, '/', '\\');
    var itemF := Utils.ReplaceChars(item, '/', '\\', false);
    assert BlockListItem(line) == Some(itemF);
    if DirectoryExists(fs, itemF) {
      itemF := Utils.TrimChars(itemF, Utils.IsBackslash);
      if !Utils.EndsWith(itemF, "\\") {
        itemF := itemF + "\\";
      }
      var startIdx := KeyStart(itemF);
      var result := FilesInDirectory(fs, itemF);
      r := RegisterListing(m, result, startIdx);
    } else if FileExists(fs, itemF) && Utils.EndsWith(itemF, ".exe") {
      var startIdx := KeyStart(itemF);
      r := Success(m[itemF := itemF[startIdx..]]);
    } else {
      r := Success(m);
    }
  }

  /** The loop registering a directory's files, each keyed by its suffix from `startIdx`. */
  method RegisterListing(m: map<string, string>, files: seq<string>, startIdx: nat) returns (r: Result<map<string, string>, ParseFault>)
    ensures r == AddListing(m, files, startIdx)
  {
    var requested := m;
    for k := 0 to |files|
      invariant AddListing(m, files[..k], startIdx) == Success(requested)
    {
      assert files[..k + 1][..k] == files[..k];
      var f := files[k];
      if |f| < startIdx {
        ListingFailureSticks(m, files, startIdx, k + 1);
        return Failure(KeyOutOfRange);
      }
      requested := requested[f := f[startIdx..]];
    }
    assert files[..|files|] == files;
    return Success(requested);
  }

  /** Once registering part of a listing has failed, registering all of it fails the same way. */
  lemma {:induction false} ListingFailureSticks(m: map<string, string>, files: seq<string>, start: nat, k: nat)
    requires k <= |files| && AddListing(m, files[..k], start).Failure?
    ensures AddListing(m, files, start) == AddListing(m, files[..k], start)
    decreases |files| - k
  {
    if k < |files| {
      assert files[..k + 1][..k] == files[..k];
      ListingFailureSticks(m, files, start, k + 1);
    } else {
      assert files[..k] == files;
    }
  }

  // ---------------------------------------------------------------------
  // The diff loop
  // ---------------------------------------------------------------------

  /** The filter main enumerates existing rules with: names starting with "FWMFW_OUT_". */
  predicate IsOutRuleName(name: string): (b: bool)
    ensures b <==> RULE_OUT_NAME_PREFIX <= name
    ensures b ==> |name| >= WinNetFW.OUT_PREFIX_LENGTH
  {
    Utils.StartsWith(name, RULE_OUT_NAME_PREFIX)
  }

  /** The rules main finds: application name to outbound rule name, as getRules enumerates them. */
  function Existing(rules: seq<WinNetFW.Rule>): (m: map<string, string>)
    ensures forall app :: app in m ==> |app| > 0 && IsOutRuleName(m[app]) && |m[app]| >= WinNetFW.OUT_PREFIX_LENGTH
  {
    WinNetFW.Enumerate(rules, Some(IsOutRuleName), None)
  }

  /** The request once the entries an existing rule already covers are erased. */
  function StillToBlock(requested: map<string, string>, existing: map<string, string>): map<string, string>
  {
    map f | f in requested && f !in existing :: requested[f]
  }

  /** The existing rules for applications no longer requested. */
  function ToUnblock(requested: map<string, string>, existing: map<string, string>): map<string, string>
  {
    map app | app in existing && app !in requested :: existing[app]
  }

  /**
   * main's diff loop over the existing rules (in the map's unspecified
   * order): a rule whose application is requested is erased from the
   * request, any other goes to the unblock map. Afterwards the request
   * holds exactly the requested paths no rule covers, the unblock map
   * exactly the rules of applications not requested, and the two share no
   * application.
   */
  method Reconcile(requested: map<string, string>, existing: map<string, string>)
    returns (toBlock: map<string, string>, toUnblock: map<string, string>)
    ensures toBlock.Keys == requested.Keys - existing.Keys
    ensures forall f :: f in toBlock ==> toBlock[f] == requested[f]
    ensures toUnblock.Keys == existing.Keys - requested.Keys
    ensures forall app :: app in toUnblock ==> toUnblock[app] == existing[app]
    ensures toBlock.Keys !! toUnblock.Keys
    ensures toBlock == StillToBlock(requested, existing) && toUnblock == ToUnblock(requested, existing)
  {
    toBlock := requested;
    toUnblock := map[];
    var pending := existing.Keys;
    while pending != {}
      invariant pending <= existing.Keys
      invariant toBlock.Keys == requested.Keys - (existing.Keys - pending)
      invariant forall f :: f in toBlock ==> toBlock[f] == requested[f]
      invariant toUnblock.Keys == (existing.Keys - pending) - requested.Keys
      invariant forall app :: app in toUnblock ==> toUnblock[app] == existing[app]
      decreases pending
    {
      var appName :| appName in pending;
      var ruleName := existing[appName];
      if appName in toBlock {
        toBlock := toBlock - {appName};
      } else {
        toUnblock := toUnblock[appName := ruleName];
      }
      pending := pending - {appName};
    }
  }

  /** Every name main asks removeBlockRules to remove carries the outbound prefix, so its removal cannot throw. */
  lemma UnblockNamesAreOutNames(requested: map<string, string>, rules: seq<WinNetFW.Rule>)
    ensures forall app :: app in ToUnblock(requested, Existing(rules)) ==>
      var name := ToUnblock(requested, Existing(rules))[app];
      && Utils.StartsWith(name, WinNetFW.OUT_RULE_NAME_PREFIX)
      && |name| >= WinNetFW.OUT_PREFIX_LENGTH
  {
    var existing := Existing(rules);
    forall app | app in ToUnblock(requested, existing)
      ensures Utils.StartsWith(existing[app], RULE_OUT_NAME_PREFIX)
    {
      assert Some(IsOutRuleName).value(existing[app]);
    }
  }

  /**
   * The round trip between the naming of addBlockRules and main: when the
   * only outbound-prefixed rules of an application in the store are the
   * outbound rule the tool created for it under `key`, main finds that
   * rule's name for the application, and removing by that name targets
   * exactly the two names addBlockRules gave the entry.
   */
  lemma OwnRulesAreFoundAndRemovable(rules: seq<WinNetFW.Rule>, app: string, key: string)
    requires |app| > 0 && WinNetFW.BlockRule(app, key, WinNetFW.Out) in rules
    requires forall rule :: rule in rules && rule.appName == app && IsOutRuleName(rule.name) ==> rule == WinNetFW.BlockRule(app, key, WinNetFW.Out)
    ensures app in Existing(rules) && Existing(rules)[app] == WinNetFW.RuleName(WinNetFW.Out, key)
    ensures WinNetFW.RemovalName(Existing(rules)[app], WinNetFW.Out) == Some(WinNetFW.RuleName(WinNetFW.Out, key))
    ensures WinNetFW.RemovalName(Existing(rules)[app], WinNetFW.In) == Some(WinNetFW.RuleName(WinNetFW.In, key))
  {
    var out := WinNetFW.BlockRule(app, key, WinNetFW.Out);
    WinNetFW.RuleNamePrefixes(WinNetFW.Out, key);
    var i0 :| 0 <= i0 < |rules| && rules[i0] == out;
    WinNetFW.EnumerateKeys(rules, Some(IsOutRuleName), None, app);
    WinNetFW.EnumerateValues(rules, Some(IsOutRuleName), None, app);
    var i :| 0 <= i < |rules| && WinNetFW.KeptFor(rules[i], app, Some(IsOutRuleName), None) && Existing(rules)[app] == rules[i].name;
    assert rules[i] in rules && Some(IsOutRuleName).value(rules[i].name);
    assert rules[i] == out;
    WinNetFW.RemovalNameInvertsRuleName(key, WinNetFW.Out);
    WinNetFW.RemovalNameInvertsRuleName(key, WinNetFW.In);
  }

  // ---------------------------------------------------------------------
  // main
  // ---------------------------------------------------------------------

  /**
   * The ways a run with a block-list argument ends in -1: reading the
   * block list fails (a listed path is shorter than its directory's key
   * start, so `substr` throws), the firewall policy object cannot be
   * created, or there is something to block but no rule object can be
   * created.
   */
  predicate RunFails(fs: FileSystem, lines: seq<string>, policyAvailable: bool, canCreateRules: bool, rules: seq<WinNetFW.Rule>)
  {
    || Request(fs, lines).Failure?
    || !policyAvailable
    || (!canCreateRules && StillToBlock(Request(fs, lines).value, Existing(rules)) != map[])
  }

  /**
   * What a run that exits with 0 has done, from the store's `initial`
   * rules: it blocked, each once, exactly the requested applications
   * without a rule whose two rules were added, and unblocked, each once,
   * exactly the applications no longer requested whose two rules were
   * removed; the store's `rules` are the initial ones plus `added`, the
   * accepted block rules, without the removed names.
   */
  ghost predicate RunSucceeded(fs: FileSystem, lines: seq<string>, store: WinNetFW.RuleStore, initial: seq<WinNetFW.Rule>,
                               blocked: seq<string>, unblocked: seq<string>, added: seq<WinNetFW.Rule>, rules: seq<WinNetFW.Rule>)
    requires Request(fs, lines).Success?
  {
    var toBlock := StillToBlock(Request(fs, lines).value, Existing(initial));
    var toUnblock := ToUnblock(Request(fs, lines).value, Existing(initial));
    && NoDuplicates(blocked)
    && (forall app :: app in blocked <==> app in toBlock && WinNetFW.PairAdded(store, app, toBlock[app]))
    && NoDuplicates(unblocked)
    && (forall app :: app in unblocked <==> app in toUnblock && WinNetFW.PairRemoved(store, toUnblock[app]))
    && AppliedRules(store, toBlock, toUnblock, initial, added, rules)
  }

  /**
   * main. Fewer than two arguments exit with -2 before anything happens.
   * Otherwise `lines` are what the getline loop reads from the file argv[1]
   * names (`ListLines`: none when it cannot be opened): any error exits
   * with -1 without terminate; success calls terminate, exits with 0 and
   * has done what `RunSucceeded` says. In this model every error exit
   * leaves the store as it was, for two reasons: the removal pass never
   * fails, because every name it is given carries the outbound prefix;
   * and whether rule objects can be created is one flag of the store for
   * the whole run, so a failing add pass fails before its first Add. (In
   * the program a creation failure after some Adds leaves those rules.)
   */
  method Run(argv: seq<string>, lines: seq<string>, fs: FileSystem, policyAvailable: bool, store: WinNetFW.RuleStore)
    returns (exitCode: int, terminated: bool, blocked: seq<string>, unblocked: seq<string>, ghost added: seq<WinNetFW.Rule>)
    modifies store
    ensures exitCode == 0 || exitCode == -1 || exitCode == -2
    ensures terminated <==> exitCode == 0
    ensures exitCode == -2 <==> |argv| < 2
    ensures |argv| >= 2 ==> (exitCode == -1 <==> RunFails(fs, lines, policyAvailable, store.canCreateRules, old(store.rules)))
    ensures exitCode == 0 ==> Request(fs, lines).Success? && RunSucceeded(fs, lines, store, old(store.rules), blocked, unblocked, added, store.rules)
    ensures exitCode != 0 ==> store.rules == old(store.rules)
  {
    blocked, unblocked, added := [], [], [];
    if |argv| < 2 {
      return -2, false, blocked, unblocked, added;
    }
    var requested := ReadBlockList(fs, lines);
    if requested.Failure? {
      return -1, false, blocked, unblocked, added;
    }
    if !policyAvailable {
      return -1, false, blocked, unblocked, added;
    }
    ghost var initial := store.rules;
    var rules := WinNetFW.GetRules(store, Some(IsOutRuleName), None);
    var toBlock, toUnblock := Reconcile(requested.value, rules);
    UnblockNamesAreOutNames(requested.value, initial);
    var ok;
    ok, blocked, unblocked, added := ApplyDiff(store, toBlock, toUnblock);
    if !ok {
      return -1, false, blocked, unblocked, added;
    }
    return 0, true, blocked, unblocked, added;
  }

  /**
   * The lines main's getline loop reads from the list file: all of them,
   * or none when the file cannot be opened (`None`), since a stream that
   * failed to open ends the loop at once.
   */
  function ListLines(listFile: Option<seq<string>>): seq<string>
  {
    if listFile.Some? then listFile.value else []
  }

  /**
   * main as written, on a list file that cannot be opened: nothing is
   * requested, so the run does not fail on reading or adding, and every
   * rule the tool owns is handed to the removal pass. With the policy
   * object available, `Run` then exits with 0 having unblocked them.
   */
  lemma UnopenableListUnblocksAll(fs: FileSystem, canCreateRules: bool, rules: seq<WinNetFW.Rule>)
    ensures Request(fs, ListLines(None)) == Success(map[])
    ensures !RunFails(fs, ListLines(None), true, canCreateRules, rules)
    ensures StillToBlock(Request(fs, ListLines(None)).value, Existing(rules)) == map[]
    ensures ToUnblock(Request(fs, ListLines(None)).value, Existing(rules)) == Existing(rules)
  {
    SkippedLinesRequestNothing(fs, []);
  }

  /**
   * main with the missing check on the list file: a file that cannot be
   * opened exits with -1 before the firewall is touched; an opened one
   * runs as `Run` does on its lines.
   */
  method RunChecked(argv: seq<string>, listFile: Option<seq<string>>, fs: FileSystem, policyAvailable: bool, store: WinNetFW.RuleStore)
    returns (exitCode: int, terminated: bool, blocked: seq<string>, unblocked: seq<string>, ghost added: seq<WinNetFW.Rule>)
    modifies store
    ensures exitCode == 0 || exitCode == -1 || exitCode == -2
    ensures terminated <==> exitCode == 0
    ensures exitCode == -2 <==> |argv| < 2
    ensures |argv| >= 2 ==> (exitCode == -1 <==>
      listFile.None? || RunFails(fs, listFile.value, policyAvailable, store.canCreateRules, old(store.rules)))
    ensures exitCode == 0 ==>
      && listFile.Some? && Request(fs, listFile.value).Success?
      && RunSucceeded(fs, listFile.value, store, old(store.rules), blocked, unblocked, added, store.rules)
    ensures exitCode != 0 ==> store.rules == old(store.rules)
  {
    if |argv| >= 2 && listFile.None? {
      return -1, false, [], [], [];
    }
    exitCode, terminated, blocked, unblocked, added := Run(argv, ListLines(listFile), fs, policyAvailable, store);
  }

  /**
   * The end of main's work: add the block rules for `toBlock`, then
   * remove those of `toUnblock`. It fails when there is something to
   * block but no rule object can be created, or when a name to unblock is
   * too short for the removal; otherwise each callback named, once each,
   * exactly the entries whose two rules were added, respectively removed.
   */
  method ApplyDiff(store: WinNetFW.RuleStore, toBlock: map<string, string>, toUnblock: map<string, string>)
    returns (ok: bool, blocked: seq<string>, unblocked: seq<string>, ghost added: seq<WinNetFW.Rule>)
    modifies store
    ensures !ok <==>
      || (toBlock != map[] && !store.canCreateRules)
      || exists app :: app in toUnblock && |toUnblock[app]| < WinNetFW.OUT_PREFIX_LENGTH
    ensures toBlock != map[] && !store.canCreateRules ==> store.rules == old(store.rules)
    ensures ok ==>
      && NoDuplicates(blocked)
      && (forall app :: app in blocked <==> app in toBlock && WinNetFW.PairAdded(store, app, toBlock[app]))
      && NoDuplicates(unblocked)
      && (forall app :: app in unblocked <==> app in toUnblock && WinNetFW.PairRemoved(store, toUnblock[app]))
    ensures ok ==> AppliedRules(store, toBlock, toUnblock, old(store.rules), added, store.rules)
  {
    unblocked := [];
    ghost var initial := store.rules;
    var blockedCount;
    blockedCount, blocked := WinNetFW.AddBlockRules(store, toBlock);
    added := store.rules[|initial|..];
    if blockedCount.Failure? {
      return false, blocked, unblocked, added;
    }
    assert store.rules == initial + added;
    ghost var afterAdd := store.rules;
    var unblockedCount;
    unblockedCount, unblocked := WinNetFW.RemoveBlockRules(store, toUnblock);
    ok := unblockedCount.Success?;
  }

  /**
   * The store after both passes: the old rules followed by `added`, which
   * holds once each exactly the accepted block rules of `toBlock`, all
   * then without the names the removal pass took out for `toUnblock`.
   */
  ghost predicate AppliedRules(store: WinNetFW.RuleStore, toBlock: map<string, string>, toUnblock: map<string, string>,
                               initial: seq<WinNetFW.Rule>, added: seq<WinNetFW.Rule>, rules: seq<WinNetFW.Rule>)
  {
    && NoDuplicates(added)
    && (forall rule :: rule in added <==> WinNetFW.IsAddedRule(store, toBlock, rule))
    && rules == WinNetFW.WithoutNames(initial + added, WinNetFW.RemovedNamesOf(store, toUnblock, toUnblock.Keys))
  }
}
