# FWMFW reconciliation core in Dafny

FWMFW ("firewall my files, Windows") reads a block list. Each line of it
names an executable or a folder of executables. The tool adds an inbound
and an outbound Windows firewall block rule for each requested executable
that has no outbound rule of the tool yet. The rules are named `FWMFW_IN_<key>` and
`FWMFW_OUT_<key>`. For an executable named on its own line, the key is
its path from its parent folder on. For an executable listed (recursively)
under a folder line, the key starts at the last folder of that line:
folder `C:\G\Foo` with file `C:\G\Foo\sub\c.exe` gives `Foo\sub\c.exe`.
Rules the tool created earlier for executables no longer listed are removed.

This project models that core in four modules:

- `Wrappers` (`wrappers.dfy`): `Option`, `Result` and a few sequence facts.
- `Utils` (`utils.dfy`): the string helpers of `Source/Utils.cxx`.
  - Trimming by a character predicate, with the code as written and a corrected version.
  - Whitespace trimming.
  - Character replacement.
  - The prefix, suffix and substring tests.
- `WinNetFW` (`winnetfw.dfy`): the rule-store adapter of `Source/WinNetFW.cxx`.
  - The firewall's rule collection is a `RuleStore` object.
  - It holds the rules in enumeration order.
  - Oracles fixed at construction decide whether `Add` succeeds for a rule, whether `Remove` succeeds for a name, and whether new rule objects can be created at all.
  - `GetRules`, `AddBlockRules` and `RemoveBlockRules` are loops over that store.
  - Each is proved against a specification function or predicate.
- `Driver` (`fwmfw.dfy`): `main` of `Source/FWMFW.cxx`.
  - Reading the block list line by line into the request map.
  - The display key: the suffix after the second-to-last backslash, with the `size_t` wrap-around of the `- 1` and `+ 1` applied to `find_last_of`'s results written out.
  - The diff loop against the existing `FWMFW_OUT_` rules.
  - The add and remove passes.
  - The exit codes.

Inputs the program gets from the operating system are parameters:

- The block-list file is its sequence of lines.
- The file system is a `FileSystem` value. It says which paths exist, which are directories, and what the recursive `.exe` listing of a directory returns.
- Whether the firewall policy object can be created is a boolean.

Unordered maps are iterated in an unspecified order. The model picks that order by a nondeterministic choice (`:|`), so every contract holds for every order. This covers three maps: `main`'s map of existing rules in the diff loop, the map of entries in the add and remove passes, and their two-element `directions` map.

Two details of the code that the model keeps:

- `getRules` applies its second filter, `appNameFilter`, to the rule name (`Source/WinNetFW.cxx:114`), although the parameter's name suggests the application name. The model does the same (`WinNetFW.Accepts`). `main` never passes that filter, so the tool's behaviour does not depend on it.
- `FWMFW::WinNetFW::Exception` derives privately from `std::exception` (`Source/WinNetFW.hxx:21`). So `catch (std::exception&)` in `main` cannot catch it, and only `catch (...)` does. Both handlers return -1, so the model has a single error exit.

## Model

| member | source | states |
|---|---|---|
| Utils.Trimmed | Source/Utils.cxx:14-17 | The intended trim is the contiguous slice of the input that starts where the leading run of matching characters ends. Everything after the slice matches. The slice is empty iff every character matches. Otherwise its first and last characters both fail the predicate. |
| Utils.TrimmedIdempotent | Source/Utils.cxx:15-16 | Trimming twice equals trimming once. |
| Utils.TrimCharsAsWritten | Source/Utils.cxx:11-18 | trimChars as written. An empty input is returned unchanged. The call has no result exactly when the input is non-empty and every character matches: the loops then read past the string, or `substr(1)` throws. Otherwise the result is the intended trim. |
| Utils.TrimChars | Source/Utils.cxx:11-18 | trimChars with the loops guarded at the empty string. An empty input is returned unchanged, and the result is always the intended trim. |
| Utils.TrimWhiteSpaces | Source/Utils.cxx:20-23 | The result is the intended trim by the `isspace` characters. |
| Utils.BlankLineHasNoTrimAsWritten | Source/Utils.cxx:15-16 | The line "  " is non-empty and all whitespace, so trimChars as written has no result for it. The intended trim is empty, a line the driver skips. |
| Utils.Replaced | Source/Utils.cxx:25-36 | Replacement keeps the length and every position that did not hold `findChar`. When `stopAtFirstHit` is false, every occurrence becomes `replacement`. When it is true, only the first occurrence does. |
| Utils.ReplacedAllLeavesNone | Source/Utils.cxx:29-34 | After replacing every occurrence of `findChar` by a different character, none is left. |
| Utils.ReplacedFirstOnly | Source/Utils.cxx:29-34 | With `stopAtFirstHit` (the default of `Source/Utils.hxx:18-20`), exactly the first occurrence is replaced. The text before and after it is unchanged. |
| Utils.ReplaceChars | Source/Utils.cxx:25-36 | The in-place scan computes `Replaced`, for both values of `stopAtFirstHit`. |
| Utils.StartsWith | Source/Utils.cxx:38-42 | True iff `beginning` is a prefix of `str`. False when `str` is shorter. True for an empty `beginning`. |
| Utils.EndsWith | Source/Utils.cxx:44-48 | True iff `ending` is a suffix of `str`. False when `str` is shorter. True for an empty `ending`. |
| Utils.Find | Source/Utils.cxx:53 | `std::string::find` gives the first index at or after `from` where the text occurs, or none when there is no such index. |
| Utils.Contains | Source/Utils.cxx:50-54 | True iff `strToFind` occurs as a contiguous substring of `str`. False when it is longer than `str`. |
| Driver.PrefixesAgree | Source/FWMFW.cxx:15-17 | The driver's `FWMFW_IN_`/`FWMFW_OUT_` prefixes are the ones the adapter names rules with. The outbound prefix is ten characters long. |
| Driver.FindLastOf | Source/FWMFW.cxx:57 | `find_last_of(c, pos)` gives an index at or before `pos` holding `c`, and no later index at or before `pos` holds `c`. None stands for npos. |
| Driver.KeyStart | Source/FWMFW.cxx:57 | `startIdx`, computed with size_t wrap-around, never exceeds the length of the string. |
| Driver.KeyStartAfterSecondToLast | Source/FWMFW.cxx:57 | With two or more backslashes, the key starts one past the second-to-last backslash. |
| Driver.KeyStartSingle | Source/FWMFW.cxx:66 | With one backslash, the key is the whole string. When that backslash is the first character, `last - 1` wraps to npos and the key drops the backslash. |
| Driver.KeyStartNone | Source/FWMFW.cxx:66 | Without a backslash, both searches give npos and the key is the whole string. |
| Driver.ListedFileKey | Source/FWMFW.cxx:57-60 | A file listed under a directory string is keyed by the directory's key followed by the rest of the file's path. |
| Driver.BlockListItem | Source/FWMFW.cxx:42-48 | A line is skipped iff, after its leading whitespace, nothing is left or a `#` follows. A kept item is non-empty, does not start with `#`, has no whitespace at either end, and has no `/` left. |
| Driver.DirectoryPath | Source/FWMFW.cxx:51-55 | A directory line has its leading and trailing backslashes trimmed and then exactly one backslash appended. |
| Driver.AddListing | Source/FWMFW.cxx:58-61 | Registering a listing fails (`substr` out of range) iff some listed file is shorter than `startIdx`. Otherwise the keys are the old keys plus the listed files. Every listed file maps to its suffix from `startIdx`, and the other entries are kept. |
| Driver.AddItem | Source/FWMFW.cxx:50-67 | One normalised block-list entry. Only a directory can fail. On success the keys are the old keys plus exactly the paths the entry registers (a directory its listed files, an existing ".exe" file that path). Each of those maps to its display key: its suffix after the second-to-last backslash of the directory string, or of the file's own path. Every other entry keeps its value. |
| Driver.AddLine | Source/FWMFW.cxx:42-69 | One line of the block list. A skipped line adds nothing. Only a directory line can fail. On success the keys are the old keys plus exactly the paths the line registers, each mapped to its display key as `AddItem` states, and every other entry keeps its value. |
| Driver.Request | Source/FWMFW.cxx:41-70 | The request map built from the lines in order maps every path to a suffix of that path. |
| Driver.RequestKeyFromLastLine | Source/FWMFW.cxx:41-70 | When reading succeeds, a path registered by some line is requested, and its value is the display key the last line registering it gives: a later registration overwrites an earlier one. |
| Driver.AddLineWellFormed | Source/FWMFW.cxx:50-69 | When every listing has the form `getFilesInDirectory` produces, a line adds exactly the paths it registers, and all of them end in ".exe". A directory line registers its listed files. An existing ".exe" file line registers that path. Any other line registers nothing. |
| Driver.RequestOfWellFormed | Source/FWMFW.cxx:41-70 | When every listing has that form, reading the block list succeeds. Its keys are exactly the paths some line registers, and each of them ends in ".exe". |
| Driver.SkippedLinesRequestNothing | Source/FWMFW.cxx:44-45 | A block list of blank and comment lines gives the empty request, whatever the file system. |
| Driver.RequestFailureSticks | Source/FWMFW.cxx:38-70 | Once a prefix of the lines fails, reading the whole list fails with the same fault: the exception leaves the loop. |
| Driver.ReadBlockList | Source/FWMFW.cxx:41-70 | The reading loop computes `Request`, including its failure. |
| Driver.ReadLine | Source/FWMFW.cxx:42-69 | The body of the loop for one line. Trim, skip, normalise, then register a directory's files or an existing ".exe" file, as `AddLine` states. |
| Driver.RegisterListing | Source/FWMFW.cxx:59-61 | The loop over a directory's files computes `AddListing`, including the `substr` failure. |
| Driver.IsOutRuleName | Source/FWMFW.cxx:79-81 | The enumeration filter holds iff `FWMFW_OUT_` is a prefix of the name, so an accepted name has at least ten characters. |
| Driver.Existing | Source/FWMFW.cxx:78-82 | Every application main finds has a non-empty name, and its rule name starts with `FWMFW_OUT_` and has at least ten characters. |
| Driver.Reconcile | Source/FWMFW.cxx:84-98 | After the diff loop, in any iteration order: the request's keys are the old request's keys minus the existing applications, with their values unchanged. The unblock map holds exactly the existing rules of applications not requested. The two key sets are disjoint. |
| Driver.UnblockNamesAreOutNames | Source/FWMFW.cxx:78-98 | Every rule name given to removeBlockRules starts with `FWMFW_OUT_`, because existing rules are enumerated with that prefix filter. So it is at least ten characters long. |
| Driver.OwnRulesAreFoundAndRemovable | Source/FWMFW.cxx:78-82 | Round trip with the adapter. Suppose the store holds the outbound rule addBlockRules made for an application, and no other outbound-prefixed rule for it. Then main's enumeration finds that rule's name for the application. Removing by that name targets exactly `FWMFW_OUT_<key>` and `FWMFW_IN_<key>`. |
| Driver.Run | Source/FWMFW.cxx:21-132 | The exit code is 0, -1 or -2, and `terminate` is called iff it is 0. -2 comes iff fewer than two arguments are given. Otherwise -1 comes iff reading the list fails (a listed path is shorter than its directory's key start, so `substr` throws), the policy object cannot be created, or there is something to block but no rule object can be created. In this model every non-zero exit leaves the store unchanged, for two reasons. The removal pass cannot fail on the outbound names main gives it. And rule-object creation is one flag for the whole run, so a failing add pass adds nothing. A list file that cannot be opened is not an error: it reads as no lines (`ListLines`), as `UnopenableListUnblocksAll` states. On 0, the blocked callback named exactly the requested applications without a rule whose two rules were both added, once each. The unblocked callback named exactly the unrequested applications whose two rules were both removed, once each. The store is then the old rules followed by exactly the accepted block rules, once each, without the names the removals took out. |
| Driver.UnopenableListUnblocksAll | Source/FWMFW.cxx:39-41 | A list file that cannot be opened gives no lines, so the request is empty. The run then cannot fail on reading or adding. Nothing is left to block, and every rule the tool owns goes to the removal pass. With the policy object available, `Run` exits 0 after unblocking them. |
| Driver.RunChecked | Source/FWMFW.cxx:21-132 | main with a check on the list file. A file that cannot be opened exits -1 (with at least two arguments), leaves the store unchanged and skips terminate. An opened file runs as `Run` does on its lines, with the same exit codes, callbacks and final store. |
| Driver.ApplyDiff | Source/FWMFW.cxx:100-116 | The add pass and then the remove pass. This fails iff there is something to block but no rule object can be created (the store is then unchanged), or some name to unblock is shorter than ten characters. Otherwise each callback fired as addBlockRules and removeBlockRules promise, and the store is the old rules followed by exactly the accepted block rules, once each, without the names the removals took out. |
| WinNetFW.RuleName | Source/WinNetFW.cxx:189-195 | A rule name is the direction's prefix followed by the key: it starts with that prefix, and dropping the prefix gives the key. |
| WinNetFW.BlockRule | Source/WinNetFW.cxx:183-198 | The rule created for an entry and direction has that application and direction, blocks, is enabled, carries the tool's description, and is named by the direction's prefix followed by the key. |
| WinNetFW.RemovalName | Source/WinNetFW.cxx:246-251 | The outbound removal uses the given name. The inbound removal fails iff the name is shorter than ten characters; otherwise it uses `FWMFW_IN_` followed by the name without its first ten characters. |
| WinNetFW.Accepts | Source/WinNetFW.cxx:104-115 | A rule with an empty name or application name is never kept. Without filters, every other rule is. A rule kept under `appNameFilter` has its rule name accepted by that filter. |
| WinNetFW.RuleNamePrefixes | Source/WinNetFW.cxx:189-195 | Only outbound rule names start with `FWMFW_OUT_`, and only inbound ones with `FWMFW_IN_`. Dropping the prefix gives back the key. |
| WinNetFW.RemovalNameInvertsRuleName | Source/WinNetFW.cxx:246-253 | For the name `FWMFW_OUT_<key>`, removal targets `FWMFW_OUT_<key>` outbound and `FWMFW_IN_<key>` inbound. These are the names addBlockRules gave. |
| WinNetFW.OutNamesHaveRemovalNames | Source/WinNetFW.cxx:250 | A name starting with `FWMFW_OUT_` survives the `substr(10)` of the inbound removal. |
| WinNetFW.RuleStore.Add | Source/WinNetFW.cxx:198 | `Add` succeeds as its oracle says. A rule that is accepted joins the end of the collection, and nothing else changes. |
| WinNetFW.RuleStore.Remove | Source/WinNetFW.cxx:253 | `Remove` succeeds as its oracle says. If it succeeds, every rule of that name leaves the collection and the order of the rest is kept. Otherwise nothing changes. |
| WinNetFW.Enumerate | Source/WinNetFW.cxx:104-118 | In the map getRules returns, every application name and rule name is non-empty, and every rule name passes each filter given. |
| WinNetFW.EnumerateKeys | Source/WinNetFW.cxx:104-118 | An application is a key of the map iff some kept rule has it as its application. A rule is kept when both names are non-empty and the filters accept it. Rules with an empty name or application name are skipped. |
| WinNetFW.EnumerateValues | Source/WinNetFW.cxx:117-118 | The value recorded for an application is the name of a kept rule for it. |
| WinNetFW.EnumerateLastWins | Source/WinNetFW.cxx:117-118 | The value recorded is the name of the last kept rule for that application: later rules overwrite earlier ones. |
| WinNetFW.GetRules | Source/WinNetFW.cxx:69-133 | The enumeration loop computes `Enumerate` of the store. |
| WinNetFW.AddBlockRulePair | Source/WinNetFW.cxx:154-206 | For one entry, and in either direction order: if no rule object can be created, this fails and adds nothing. Otherwise exactly the accepted rules among `FWMFW_IN_<key>` and `FWMFW_OUT_<key>` are appended, each once. Both are blocking, enabled, for the application, and carry the tool's description. The count and the callback advance once iff both Adds succeed. |
| WinNetFW.PairAppendedRules | Source/WinNetFW.cxx:155-199 | Whichever order the directions come in, each accepted rule of the pair is appended exactly once. |
| WinNetFW.AddBlockRules | Source/WinNetFW.cxx:135-217 | With entries and no way to create rule objects, the pass fails, fires nothing and leaves the store unchanged. Otherwise the count equals the number of callbacks and is at most the number of entries. The callback named, once each, exactly the entries whose two Adds succeeded. The old rules are kept as a prefix. The appended rules are, once each, exactly the accepted block rules of the entries. |
| WinNetFW.RemoveBlockRulePair | Source/WinNetFW.cxx:238-262 | For one entry, and in either direction order: the store loses exactly the names whose Remove succeeded. A name shorter than ten characters fails once the inbound name is derived, with at most the outbound removal done. Otherwise the count and the callback advance once iff both removals succeed. |
| WinNetFW.RemoveBlockRules | Source/WinNetFW.cxx:220-276 | The pass fails iff some entry's name is shorter than ten characters. Otherwise the count equals the number of callbacks and is at most the number of entries. The callback named, once each, exactly the entries whose two removals succeeded. The store is the old one without exactly the names those removals took out. |

## Left out

- COM lifecycle is not modelled: `initialize`/`terminate`, `ReleaseDeleter`, `QueryInterface`/`Release` and the `FireWallPolicy` destructor are foreign object management. The constructor's failure is the `policyAvailable` parameter of `Driver.Run`. `terminate` is the `terminated` result.
- `w32WStrToUTF8Str` and `utf8StrToW32WStr` are the identity: strings are `seq<char>` throughout, so an encoding failure is not modelled.
- `doesDirectoryExist`, `doesFileExist` and `getFilesInDirectory` are the `FileSystem` oracle. The recursive `FindFirstFileA` walk is not modelled, only its result. The well-formedness lemmas assume what that walk produces: each path is the directory string followed by a name ending in ".exe".
- Reading the file with `std::ifstream`/`getline` is not modelled. The file is its sequence of lines. A file that cannot be opened has none (`Driver.ListLines`), which is the behaviour of the "## Findings" row for `Source/FWMFW.cxx:39-41`.
- Console output is not modelled. This covers the usage text, the per-entry "Blocked"/"Unblocked" lines and the summary line. The per-entry callbacks are the `blocked`/`unblocked` sequences, and the counts are their lengths.
- Exception classes and message texts are not modelled: a fault is an enum value, and every fault in `main` ends in exit code -1.
- `std::isspace` is the fixed "C" locale set (space, tab, newline, vertical tab, form feed, carriage return).
- HRESULTs that the code ignores (`get_Rules`, `get__NewEnum`, `get_Count`, `Next`, the `put_*` calls) are taken as succeeding. So getRules has no failure path, and the enumerator yields the collection in order.
- Whether a rule object can be created (`CoCreateInstance`/`QueryInterface` at `Source/WinNetFW.cxx:162-174`) is one flag of the store for the whole run, not a per-call outcome. So the claim that a failed add pass leaves the store unchanged holds only in the model. This covers `WinNetFW.AddBlockRules`, `Driver.ApplyDiff` and the error exits of `Driver.Run`. In the program, a creation that fails after some entries or after the first direction keeps the rules already added at `Source/WinNetFW.cxx:198`, and main still returns -1.
- `INetFwRules::Remove` is assumed to remove every rule of the given name. The interface documents removal by name, not which duplicates go.
- Driver.KeyStartAfterSecondToLast, Driver.KeyStartSingle, Driver.KeyStartNone: these require the string to be shorter than npos, as every `std::string` is. `KeyStart` itself is total.
- Driver.BlockListItem: uses the corrected trim `Utils.Trimmed`. For a non-empty all-whitespace line, trimChars as written has no result; that behaviour is `Utils.TrimCharsAsWritten`.
- Driver.DirectoryPath: uses the corrected trim `Utils.Trimmed`. For a directory line of backslashes only (a drive root such as "\\"), trimChars as written has no result; that behaviour is `Utils.TrimCharsAsWritten`.
- Driver.ReadLine: calls the corrected `Utils.TrimChars` and `Utils.TrimWhiteSpaces`, so it and `Driver.Run` describe the program with the trim fixed. On the two inputs above the code as written is undefined, which is `Utils.TrimCharsAsWritten`.
- Utils.TrimWhiteSpaces: goes through the corrected `Utils.TrimChars`. The as-written behaviour on an all-whitespace string is `Utils.TrimCharsAsWritten`.
- Driver.Run and Driver.ApplyDiff: when the add pass has run and the removal pass fails (which cannot happen from `main`), the store is not stated.
- Driver.Run: reads the block list through `Driver.ReadLine`, so it describes the program with the corrected trim. For a non-empty all-whitespace line, or a directory line of backslashes only, the code as written has no defined result; that behaviour is `Utils.TrimCharsAsWritten`.
- WinNetFW.RemoveBlockRules: when the pass fails, the store is stated only to have lost some set of names, not which ones. Which entries were processed before the failing one depends on the unspecified iteration order.
- Two requested paths with the same display key (the same parent folder and file name under different roots) get rules with the same names. Removing one then removes both. The model keeps this behaviour and proves nothing against it.

## Findings

| source | as written | input that shows it | evidently intended | confidence | as-written member | corrected member |
|---|---|---|---|---|---|---|
| Source/Utils.cxx:15-16 | The trimming loops read `trimmed[0]` and `trimmed[trimmed.length() - 1]` without checking for emptiness. On a non-empty string whose characters all match the predicate, the first loop shrinks the string to nothing. It then reads `trimmed[0]`, the terminating NUL, and `substr(1)` of the empty string throws if the predicate accepts NUL. Otherwise the second loop reads `trimmed[trimmed.length() - 1]`, an out-of-bounds read. | The whitespace-only block-list line "  " through `trimWhiteSpaces`. Also a directory line holding only backslashes through the backslash trim. | Stop at the empty string, so that trimming a string of matching characters gives "". The driver then skips a blank line. | not executed | Utils.TrimCharsAsWritten (with Utils.BlankLineHasNoTrimAsWritten) | Utils.TrimChars |
| Source/FWMFW.cxx:39-41 | The list file is opened with `std::ifstream`, and the stream's state is never checked. A file that cannot be opened makes the first `getline` fail, so the loop reads no lines and the request is empty. The diff loop then sends every existing `FWMFW_OUT_` rule to removeBlockRules, and main returns 0. | A path in argv[1] that does not exist, while the firewall holds rules the tool created. | Treat a list file that cannot be opened as an error: exit -1 before touching the firewall, as for a list that cannot be read. | not executed; the intent is inferred from the -1 exit for the other reading errors | Driver.UnopenableListUnblocksAll (with Driver.Run) | Driver.RunChecked |
