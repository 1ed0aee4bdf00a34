# Finer-filter autoload generation (ezadvancedautoload), modelled in Dafny

The ezadvancedautoload extension for eZ Publish overrides the kernel's
autoload-array generator so that it leaves out the classes of extensions that
are not active. Its "finer filter" branch works in three steps:

- it builds the filters for a scan of one directory: include `.php` files,
  exclude the well-known non-source directories below the root, plus the
  caller's extra patterns;
- it walks the directory with a callback that records each file, except
  directory entries and, under the extension and kernel-override modes, files
  of inactive extensions;
- it sorts the recorded paths.

When a class turns up a second time, `classExistsInArray` decides whether the
new file is refused or overrides the entry already there. The test uses the
positions of the two files' extensions in the active-extension list.

Files:

- `wrappers.dfy`: module `Wrappers`, an `Option` type standing for PHP's
  `null`/`false` results.
- `string_order.dfy`: module `StringOrder`. The byte-wise string order that
  PHP `sort` uses on paths, and an insertion sort proved to return a sorted
  permutation. Any two sorted permutations are proved equal, so the scan's
  output does not depend on the walk order.
- `autoload_generator.dfy`: module `AutoloadGenerator`, the generator itself.
  - `Generator` is a datatype: the code reads the generator's state but never
    writes it.
  - `WalkContext` is a class whose `elements` and `count` the callback
    updates in place.
  - `ExclusionFilters`, `FindRecursive` and `FindRecursiveCallback` are
    methods with loops, proved against the functions `ExclusionList` and
    `Collected`; `BuildFileList` composes them.
  - `ClassExistsInArray` is a function. It returns the Boolean result together
    with the log event it causes.

Some facts about what the code does, contrary to the common reading that the
earlier extension in the active list wins and that deciding twice is harmless:

- Lines 196-197 test that the collision's extension index is strictly less
  than the new file's. So the extension listed LATER in the active list wins,
  not the earlier one (`LaterExtensionOverrides`, `LatestActiveExtensionWins`).
- Checking the same file a second time against an array that already holds it
  counts the class as present and logs an issue. It is not a silent accept
  (`SameFileAgainIsRefused`).
- Line 192 always takes the colliding entry's extension from the in-progress
  array, even when the existing array of another mode was checked. If the
  in-progress array lacks the class, the collision is always refused
  (`ExistingArrayCollisionIsRefused`). The model keeps this behaviour as
  written.
- PHP `empty("0")` is true, so a root path of `"0"` gives `false` just as `""`
  does (`BuildFileList`).

## Model

| member | source | states |
|---|---|---|
| `StringOrder.SortStrings` | private/classes/ezautoloadgenerator.php:112 | the sorted paths are in non-decreasing string order and have the same multiset of elements as the paths collected |
| `StringOrder.SortedPermutationUnique` | private/classes/ezautoloadgenerator.php:112 | two sorted sequences with the same elements are equal, so the sort's result is fully determined by the multiset of paths |
| `StringOrder.SortIsOrderIndependent` | private/classes/ezautoloadgenerator.php:112 | walks that record the same paths in any order yield the same sorted list |
| `AutoloadGenerator.ExclusionList` | private/classes/ezautoloadgenerator.php:71-77 | the exclusion list starts with the default pattern anchored at the root; every extra pattern follows, in order, only when the extra filter is an array; otherwise the list is only the default pattern |
| `AutoloadGenerator.ExclusionFilters` | private/classes/ezautoloadgenerator.php:70-77 | the loop builds exactly that exclusion list: default pattern first, then each element of a non-empty extra array in its original order |
| `AutoloadGenerator.BuildFileList` | private/classes/ezautoloadgenerator.php:68-83 | returns `false` (None) exactly when the path is PHP-empty (`""` or `"0"`); otherwise it returns the sorted result of a scan whose include list is exactly `[.php suffix]` and whose exclusion list is the one built above |
| `AutoloadGenerator.Collected` | private/classes/ezautoloadgenerator.php:133-159 | the recorded paths number at most the callback invocations, and each is `sourceDir/fileName` of an entry the callback admits |
| `AutoloadGenerator.WalkContext.constructor` | private/classes/ezautoloadgenerator.php:105-106 | a new walk context holds the generator, no elements and a count of 0 |
| `AutoloadGenerator.FindRecursiveCallback` | private/classes/ezautoloadgenerator.php:133-159 | for a directory entry, or a file of an extension that is not active while a gated mode (extension or kernel override) is active, the context stays unchanged; otherwise exactly `sourceDir/fileName` is appended at the end and the count grows by one |
| `AutoloadGenerator.FindRecursive` | private/classes/ezautoloadgenerator.php:99-117 | the returned list is the sorted form of the paths the callbacks recorded (sorted and a permutation of them by `SortStrings`), and the count the walk reports equals the number of returned paths |
| `AutoloadGenerator.CollectedAppend` | private/classes/ezautoloadgenerator.php:155 | the callbacks only append: the paths of a longer walk extend those of its prefix, and earlier elements are never changed or reordered |
| `AutoloadGenerator.CollectedComplete` | private/classes/ezautoloadgenerator.php:135-156 | every entry the callback admits has its path in the collected list (the converse of `Collected`'s contract) |
| `AutoloadGenerator.UncheckedModesKeepEveryFile` | private/classes/ezautoloadgenerator.php:138-151 | modes other than extension and kernel override never reject: with none of those two active, every non-directory entry is recorded |
| `AutoloadGenerator.InactiveExtensionIsNotCollected` | private/classes/ezautoloadgenerator.php:137-146 | with the extension or kernel-override mode active, every recorded path comes from a file whose directory belongs to an active extension |
| `AutoloadGenerator.ListedFilesArePhp` | private/classes/ezautoloadgenerator.php:71-80 | if the walker passes the callback only files that match the include list and no exclusion, then every listed file ends in `.php`, lies outside the default excluded directories and matches none of the extra patterns |
| `AutoloadGenerator.BelowVarIsNeverEligible` | private/classes/ezautoloadgenerator.php:71 | a path below `root/var/` fails the scan's filters whatever the extra patterns are |
| `AutoloadGenerator.ClassesFileIsEligible` | private/classes/ezautoloadgenerator.php:71-80 | a `.php` file below `root/classes/` passes the filters of a scan with no extra patterns: no default exclusion catches it |
| `AutoloadGenerator.FlippedIndex` | private/classes/ezautoloadgenerator.php:193 | `array_flip` gives a name no index iff it is not in the list; otherwise it gives the position of its last occurrence |
| `AutoloadGenerator.Priority` | private/classes/ezautoloadgenerator.php:193-197 | an extension name has a priority iff it is known and in the active list, and the priority is a position holding that name |
| `AutoloadGenerator.ClassExistsInArray` | private/classes/ezautoloadgenerator.php:177-217 | the in-progress array is used iff the check mode equals the generating mode and that array is given, otherwise the existing array of the check mode; an absent class gives `false` with no log; for a present class the result is `false` (override, with a notice naming the overridden file) iff both extensions are active and the in-progress entry's comes strictly before the new file's; `logIssue` is recorded iff the result is `true` |
| `AutoloadGenerator.FlippedIndexOfUnique` | private/classes/ezautoloadgenerator.php:193 | in an active list without repeats, each name's flipped index is its own position |
| `AutoloadGenerator.LaterExtensionOverrides` | private/classes/ezautoloadgenerator.php:196-197 | with a unique active list, a new file overrides an in-progress collision iff its extension is listed strictly later than the collision's |
| `AutoloadGenerator.OverrideIsOneWay` | private/classes/ezautoloadgenerator.php:196-205 | if file B overrides file A, then A offered against B is refused: overriding never goes both ways |
| `AutoloadGenerator.SameFileAgainIsRefused` | private/classes/ezautoloadgenerator.php:190-211 | checking the file the in-progress array already holds for the class refuses it and logs an issue |
| `AutoloadGenerator.ExistingArrayCollisionIsRefused` | private/classes/ezautoloadgenerator.php:182-205 | a collision found in another mode's existing array is refused whenever the in-progress array lacks the class, because line 192 reads the collision's extension from there |
| `AutoloadGenerator.InactiveFileNeverOverrides` | private/classes/ezautoloadgenerator.php:196-205 | a colliding file whose extension is unknown or inactive is always refused |
| `AutoloadGenerator.Record` | private/classes/ezautoloadgenerator.php:177-217 | recording a file leaves the class defined: with the new file when the decision does not refuse it, with the file already held when it does; every other class is untouched |
| `AutoloadGenerator.LatestActiveExtensionWins` | private/classes/ezautoloadgenerator.php:196-204 | when files of active extensions that all define one class are recorded one after another, in any order, the class ends with one of those files, and its extension is the latest in the active list among them |

## Left out

- The `require_once` bootstrapping (lines 8-19) loads classes. It is not modelled.
- The constructor's `eZExtension::activeExtensions()` call (line 55) reads
  configuration. The active list is an input field of `Generator`.
- `advancedAutoloadHelper::isFinerFilterEnabled()` and every `parent::`
  delegation (lines 84, 119, 161, 213): only the enabled branch is modelled.
  The parent's implementation is not part of this model.
- `advancedAutoloadHelper::getExtensionName` is not part of this model. It is
  the arbitrary function `Generator.extensionName`, which gives None when no
  name is found.
- Line 192 calls `getExtensionName` on a missing in-progress entry. That call
  is modelled as giving None.
- The parent's `checkMode()` is the input field `Generator.activeModes`.
- `existingAutoloadArrays[checkMode]` for a mode with no array is read as an
  empty array, which gives no collision.
- `ezcBaseFile::walkRecursive` (line 109) is not part of this model. It is a
  `Walker` parameter: a function from root, include list and exclude list to
  the sequence of callback invocations.
  - Its traversal order, directory pruning and I/O errors are not modelled.
  - That it hands over only files passing the filters is a hypothesis
    (`WalkHonoursFilters`) of `ListedFilesArePhp`, not a proved fact.
- Only the `mode` field of the stat record reaches the callback.
- The initial state of `ezpAutoloadFileFindContext` (no elements, count 0) is
  not in the modelled file. The `WalkContext` constructor assumes it.
- Regular expressions are not modelled.
  - The `.php` include is a suffix test.
  - The default exclusion is a prefix test on `root/<name>/` for each listed
    name, with `$path` taken literally. The source leaves it unquoted inside
    the pattern.
  - The caller's extra patterns are decided by an arbitrary matching function.
- PHP `sort` compares numeric strings numerically. The model sorts by plain
  character order.
- `in_array` compares loosely, and `array_flip`/`isset` convert `null` keys to
  `""`. The model uses exact membership and treats an unknown extension as
  never active and never indexed.
- `DIRECTORY_SEPARATOR` is the constant `/`.
- Progress output, `log` messages and the text of `logIssue` are not
  modelled. Only the event a decision causes is recorded (`LogEvent`).
- Class-declaration parsing is not modelled.
- The parent writes a decision's outcome into the in-progress array. This is
  not part of the modelled file. `Record`/`RecordAll` assume it records a
  file exactly when `classExistsInArray` returns `false`.
- The walk's count is an unbounded integer. PHP integer overflow is
  irrelevant at realistic file counts.
