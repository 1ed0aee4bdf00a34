/**
  The "finer filter" branch of eZ Publish's autoload-array generator, as the
  ezadvancedautoload extension overrides it: the list of PHP files a scan
  collects (the filters it builds, the per-file activation check of the walk
  callback, the final sort) and the decision whether a class found in a file
  collides with one already in an autoload array.
*/
module AutoloadGenerator {
  import opened Wrappers
  import opened StringOrder

  /** DIRECTORY_SEPARATOR of the platform the generator runs on. */
  const Sep: char := '/'

  /** Generation modes of the parent generator (its MODE_* constants). */
  datatype Mode = Kernel | Extension | Tests | SingleExtension | KernelOverride

  /**
    What the finer-filter branch reads of the generator object. None of it is
    changed by the code modelled here.
    - activeExtensions: the names of the active extensions, in activation order;
    - activeModes: what the parent's checkMode() returns;
    - existingAutoloadArrays: the autoload arrays already generated, per mode
      (class name to file path);
    - extensionName: the helper deriving the name of the extension that owns a
      path, None where it finds none.
  */
  datatype Generator = Generator(
    activeExtensions: seq<string>,
    activeModes: seq<Mode>,
    existingAutoloadArrays: map<Mode, map<string, string>>,
    extensionName: string -> Option<string>)

  predicate HasPrefix(s: string, p: string)
  {
    |p| <= |s| && s[..|p|] == p
  }

  predicate HasSuffix(s: string, p: string)
  {
    |p| <= |s| && s[|s| - |p|..] == p
  }

  // ---------------------------------------------------------------------------
  // Filters (buildFileList)
  // ---------------------------------------------------------------------------

  /** Directories below the scan root excluded by default; `lib/ezc` spans two path segments. */
  const DefaultExcludedNames: seq<string> :=
    ["var", "settings", "benchmarks", "bin", "autoload", "port_info", "update",
     "templates", "tmp", "UnitTest", "lib" + [Sep] + "ezc"]

  /** The regular expressions handed to the walker, by what they stand for. */
  datatype Pattern =
    | PhpSuffix                      // a path ending in `.php`
    | DefaultExclusion(root: string) // a path below `root/<name>/` for a default excluded name
    | Custom(regex: string)          // a pattern supplied by the caller, not interpreted

  /**
    Whether `p` matches `path`; `custom` decides for the caller's own patterns,
    whose regular-expression meaning is not modelled.
  */
  predicate PatternMatches(p: Pattern, path: string, custom: (string, string) -> bool)
  {
    match p
    case PhpSuffix => HasSuffix(path, ".php")
    case DefaultExclusion(root) =>
      exists k :: 0 <= k < |DefaultExcludedNames| && HasPrefix(path, root + [Sep] + DefaultExcludedNames[k] + [Sep])
    case Custom(regex) => custom(regex, path)
  }

  /** A file the walker may hand to the callback: some include pattern matches and no exclude pattern does. */
  predicate FileEligible(path: string, includes: seq<Pattern>, excludes: seq<Pattern>, custom: (string, string) -> bool)
  {
    && (exists k :: 0 <= k < |includes| && PatternMatches(includes[k], path, custom))
    && (forall k :: 0 <= k < |excludes| ==> !PatternMatches(excludes[k], path, custom))
  }

  /** The `$extraFilter` argument: PHP null, a value that is not an array, or an array of patterns. */
  datatype ExtraFilter = Null | NotArray(value: string) | Patterns(patterns: seq<string>)

  /** PHP `empty()` on a string. */
  predicate IsEmptyString(s: string)
  {
    s == "" || s == "0"
  }

  /** The exclusion list a scan of `path` uses. */
  function ExclusionList(path: string, extraFilter: ExtraFilter): (r: seq<Pattern>)
    ensures |r| >= 1 && r[0] == DefaultExclusion(path)
    ensures extraFilter.Patterns? ==>
      |r| == 1 + |extraFilter.patterns| &&
      forall i :: 0 <= i < |extraFilter.patterns| ==> r[i + 1] == Custom(extraFilter.patterns[i])
    ensures !extraFilter.Patterns? ==> |r| == 1
  {
    [DefaultExclusion(path)] +
    match extraFilter
    case Patterns(ps) => seq(|ps|, i requires 0 <= i < |ps| => Custom(ps[i]))
    case _ => []
  }

  /** Builds the exclusion list: the default pattern, then each extra pattern in order. */
  method ExclusionFilters(path: string, extraFilter: ExtraFilter) returns (exclusionFilter: seq<Pattern>)
    ensures exclusionFilter == ExclusionList(path, extraFilter)
  {
    exclusionFilter := [DefaultExclusion(path)];
    if extraFilter.Patterns? && |extraFilter.patterns| > 0 {
      var extras := extraFilter.patterns;
      for i := 0 to |extras|
        invariant |exclusionFilter| == 1 + i
        invariant exclusionFilter[0] == DefaultExclusion(path)
        invariant forall k :: 0 <= k < i ==> exclusionFilter[k + 1] == Custom(extras[k])
      {
        exclusionFilter := exclusionFilter + [Custom(extras[i])];
      }
    }
  }

  // ---------------------------------------------------------------------------
  // The walk (findRecursive, findRecursiveCallback)
  // ---------------------------------------------------------------------------

  /** One invocation of the callback by the walker: the directory, the entry's name and its stat mode. */
  datatype Entry = Entry(sourceDir: string, fileName: string, mode: nat)

  /**
    The external recursive walker: for a root and the include and exclude lists
    it is given, the callback invocations it makes, in order.
  */
  type Walker = (string, seq<Pattern>, seq<Pattern>) -> seq<Entry>

  /** The S_IFDIR bit (0x4000) of a stat mode. */
  predicate IsDirectory(mode: nat)
  {
    mode / 0x4000 % 2 == 1
  }

  /** The path the callback records for an entry. */
  function EntryPath(e: Entry): string
  {
    e.sourceDir + [Sep] + e.fileName
  }

  /** The two modes under which a file of an inactive extension is skipped. */
  predicate ChecksActivation(m: Mode)
  {
    m == Extension || m == KernelOverride
  }

  /** The owning extension's name is known and in the active list (`in_array`). */
  predicate IsActiveName(name: Option<string>, activeExtensions: seq<string>)
  {
    name.Some? && name.value in activeExtensions
  }

  /** Whether the callback records the entry. */
  predicate Admits(gen: Generator, e: Entry)
  {
    && !IsDirectory(e.mode)
    && ((exists k :: 0 <= k < |gen.activeModes| && ChecksActivation(gen.activeModes[k])) ==>
          IsActiveName(gen.extensionName(e.sourceDir), gen.activeExtensions))
  }

  /** The paths the callbacks of a walk record, in walk order. */
  function Collected(gen: Generator, walk: seq<Entry>): (r: seq<string>)
    ensures |r| <= |walk|
    ensures forall p :: p in r ==> exists k :: 0 <= k < |walk| && Admits(gen, walk[k]) && p == EntryPath(walk[k])
  {
    if walk == [] then []
    else
      var e := walk[|walk| - 1];
      var before := Collected(gen, walk[..|walk| - 1]);
      assert forall p :: p in before ==> exists k :: 0 <= k < |walk| - 1 && Admits(gen, walk[k]) && p == EntryPath(walk[k]);
      before + (if Admits(gen, e) then [EntryPath(e)] else [])
  }

  /** ezpAutoloadFileFindContext: what one walk accumulates. */
  class WalkContext {
    const generator: Generator
    var elements: seq<string>
    var count: int

    constructor (generator: Generator)
      ensures this.generator == generator
      ensures elements == [] && count == 0
    {
      this.generator := generator;
      elements := [];
      count := 0;
    }
  }

  /**
    The walker's callback: records a non-directory entry unless a mode that
    checks activation is active and the entry's extension is not.
  */
  method FindRecursiveCallback(context: WalkContext, sourceDir: string, fileName: string, mode: nat)
    modifies context
    ensures Admits(context.generator, Entry(sourceDir, fileName, mode)) ==>
      context.elements == old(context.elements) + [sourceDir + [Sep] + fileName] &&
      context.count == old(context.count) + 1
    ensures !Admits(context.generator, Entry(sourceDir, fileName, mode)) ==>
      context.elements == old(context.elements) && context.count == old(context.count)
  {
    if !IsDirectory(mode) {
      var activeModes := context.generator.activeModes;
      for i := 0 to |activeModes|
        invariant (exists k :: 0 <= k < i && ChecksActivation(activeModes[k])) ==>
          IsActiveName(context.generator.extensionName(sourceDir), context.generator.activeExtensions)
      {
        match activeModes[i]
        case Extension | KernelOverride =>
          var extensionName := context.generator.extensionName(sourceDir);
          if !IsActiveName(extensionName, context.generator.activeExtensions) {
            return;
          }
        case _ =>
      }
      context.elements := context.elements + [sourceDir + [Sep] + fileName];
      context.count := context.count + 1;
    }
  }

  /**
    Walks `sourceDir` with the given filters and returns the recorded paths,
    sorted, together with the count the walk reports.
  */
  method FindRecursive(sourceDir: string, includeFilters: seq<Pattern>, excludeFilters: seq<Pattern>,
                       gen: Generator, walker: Walker)
    returns (files: seq<string>, found: int)
    ensures files == SortStrings(Collected(gen, walker(sourceDir, includeFilters, excludeFilters)))
    ensures found == |files|
  {
    var context := new WalkContext(gen);
    var walk := walker(sourceDir, includeFilters, excludeFilters);
    for i := 0 to |walk|
      invariant context.elements == Collected(gen, walk[..i])
      invariant context.count == |context.elements|
    {
      assert walk[..i + 1][..i] == walk[..i];
      FindRecursiveCallback(context, walk[i].sourceDir, walk[i].fileName, walk[i].mode);
    }
    assert walk[..|walk|] == walk;
    ghost var recorded := context.elements;
    context.elements := SortStrings(context.elements);
    assert |context.elements| == |multiset(context.elements)| == |multiset(recorded)| == |recorded|;
    files, found := context.elements, context.count;
  }

  /**
    The file list of a scan of `path`: None (PHP `false`) for an empty path,
    otherwise the sorted paths of a walk with include list [PhpSuffix] and
    the exclusion list built from `extraFilter`.
  */
  method BuildFileList(gen: Generator, path: string, extraFilter: ExtraFilter, walker: Walker)
    returns (fileList: Option<seq<string>>)
    ensures IsEmptyString(path) <==> fileList.None?
    ensures !IsEmptyString(path) ==>
      fileList == Some(SortStrings(Collected(gen, walker(path, [PhpSuffix], ExclusionList(path, extraFilter)))))
  {
    var exclusionFilter := ExclusionFilters(path, extraFilter);
    if !IsEmptyString(path) {
      var files, _ := FindRecursive(path, [PhpSuffix], exclusionFilter, gen, walker);
      return Some(files);
    }
    return None;
  }

  /** The walker hands the callback only files the filters let through (directories are not filtered here). */
  predicate WalkHonoursFilters(walk: seq<Entry>, includes: seq<Pattern>, excludes: seq<Pattern>,
                               custom: (string, string) -> bool)
  {
    forall k :: 0 <= k < |walk| && !IsDirectory(walk[k].mode) ==> FileEligible(EntryPath(walk[k]), includes, excludes, custom)
  }

  /** A walk split in two records the first part's paths, then the second part's: order is kept. */
  lemma {:induction false} CollectedAppend(gen: Generator, a: seq<Entry>, b: seq<Entry>)
    ensures Collected(gen, a + b) == Collected(gen, a) + Collected(gen, b)
    decreases |b|
  {
    if b == [] {
      assert a + b == a;
    } else {
      var b', e := b[..|b| - 1], b[|b| - 1];
      var tail := if Admits(gen, e) then [EntryPath(e)] else [];
      assert (a + b)[..|a + b| - 1] == a + b' && (a + b)[|a + b| - 1] == e;
      assert Collected(gen, a + b) == Collected(gen, a + b') + tail;
      assert Collected(gen, b) == Collected(gen, b') + tail;
      CollectedAppend(gen, a, b');
    }
  }

  /** Every entry the callback admits has its path recorded. */
  lemma {:induction false} CollectedComplete(gen: Generator, walk: seq<Entry>, k: nat)
    requires k < |walk| && Admits(gen, walk[k])
    ensures EntryPath(walk[k]) in Collected(gen, walk)
    decreases |walk|
  {
    if k < |walk| - 1 {
      CollectedComplete(gen, walk[..|walk| - 1], k);
    }
  }

  /** With no mode that checks activation active, every file of the walk is recorded. */
  lemma UncheckedModesKeepEveryFile(gen: Generator, walk: seq<Entry>, k: nat)
    requires forall m :: m in gen.activeModes ==> !ChecksActivation(m)
    requires k < |walk| && !IsDirectory(walk[k].mode)
    ensures EntryPath(walk[k]) in Collected(gen, walk)
  {
    CollectedComplete(gen, walk, k);
  }

  /** With a mode that checks activation active, no file of an inactive extension is recorded. */
  lemma InactiveExtensionIsNotCollected(gen: Generator, walk: seq<Entry>, path: string)
    requires Extension in gen.activeModes || KernelOverride in gen.activeModes
    requires path in Collected(gen, walk)
    ensures exists k :: 0 <= k < |walk| && path == EntryPath(walk[k]) && !IsDirectory(walk[k].mode) &&
                          IsActiveName(gen.extensionName(walk[k].sourceDir), gen.activeExtensions)
  {
    var i :| 0 <= i < |gen.activeModes| && ChecksActivation(gen.activeModes[i]);
  }

  /**
    When the walker honours the filters it is given, every path of a file list
    ends in `.php` and lies outside the default excluded directories and
    outside every extra pattern.
  */
  lemma ListedFilesArePhp(gen: Generator, path: string, extraFilter: ExtraFilter, walker: Walker,
                          custom: (string, string) -> bool, f: string)
    requires WalkHonoursFilters(walker(path, [PhpSuffix], ExclusionList(path, extraFilter)),
                                [PhpSuffix], ExclusionList(path, extraFilter), custom)
    requires f in SortStrings(Collected(gen, walker(path, [PhpSuffix], ExclusionList(path, extraFilter))))
    ensures HasSuffix(f, ".php")
    ensures !PatternMatches(DefaultExclusion(path), f, custom)
    ensures extraFilter.Patterns? ==> forall i :: 0 <= i < |extraFilter.patterns| ==> !custom(extraFilter.patterns[i], f)
  {
    var excludes := ExclusionList(path, extraFilter);
    var walk := walker(path, [PhpSuffix], excludes);
    assert f in multiset(SortStrings(Collected(gen, walk)));
    assert f in Collected(gen, walk);
    var k :| 0 <= k < |walk| && Admits(gen, walk[k]) && f == EntryPath(walk[k]);
    assert FileEligible(f, [PhpSuffix], excludes, custom);
    assert !PatternMatches(excludes[0], f, custom);
    if extraFilter.Patterns? {
      forall i | 0 <= i < |extraFilter.patterns| ensures !custom(extraFilter.patterns[i], f) {
        assert !PatternMatches(excludes[i + 1], f, custom);
      }
    }
  }

  /** Nothing below `root/var/` passes the filters of a scan of `root`, whatever the extra patterns. */
  lemma BelowVarIsNeverEligible(root: string, rest: string, extraFilter: ExtraFilter, custom: (string, string) -> bool)
    ensures !FileEligible(root + [Sep] + "var" + [Sep] + rest, [PhpSuffix], ExclusionList(root, extraFilter), custom)
  {
    var path := root + [Sep] + "var" + [Sep] + rest;
    var prefix := root + [Sep] + DefaultExcludedNames[0] + [Sep];
    assert path[..|prefix|] == prefix;
    assert PatternMatches(ExclusionList(root, extraFilter)[0], path, custom);
  }

  /** A PHP file in `root/classes/` passes the filters of a scan of `root` without extra patterns. */
  lemma ClassesFileIsEligible(root: string, name: string, custom: (string, string) -> bool)
    ensures FileEligible(root + [Sep] + "classes" + [Sep] + name + ".php", [PhpSuffix], ExclusionList(root, Null), custom)
  {
    var path := root + [Sep] + "classes" + [Sep] + name + ".php";
    assert path[|path| - 4..] == ".php";
    var includes := [PhpSuffix];
    assert PatternMatches(includes[0], path, custom);
    forall k | 0 <= k < |DefaultExcludedNames|
      ensures !HasPrefix(path, root + [Sep] + DefaultExcludedNames[k] + [Sep])
    {
      var prefix := root + [Sep] + DefaultExcludedNames[k] + [Sep];
      assert path[|root| + 1] == 'c';
      assert prefix[|root| + 1] == DefaultExcludedNames[k][0];
    }
  }

  // ---------------------------------------------------------------------------
  // Class collisions (classExistsInArray)
  // ---------------------------------------------------------------------------

  /** What the decision writes to the log. */
  datatype LogEvent =
    | Silent
    | OverrideNotice(className: string, file: string, overridden: string)  // log(): the new file overrides
    | Issue(className: string, checkMode: Mode, file: string)              // logIssue(): the new file is refused

  /** `present`: the class counts as already defined, so the new file is refused. */
  datatype Decision = Decision(present: bool, event: LogEvent)

  /** The index `array_flip` gives `name`: that of its last occurrence in `list`. */
  function FlippedIndex(list: seq<string>, name: string): (r: Option<nat>)
    ensures r.None? <==> name !in list
    ensures r.Some? ==> r.value < |list| && list[r.value] == name &&
                        forall j :: r.value < j < |list| ==> list[j] != name
  {
    if list == [] then None
    else if list[|list| - 1] == name then Some(|list| - 1)
    else FlippedIndex(list[..|list| - 1], name)
  }

  /** The position of an extension in the active list, where it has one. */
  function Priority(gen: Generator, name: Option<string>): (r: Option<nat>)
    ensures r.Some? <==> IsActiveName(name, gen.activeExtensions)
    ensures r.Some? ==> r.value < |gen.activeExtensions| && gen.activeExtensions[r.value] == name.value
  {
    if name.None? then None else FlippedIndex(gen.activeExtensions, name.value)
  }

  /** The autoload array a class is looked up in; a mode without an existing array has none of its classes. */
  function ArrayToCheck(gen: Generator, checkMode: Mode, inProgress: Option<map<string, string>>,
                        generatingMode: Option<Mode>): map<string, string>
  {
    if generatingMode == Some(checkMode) && inProgress.Some? then inProgress.value
    else if checkMode in gen.existingAutoloadArrays then gen.existingAutoloadArrays[checkMode]
    else map[]
  }

  /** The extension of the entry the in-progress array holds for the class, the one the priority test compares. */
  function CollisionName(gen: Generator, className: string, inProgress: Option<map<string, string>>): Option<string>
  {
    if inProgress.Some? && className in inProgress.value then gen.extensionName(inProgress.value[className])
    else None
  }

  /** Whether the new file's extension (`fileName`) lets it override the collision's (`collisionName`). */
  predicate Overrides(gen: Generator, collisionName: Option<string>, fileName: Option<string>)
  {
    && collisionName.Some? && collisionName.value in gen.activeExtensions
    && fileName.Some? && fileName.value in gen.activeExtensions
    && FlippedIndex(gen.activeExtensions, collisionName.value).value < FlippedIndex(gen.activeExtensions, fileName.value).value
  }

  /**
    The collision decision for `className` found in `file`, checked against
    the arrays of `checkMode` while generating `generatingMode`.
  */
  function ClassExistsInArray(gen: Generator, className: string, checkMode: Mode, file: string,
                              inProgress: Option<map<string, string>>, generatingMode: Option<Mode>): (d: Decision)
    // the in-progress array is consulted only when generating the checked mode
    ensures generatingMode == Some(checkMode) && inProgress.Some? && className !in inProgress.value ==>
      d == Decision(false, Silent)
    ensures (generatingMode != Some(checkMode) || inProgress.None?) &&
            (checkMode !in gen.existingAutoloadArrays || className !in gen.existingAutoloadArrays[checkMode]) ==>
      d == Decision(false, Silent)
    // a collision: override iff both extensions are active and the collision's comes first
    ensures className in ArrayToCheck(gen, checkMode, inProgress, generatingMode) ==>
      (!d.present <==> Overrides(gen, CollisionName(gen, className, inProgress), gen.extensionName(file)))
    ensures className in ArrayToCheck(gen, checkMode, inProgress, generatingMode) && !d.present ==>
      d.event == OverrideNotice(className, file, ArrayToCheck(gen, checkMode, inProgress, generatingMode)[className])
    // logIssue is called exactly when the class counts as present
    ensures d.present <==> d.event == Issue(className, checkMode, file)
  {
    var arrayToCheck := ArrayToCheck(gen, checkMode, inProgress, generatingMode);
    if className !in arrayToCheck then Decision(false, Silent)
    else
      var fileRank := Priority(gen, gen.extensionName(file));
      var collisionRank := Priority(gen, CollisionName(gen, className, inProgress));
      if collisionRank.Some? && fileRank.Some? && collisionRank.value < fileRank.value then
        Decision(false, OverrideNotice(className, file, arrayToCheck[className]))
      else
        Decision(true, Issue(className, checkMode, file))
  }

  /** No extension is listed twice. */
  predicate Unique(list: seq<string>)
  {
    forall i, j :: 0 <= i < j < |list| ==> list[i] != list[j]
  }

  /** In a list without repeats, `array_flip` gives every name its own position. */
  lemma FlippedIndexOfUnique(list: seq<string>, i: nat)
    requires Unique(list) && i < |list|
    ensures FlippedIndex(list, list[i]) == Some(i)
  {
  }

  /**
    With a unique active list, a collision in the in-progress array of the mode
    being generated is overridden exactly when the new file's extension comes
    later in the active list than the collision's: the extension listed later wins.
  */
  lemma LaterExtensionOverrides(gen: Generator, className: string, mode: Mode, file: string,
                                inProgress: map<string, string>, i: nat, j: nat)
    requires Unique(gen.activeExtensions)
    requires i < |gen.activeExtensions| && j < |gen.activeExtensions|
    requires className in inProgress
    requires gen.extensionName(inProgress[className]) == Some(gen.activeExtensions[i])
    requires gen.extensionName(file) == Some(gen.activeExtensions[j])
    ensures !ClassExistsInArray(gen, className, mode, file, Some(inProgress), Some(mode)).present <==> i < j
  {
    FlippedIndexOfUnique(gen.activeExtensions, i);
    FlippedIndexOfUnique(gen.activeExtensions, j);
  }

  /** If a file overrides another, the other would not override it back. */
  lemma OverrideIsOneWay(gen: Generator, className: string, mode: Mode, older: string, newer: string,
                         before: map<string, string>, after: map<string, string>)
    requires className in before && before[className] == older
    requires className in after && after[className] == newer
    requires !ClassExistsInArray(gen, className, mode, newer, Some(before), Some(mode)).present
    ensures ClassExistsInArray(gen, className, mode, older, Some(after), Some(mode)).present
  {
  }

  /** Deciding again for the file the in-progress array already holds refuses it and logs an issue. */
  lemma SameFileAgainIsRefused(gen: Generator, className: string, mode: Mode, file: string, inProgress: map<string, string>)
    requires className in inProgress && inProgress[className] == file
    ensures ClassExistsInArray(gen, className, mode, file, Some(inProgress), Some(mode)) ==
            Decision(true, Issue(className, mode, file))
  {
  }

  /**
    A collision found in an existing array is always refused when the class is
    not in the in-progress array: the collision's extension is looked up there.
  */
  lemma ExistingArrayCollisionIsRefused(gen: Generator, className: string, checkMode: Mode, file: string,
                                        inProgress: Option<map<string, string>>, generatingMode: Option<Mode>)
    requires generatingMode != Some(checkMode)
    requires checkMode in gen.existingAutoloadArrays && className in gen.existingAutoloadArrays[checkMode]
    requires inProgress.None? || className !in inProgress.value
    ensures ClassExistsInArray(gen, className, checkMode, file, inProgress, generatingMode) ==
            Decision(true, Issue(className, checkMode, file))
  {
  }

  /** A colliding file whose extension is unknown or inactive never overrides. */
  lemma InactiveFileNeverOverrides(gen: Generator, className: string, checkMode: Mode, file: string,
                                   inProgress: Option<map<string, string>>, generatingMode: Option<Mode>)
    requires className in ArrayToCheck(gen, checkMode, inProgress, generatingMode)
    requires !IsActiveName(gen.extensionName(file), gen.activeExtensions)
    ensures ClassExistsInArray(gen, className, checkMode, file, inProgress, generatingMode).present
  {
  }

  /**
    The in-progress array after a file defining `className` is offered to it
    while generating `mode`: recorded unless the decision refuses it.
  */
  function Record(gen: Generator, className: string, mode: Mode, inProgress: map<string, string>, file: string)
    : (r: map<string, string>)
    ensures className in r
    // the new file is stored exactly when the decision does not refuse it; a refusal keeps the held file
    ensures !ClassExistsInArray(gen, className, mode, file, Some(inProgress), Some(mode)).present ==> r[className] == file
    ensures ClassExistsInArray(gen, className, mode, file, Some(inProgress), Some(mode)).present ==>
      className in inProgress && r[className] == inProgress[className]
    ensures forall c :: c != className ==> (c in r <==> c in inProgress) && (c in r ==> r[c] == inProgress[c])
  {
    if ClassExistsInArray(gen, className, mode, file, Some(inProgress), Some(mode)).present then inProgress
    else inProgress[className := file]
  }

  /** The in-progress array after the files are offered one after the other. */
  function RecordAll(gen: Generator, className: string, mode: Mode, inProgress: map<string, string>, files: seq<string>)
    : map<string, string>
  {
    if files == [] then inProgress
    else Record(gen, className, mode, RecordAll(gen, className, mode, inProgress, files[..|files| - 1]), files[|files| - 1])
  }

  /** The array holds, for the class, one of the files whose extension is latest among `files`. */
  ghost predicate HoldsLatest(gen: Generator, className: string, inProgress: map<string, string>, files: seq<string>)
  {
    && className in inProgress
    && inProgress[className] in files
    && IsActiveName(gen.extensionName(inProgress[className]), gen.activeExtensions)
    && forall f :: f in files && IsActiveName(gen.extensionName(f), gen.activeExtensions) ==>
         Priority(gen, gen.extensionName(f)).value <= Priority(gen, gen.extensionName(inProgress[className])).value
  }

  /** Recording one more file of an active extension keeps the latest extension's file. */
  lemma RecordKeepsLatest(gen: Generator, className: string, mode: Mode, inProgress: map<string, string>,
                          files: seq<string>, file: string)
    requires HoldsLatest(gen, className, inProgress, files)
    requires IsActiveName(gen.extensionName(file), gen.activeExtensions)
    ensures HoldsLatest(gen, className, Record(gen, className, mode, inProgress, file), files + [file])
  {
    var r := Record(gen, className, mode, inProgress, file);
    forall f | f in files + [file] && IsActiveName(gen.extensionName(f), gen.activeExtensions)
      ensures Priority(gen, gen.extensionName(f)).value <= Priority(gen, gen.extensionName(r[className])).value
    {
      if f != file {
        assert f in files;
      }
    }
  }

  /**
    Offering files of active extensions that all define one class, in any
    order, leaves the class with a file whose extension is the latest in the
    active list among them.
  */
  lemma {:induction false} LatestActiveExtensionWins(gen: Generator, className: string, mode: Mode,
                                                     inProgress: map<string, string>, files: seq<string>)
    requires className !in inProgress
    requires files != []
    requires forall f :: f in files ==> IsActiveName(gen.extensionName(f), gen.activeExtensions)
    ensures className in RecordAll(gen, className, mode, inProgress, files)
    ensures RecordAll(gen, className, mode, inProgress, files)[className] in files
    ensures forall f :: f in files ==>
      Priority(gen, gen.extensionName(f)).value <=
      Priority(gen, gen.extensionName(RecordAll(gen, className, mode, inProgress, files)[className])).value
    decreases |files|
  {
    var last := files[|files| - 1];
    var earlier := files[..|files| - 1];
    assert files == earlier + [last];
    if earlier == [] {
      assert RecordAll(gen, className, mode, inProgress, earlier) == inProgress;
      assert HoldsLatest(gen, className, RecordAll(gen, className, mode, inProgress, files), files);
    } else {
      forall f | f in earlier ensures IsActiveName(gen.extensionName(f), gen.activeExtensions) {
        assert f in files;
      }
      LatestActiveExtensionWins(gen, className, mode, inProgress, earlier);
      RecordKeepsLatest(gen, className, mode, RecordAll(gen, className, mode, inProgress, earlier), earlier, last);
    }
    assert HoldsLatest(gen, className, RecordAll(gen, className, mode, inProgress, files), files);
  }
}
