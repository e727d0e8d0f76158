/**
 * The rule logic of gowatch's configuration: which directories are registered
 * with the filesystem watcher, which changed files trigger a reload, and which
 * command a reload runs. All three decisions are pure functions of the
 * configuration and one name.
 */
module Config {
  import opened Strings

  datatype Option<T> = None | Some(value: T)

  /** One `[command.<suffix>]` table: the command to run when a file with that suffix changes. */
  datatype Command = Command(cmd: string)

  /**
   * The `[watch]` table. Go tells a nil slice from an empty one, but every rule
   * below tests `!= nil && len > 0`, so both are the empty sequence here.
   */
  datatype WatchConfig = WatchConfig(
    includeFiles: seq<string>,
    includeDirs: seq<string>,
    excludeFiles: seq<string>,
    excludeDirs: seq<string>)

  /** The whole configuration, loaded once at startup and never changed afterwards. */
  datatype Config = Config(
    watch: WatchConfig,
    commands: map<string, Command>,
    rootDirectory: string,
    runCmd: string)

  // ---------------------------------------------------------------------------
  // Directories: matched by equality of the whole path
  // ---------------------------------------------------------------------------

  /** The search loop of the directory rule: does some entry equal `path`? */
  function ContainsPath(entries: seq<string>, path: string): (found: bool)
    ensures found <==> path in entries
  {
    if entries == [] then false
    else entries[0] == path || ContainsPath(entries[1..], path)
  }

  /**
   * Whether `directory` is registered for notifications. A non-empty include
   * list decides alone; otherwise every directory not on the exclude list is
   * watched.
   */
  function ShouldWatchDir(c: Config, directory: string): (watch: bool)
    ensures |c.watch.includeDirs| > 0 ==> (watch <==> directory in c.watch.includeDirs)
    ensures |c.watch.includeDirs| == 0 ==> (watch <==> directory !in c.watch.excludeDirs)
  {
    if |c.watch.includeDirs| > 0 then
      ContainsPath(c.watch.includeDirs, directory)
    else if |c.watch.excludeDirs| > 0 then
      !ContainsPath(c.watch.excludeDirs, directory)
    else
      true
  }

  /** With a non-empty include list the exclude list is never consulted. */
  lemma ShouldWatchDirIgnoresExcludes(c: Config, excludes: seq<string>, directory: string)
    requires |c.watch.includeDirs| > 0
    ensures ShouldWatchDir(c.(watch := c.watch.(excludeDirs := excludes)), directory)
         == ShouldWatchDir(c, directory)
  {
  }

  /** The directory rule reads the two directory lists and nothing else of the configuration. */
  lemma DirRuleReadsOnlyDirLists(c: Config, c': Config, directory: string)
    requires c.watch.includeDirs == c'.watch.includeDirs
    requires c.watch.excludeDirs == c'.watch.excludeDirs
    ensures ShouldWatchDir(c, directory) == ShouldWatchDir(c', directory)
  {
  }

  // ---------------------------------------------------------------------------
  // Files: matched by suffix
  // ---------------------------------------------------------------------------

  /** The search loop of the file rule: is some entry a suffix of `file`? */
  function AnySuffixOf(suffixes: seq<string>, file: string): (found: bool)
    ensures found <==> exists suf :: suf in suffixes && HasSuffix(file, suf)
  {
    if suffixes == [] then false
    else HasSuffix(file, suffixes[0]) || AnySuffixOf(suffixes[1..], file)
  }

  /**
   * Whether a change to `file` triggers a reload. Same precedence as the
   * directory rule, but an entry matches every name that ends with it.
   */
  function ShouldWatchFile(c: Config, file: string): (watch: bool)
    ensures |c.watch.includeFiles| > 0 ==>
      (watch <==> exists suf :: suf in c.watch.includeFiles && HasSuffix(file, suf))
    ensures |c.watch.includeFiles| == 0 ==>
      (!watch <==> exists suf :: suf in c.watch.excludeFiles && HasSuffix(file, suf))
  {
    if |c.watch.includeFiles| > 0 then
      AnySuffixOf(c.watch.includeFiles, file)
    else if |c.watch.excludeFiles| > 0 then
      !AnySuffixOf(c.watch.excludeFiles, file)
    else
      true
  }

  /** With a non-empty include list the exclude list is never consulted. */
  lemma ShouldWatchFileIgnoresExcludes(c: Config, excludes: seq<string>, file: string)
    requires |c.watch.includeFiles| > 0
    ensures ShouldWatchFile(c.(watch := c.watch.(excludeFiles := excludes)), file)
         == ShouldWatchFile(c, file)
  {
  }

  /** The file rule reads the two file lists and nothing else of the configuration. */
  lemma FileRuleReadsOnlyFileLists(c: Config, c': Config, file: string)
    requires c.watch.includeFiles == c'.watch.includeFiles
    requires c.watch.excludeFiles == c'.watch.excludeFiles
    ensures ShouldWatchFile(c, file) == ShouldWatchFile(c', file)
  {
  }

  /** With all four lists empty, every directory and every file is watched. */
  lemma EmptyRulesWatchEverything(c: Config, directory: string, file: string)
    requires c.watch == WatchConfig([], [], [], [])
    ensures ShouldWatchDir(c, directory) && ShouldWatchFile(c, file)
  {
  }

  /** An empty include entry is a suffix of every name, so it admits every file. */
  lemma EmptyIncludeWatchesEveryFile(c: Config, file: string)
    requires "" in c.watch.includeFiles
    ensures ShouldWatchFile(c, file)
  {
  }

  /** Without includes, an empty exclude entry rejects every file. */
  lemma EmptyExcludeRejectsEveryFile(c: Config, file: string)
    requires c.watch.includeFiles == [] && "" in c.watch.excludeFiles
    ensures !ShouldWatchFile(c, file)
  {
  }

  // ---------------------------------------------------------------------------
  // Commands: a suffix-keyed table with a default
  // ---------------------------------------------------------------------------

  /**
   * Go ranges over a map in an order the runtime picks, and picks afresh on
   * every loop. `order` stands for one such pick: every key exactly once,
   * so the loop makes exactly as many steps as the map has keys.
   */
  predicate IsRangeOrder(order: seq<string>, commands: map<string, Command>)
    ensures IsRangeOrder(order, commands) ==> |order| == |commands|
  {
    var visitsEachKeyOnce :=
      && (forall k :: k in order ==> k in commands)
      && (forall k :: k in commands ==> k in order)
      && (forall i, j :: 0 <= i < j < |order| ==> order[i] != order[j]);
    // The length fact is proved here rather than in a lemma of its own so that
    // every caller that knows `IsRangeOrder` gets it without a further call.
    if visitsEachKeyOnce then
      DistinctElementsCount(order);
      assert (set k | k in order) == commands.Keys;
      true
    else
      false
  }

  /** A sequence without repeated elements has as many elements as its set of elements. */
  lemma {:induction false} DistinctElementsCount(order: seq<string>)
    requires forall i, j :: 0 <= i < j < |order| ==> order[i] != order[j]
    ensures |(set k | k in order)| == |order|
  {
    if order != [] {
      DistinctElementsCount(order[1..]);
      assert (set k | k in order) == {order[0]} + (set k | k in order[1..]);
      assert order[0] !in (set k | k in order[1..]);
    }
  }

  /** The search loop of `getRunCmd`: the position of the first key in `order` that `file` ends with. */
  function FirstMatch(order: seq<string>, file: string): (pos: Option<nat>)
    ensures pos.Some? ==> pos.value < |order| && HasSuffix(file, order[pos.value])
    ensures pos.Some? ==> forall j :: 0 <= j < pos.value ==> !HasSuffix(file, order[j])
    ensures pos.None? ==> forall j :: 0 <= j < |order| ==> !HasSuffix(file, order[j])
  {
    if order == [] then None
    else if HasSuffix(file, order[0]) then Some(0)
    else match FirstMatch(order[1..], file)
      case None => None
      case Some(p) => Some(p + 1)
  }

  /** `key` is a key of the command table and a suffix of `file`. */
  predicate Matches(c: Config, file: string, key: string)
  {
    key in c.commands && HasSuffix(file, key)
  }

  /**
   * What the command lookup promises: the command of some key that `file`
   * ends with, or the default command when no key matches.
   */
  ghost predicate Resolves(c: Config, file: string, cmd: string)
  {
    if exists k :: Matches(c, file, k) then
      exists k :: Matches(c, file, k) && c.commands[k].cmd == cmd
    else
      cmd == c.runCmd
  }

  /** The command a change to `file` runs, when the map is ranged over in `order`. */
  function GetRunCmd(c: Config, order: seq<string>, file: string): (cmd: string)
    requires IsRangeOrder(order, c.commands)
    ensures Resolves(c, file, cmd)
  {
    match FirstMatch(order, file)
    case Some(i) =>
      assert Matches(c, file, order[i]);
      c.commands[order[i]].cmd
    case None => c.runCmd
  }

  /** The default command is taken exactly when no key of the table is a suffix of `file`. */
  lemma FallbackExactlyWhenNoKeyMatches(c: Config, order: seq<string>, file: string)
    requires IsRangeOrder(order, c.commands)
    ensures FirstMatch(order, file).None? <==> forall k :: k in c.commands ==> !HasSuffix(file, k)
    ensures (forall k :: k in c.commands ==> !HasSuffix(file, k)) ==> GetRunCmd(c, order, file) == c.runCmd
  {
  }

  /** Some iteration order of a finite set of keys: each key exactly once. */
  ghost function Enumerate(keys: set<string>): (order: seq<string>)
    ensures forall k :: k in order <==> k in keys
    ensures forall i, j :: 0 <= i < j < |order| ==> order[i] != order[j]
    decreases |keys|
  {
    if keys == {} then []
    else
      var k :| k in keys;
      [k] + Enumerate(keys - {k})
  }

  /** The lookup is total: every table has a range order, so every file resolves to a command. */
  lemma {:induction false} EveryFileResolves(c: Config, file: string)
    ensures exists order :: IsRangeOrder(order, c.commands)
    ensures exists order :: IsRangeOrder(order, c.commands) && Resolves(c, file, GetRunCmd(c, order, file))
  {
    var order := Enumerate(c.commands.Keys);
    assert IsRangeOrder(order, c.commands);
    var cmd := GetRunCmd(c, order, file);
    assert Resolves(c, file, cmd);
  }

  /**
   * The source promises no more than "some matching key": every key that
   * `file` ends with is the one chosen under some range order.
   */
  lemma {:induction false} EveryMatchCanBeChosen(c: Config, file: string, key: string)
    requires Matches(c, file, key)
    ensures exists order :: IsRangeOrder(order, c.commands) && GetRunCmd(c, order, file) == c.commands[key].cmd
  {
    var order := [key] + Enumerate(c.commands.Keys - {key});
    assert order[0] == key;
    assert IsRangeOrder(order, c.commands);
    assert FirstMatch(order, file) == Some(0);
  }

  /** When all matching keys carry the same command, the range order makes no difference. */
  lemma OrderIrrelevantWhenMatchesAgree(c: Config, file: string, o1: seq<string>, o2: seq<string>)
    requires IsRangeOrder(o1, c.commands) && IsRangeOrder(o2, c.commands)
    requires forall k1, k2 :: Matches(c, file, k1) && Matches(c, file, k2) ==> c.commands[k1].cmd == c.commands[k2].cmd
    ensures GetRunCmd(c, o1, file) == GetRunCmd(c, o2, file)
  {
  }

  // ---------------------------------------------------------------------------
  // Worked configurations
  // ---------------------------------------------------------------------------

  /** `include_files = [".go"]`: saving `main.go` reloads, saving `notes.txt` does not. */
  lemma IncludeGoScenario(c: Config)
    requires c.watch == WatchConfig([".go"], [], [], [])
    ensures ShouldWatchFile(c, "main.go")
    ensures !ShouldWatchFile(c, "notes.txt")
  {
  }

  /**
   * A `.css` override with a default: `style.css` runs the override and
   * `index.html` the default, whatever the range order.
   */
  lemma CssOverrideScenario(c: Config, order: seq<string>)
    requires c.commands == map[".css" := Command("echo css-build")]
    requires c.runCmd == "echo default-build"
    requires IsRangeOrder(order, c.commands)
    ensures GetRunCmd(c, order, "style.css") == "echo css-build"
    ensures GetRunCmd(c, order, "index.html") == "echo default-build"
  {
  }

  /**
   * Keys `.go` and `_test.go` both match `a_test.go`; neither the longer key
   * nor the one written first is preferred: either command may run.
   */
  lemma {:induction false} OverlappingKeysScenario(c: Config)
    requires c.commands == map[".go" := Command("go run ."), "_test.go" := Command("go test")]
    ensures exists order :: IsRangeOrder(order, c.commands) && GetRunCmd(c, order, "a_test.go") == "go run ."
    ensures exists order :: IsRangeOrder(order, c.commands) && GetRunCmd(c, order, "a_test.go") == "go test"
  {
    HasSuffixOfConcat("a_test", ".go");
    assert "a_test" + ".go" == "a_test.go";
    HasSuffixOfConcat("a", "_test.go");
    assert "a" + "_test.go" == "a_test.go";
    EveryMatchCanBeChosen(c, "a_test.go", ".go");
    EveryMatchCanBeChosen(c, "a_test.go", "_test.go");
  }
}
