# gowatch rule logic in Dafny

gowatch is a live-reload file watcher. It registers a directory tree with the
operating system's change notifications. When a file changes, it kills the
running user command and starts it again. This project models the three pure
decisions behind that loop, all in `gowatch/config.go`. Each one runs on a
configuration value and one name:

- **`shouldWatchDir`**: is a directory registered for notifications? A
  non-empty `include_dirs` list decides alone, by exact path equality.
  Otherwise a directory is watched unless it equals an `exclude_dirs` entry.
- **`shouldWatchFile`**: does a change to a file trigger a reload? Same
  precedence, with `include_files` over `exclude_files`. An entry matches every
  name that ends with it (Go's `strings.HasSuffix`).
- **`getRunCmd`**: which command does a reload run? It is the command of a key
  of the `[command]` table that the file name ends with. If no key matches, it
  is the default `cmd`.

Files:

- `strings.dfy` (module `Strings`): `HasSuffix`, the model of Go's
  `strings.HasSuffix`. The empty suffix matches every string, as in Go. Its
  contract ties Go's test to an independent definition: `s` is some prefix
  followed by `suf`.
- `config.dfy` (module `Config`): the configuration datatypes, the three rules
  with their search loops, and lemmas about them.

How the model is built:

- The configuration is the datatype `Config`. Its `[watch]` lists are
  `seq<string>`. Its `[command]` table is a `map<string, Command>`.
- Go tests each list with `!= nil && len > 0`. A nil slice and an empty slice
  behave alike, so both are the empty sequence here.
- Each `for … range` loop that searches and returns early is a recursive
  function: `ContainsPath`, `AnySuffixOf` and `FirstMatch`. Each one is proved
  against a quantified definition of what it searches for.
- `getRunCmd` ranges over a Go map. Go visits a map's keys in an unspecified
  order that may change on every loop. The model takes that order as a
  parameter `order`, which lists every key exactly once (`IsRangeOrder`).
- The contract of `GetRunCmd` is `Resolves`. The result is the command of
  *some* matching key, or the default when no key matches.
- `EveryMatchCanBeChosen` shows that this contract is as tight as the source
  allows. Every matching key is the one chosen under some order.

Two consequences of the code worth stating:

- The command table is a Go map, so `getRunCmd` tries the keys in no fixed
  order. When several keys match, any of them may win; neither the key written
  first nor the longest key is preferred (`OverlappingKeysScenario`).
- `getRunCmd` returns `RunCmd` as configured, which may be the empty string.
  The model claims nothing about the command being non-empty.

## Model

| member | source | states |
|---|---|---|
| Strings.HasSuffix | gowatch/config.go:66 | Go's `strings.HasSuffix` (called at lines 66, 75 and 87): holds exactly when `s` is some prefix followed by `suf`, an independent definition of the last-characters test the body performs; so the empty suffix matches every string |
| Config.IsRangeOrder | gowatch/config.go:86 | what `range` over the command map guarantees: every key is visited exactly once, in an order Go leaves unspecified; such an order has exactly as many entries as the map has keys |
| Config.ContainsPath | gowatch/config.go:42-55 | the directory search loops (include list at 42-47, exclude list at 51-55) return true exactly when the path is an element of the list |
| Config.ShouldWatchDir | gowatch/config.go:40-59 | with a non-empty include list, a directory is watched iff it equals an include entry; with an empty include list, it is watched iff it equals no exclude entry |
| Config.ShouldWatchDirIgnoresExcludes | gowatch/config.go:41-48 | with a non-empty include list, replacing the exclude list by any other list leaves the directory decision unchanged |
| Config.DirRuleReadsOnlyDirLists | gowatch/config.go:40-59 | two configurations with the same directory lists make the same directory decision, so the file lists, command table, root and default command play no part |
| Config.AnySuffixOf | gowatch/config.go:65-78 | the file search loops (include list at 65-70, exclude list at 74-78) return true exactly when some entry of the list is a suffix of the name |
| Config.ShouldWatchFile | gowatch/config.go:63-82 | with a non-empty include list, a file is watched iff some include entry is a suffix of it; with an empty include list, it is not watched iff some exclude entry is a suffix of it |
| Config.ShouldWatchFileIgnoresExcludes | gowatch/config.go:64-71 | with a non-empty include list, replacing the exclude list by any other list leaves the file decision unchanged |
| Config.FileRuleReadsOnlyFileLists | gowatch/config.go:63-82 | two configurations with the same file lists make the same file decision, so the directory lists and the command table play no part |
| Config.EmptyRulesWatchEverything | gowatch/config.go:40-82 | with all four lists empty, every directory and every file is watched |
| Config.EmptyIncludeWatchesEveryFile | gowatch/config.go:64-71 | an empty include entry is a suffix of every name, so every file is watched |
| Config.EmptyExcludeRejectsEveryFile | gowatch/config.go:73-79 | with no include entries, an empty exclude entry makes every file unwatched |
| Config.FirstMatch | gowatch/config.go:86-90 | the command search loop returns the position of a key that is a suffix of the name, with no such key before it, or nothing when no key in the order is a suffix |
| Config.GetRunCmd | gowatch/config.go:85-93 | for every range order of the table, the command is that of some key that is a suffix of the name, or the default command when no key is a suffix |
| Config.FallbackExactlyWhenNoKeyMatches | gowatch/config.go:86-92 | the search finds nothing exactly when no key of the table is a suffix of the name, and then the default command is returned |
| Config.Enumerate | gowatch/config.go:86 | every finite set of keys has an iteration order that lists each key exactly once |
| Config.EveryFileResolves | gowatch/config.go:85-93 | the lookup is total: every table has a range order, and under it the lookup itself returns a command that meets the resolution contract |
| Config.EveryMatchCanBeChosen | gowatch/config.go:86-89 | every key that is a suffix of the name is the one whose command runs under some range order, so the source promises only "some matching key" |
| Config.OrderIrrelevantWhenMatchesAgree | gowatch/config.go:86-92 | when all matching keys carry the same command, every two range orders give the same result |
| Config.IncludeGoScenario | gowatch/config.go:64-71 | with `include_files = [".go"]`, `main.go` is watched and `notes.txt` is not |
| Config.CssOverrideScenario | gowatch/config.go:85-93 | with a `.css` override and a default, `style.css` runs the override and `index.html` runs the default, under every range order |
| Config.OverlappingKeysScenario | gowatch/config.go:86-89 | with keys `.go` and `_test.go`, either command may run for `a_test.go`, depending on the range order |

## Left out

- `newConfig` (gowatch/config.go:31-36) only calls the external TOML decoder. The model takes the decoded `Config` as a value, so TOML syntax and decoding errors are not modelled.
- `rootDirectory` is part of the `Config` datatype, but no rule reads it. It matters only to the directory walk, which is not modelled.
- The watch loop, debouncing and process supervision are not modelled. This covers `Watcher.Start`, `flushEvents`, `stop`, `stopRunningProcess` and `runCmd` in gowatch/watcher.go and cmd/watcher.go. They are goroutine and channel coordination, timed sleeps and waits on operating-system processes.
- `newWatcher` and `watchDirectory` are not modelled. They wrap fsnotify's `Add` and `filepath.Walk`, and their only decision is the call to `shouldWatchDir`, which is modelled.
- cmd/main.go is not modelled. It does flag parsing, reads the configuration file and wires up OS signals.
- gowatch/utils_windows.go is not modelled. It starts `cmd /c <command>` through `os/exec` and sets up its output pipes. `killCmd`, called from gowatch/watcher.go, is not part of this model either.
- Go strings are byte sequences, compared byte by byte; here a name is a `seq<char>` of Unicode scalar values. Names and entries are taken to be valid UTF-8: TOML guarantees this for the configured entries, and because UTF-8 is self-synchronising a valid UTF-8 suffix cannot begin inside a character, so byte-wise and character-wise suffix tests agree on such strings.
- File names that are not valid UTF-8 are not modelled. fsnotify hands raw event names to `shouldWatchFile` (gowatch/watcher.go:67), and on Linux these need not be valid UTF-8; such a name has no `seq<char>` counterpart.
