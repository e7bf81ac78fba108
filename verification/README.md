# Flask-Scss incremental builder, modelled in Dafny

Flask-Scss is a Flask extension that compiles `.scss` stylesheets to `.css`.
Its `Scss` object works out two directories when it is created:
- the asset directory, where sources live;
- the static directory, where compiled files go.

When the application runs in testing or debug mode and both directories were found, the object
registers `update_scss` to run before every request. `update_scss` does three things in turn:
1. It discovers new `.scss` files below the asset directory. Partials (names starting with `_`)
   are recorded with their modification time. Every other file is recorded with its destination
   path.
2. It checks whether any partial has been modified since it was last seen.
3. It recompiles every asset if a partial changed. Otherwise it recompiles only the assets whose
   source is strictly newer than their destination.

The project models that object and the policy it implements:

- `wrappers.dfy` (`Wrappers`): `Option`, `Result` and `Outcome`, for Python's `None` and for
  raised exceptions.
- `strings.dfy` (`Strings`): prefix and suffix tests, and `str.replace`, which rewrites every
  non-overlapping occurrence from the left. The lemmas say when replacing is the identity, and
  when it distributes over a concatenation.
- `pure_path.dfy` (`PurePath`): paths are held as their string form. The module gives pathlib's
  join, `.name`, `.stem` and `.parent`.
- `disk.dfy` (`Disk`): the filesystem is a map from path to node, and a node is a file
  (modification time and text) or a directory. The module also has the clock that stamps writes.
  Pure functions give the effect of `mkdir`, `open(…, 'w')` and `read`. The class
  `FileSystem` performs them in place, and answers `stat` directly from the map.
- `builder.dfy` (`Builder`): discovery, the destination path, and partial-change detection, as
  functions of the filesystem and the two tracking maps. The lemmas state the guarantees:
  - discovery only adds;
  - discovery is idempotent;
  - partials and assets stay apart;
  - a destination mirrors its source;
  - a change is reported exactly once.
- `rebuild.dfy` (`Rebuild`): `compile_scss`, the staleness test, and one whole pass over the
  assets in the order the dictionary walk visits them (any order), stopping at the first error.
  The lemmas say:
  - what a pass that succeeds has written;
  - what it leaves untouched;
  - when it succeeds at all;
  - that a pass that succeeds leaves no asset stale behind it.
- `setup.dfy` (`Setup`): directory resolution (`set_asset_dir`, `set_static_dir`) and the
  compiler's load-path list, as functions.
- `flask_scss.dfy` (`FlaskScss`): the class `Scss`, with `assets` and `partials` as map fields that
  its methods update in place. Each loop carries invariants that tie the fields to the `Builder`
  and `Rebuild` functions, so every method is proved to do what those functions say.

Points where the code's behaviour is easy to misread, all followed as written:
- A missing destination counts as modification time -1, not as infinitely old. Times are
  integers here, so a source whose time is -1 or less is never rebuilt when its destination is
  missing (`Rebuild.MissingDestination`). With the real floating-point times, only a source time
  of -1 or less is skipped; one strictly between -1 and 0 is rebuilt.
- `compile_scss` opens the destination for writing before it reads and compiles the source. A
  compile error therefore leaves the destination empty and stamped with the current time. Later
  timestamp-checked passes skip it until the source is touched again
  (`Rebuild.CompileErrorLeavesEmptyDestination`).
- The `.scss` → `.css` rewrite is a plain `str.replace` on the whole path. It also renames any
  directory component that contains `.scss`. The same holds for the asset-directory text.
  A `.scss` inside the static directory's own name is rewritten too (static directory `/t.scss`
  gives `/t.css/a.css`). `Builder.DestinationMirrorsSource` gives the mirrored layout when the
  paths contain no such extra occurrences.
- The probe for a `scss` (or `css`) child applies to every chosen directory: an explicit argument
  or a configured one, not only the default.
- Whether a file is a partial is decided on the stem of its name (`Builder.PartialByStem`). The
  stem keeps the first character of the name, so this is the same as testing the name.
- A relative application root is joined twice: `set_asset_dir` first forms `<root>/assets`
  (flask_scss.py:52) and then joins the root in front of it again (flask_scss.py:56), giving
  `<root>/<root>/assets`. With an absolute root the second join is harmless, and
  `Setup.DefaultAssetLayout` is stated for that case.
- With no static directory, `str(None)` is the text `None`. That text is what replaces the asset
  directory in destination paths (`FlaskScss.Scss.StaticText`).

## Model

| member | source | states |
|---|---|---|
| Strings.Replace | flask_scss.py:100-102 | `str.replace`, scanning from the left and rewriting each non-overlapping occurrence; replacing a pattern by itself is the identity, and a replacement of the pattern's length keeps the length. `ReplaceAbsent`, `ReplaceAppend` and `ReplaceOnlyAtEnd` state what it does to paths |
| Strings.InsertEverywhere | flask_scss.py:100-102 | `str.replace` with an empty pattern: the replacement before every character and at the end; the result is as long as the string times one more than the replacement's length, plus the replacement's length, and an empty replacement is the identity |
| Strings.ReplaceAbsent | flask_scss.py:100-102 | `str.replace` leaves a string without the pattern unchanged |
| Strings.ReplaceAfterPrefix | flask_scss.py:100-102 | a leading occurrence is rewritten and the scan resumes right after it |
| Strings.AbsentInTail | flask_scss.py:100-102 | a string without the pattern has no occurrence in its tail either |
| Strings.NoStraddleDrop | flask_scss.py:100-102 | dropping a prefix of the left part keeps "no occurrence straddles the boundary" |
| Strings.ReplaceAppendMatch | flask_scss.py:100-102 | the step of `ReplaceAppend` when the left part starts with the pattern |
| Strings.ReplaceSkipFront | flask_scss.py:100-102 | without an occurrence at the front, the first character is kept and the scan moves on by one |
| Strings.ReplaceSkipFrontOfAppend | flask_scss.py:100-102 | no occurrence at the front of `x + y` means none at the front of `x`, and the scan of `x + y` moves on by one |
| Strings.ReplaceAppendSkip | flask_scss.py:100-102 | the step of `ReplaceAppend` when nothing occurs at the front |
| Strings.ReplaceAppend | flask_scss.py:100-102 | replacing in `x + y` is replacing in `x` then in `y`, when no occurrence straddles the join |
| Strings.ReplaceOnlyAtEnd | flask_scss.py:102 | when the pattern occurs only as a suffix, exactly that suffix is rewritten |
| PurePath.Join | flask_scss.py:52-56 | `root / d` is `d` when `d` is absolute or the root is empty, the root when `d` is empty, and otherwise the root, one `/`, then `d`; joining onto an absolute root gives an absolute path |
| PurePath.LastIndexOf | flask_scss.py:96 | the index found holds the character, and no later index does (`str.rfind`) |
| PurePath.Name | flask_scss.py:96 | the text after the last `/` (the whole path when there is none); it contains no `/` |
| PurePath.Stem | flask_scss.py:96 | the name is cut at its last dot exactly when that dot is neither the first nor the last character; otherwise the stem is the whole name |
| PurePath.Parent | flask_scss.py:129 | `.` when the path has no `/`; `/` when its only `/` is the first character; otherwise the text before the last `/`. The parent of an absolute path is absolute |
| Disk.MkdirOn | flask_scss.py:130 | `mkdir` succeeds exactly when the path is missing and its parent is a directory; it then adds `Directory(now)` at that path and changes nothing else |
| Disk.TruncateOn | flask_scss.py:132 | `open(…, 'w')` succeeds exactly when the parent is a directory and the path is not a directory; it then leaves the file empty, stamped with the current time, and changes nothing else |
| Disk.ReadOn | flask_scss.py:133 | reading succeeds exactly on an existing file and yields its text |
| Disk.FileSystem.Exists | flask_scss.py:121-129 | `Path.exists()`: the path is a key of the map, whatever its kind; `RefreshIfStale` and `CompileScss` use it for the destination and its parent |
| Disk.FileSystem.Stat | flask_scss.py:108 | succeeds exactly when the path exists and returns its modification time; `FileNotFound` otherwise |
| Disk.FileSystem.Mkdir | flask_scss.py:130 | performs `MkdirOn` in place, or changes nothing and reports the error |
| Disk.FileSystem.OpenForWriting | flask_scss.py:132 | performs `TruncateOn` in place, or changes nothing and reports the error |
| Disk.FileSystem.Read | flask_scss.py:133 | succeeds exactly on an existing file and returns its text; `IsADirectory` on a directory, `FileNotFound` on a missing path |
| Disk.FileSystem.Write | flask_scss.py:134 | the open file now holds exactly the text, stamped with the current time, and nothing else changes |
| Builder.Glob | flask_scss.py:94 | discovery only sees existing paths |
| Builder.IsPartial | flask_scss.py:96-97 | the partial test, as a scan back to the last `/`; `PartialByName` and `PartialByStem` prove it is line 97's `stem.startswith('_')` |
| Builder.PartialByName | flask_scss.py:96-97 | the scan from the end of the path agrees with "the name starts with `_`" |
| Builder.PartialByStem | flask_scss.py:96-97 | a file is a partial exactly when its stem starts with `_` |
| Builder.TrackedRetimed | flask_scss.py:111 | rewriting stored partial times keeps the maps tracked |
| Builder.DiscoveredPartials | flask_scss.py:97-98 | keys are the old ones plus the partials found. Stored times never change. A new entry holds the file's current time |
| Builder.DiscoveredAssets | flask_scss.py:99-103 | keys are the old ones plus the non-partials found that are recorded as neither kind. Old destinations never change. A new entry holds the computed destination |
| Builder.NewPartialsStep | flask_scss.py:97-98 | visiting one more file adds it to the new partials exactly when it is an unrecorded partial |
| Builder.NewAssetsStep | flask_scss.py:99-103 | visiting one more file adds it to the new assets exactly when it is an unrecorded non-partial |
| Builder.UnionUpdate | flask_scss.py:98 | updating a union at a key updates the right operand |
| Builder.PartialVisit | flask_scss.py:97-98 | one visit of the discovery loop on the partials map, as an in-place update |
| Builder.AssetVisit | flask_scss.py:99-103 | one visit of the discovery loop on the assets map, as an in-place update |
| Builder.TrackedDisjoint | flask_scss.py:97-99 | no path is a key of both maps |
| Builder.DiscoveryKeepsTracked | flask_scss.py:93-103 | after discovery, partials and assets are `.scss` files below the asset directory. No partial is an asset, and every asset carries its computed destination |
| Builder.PartialsAlreadyRecorded | flask_scss.py:97 | discovery leaves the partials alone once every partial found is recorded |
| Builder.PartialsDiscoveryIdempotent | flask_scss.py:97-98 | discovering partials twice gives the same map |
| Builder.AssetsAlreadyRecorded | flask_scss.py:99 | discovery adds no asset once every non-partial found is recorded |
| Builder.AssetsDiscoveryIdempotent | flask_scss.py:99-103 | discovering assets again, with at least as many partials recorded, changes nothing |
| Builder.DiscoveryIdempotent | flask_scss.py:93-103 | running discovery twice on an unchanged filesystem leaves both maps as the first run left them |
| Builder.Dest | flask_scss.py:100-102 | the destination: the asset directory's text replaced by the static directory's, then `.scss` by `.css`, both on the whole path; `DestinationOfAsset` and `DestinationMirrorsSource` give the resulting layout |
| Builder.DestinationOfAsset | flask_scss.py:100-102 | `asset_dir + rel` maps to `static_dir` followed by `rel` with `.scss` replaced by `.css`, when the asset directory's text does not recur in `rel` and the static directory's text contains no `.scss` |
| Builder.DestinationMirrorsSource | flask_scss.py:100-102 | `asset_dir/x/y.scss` maps to `static_dir/x/y.css` when `.scss` occurs in `/x/y.scss` only as the final suffix, the asset directory's text does not recur in `/x/y.scss`, and the static directory's text contains no `.scss` |
| Builder.Newer | flask_scss.py:108-110 | a tracked partial has changed when it exists and its time is strictly later than the stored one; `RefreshStep` ties it to the stored time moving |
| Builder.AnyChanged | flask_scss.py:105-112 | the result of `partials_have_changed`: some tracked partial is `Newer`; `ChangedIffRefreshMoves` and `RefreshSettles` state its properties |
| Builder.Refreshed | flask_scss.py:105-112 | keys unchanged; each stored time becomes the larger of the stored and the current time; a vanished file keeps its stored time |
| Builder.RefreshedOn | flask_scss.py:107-111 | partway through the loop, keys are unchanged and every stored time is either old or refreshed |
| Builder.RefreshStep | flask_scss.py:108-111 | checking one more partial moves its stored time exactly when the file is newer |
| Builder.RefreshedOnAll | flask_scss.py:105-112 | once every partial is checked, the stored times are `Refreshed` |
| Builder.ChangedIffRefreshMoves | flask_scss.py:105-112 | a change is reported exactly when some stored time moves |
| Builder.RefreshSettles | flask_scss.py:105-112 | a second check without file changes reports nothing and moves nothing |
| Rebuild.CompileStep | flask_scss.py:127-134 | writes touch only the destination and its parent. Existing paths stay, directories are unchanged, and the only new paths are the destination or a directory |
| Rebuild.StaleStep | flask_scss.py:120-125 | the same frame as `CompileStep`, for the timestamp-checked iteration |
| Rebuild.DestMtime | flask_scss.py:121-123 | the destination's time, or -1 when it is missing; `MissingDestination` states the consequence |
| Rebuild.Stale | flask_scss.py:124 | the timestamp test: the source's time is strictly later than `DestMtime`; `PassSettles` and `PassOutputsNewer` show a successful pass leaves nothing stale |
| Rebuild.MissingDestination | flask_scss.py:121-124 | with no destination, the asset is stale exactly when its source time is at least 0. Below 0 nothing is done |
| Rebuild.CompileErrorLeavesEmptyDestination | flask_scss.py:132-134 | a compile error raises, leaves the destination empty and stamped now, and a later timestamp-checked pass skips it |
| Rebuild.Step | flask_scss.py:116-125 | the same frame, for an iteration of either loop |
| Rebuild.StepApplied | flask_scss.py:117-125 | an iteration that succeeds writes the compiled text to a selected destination and leaves an unselected one alone |
| Rebuild.AppliedTransfers | flask_scss.py:117-125 | what an iteration did depends on the filesystem only at the source and the destination |
| Rebuild.RunPass | flask_scss.py:116-125 | one asset loop over a visiting order: each asset's `Step` in turn, stopping at the first failure; `RunPassFrame`, `RunPassGrows`, `PassApplied`, `PassSucceeds`, `PassSettles` and `PassOutputsNewer` state what it does |
| Rebuild.RunPassFrame | flask_scss.py:114-125 | a pass changes nothing outside the destinations and their parents |
| Rebuild.PassApplied | flask_scss.py:114-125 | after a pass that succeeds, every selected asset's destination holds its compiled source, and every other destination keeps its content |
| Rebuild.StepSucceeds | flask_scss.py:117-134 | an iteration succeeds exactly when its asset is ready: a missing source, a selected source that is unreadable or does not compile, a directory destination, or a missing grandparent raises |
| Rebuild.PassSettles | flask_scss.py:120-134 | for independent assets, with no time later than the clock, after a pass that succeeds no asset is selected by the timestamp test: running the timestamp-checked loop again would compile nothing |
| Rebuild.PassOutputsNewer | flask_scss.py:120-134 | for independent assets, with every time strictly earlier than the clock, after a pass that succeeds every selected asset's destination is strictly newer than its source |
| Rebuild.RunPassGrows | flask_scss.py:114-125 | a pass only adds directories and destinations, and rewrites only destinations |
| Rebuild.ReadyTransfers | flask_scss.py:117-125 | an asset ready at the start of a pass is still ready when the pass reaches it, provided the earlier writes left its source and its destination alone, only grew the filesystem, and did not rewrite its destination's parent |
| Rebuild.PassSucceeds | flask_scss.py:114-125 | a pass over independent assets that are all ready raises nothing |
| Setup.Choose | flask_scss.py:50-52 | the `or` chain: a given argument, else a given configured value, else the default; `ArgumentOverridesConfig` and `ConfigOverridesDefault` state the precedence |
| Setup.ResolveDir | flask_scss.py:49-79 | the shared resolver: choose, join onto the application root, then probe for the named child; `AbsoluteArgumentIgnoresRoot` and `DefaultAssetLayout` state its cases |
| Setup.ResolveAssetDir | flask_scss.py:49-63 | `set_asset_dir`: `ResolveDir` with `SCSS_ASSET_DIR`, default `<root>/assets` and child `scss` |
| Setup.ResolveStaticDir | flask_scss.py:65-79 | `set_static_dir`: `ResolveDir` with `SCSS_STATIC_DIR`, default `<root>/<static folder>` and child `css` |
| Setup.Probe | flask_scss.py:58-63 | the result is `<dir>/<sub>` exactly when that exists, else `<dir>` exactly when that exists, else `None` |
| Setup.ArgumentOverridesConfig | flask_scss.py:50-52 | an explicit argument makes the configured value irrelevant, for both directories |
| Setup.ConfigOverridesDefault | flask_scss.py:66-68 | without an argument, a configured value is used and the default plays no part |
| Setup.AbsoluteArgumentIgnoresRoot | flask_scss.py:54-56 | an absolute argument is used as given, whatever the application root |
| Setup.DefaultAssetLayout | flask_scss.py:49-63 | for an absolute application root, with nothing given or configured, the asset directory is `<root>/assets/scss`, else `<root>/assets`, else none, depending on what exists |
| Setup.LoadPathList | flask_scss.py:32-42 | the asset directory (if any) comes first, then the explicit load paths if non-empty, else the configured ones, else nothing |
| Setup.LoadPathMembers | flask_scss.py:41-42 | a path is on the list exactly when it is the asset directory or one of the chosen extra paths |
| FlaskScss.Scss.constructor | flask_scss.py:13-47 | directories resolved as in `Setup`; maps empty; compiler built on `LoadPathList`. The hook is registered at most once, and exactly when (testing or debug) and both directories exist |
| FlaskScss.Scss.SetHooks | flask_scss.py:81-91 | registers the hook exactly when both directories exist |
| FlaskScss.Scss.StaticText | flask_scss.py:101 | `str(self.static_dir)`: the directory's text, or `None` when there is none; it is the replacement text of `Builder.Dest` |
| FlaskScss.Scss.DiscoverScss | flask_scss.py:93-103 | the maps become `DiscoveredPartials` and `DiscoveredAssets` of the files the glob finds |
| FlaskScss.Scss.DiscoverOne | flask_scss.py:95-103 | one iteration moves the maps from the files visited to one more |
| FlaskScss.Scss.PartialsHaveChanged | flask_scss.py:105-112 | keys unchanged. It succeeds exactly when every partial still exists, and then returns whether any is newer and leaves the times `Refreshed`. Otherwise it raises `FileNotFound` for a vanished partial |
| FlaskScss.Scss.CheckPartial | flask_scss.py:107-111 | one iteration: raises for a vanished partial, else reports whether it is newer and refreshes its time |
| FlaskScss.Scss.CompileScss | flask_scss.py:127-134 | the filesystem and the outcome are those of `CompileStep` |
| FlaskScss.Scss.RefreshIfStale | flask_scss.py:120-125 | the filesystem and the outcome are those of `StaleStep` |
| FlaskScss.Scss.RefreshAsset | flask_scss.py:116-125 | the filesystem and the outcome are those of `Step` |
| FlaskScss.Scss.RefreshAssets | flask_scss.py:116-125 | visits each asset at most once, and every asset when it succeeds. The filesystem and the outcome are those of `RunPass` over the order visited |
| FlaskScss.Scss.UpdateScss | flask_scss.py:114-125 | keeps the maps tracked. Assets and partials are rediscovered. If a tracked partial vanished it raises before writing anything, and each stored time is then either the discovered one or the refreshed one, so a change seen before the failure is not reported again. Otherwise partial times are refreshed, and the assets are recompiled in the mode given by whether a partial changed: the result of `RunPass` |

## Left out

- Symbolic links and `Path.resolve()`: paths are taken as already resolved and normalised, with no `.`/`..` components and no repeated or trailing separators.
- The order in which the recursive glob and dictionary iteration visit files: discovery and the asset loops pick the next element by nondeterministic choice, so every order is covered. The visiting order of the asset loop is returned so that the contracts can name it.
- Floating-point modification times: times are integers.
- The SCSS compiler's internals, including the files it reads for `@import`: the compiler is a function parameter from search path and text to CSS or an error message.
- Logging and the Flask application object: the `before_request` registration is a counter.
- Concurrent requests: the model is single-threaded, as the code is.
- The shape of a real directory tree (every node's parent exists and is a directory) is not an invariant of `Disk.Nodes`. The lemmas that need it say so in their `requires`.
- The clock: it is fixed for the whole of one call, so every write of one pass carries the same stamp (the methods that write promise `now == old(now)`). Time passing between writes is not modelled.
- Directory modification times: creating a directory or a file inside a directory leaves the directory's own time unchanged (`Rebuild.Grows`). A directory's time is read only when a tracked path or a destination is itself a directory (the glob also yields directories named `*.scss`), and then the model gives the time the directory was created with.
- `PermissionError` and text-decoding errors from `open` and `read` (flask_scss.py:132-133) are not modelled: the filesystem has no permissions and files hold text.
- Pathlib's `Path(...).match('^/')` test is modelled as pathlib's join, where an absolute right operand replaces the base. The real test also matches a relative path whose last component is exactly `^`; that case is not modelled.
- Path objects are always truthy in Python: an argument is modelled as an optional string, and an empty string counts as absent.
- The test module's checks of a module-level `LOAD_PATHS` (flaskext/test/test_scss.py:276-301) are not modelled: the current code never sets that global. The load-path list is modelled from the constructor instead.
- FlaskScss.Scss.DiscoverScss: requires an asset directory. Calling `discover_scss` without one raises `AttributeError`, which is not modelled; the hook that calls it is only registered when the directory exists.
- FlaskScss.Scss.UpdateScss: requires an asset directory, for the same reason as `DiscoverScss`.
- FlaskScss.Scss.DiscoverScss: does not itself state that the maps stay tracked; `UpdateScss` proves it with `Builder.DiscoveryKeepsTracked`.
- FlaskScss.Scss.PartialsHaveChanged: does not itself state that the maps stay tracked; `UpdateScss` proves it with `Builder.TrackedRetimed`.
- Rebuild.PassApplied, Rebuild.PassSucceeds, Rebuild.PassSettles and Rebuild.PassOutputsNewer: assume that no asset's writes reach another asset's files (`Rebuild.Independent`). When destinations collide or overlap with sources, the later write wins; these lemmas do not describe that case.
