/**
 * What the `Scss` constructor works out before any request arrives: where
 * the `.scss` sources and the generated `.css` files live, the compiler's
 * search path, and whether the refresh hook is installed.
 */
module Setup {
  import opened Wrappers
  import opened Strings
  import opened PurePath
  import opened Disk

  /** The `SCSS_ASSET_DIR`, `SCSS_STATIC_DIR` and `SCSS_LOAD_PATHS` entries of the application's config. */
  datatype Config = Config(assetDir: Option<string>, staticDir: Option<string>, loadPaths: Option<seq<Path>>)

  /** The parts of the Flask application the extension reads. */
  datatype App = App(rootPath: Path, staticFolder: Path, config: Config, testing: bool, debug: bool)

  /** Python truthiness of an optional string: present and not empty. */
  predicate Given(o: Option<string>) {
    o.Some? && o.value != ""
  }

  /** `argument or configured or fallback`. */
  function Choose(argument: Option<string>, configured: Option<string>, fallback: Path): Path {
    if Given(argument) then argument.value
    else if Given(configured) then configured.value
    else fallback
  }

  /**
   * The probe both resolvers end with: `<dir>/<sub>` if it exists, else
   * `<dir>` if it exists, else nothing.
   */
  function Probe(nodes: Nodes, dir: Path, sub: string): (r: Option<Path>)
    requires sub != "" && !IsAbsolute(sub)
    ensures r.Some? ==> r.value in nodes
    ensures r == Some(Join(dir, sub)) <==> Join(dir, sub) in nodes
    ensures r == Some(dir) <==> Join(dir, sub) !in nodes && dir in nodes
    ensures r.None? <==> Join(dir, sub) !in nodes && dir !in nodes
  {
    if Join(dir, sub) in nodes then Some(Join(dir, sub))
    else if dir in nodes then Some(dir)
    else None
  }

  /**
   * `set_asset_dir` and `set_static_dir`: choose the directory by
   * precedence, anchor a relative choice at the application root, then probe.
   */
  function ResolveDir(nodes: Nodes, root: Path, argument: Option<string>, configured: Option<string>,
                      fallback: Path, sub: string): Option<Path>
    requires sub != "" && !IsAbsolute(sub)
  {
    Probe(nodes, Join(root, Choose(argument, configured, fallback)), sub)
  }

  function AssetDefault(app: App): Path {
    Join(app.rootPath, "assets")
  }

  function StaticDefault(app: App): Path {
    Join(app.rootPath, app.staticFolder)
  }

  function ResolveAssetDir(nodes: Nodes, app: App, argument: Option<string>): Option<Path> {
    ResolveDir(nodes, app.rootPath, argument, app.config.assetDir, AssetDefault(app), "scss")
  }

  function ResolveStaticDir(nodes: Nodes, app: App, argument: Option<string>): Option<Path> {
    ResolveDir(nodes, app.rootPath, argument, app.config.staticDir, StaticDefault(app), "css")
  }

  /** An explicit argument makes the configured value irrelevant. */
  lemma ArgumentOverridesConfig(nodes: Nodes, app: App, config': Config, argument: Option<string>)
    requires Given(argument)
    ensures ResolveAssetDir(nodes, app, argument) == ResolveAssetDir(nodes, app.(config := config'), argument)
    ensures ResolveStaticDir(nodes, app, argument) == ResolveStaticDir(nodes, app.(config := config'), argument)
  {
  }

  /**
   * Without an argument a configured value is used, and the default (which
   * for the static directory is the application's static folder) plays no part.
   */
  lemma ConfigOverridesDefault(nodes: Nodes, app: App, staticFolder': Path, argument: Option<string>)
    requires !Given(argument)
    ensures Given(app.config.assetDir) ==>
      ResolveAssetDir(nodes, app, argument) == Probe(nodes, Join(app.rootPath, app.config.assetDir.value), "scss")
    ensures Given(app.config.staticDir) ==>
      ResolveStaticDir(nodes, app, argument) == ResolveStaticDir(nodes, app.(staticFolder := staticFolder'), argument)
  {
  }

  /** An absolute argument is used as given: the application root plays no part. */
  lemma AbsoluteArgumentIgnoresRoot(nodes: Nodes, app: App, app': App, argument: Option<string>)
    requires Given(argument) && IsAbsolute(argument.value)
    ensures ResolveAssetDir(nodes, app, argument) == ResolveAssetDir(nodes, app', argument)
    ensures ResolveStaticDir(nodes, app, argument) == ResolveStaticDir(nodes, app', argument)
  {
  }

  /**
   * With nothing given or configured and an absolute root, the asset
   * directory is `<root>/assets/scss`, else `<root>/assets`, else none, by
   * what exists.
   */
  lemma DefaultAssetLayout(nodes: Nodes, app: App)
    requires IsAbsolute(app.rootPath) && !Given(app.config.assetDir)
    ensures var assets := Join(app.rootPath, "assets");
      var r := ResolveAssetDir(nodes, app, None);
      && (r == Some(Join(assets, "scss")) <==> Join(assets, "scss") in nodes)
      && (r == Some(assets) <==> Join(assets, "scss") !in nodes && assets in nodes)
      && (r == None <==> Join(assets, "scss") !in nodes && assets !in nodes)
      && StartsWith(assets, app.rootPath)
  {
    assert Choose(None, app.config.assetDir, AssetDefault(app)) == AssetDefault(app);
  }

  /**
   * `load_path_list`: the asset directory (when there is one), then the
   * explicit load paths if any were given, else the configured ones.
   */
  function LoadPathList(assetDir: Option<Path>, loadPaths: Option<seq<Path>>, configured: Option<seq<Path>>)
    : (r: seq<Path>)
    ensures assetDir.Some? ==> |r| >= 1 && r[0] == assetDir.value
    ensures var tail := if assetDir.Some? then r[1..] else r;
      && (loadPaths.Some? && loadPaths.value != [] ==> tail == loadPaths.value)
      && ((loadPaths.None? || loadPaths.value == []) && configured.Some? ==> tail == configured.value)
      && ((loadPaths.None? || loadPaths.value == []) && configured.None? ==> tail == [])
  {
    var front := if assetDir.Some? then [assetDir.value] else [];
    var extra := if loadPaths.Some? && loadPaths.value != [] then loadPaths.value
                 else if configured.Some? then configured.value
                 else [];
    front + extra
  }

  /** The load paths are searched in order: every path listed is either the asset directory or a chosen extra. */
  lemma LoadPathMembers(assetDir: Option<Path>, loadPaths: Option<seq<Path>>, configured: Option<seq<Path>>, q: Path)
    ensures q in LoadPathList(assetDir, loadPaths, configured) <==>
      || assetDir == Some(q)
      || (loadPaths.Some? && loadPaths.value != [] && q in loadPaths.value)
      || ((loadPaths.None? || loadPaths.value == []) && configured.Some? && q in configured.value)
  {
    var r := LoadPathList(assetDir, loadPaths, configured);
    if assetDir.Some? {
      assert r == [assetDir.value] + r[1..];
    }
  }
}
