/**
 * The `Scss` extension object: it resolves its directories once, then, on
 * every request while the application is in testing or debug mode,
 * discovers new `.scss` files, checks the partials and recompiles what is
 * out of date. Its two tracking maps are fields the methods update in
 * place; each method is proved to agree with the functions of `Builder`
 * and `Rebuild`, where the properties of the policy are proved.
 */
module FlaskScss {
  import opened Wrappers
  import opened PurePath
  import opened Disk
  import opened Builder
  import opened Rebuild
  import opened Setup

  class Scss {
    const app: App
    /** `None` when neither the chosen directory nor its `scss` child exists. */
    const assetDir: Option<Path>
    /** `None` when neither the chosen directory nor its `css` child exists. */
    const staticDir: Option<Path>
    const compiler: Compiler
    /** Source path of every non-partial `.scss` file seen so far, to its destination. */
    var assets: map<Path, Path>
    /** Path of every partial seen so far, to the modification time last recorded. */
    var partials: map<Path, int>
    /** How many times `update_scss` has been registered as a before-request hook. */
    var hooks: nat

    /** `str(self.static_dir)`, which is the text `None` when there is no static directory. */
    function StaticText(): Path {
      if staticDir.Some? then staticDir.value else "None"
    }

    /** The tracking maps hold only what discovery can have put there. */
    ghost predicate Valid()
      reads this
    {
      if assetDir.None? then assets == map[] && partials == map[]
      else Tracked(assets, partials, assetDir.value, StaticText())
    }

    /**
     * `__init__`: resolve both directories against the filesystem, build the
     * compiler with the load-path list, and install the hook in testing or
     * debug mode.
     */
    constructor (app: App, staticDirArg: Option<string>, assetDirArg: Option<string>,
                 loadPaths: Option<seq<Path>>, fs: FileSystem, run: (seq<Path>, string) -> Result<string, string>)
      ensures this.app == app
      ensures assetDir == ResolveAssetDir(fs.nodes, app, assetDirArg)
      ensures staticDir == ResolveStaticDir(fs.nodes, app, staticDirArg)
      ensures assets == map[] && partials == map[]
      ensures compiler == Compiler(LoadPathList(assetDir, loadPaths, app.config.loadPaths), run)
      ensures hooks <= 1
      ensures hooks == 1 <==> (app.testing || app.debug) && assetDir.Some? && staticDir.Some?
      ensures Valid()
    {
      this.app := app;
      assetDir := ResolveAssetDir(fs.nodes, app, assetDirArg);
      staticDir := ResolveStaticDir(fs.nodes, app, staticDirArg);
      assets := map[];
      partials := map[];
      compiler := Compiler(LoadPathList(ResolveAssetDir(fs.nodes, app, assetDirArg), loadPaths,
                                        app.config.loadPaths), run);
      hooks := 0;
      new;
      if app.testing || app.debug {
        SetHooks();
      }
    }

    /** `set_hooks`: register the refresh only when both directories were found. */
    method SetHooks()
      modifies this`hooks
      ensures hooks == old(hooks) + (if assetDir.Some? && staticDir.Some? then 1 else 0)
    {
      if assetDir.None? {
        return;
      }
      if staticDir.None? {
        return;
      }
      hooks := hooks + 1;
    }

    /**
     * `discover_scss`: visit every `.scss` path below the asset directory,
     * in no particular order, and record the new partials with their current
     * time and the new assets with their destinations.
     */
    method DiscoverScss(fs: FileSystem)
      requires assetDir.Some?
      modifies this`assets, this`partials
      ensures var found := Glob(fs.nodes, assetDir.value);
        && partials == DiscoveredPartials(old(partials), fs.nodes, found)
        && assets == DiscoveredAssets(old(assets), old(partials), found, assetDir.value, StaticText())
    {
      ghost var partials0, assets0 := partials, assets;
      var found := Glob(fs.nodes, assetDir.value);
      var todo := found;
      ghost var done: set<Path> := {};
      while todo != {}
        invariant todo <= found && done == found - todo
        invariant partials == partials0 + NewPartials(partials0, fs.nodes, done)
        invariant assets == assets0 + NewAssets(assets0, partials0, done, assetDir.value, StaticText())
        decreases |todo|
      {
        var src :| src in todo;
        DiscoverOne(fs, src, partials0, assets0, done);
        todo := todo - {src};
        done := done + {src};
      }
      assert done == found;
    }

    /** One pass of the loop of `discover_scss`, on the file `src`. */
    method DiscoverOne(fs: FileSystem, src: Path, ghost partials0: map<Path, int>, ghost assets0: map<Path, Path>,
                       ghost done: set<Path>)
      requires assetDir.Some? && done <= fs.nodes.Keys && src in fs.nodes && src !in done
      requires partials == partials0 + NewPartials(partials0, fs.nodes, done)
      requires assets == assets0 + NewAssets(assets0, partials0, done, assetDir.value, StaticText())
      modifies this`assets, this`partials
      ensures partials == partials0 + NewPartials(partials0, fs.nodes, done + {src})
      ensures assets == assets0 + NewAssets(assets0, partials0, done + {src}, assetDir.value, StaticText())
    {
      PartialVisit(partials0, fs.nodes, done, src);
      AssetVisit(assets0, partials0, done, src, assetDir.value, StaticText());
      if IsPartial(src) && src !in partials {
        var mtime := fs.Stat(src);
        partials := partials[src := mtime.value];
      } else if src !in partials && src !in assets {
        assets := assets[src := Dest(src, assetDir.value, StaticText())];
      }
    }

    /**
     * `partials_have_changed`: stat every partial, move each stored time up
     * to a newer current one, and report whether any moved. A partial that
     * has disappeared raises, leaving the times updated so far.
     */
    method PartialsHaveChanged(fs: FileSystem) returns (r: Result<bool, Error>)
      modifies this`partials
      ensures partials.Keys == old(partials).Keys
      ensures r.Ok? <==> Present(old(partials), fs.nodes)
      ensures r.Ok? ==> r.value == AnyChanged(old(partials), fs.nodes) && partials == Refreshed(old(partials), fs.nodes)
      ensures r.Err? ==> exists q :: q in old(partials) && q !in fs.nodes && r.error == Os(FileNotFound(q))
      ensures forall q :: q in partials ==>
        partials[q] == old(partials)[q] || partials[q] == Refreshed(old(partials), fs.nodes)[q]
    {
      ghost var partials0 := partials;
      var todo := partials.Keys;
      ghost var done: set<Path> := {};
      var res := false;
      while todo != {}
        invariant todo <= partials0.Keys && done == partials0.Keys - todo
        invariant forall q :: q in done ==> q in fs.nodes
        invariant partials == RefreshedOn(partials0, fs.nodes, done)
        invariant res <==> exists q :: q in done && Newer(partials0, fs.nodes, q)
        decreases |todo|
      {
        var partial :| partial in todo;
        var moved := CheckPartial(fs, partial, partials0, done);
        if moved.Err? {
          return Err(moved.error);
        }
        res := res || moved.value;
        todo := todo - {partial};
        done := done + {partial};
      }
      assert done == partials0.Keys;
      RefreshedOnAll(partials0, fs.nodes);
      r := Ok(res);
    }

    /** One pass of the loop of `partials_have_changed`, on `partial`. */
    method CheckPartial(fs: FileSystem, partial: Path, ghost partials0: map<Path, int>, ghost done: set<Path>)
      returns (r: Result<bool, Error>)
      requires partial in partials0 && partial !in done
      requires partials == RefreshedOn(partials0, fs.nodes, done)
      modifies this`partials
      ensures r.Err? <==> partial !in fs.nodes
      ensures r.Err? ==> r.error == Os(FileNotFound(partial)) && partials == old(partials)
      ensures r.Ok? ==> r.value == Newer(partials0, fs.nodes, partial)
      ensures r.Ok? ==> partials == RefreshedOn(partials0, fs.nodes, done + {partial})
    {
      var mtime := fs.Stat(partial);
      if mtime.Err? {
        return Err(Os(mtime.error));
      }
      RefreshStep(partials0, fs.nodes, done, partial);
      if mtime.value > partials[partial] {
        partials := partials[partial := mtime.value];
        return Ok(true);
      }
      return Ok(false);
    }

    /**
     * `compile_scss`: make the destination's parent if needed, open the
     * destination for writing, read and compile the source, write the CSS.
     */
    method CompileScss(fs: FileSystem, asset: Path, dest: Path) returns (o: Outcome<Error>)
      modifies fs
      ensures fs.now == old(fs.now)
      ensures Written(fs.nodes, o) == CompileStep(old(fs.nodes), fs.now, compiler, asset, dest)
    {
      var parent := Parent(dest);
      if !fs.Exists(parent) {
        var made := fs.Mkdir(parent);
        if made.Failure? {
          return Failure(Os(made.error));
        }
      }
      var truncated := fs.OpenForWriting(dest);
      if truncated.Failure? {
        return Failure(Os(truncated.error));
      }
      var text := fs.Read(asset);
      if text.Err? {
        return Failure(Os(text.error));
      }
      var css := compiler.CompileString(text.value);
      if css.Err? {
        return Failure(CompileError(css.error));
      }
      fs.Write(dest, css.value);
      o := Success;
    }

    /**
     * The body of the timestamp-checking loop of `update_scss`: compile the
     * asset when its source is strictly newer than its destination, a
     * missing destination counting as time -1.
     */
    method RefreshIfStale(fs: FileSystem, asset: Path, dest: Path) returns (o: Outcome<Error>)
      modifies fs
      ensures fs.now == old(fs.now)
      ensures Written(fs.nodes, o) == StaleStep(old(fs.nodes), fs.now, compiler, asset, dest)
    {
      var destMtime := -1;
      if fs.Exists(dest) {
        var stat := fs.Stat(dest);
        destMtime := stat.value;
      }
      var srcMtime := fs.Stat(asset);
      if srcMtime.Err? {
        return Failure(Os(srcMtime.error));
      }
      if srcMtime.value > destMtime {
        o := CompileScss(fs, asset, dest);
      } else {
        o := Success;
      }
    }

    /** One iteration of either asset loop of `update_scss`. */
    method RefreshAsset(fs: FileSystem, force: bool, asset: Path, dest: Path) returns (o: Outcome<Error>)
      modifies fs
      ensures fs.now == old(fs.now)
      ensures Written(fs.nodes, o) == Step(force, old(fs.nodes), fs.now, compiler, asset, dest)
    {
      if force {
        o := CompileScss(fs, asset, dest);
      } else {
        o := RefreshIfStale(fs, asset, dest);
      }
    }

    /**
     * The asset loops of `update_scss`: walk the assets in any order (the
     * dictionary's included), compiling every one when `force` holds and only
     * the stale ones otherwise; the first error ends the walk. The order is returned for
     * the proof.
     */
    method RefreshAssets(fs: FileSystem, force: bool) returns (o: Outcome<Error>, ghost order: seq<Path>)
      modifies fs
      ensures fs.now == old(fs.now)
      ensures InAssets(order, assets) && Distinct(order)
      ensures o.Success? ==> forall a :: a in assets ==> a in order
      ensures Written(fs.nodes, o) == RunPass(order, assets, old(fs.nodes), fs.now, compiler, force)
    {
      order := [];
      o := Success;
      var todo := assets.Keys;
      while todo != {}
        invariant todo <= assets.Keys
        invariant forall a :: a in assets ==> a in todo || a in order
        invariant forall i :: 0 <= i < |order| ==> order[i] in assets && order[i] !in todo
        invariant Distinct(order)
        invariant fs.now == old(fs.now)
        invariant o == Success
        invariant Written(fs.nodes, o) == RunPass(order, assets, old(fs.nodes), fs.now, compiler, force)
        decreases |todo|
      {
        var asset :| asset in todo;
        ghost var visited, before := order, fs.nodes;
        o := RefreshAsset(fs, force, asset, assets[asset]);
        order := order + [asset];
        assert order[..|order| - 1] == visited;
        assert RunPass(order, assets, old(fs.nodes), fs.now, compiler, force)
            == Step(force, before, fs.now, compiler, asset, assets[asset]);
        todo := todo - {asset};
        if o.Failure? {
          return;
        }
      }
    }

    /**
     * `update_scss`: discover, check the partials, then refresh the assets,
     * all of them if a partial changed and the stale ones otherwise. The
     * mode the refresh ran in and its order are returned for the proof.
     */
    method UpdateScss(fs: FileSystem) returns (o: Outcome<Error>, ghost forced: bool, ghost order: seq<Path>)
      requires Valid() && assetDir.Some?
      modifies this`assets, this`partials, fs
      ensures Valid()
      ensures fs.now == old(fs.now)
      ensures var found := Glob(old(fs.nodes), assetDir.value);
        assets == DiscoveredAssets(old(assets), old(partials), found, assetDir.value, StaticText())
      ensures var discovered := DiscoveredPartials(old(partials), old(fs.nodes), Glob(old(fs.nodes), assetDir.value));
        && partials.Keys == discovered.Keys
        && (forall q :: q in partials ==> partials[q] == discovered[q] || partials[q] == Refreshed(discovered, old(fs.nodes))[q])
        && (!Present(discovered, old(fs.nodes)) ==> o.Failure? && fs.nodes == old(fs.nodes))
        && (Present(discovered, old(fs.nodes)) ==>
              && partials == Refreshed(discovered, old(fs.nodes))
              && forced == AnyChanged(discovered, old(fs.nodes))
              && InAssets(order, assets) && Distinct(order)
              && (o.Success? ==> forall a :: a in assets ==> a in order)
              && Written(fs.nodes, o) == RunPass(order, assets, old(fs.nodes), fs.now, compiler, forced))
    {
      ghost var assets0, partials0 := assets, partials;
      DiscoverScss(fs);
      ghost var discovered := partials;
      var changed := PartialsHaveChanged(fs);
      assert Valid() by {
        DiscoveryKeepsTracked(assets0, partials0, fs.nodes, assetDir.value, StaticText());
        TrackedRetimed(assets, discovered, partials, assetDir.value, StaticText());
      }
      if changed.Err? {
        return Failure(changed.error), false, [];
      }
      forced := changed.value;
      o, order := RefreshAssets(fs, changed.value);
    }
  }
}
