/**
 * The incremental build policy of the `Scss` class, as functions of the
 * filesystem and of the two tracking maps: which files discovery records,
 * where a source is compiled to, when a partial counts as changed, and what
 * one compile pass writes. The class in module `FlaskScss` performs these
 * steps in place and is proved to agree with them; the lemmas here state
 * what the policy guarantees.
 */
module Builder {
  import opened Wrappers
  import opened Strings
  import opened PurePath
  import opened Disk

  const ScssSuffix: string := ".scss"
  const CssSuffix: string := ".css"

  /**
   * The external SCSS compiler: built with a search path, it turns source
   * text into CSS or fails with a message. Its behaviour is a parameter.
   */
  datatype Compiler = Compiler(searchPath: seq<Path>, run: (seq<Path>, string) -> Result<string, string>)
  {
    function CompileString(text: string): Result<string, string> {
      run(searchPath, text)
    }
  }

  /** What a refresh can raise. */
  datatype Error = Os(os: OsError) | CompileError(message: string)

  /** The filesystem after some writes, and whether they all succeeded. */
  datatype Written = Written(nodes: Nodes, outcome: Outcome<Error>)

  /** The two maps agree at `p`: both lack it or both hold the same node. */
  predicate SameAt(before: Nodes, after: Nodes, p: Path) {
    (p in before <==> p in after) && (p in before ==> before[p] == after[p])
  }

  // ---------------------------------------------------------------- discovery

  // The recursive glob of the asset directory: every node below it whose name ends in .scss.
  function Glob(nodes: Nodes, assetDir: Path): (found: set<Path>)
    ensures found <= nodes.Keys
  {
    set p | p in nodes && Under(p, assetDir) && EndsWith(p, ScssSuffix)
  }

  /**
   * A partial is a file whose name (the text after the last `/`) starts with
   * an underscore, written as a scan from the end of the path so that it
   * unfolds one character at a time. `PartialByName` ties it to `Name`, and
   * `PartialByStem` to the test on the stem that discovery performs.
   */
  predicate IsPartial(p: Path)
    decreases |p|
  {
    if p == [] || p[|p| - 1] == '/' then false
    else if |p| == 1 || p[|p| - 2] == '/' then p[|p| - 1] == '_'
    else IsPartial(p[..|p| - 1])
  }

  /** The scan agrees with "the name starts with an underscore". */
  lemma {:induction false} PartialByName(p: Path)
    ensures IsPartial(p) <==> (var name := Name(p); name != "" && name[0] == '_')
    decreases |p|
  {
    var i := LastIndexOf(p, '/');
    if p == [] || p[|p| - 1] == '/' {
      assert Name(p) == [];
    } else {
      var q := p[..|p| - 1];
      assert i == LastIndexOf(q, '/');
      if |p| == 1 || p[|p| - 2] == '/' {
        assert i == |p| - 2;
        assert Name(p) == [p[|p| - 1]];
      } else {
        PartialByName(q);
        assert i < |q| - 1;
        assert Name(p)[0] == p[i + 1] == Name(q)[0];
      }
    }
  }

  /** `IsPartial` is the test on the stem that discovery performs. */
  lemma PartialByStem(p: Path)
    ensures IsPartial(p) <==> (var stem := Stem(Name(p)); stem != "" && stem[0] == '_')
  {
    PartialByName(p);
    var name := Name(p);
    var stem := Stem(name);
    if stem != "" {
      assert stem[0] == name[0];
    }
  }

  /** The destination: every `str(asset_dir)` replaced by `str(static_dir)`, then every `.scss` by `.css`. */
  function Dest(src: Path, assetDir: Path, staticDir: Path): Path {
    Replace(Replace(src, assetDir, staticDir), ScssSuffix, CssSuffix)
  }

  /**
   * What the tracking maps hold between calls: partials and assets are
   * `.scss` paths below the asset directory, told apart by their names, and
   * every asset is paired with its computed destination.
   */
  predicate Tracked(assets: map<Path, Path>, partials: map<Path, int>, assetDir: Path, staticDir: Path) {
    && (forall p :: p in partials ==> IsPartial(p) && Under(p, assetDir) && EndsWith(p, ScssSuffix))
    && (forall p :: p in assets ==>
          !IsPartial(p) && Under(p, assetDir) && EndsWith(p, ScssSuffix) && assets[p] == Dest(p, assetDir, staticDir))
  }

  /** Only the partials' paths matter to `Tracked`, not their recorded times. */
  lemma TrackedRetimed(assets: map<Path, Path>, partials: map<Path, int>, partials': map<Path, int>,
                       assetDir: Path, staticDir: Path)
    requires Tracked(assets, partials, assetDir, staticDir) && partials'.Keys == partials.Keys
    ensures Tracked(assets, partials', assetDir, staticDir)
  {
    assert forall p :: p in partials' ==> p in partials;
  }

  /** The partials map after discovery has visited the files `found`. */
  function DiscoveredPartials(partials: map<Path, int>, nodes: Nodes, found: set<Path>): (r: map<Path, int>)
    requires found <= nodes.Keys
    ensures forall p :: p in r <==> p in partials || (p in found && IsPartial(p))
    ensures forall p :: p in partials ==> r[p] == partials[p]
    ensures forall p :: p in r && p !in partials ==> p in nodes && r[p] == nodes[p].mtime
  {
    partials + NewPartials(partials, nodes, found)
  }

  /** The partials discovery adds: those found and not yet recorded, with their current time. */
  function NewPartials(partials: map<Path, int>, nodes: Nodes, found: set<Path>): map<Path, int>
    requires found <= nodes.Keys
  {
    map p | p in found && IsPartial(p) && p !in partials :: nodes[p].mtime
  }

  /** The assets map after discovery has visited the files `found`. */
  function DiscoveredAssets(assets: map<Path, Path>, partials: map<Path, int>, found: set<Path>,
                            assetDir: Path, staticDir: Path): (r: map<Path, Path>)
    ensures forall p :: p in r <==> p in assets || (p in found && !IsPartial(p) && p !in partials)
    ensures forall p :: p in assets ==> r[p] == assets[p]
    ensures forall p :: p in r && p !in assets ==> r[p] == Dest(p, assetDir, staticDir)
  {
    assets + NewAssets(assets, partials, found, assetDir, staticDir)
  }

  /** The assets discovery adds: non-partials found and not yet recorded as either kind. */
  function NewAssets(assets: map<Path, Path>, partials: map<Path, int>, found: set<Path>,
                     assetDir: Path, staticDir: Path): map<Path, Path>
  {
    map p | p in found && !IsPartial(p) && p !in partials && p !in assets :: Dest(p, assetDir, staticDir)
  }

  /** Visiting one more file adds it to the new partials if it is a partial not yet recorded. */
  lemma NewPartialsStep(partials: map<Path, int>, nodes: Nodes, done: set<Path>, p: Path)
    requires done <= nodes.Keys && p in nodes && p !in done
    ensures NewPartials(partials, nodes, done + {p}) ==
      if IsPartial(p) && p !in partials then NewPartials(partials, nodes, done)[p := nodes[p].mtime]
      else NewPartials(partials, nodes, done)
  {
  }

  /** Visiting one more file adds it to the new assets if it is neither a partial nor recorded. */
  lemma NewAssetsStep(assets: map<Path, Path>, partials: map<Path, int>, done: set<Path>, p: Path,
                      assetDir: Path, staticDir: Path)
    requires p !in done
    ensures NewAssets(assets, partials, done + {p}, assetDir, staticDir) ==
      if !IsPartial(p) && p !in partials && p !in assets
      then NewAssets(assets, partials, done, assetDir, staticDir)[p := Dest(p, assetDir, staticDir)]
      else NewAssets(assets, partials, done, assetDir, staticDir)
  {
  }

  lemma UnionUpdate<V>(m: map<Path, V>, n: map<Path, V>, k: Path, v: V)
    ensures (m + n)[k := v] == m + n[k := v]
  {
  }

  /**
   * One visit of the discovery loop on the partials map, kept as `partials +
   * NewPartials(...)` over the files visited so far.
   */
  lemma PartialVisit(partials: map<Path, int>, nodes: Nodes, done: set<Path>, p: Path)
    requires done <= nodes.Keys && p in nodes && p !in done
    ensures var current := partials + NewPartials(partials, nodes, done);
      var next := partials + NewPartials(partials, nodes, done + {p});
      && (p in current <==> p in partials)
      && (IsPartial(p) && p !in current ==> current[p := nodes[p].mtime] == next)
      && (!(IsPartial(p) && p !in current) ==> current == next)
  {
    NewPartialsStep(partials, nodes, done, p);
    if IsPartial(p) && p !in partials {
      UnionUpdate(partials, NewPartials(partials, nodes, done), p, nodes[p].mtime);
    }
  }

  /** One visit of the discovery loop on the assets map. */
  lemma AssetVisit(assets: map<Path, Path>, partials: map<Path, int>, done: set<Path>, p: Path,
                   assetDir: Path, staticDir: Path)
    requires p !in done
    ensures var current := assets + NewAssets(assets, partials, done, assetDir, staticDir);
      var next := assets + NewAssets(assets, partials, done + {p}, assetDir, staticDir);
      && (p in current <==> p in assets)
      && (!IsPartial(p) && p !in partials && p !in current ==> current[p := Dest(p, assetDir, staticDir)] == next)
      && (!(!IsPartial(p) && p !in partials && p !in current) ==> current == next)
  {
    NewAssetsStep(assets, partials, done, p, assetDir, staticDir);
    if !IsPartial(p) && p !in partials && p !in assets {
      UnionUpdate(assets, NewAssets(assets, partials, done, assetDir, staticDir), p, Dest(p, assetDir, staticDir));
    }
  }

  lemma TrackedDisjoint(assets: map<Path, Path>, partials: map<Path, int>, assetDir: Path, staticDir: Path)
    requires Tracked(assets, partials, assetDir, staticDir)
    ensures assets.Keys !! partials.Keys
  {
  }

  /** Discovery keeps the maps tracked: no partial becomes an asset, whatever the filesystem holds. */
  lemma DiscoveryKeepsTracked(assets: map<Path, Path>, partials: map<Path, int>, nodes: Nodes,
                              assetDir: Path, staticDir: Path)
    requires Tracked(assets, partials, assetDir, staticDir)
    ensures var found := Glob(nodes, assetDir);
      Tracked(DiscoveredAssets(assets, partials, found, assetDir, staticDir),
              DiscoveredPartials(partials, nodes, found), assetDir, staticDir)
  {
  }

  /** Discovery leaves the partials alone once every partial found is recorded. */
  lemma PartialsAlreadyRecorded(partials: map<Path, int>, nodes: Nodes, found: set<Path>)
    requires found <= nodes.Keys
    requires forall p :: p in found && IsPartial(p) ==> p in partials
    ensures DiscoveredPartials(partials, nodes, found) == partials
  {
    assert NewPartials(partials, nodes, found) == map[];
  }

  lemma PartialsDiscoveryIdempotent(partials: map<Path, int>, nodes: Nodes, found: set<Path>)
    requires found <= nodes.Keys
    ensures var partials' := DiscoveredPartials(partials, nodes, found);
      DiscoveredPartials(partials', nodes, found) == partials'
  {
    PartialsAlreadyRecorded(DiscoveredPartials(partials, nodes, found), nodes, found);
  }

  /** Discovery adds no asset once every non-partial found is recorded as one kind or the other. */
  lemma AssetsAlreadyRecorded(assets: map<Path, Path>, partials: map<Path, int>, found: set<Path>,
                              assetDir: Path, staticDir: Path)
    requires forall p :: p in found && !IsPartial(p) ==> p in assets || p in partials
    ensures DiscoveredAssets(assets, partials, found, assetDir, staticDir) == assets
  {
    assert NewAssets(assets, partials, found, assetDir, staticDir) == map[];
  }

  lemma AssetsDiscoveryIdempotent(assets: map<Path, Path>, partials: map<Path, int>, partials': map<Path, int>,
                                  found: set<Path>, assetDir: Path, staticDir: Path)
    requires partials.Keys <= partials'.Keys
    ensures var assets' := DiscoveredAssets(assets, partials, found, assetDir, staticDir);
      DiscoveredAssets(assets', partials', found, assetDir, staticDir) == assets'
  {
    AssetsAlreadyRecorded(DiscoveredAssets(assets, partials, found, assetDir, staticDir), partials', found,
                          assetDir, staticDir);
  }

  /** Discovering twice on an unchanged filesystem changes nothing the second time. */
  lemma DiscoveryIdempotent(assets: map<Path, Path>, partials: map<Path, int>, nodes: Nodes,
                            found: set<Path>, assetDir: Path, staticDir: Path)
    requires found <= nodes.Keys
    ensures var partials' := DiscoveredPartials(partials, nodes, found);
      var assets' := DiscoveredAssets(assets, partials, found, assetDir, staticDir);
      DiscoveredPartials(partials', nodes, found) == partials'
      && DiscoveredAssets(assets', partials', found, assetDir, staticDir) == assets'
  {
    PartialsDiscoveryIdempotent(partials, nodes, found);
    AssetsDiscoveryIdempotent(assets, partials, DiscoveredPartials(partials, nodes, found), found, assetDir, staticDir);
  }

  /** A source below the asset directory lands at the same place below the static directory. */
  lemma DestinationOfAsset(assetDir: Path, staticDir: Path, rel: string)
    requires assetDir != "" && rel != [] && rel[0] == '/'
    requires Absent(rel, assetDir) && Absent(staticDir, ScssSuffix)
    ensures Dest(assetDir + rel, assetDir, staticDir) == staticDir + Replace(rel, ScssSuffix, CssSuffix)
  {
    ReplaceAfterPrefix(rel, assetDir, staticDir);
    ReplaceAbsent(rel, assetDir, staticDir);
    forall i | 0 <= i < |staticDir| < i + |ScssSuffix|
      ensures !OccursAt(staticDir + rel, ScssSuffix, i)
    {
      assert (staticDir + rel)[|staticDir|] == '/';
    }
    ReplaceAppend(staticDir, rel, ScssSuffix, CssSuffix);
    ReplaceAbsent(staticDir, ScssSuffix, CssSuffix);
  }

  /**
   * `asset_dir/x/y.scss` compiles to `static_dir/x/y.css` when `.scss`
   * appears only as the final suffix.
   */
  lemma DestinationMirrorsSource(assetDir: Path, staticDir: Path, rel: string)
    requires assetDir != "" && rel != [] && rel[0] == '/'
    requires Absent(rel, assetDir) && Absent(staticDir, ScssSuffix)
    requires EndsWith(rel, ScssSuffix)
    requires forall i :: 0 <= i < |rel| - |ScssSuffix| ==> !OccursAt(rel, ScssSuffix, i)
    ensures Dest(assetDir + rel, assetDir, staticDir) == staticDir + rel[..|rel| - |ScssSuffix|] + CssSuffix
  {
    DestinationOfAsset(assetDir, staticDir, rel);
    ReplaceOnlyAtEnd(rel, ScssSuffix, CssSuffix);
  }

  // ------------------------------------------------------- partial tracking

  /** The partial `p` has been modified since its stored time was recorded. */
  predicate Newer(partials: map<Path, int>, nodes: Nodes, p: Path)
    requires p in partials
  {
    p in nodes && nodes[p].mtime > partials[p]
  }

  /** Every tracked partial can still be stat'ed. */
  predicate Present(partials: map<Path, int>, nodes: Nodes) {
    forall p :: p in partials ==> p in nodes
  }

  predicate AnyChanged(partials: map<Path, int>, nodes: Nodes) {
    exists p :: p in partials && Newer(partials, nodes, p)
  }

  function Max(a: int, b: int): int {
    if a < b then b else a
  }

  /** The stored times after `partials_have_changed` visited every partial. */
  function Refreshed(partials: map<Path, int>, nodes: Nodes): (r: map<Path, int>)
    ensures r.Keys == partials.Keys
    ensures forall p :: p in r && p in nodes ==> r[p] == Max(partials[p], nodes[p].mtime)
    ensures forall p :: p in r && p !in nodes ==> r[p] == partials[p]
  {
    map p | p in partials :: if Newer(partials, nodes, p) then nodes[p].mtime else partials[p]
  }

  /** The stored times once the partials in `visited` have been checked. */
  function RefreshedOn(partials: map<Path, int>, nodes: Nodes, visited: set<Path>): (r: map<Path, int>)
    ensures r.Keys == partials.Keys
    ensures forall p :: p in r ==> r[p] == partials[p] || r[p] == Refreshed(partials, nodes)[p]
  {
    map p | p in partials :: if p in visited && Newer(partials, nodes, p) then nodes[p].mtime else partials[p]
  }

  /** Checking one more partial moves its stored time exactly when it is newer. */
  lemma RefreshStep(partials: map<Path, int>, nodes: Nodes, visited: set<Path>, p: Path)
    requires p in partials && p !in visited
    ensures RefreshedOn(partials, nodes, visited)[p] == partials[p]
    ensures RefreshedOn(partials, nodes, visited + {p}) ==
      if Newer(partials, nodes, p) then RefreshedOn(partials, nodes, visited)[p := nodes[p].mtime]
      else RefreshedOn(partials, nodes, visited)
  {
  }

  /** Once every partial has been checked, the stored times are `Refreshed`. */
  lemma RefreshedOnAll(partials: map<Path, int>, nodes: Nodes)
    ensures RefreshedOn(partials, nodes, partials.Keys) == Refreshed(partials, nodes)
  {
  }

  /** A change is reported exactly when some stored time moves. */
  lemma ChangedIffRefreshMoves(partials: map<Path, int>, nodes: Nodes)
    ensures AnyChanged(partials, nodes) <==> Refreshed(partials, nodes) != partials
  {
    var r := Refreshed(partials, nodes);
    if AnyChanged(partials, nodes) {
      var p :| p in partials && Newer(partials, nodes, p);
      assert r[p] != partials[p];
    } else {
      assert forall p :: p in r ==> r[p] == partials[p];
    }
  }

  /** A modification is reported once: checking again without changes finds nothing. */
  lemma RefreshSettles(partials: map<Path, int>, nodes: Nodes)
    ensures !AnyChanged(Refreshed(partials, nodes), nodes)
    ensures Refreshed(Refreshed(partials, nodes), nodes) == Refreshed(partials, nodes)
  {
  }
}
