/**
 * The write side of a refresh: compiling one source into its destination,
 * the per-asset staleness test, and a whole pass over the assets in the
 * order a dictionary walk visits them. The lemmas say what a pass that
 * succeeds has written, what it leaves alone, and when it succeeds.
 */
module Rebuild {
  import opened Wrappers
  import opened PurePath
  import opened Disk
  import opened Builder

  /**
   * Writes only add paths or rewrite files: every existing path stays,
   * directories unchanged, and every new path is a directory or in `dests`.
   */
  predicate Grows(before: Nodes, after: Nodes, dests: set<Path>) {
    && (forall p :: p in before ==> p in after && (before[p].Directory? ==> after[p] == before[p]))
    && (forall p :: p in after && p !in before ==> after[p].Directory? || p in dests)
  }

  /**
   * `compile_scss`: create the destination's parent if it is missing (one
   * level only), open the destination for writing (which empties it), read
   * the source, compile it and write the CSS. The first failure aborts the
   * rest and leaves whatever was already done.
   */
  function CompileStep(nodes: Nodes, now: int, compiler: Compiler, src: Path, dest: Path): (w: Written)
    ensures forall p :: p != dest && p != Parent(dest) ==> SameAt(nodes, w.nodes, p)
    ensures Grows(nodes, w.nodes, {dest})
  {
    var parent := Parent(dest);
    var made := if parent in nodes then Ok(nodes) else MkdirOn(nodes, now, parent);
    if made.Err? then Written(nodes, Failure(Os(made.error)))
    else
      var truncated := TruncateOn(made.value, now, dest);
      if truncated.Err? then Written(made.value, Failure(Os(truncated.error)))
      else
        var text := ReadOn(truncated.value, src);
        if text.Err? then Written(truncated.value, Failure(Os(text.error)))
        else
          var css := compiler.CompileString(text.value);
          if css.Err? then Written(truncated.value, Failure(CompileError(css.error)))
          else Written(truncated.value[dest := File(now, css.value)], Success)
  }

  /** The destination's time for the staleness test: -1 when it does not exist. */
  function DestMtime(nodes: Nodes, dest: Path): int {
    if dest in nodes then nodes[dest].mtime else -1
  }

  /** The source is strictly newer than its destination. */
  predicate Stale(nodes: Nodes, src: Path, dest: Path)
    requires src in nodes
  {
    nodes[src].mtime > DestMtime(nodes, dest)
  }

  /** One iteration of the timestamp-checking loop of `update_scss`. */
  function StaleStep(nodes: Nodes, now: int, compiler: Compiler, src: Path, dest: Path): (w: Written)
    ensures forall p :: p != dest && p != Parent(dest) ==> SameAt(nodes, w.nodes, p)
    ensures Grows(nodes, w.nodes, {dest})
  {
    if src !in nodes then Written(nodes, Failure(Os(FileNotFound(src))))
    else if Stale(nodes, src, dest) then CompileStep(nodes, now, compiler, src, dest)
    else Written(nodes, Success)
  }

  /**
   * A destination that does not exist is rebuilt exactly when its source's
   * time is not negative: the missing destination reads as time -1, not as
   * an infinitely old file.
   */
  lemma MissingDestination(nodes: Nodes, now: int, compiler: Compiler, src: Path, dest: Path)
    requires src in nodes && dest !in nodes
    ensures Stale(nodes, src, dest) <==> nodes[src].mtime >= 0
    ensures nodes[src].mtime < 0 ==> StaleStep(nodes, now, compiler, src, dest) == Written(nodes, Success)
  {
  }

  /**
   * The destination is opened for writing before the source is compiled, so
   * a compile error leaves it empty and stamped with the current time; as
   * long as the source is not touched again, a later timestamp-checked pass
   * passes it over.
   */
  lemma CompileErrorLeavesEmptyDestination(nodes: Nodes, now: int, later: int, compiler: Compiler,
                                           src: Path, dest: Path)
    requires src != dest && src != Parent(dest) && dest != Parent(dest)
    requires Parent(dest) in nodes && nodes[Parent(dest)].Directory?
    requires dest in nodes ==> nodes[dest].File?
    requires src in nodes && nodes[src].File? && nodes[src].mtime <= now
    requires compiler.CompileString(nodes[src].content).Err?
    ensures var w := CompileStep(nodes, now, compiler, src, dest);
      && w.outcome == Failure(CompileError(compiler.CompileString(nodes[src].content).error))
      && dest in w.nodes && w.nodes[dest] == File(now, "")
      && !Stale(w.nodes, src, dest)
      && StaleStep(w.nodes, later, compiler, src, dest) == Written(w.nodes, Success)
  {
  }

  /** One iteration of either loop: forced after a partial changed, timestamp-checked otherwise. */
  function Step(force: bool, nodes: Nodes, now: int, compiler: Compiler, src: Path, dest: Path): (w: Written)
    ensures forall p :: p != dest && p != Parent(dest) ==> SameAt(nodes, w.nodes, p)
    ensures Grows(nodes, w.nodes, {dest})
  {
    if force then CompileStep(nodes, now, compiler, src, dest) else StaleStep(nodes, now, compiler, src, dest)
  }

  predicate InAssets(order: seq<Path>, assets: map<Path, Path>) {
    forall i :: 0 <= i < |order| ==> order[i] in assets
  }

  predicate Distinct(order: seq<Path>) {
    forall i, j :: 0 <= i < j < |order| ==> order[i] != order[j]
  }

  /** The assets visited in `order`, stopping at the first failure. */
  function RunPass(order: seq<Path>, assets: map<Path, Path>, nodes: Nodes, now: int, compiler: Compiler,
                   force: bool): Written
    requires InAssets(order, assets)
    decreases |order|
  {
    if order == [] then Written(nodes, Success)
    else
      var w := RunPass(order[..|order| - 1], assets, nodes, now, compiler, force);
      var src := order[|order| - 1];
      if w.outcome.Failure? then w else Step(force, w.nodes, now, compiler, src, assets[src])
  }

  /**
   * No write of the pass can reach another asset's files: destinations are
   * distinct, and no destination or destination's parent is a source or
   * another destination.
   */
  predicate Independent(assets: map<Path, Path>) {
    forall a, b :: a in assets && b in assets ==>
      && (a != b ==> assets[a] != assets[b])
      && assets[a] != b
      && Parent(assets[a]) != b
      && Parent(assets[a]) != assets[b]
  }

  /** The asset is rebuilt in this pass. */
  predicate Selected(force: bool, nodes: Nodes, src: Path, dest: Path) {
    force || (src in nodes && Stale(nodes, src, dest))
  }

  /**
   * What the pass did for one asset, judged from the filesystem before and
   * after it: a selected asset's destination holds the compiled text of its
   * source stamped with the current time; any other destination is as it was.
   */
  predicate Applied(force: bool, before: Nodes, after: Nodes, now: int, compiler: Compiler, src: Path, dest: Path) {
    && src in before
    && if Selected(force, before, src, dest) then
         && before[src].File?
         && compiler.CompileString(before[src].content).Ok?
         && dest in after
         && after[dest] == File(now, compiler.CompileString(before[src].content).value)
       else SameAt(before, after, dest)
  }

  lemma StepApplied(force: bool, nodes: Nodes, now: int, compiler: Compiler, src: Path, dest: Path)
    requires src != dest && src != Parent(dest) && dest != Parent(dest)
    requires Step(force, nodes, now, compiler, src, dest).outcome.Success?
    ensures Applied(force, nodes, Step(force, nodes, now, compiler, src, dest).nodes, now, compiler, src, dest)
  {
  }

  /** Applied depends on the filesystem before only at the source and the destination. */
  lemma AppliedTransfers(force: bool, before: Nodes, before': Nodes, after: Nodes, now: int, compiler: Compiler,
                         src: Path, dest: Path)
    requires SameAt(before, before', src) && SameAt(before, before', dest)
    requires Applied(force, before', after, now, compiler, src, dest)
    ensures Applied(force, before, after, now, compiler, src, dest)
  {
  }

  /** Nothing outside the destinations and their parents changes. */
  lemma {:induction false} RunPassFrame(order: seq<Path>, assets: map<Path, Path>, nodes: Nodes, now: int,
                                        compiler: Compiler, force: bool, p: Path)
    requires InAssets(order, assets)
    requires forall i :: 0 <= i < |order| ==> p != assets[order[i]] && p != Parent(assets[order[i]])
    ensures SameAt(nodes, RunPass(order, assets, nodes, now, compiler, force).nodes, p)
    decreases |order|
  {
    if order != [] {
      var prefix := order[..|order| - 1];
      assert forall i :: 0 <= i < |prefix| ==> prefix[i] == order[i];
      RunPassFrame(prefix, assets, nodes, now, compiler, force, p);
      var w := RunPass(prefix, assets, nodes, now, compiler, force);
      var src := order[|order| - 1];
      assert p != assets[src] && p != Parent(assets[src]);
      if w.outcome.Success? {
        assert SameAt(w.nodes, Step(force, w.nodes, now, compiler, src, assets[src]).nodes, p);
      }
    }
  }

  /** What an iteration did survives later writes that leave its destination alone. */
  lemma AppliedKept(force: bool, before: Nodes, mid: Nodes, after: Nodes, now: int, compiler: Compiler,
                    src: Path, dest: Path)
    requires Applied(force, before, mid, now, compiler, src, dest) && SameAt(mid, after, dest)
    ensures Applied(force, before, after, now, compiler, src, dest)
  {
  }

  /**
   * A pass that succeeds has, for every asset it visited, rebuilt exactly
   * the selected ones from their sources' text and left the others'
   * destinations untouched.
   */
  lemma {:induction false} PassApplied(order: seq<Path>, assets: map<Path, Path>, nodes: Nodes, now: int,
                                       compiler: Compiler, force: bool)
    requires InAssets(order, assets) && Distinct(order) && Independent(assets)
    requires RunPass(order, assets, nodes, now, compiler, force).outcome.Success?
    ensures var after := RunPass(order, assets, nodes, now, compiler, force).nodes;
      forall i :: 0 <= i < |order| ==> Applied(force, nodes, after, now, compiler, order[i], assets[order[i]])
    decreases |order|
  {
    if order != [] {
      var prefix := order[..|order| - 1];
      var src := order[|order| - 1];
      var dest := assets[src];
      var w := RunPass(prefix, assets, nodes, now, compiler, force);
      var after := RunPass(order, assets, nodes, now, compiler, force).nodes;
      assert after == Step(force, w.nodes, now, compiler, src, dest).nodes;
      PassApplied(prefix, assets, nodes, now, compiler, force);
      StepApplied(force, w.nodes, now, compiler, src, dest);
      RunPassFrame(prefix, assets, nodes, now, compiler, force, src);
      RunPassFrame(prefix, assets, nodes, now, compiler, force, dest);
      AppliedTransfers(force, nodes, w.nodes, after, now, compiler, src, dest);
      forall i | 0 <= i < |order|
        ensures Applied(force, nodes, after, now, compiler, order[i], assets[order[i]])
      {
        if i < |prefix| {
          assert order[i] == prefix[i];
          var b := order[i];
          assert Applied(force, nodes, w.nodes, now, compiler, b, assets[b]);
          assert SameAt(w.nodes, after, assets[b]);
          AppliedKept(force, nodes, w.nodes, after, now, compiler, b, assets[b]);
        }
      }
    }
  }

  /**
   * With a clock that no file is ahead of, a pass that succeeds settles the
   * assets it visited: right after it, a timestamp-checked pass would
   * select none of them.
   */
  lemma {:induction false} PassSettles(order: seq<Path>, assets: map<Path, Path>, nodes: Nodes, now: int,
                                       compiler: Compiler, force: bool)
    requires InAssets(order, assets) && Distinct(order) && Independent(assets)
    requires forall p :: p in nodes ==> nodes[p].mtime <= now
    requires RunPass(order, assets, nodes, now, compiler, force).outcome.Success?
    ensures var after := RunPass(order, assets, nodes, now, compiler, force).nodes;
      forall i :: 0 <= i < |order| ==> !Selected(false, after, order[i], assets[order[i]])
  {
    var after := RunPass(order, assets, nodes, now, compiler, force).nodes;
    PassApplied(order, assets, nodes, now, compiler, force);
    forall i | 0 <= i < |order|
      ensures !Selected(false, after, order[i], assets[order[i]])
    {
      var src, dest := order[i], assets[order[i]];
      assert Applied(force, nodes, after, now, compiler, src, dest);
      RunPassFrame(order, assets, nodes, now, compiler, force, src);
    }
  }

  /**
   * With a clock strictly ahead of every file, each destination a successful
   * pass rebuilds ends up strictly newer than its source.
   */
  lemma {:induction false} PassOutputsNewer(order: seq<Path>, assets: map<Path, Path>, nodes: Nodes, now: int,
                                            compiler: Compiler, force: bool)
    requires InAssets(order, assets) && Distinct(order) && Independent(assets)
    requires forall p :: p in nodes ==> nodes[p].mtime < now
    requires RunPass(order, assets, nodes, now, compiler, force).outcome.Success?
    ensures var after := RunPass(order, assets, nodes, now, compiler, force).nodes;
      forall i :: 0 <= i < |order| && Selected(force, nodes, order[i], assets[order[i]]) ==>
        && order[i] in after && assets[order[i]] in after
        && after[assets[order[i]]].mtime > after[order[i]].mtime
  {
    var after := RunPass(order, assets, nodes, now, compiler, force).nodes;
    PassApplied(order, assets, nodes, now, compiler, force);
    forall i | 0 <= i < |order| && Selected(force, nodes, order[i], assets[order[i]])
      ensures order[i] in after && assets[order[i]] in after
      ensures after[assets[order[i]]].mtime > after[order[i]].mtime
    {
      var src, dest := order[i], assets[order[i]];
      assert Applied(force, nodes, after, now, compiler, src, dest);
      RunPassFrame(order, assets, nodes, now, compiler, force, src);
    }
  }

  /** The destination's parent is a directory, or can be made by one `mkdir`. */
  predicate ParentReady(nodes: Nodes, dest: Path) {
    var parent := Parent(dest);
    if parent in nodes then nodes[parent].Directory?
    else Parent(parent) in nodes && nodes[Parent(parent)].Directory?
  }

  /**
   * Nothing in the filesystem or the compiler stops this asset: its source
   * exists, and if it is selected the source is a readable file that
   * compiles, the destination is not a directory and its parent can be had.
   */
  predicate Ready(force: bool, nodes: Nodes, compiler: Compiler, src: Path, dest: Path) {
    && src in nodes
    && (Selected(force, nodes, src, dest) ==>
          && nodes[src].File?
          && compiler.CompileString(nodes[src].content).Ok?
          && (dest in nodes ==> nodes[dest].File?)
          && ParentReady(nodes, dest))
  }

  /**
   * An iteration succeeds exactly when its asset is ready: a missing source,
   * a selected source that is unreadable or does not compile, a destination
   * that is a directory, or a missing grandparent directory each raise.
   */
  lemma StepSucceeds(force: bool, nodes: Nodes, now: int, compiler: Compiler, src: Path, dest: Path)
    requires src != dest && src != Parent(dest) && dest != Parent(dest)
    ensures Step(force, nodes, now, compiler, src, dest).outcome.Success? <==> Ready(force, nodes, compiler, src, dest)
  {
  }

  lemma {:induction false} RunPassGrows(order: seq<Path>, assets: map<Path, Path>, nodes: Nodes, now: int,
                                        compiler: Compiler, force: bool)
    requires InAssets(order, assets)
    ensures Grows(nodes, RunPass(order, assets, nodes, now, compiler, force).nodes, assets.Values)
    decreases |order|
  {
    if order != [] {
      RunPassGrows(order[..|order| - 1], assets, nodes, now, compiler, force);
    }
  }

  /** An asset ready at the start of a pass is still ready when the pass reaches it. */
  lemma ReadyTransfers(force: bool, nodes: Nodes, mid: Nodes, compiler: Compiler, src: Path, dest: Path,
                       dests: set<Path>)
    requires SameAt(nodes, mid, src) && SameAt(nodes, mid, dest)
    requires Grows(nodes, mid, dests) && Parent(dest) !in dests
    requires Ready(force, nodes, compiler, src, dest)
    ensures Ready(force, mid, compiler, src, dest)
  {
  }

  /** A pass over independent assets that are all ready fails nowhere. */
  lemma {:induction false} PassSucceeds(order: seq<Path>, assets: map<Path, Path>, nodes: Nodes, now: int,
                                        compiler: Compiler, force: bool)
    requires InAssets(order, assets) && Distinct(order) && Independent(assets)
    requires forall i :: 0 <= i < |order| ==> Ready(force, nodes, compiler, order[i], assets[order[i]])
    ensures RunPass(order, assets, nodes, now, compiler, force).outcome.Success?
    decreases |order|
  {
    if order != [] {
      var prefix := order[..|order| - 1];
      var src := order[|order| - 1];
      var dest := assets[src];
      assert forall i :: 0 <= i < |prefix| ==> prefix[i] == order[i];
      PassSucceeds(prefix, assets, nodes, now, compiler, force);
      var w := RunPass(prefix, assets, nodes, now, compiler, force);
      RunPassGrows(prefix, assets, nodes, now, compiler, force);
      RunPassFrame(prefix, assets, nodes, now, compiler, force, src);
      RunPassFrame(prefix, assets, nodes, now, compiler, force, dest);
      assert Parent(dest) !in assets.Values;
      ReadyTransfers(force, nodes, w.nodes, compiler, src, dest, assets.Values);
      StepSucceeds(force, w.nodes, now, compiler, src, dest);
    }
  }
}
