/**
 * The operating-system filesystem as the builder sees it: a map from path to
 * node, where a node is a file (modification time and text) or a directory,
 * plus the clock that stamps writes. Pure functions give the effect of
 * `mkdir`, `open(…, 'w')` and `read`; the `FileSystem` class performs them
 * in place, and answers `stat` directly from the map.
 */
module Disk {
  import opened Wrappers
  import opened PurePath

  datatype Node = File(mtime: int, content: string) | Directory(mtime: int)

  type Nodes = map<Path, Node>

  /** The `OSError` subclasses the builder's calls can raise. */
  datatype OsError =
    | FileNotFound(path: Path)
    | FileExists(path: Path)
    | NotADirectory(path: Path)
    | IsADirectory(path: Path)

  /** `Path.mkdir()` without `parents=True`: only one missing level is created. */
  function MkdirOn(nodes: Nodes, now: int, p: Path): (r: Result<Nodes, OsError>)
    ensures r.Ok? <==> p !in nodes && Parent(p) in nodes && nodes[Parent(p)].Directory?
    ensures r.Ok? ==> r.value == nodes[p := Directory(now)] && r.value.Keys == nodes.Keys + {p}
  {
    if p in nodes then Err(FileExists(p))
    else if Parent(p) !in nodes then Err(FileNotFound(p))
    else if !nodes[Parent(p)].Directory? then Err(NotADirectory(p))
    else Ok(nodes[p := Directory(now)])
  }

  /** `open(p, 'w')`: creates or truncates the file before anything is written. */
  function TruncateOn(nodes: Nodes, now: int, p: Path): (r: Result<Nodes, OsError>)
    ensures r.Ok? <==> Parent(p) in nodes && nodes[Parent(p)].Directory? && !(p in nodes && nodes[p].Directory?)
    ensures r.Ok? ==> r.value == nodes[p := File(now, "")]
  {
    if Parent(p) !in nodes then Err(FileNotFound(p))
    else if !nodes[Parent(p)].Directory? then Err(NotADirectory(p))
    else if p in nodes && nodes[p].Directory? then Err(IsADirectory(p))
    else Ok(nodes[p := File(now, "")])
  }

  /** `open(p, 'r').read()`. */
  function ReadOn(nodes: Nodes, p: Path): (r: Result<string, OsError>)
    ensures r.Ok? <==> p in nodes && nodes[p].File?
    ensures r.Ok? ==> r.value == nodes[p].content
    ensures r.Err? ==> r.error == if p in nodes then IsADirectory(p) else FileNotFound(p)
  {
    if p !in nodes then Err(FileNotFound(p))
    else if nodes[p].Directory? then Err(IsADirectory(p))
    else Ok(nodes[p].content)
  }

  /** The filesystem, changed in place by the builder's writes. */
  class FileSystem {
    var nodes: Nodes
    /** The time a write stamps on what it changes; the environment advances it. */
    var now: int

    constructor (nodes: Nodes, now: int)
      ensures this.nodes == nodes && this.now == now
    {
      this.nodes := nodes;
      this.now := now;
    }

    /** `Path.exists()`: true for files and directories alike. */
    predicate Exists(p: Path)
      reads this
    {
      p in nodes
    }

    /** `Path.stat().st_mtime` (a directory has one too). */
    method Stat(p: Path) returns (r: Result<int, OsError>)
      ensures r.Ok? <==> Exists(p)
      ensures r.Ok? ==> r.value == nodes[p].mtime
      ensures r.Err? ==> r.error == FileNotFound(p)
    {
      if p in nodes {
        r := Ok(nodes[p].mtime);
      } else {
        r := Err(FileNotFound(p));
      }
    }

    method Mkdir(p: Path) returns (r: Outcome<OsError>)
      modifies this
      ensures now == old(now)
      ensures var m := MkdirOn(old(nodes), now, p);
        if m.Ok? then r.Success? && nodes == m.value else r == Failure(m.error) && nodes == old(nodes)
    {
      var m := MkdirOn(nodes, now, p);
      if m.Ok? {
        nodes := m.value;
        r := Success;
      } else {
        r := Failure(m.error);
      }
    }

    /** Opens `p` for writing, which empties it at once. */
    method OpenForWriting(p: Path) returns (r: Outcome<OsError>)
      modifies this
      ensures now == old(now)
      ensures var t := TruncateOn(old(nodes), now, p);
        if t.Ok? then r.Success? && nodes == t.value else r == Failure(t.error) && nodes == old(nodes)
    {
      var t := TruncateOn(nodes, now, p);
      if t.Ok? {
        nodes := t.value;
        r := Success;
      } else {
        r := Failure(t.error);
      }
    }

    /** `open(p, 'r').read()`, in the terms `ReadOn` gives it. */
    method Read(p: Path) returns (r: Result<string, OsError>)
      ensures r.Ok? <==> p in nodes && nodes[p].File?
      ensures r.Ok? ==> r.value == nodes[p].content
      ensures r.Err? ==> r.error == if p in nodes then IsADirectory(p) else FileNotFound(p)
    {
      r := ReadOn(nodes, p);
    }

    /** Writes the whole text of a file that is open for writing. */
    method Write(p: Path, text: string)
      requires p in nodes && nodes[p].File?
      modifies this
      ensures now == old(now)
      ensures nodes == old(nodes)[p := File(now, text)]
    {
      nodes := nodes[p := File(now, text)];
    }
  }
}
