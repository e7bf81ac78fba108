/**
 * The parts of Python's `pathlib` the builder uses, on paths held as their
 * string form (`str(path)`): joining with `/`, `.name`, `.stem` and `.parent`.
 * Paths are taken as already normalised: no `.`/`..` components, no repeated
 * or trailing separators.
 */
module PurePath {
  import opened Strings

  type Path = string

  predicate IsAbsolute(p: Path) {
    |p| > 0 && p[0] == '/'
  }

  /** `Path(base) / p`: an absolute right operand replaces the base. */
  function Join(base: Path, p: Path): (r: Path)
    ensures IsAbsolute(p) ==> r == p
    ensures IsAbsolute(base) ==> IsAbsolute(r)
    ensures p == "" ==> r == base
    ensures !IsAbsolute(p) && base == "" ==> r == p
    ensures !IsAbsolute(p) && p != "" && base != "" ==> r == AsDirectory(base) + p
  {
    if IsAbsolute(p) then p
    else if p == "" then base
    else if base == "" then p
    else if base[|base| - 1] == '/' then base + p
    else base + "/" + p
  }

  /** Index of the last `c` in `s`, or -1 (Python's `str.rfind`). */
  function LastIndexOf(s: string, c: char): (i: int)
    ensures -1 <= i < |s|
    ensures 0 <= i ==> s[i] == c
    ensures forall j :: i < j < |s| ==> s[j] != c
  {
    if s == [] then -1
    else if s[|s| - 1] == c then |s| - 1
    else LastIndexOf(s[..|s| - 1], c)
  }

  /** `Path(p).name`: the last component. */
  function Name(p: Path): (r: string)
    ensures EndsWith(p, r)
    ensures '/' !in r
    ensures r == p || p[|p| - |r| - 1] == '/'
  {
    var i := LastIndexOf(p, '/');
    p[i + 1..]
  }

  /** `PurePath.stem`: the name without its last suffix. */
  function Stem(name: string): (r: string)
    ensures StartsWith(name, r)
    ensures r == name || (0 < |r| < |name| - 1 && name[|r|] == '.')
    ensures r != name ==> '.' !in name[|r| + 1..]
    ensures r == name <==> |name| < 3 || name[|name| - 1] == '.' || '.' !in name[1..|name| - 1]
  {
    var i := LastIndexOf(name, '.');
    if 0 < i < |name| - 1 then name[..i] else name
  }

  /** `Path(p).parent` for a normalised path. */
  function Parent(p: Path): (r: Path)
    ensures IsAbsolute(p) ==> IsAbsolute(r)
    ensures r == "." || r == "/" || (StartsWith(p, r) && |r| < |p| && p[|r|] == '/')
    ensures '/' !in p ==> r == "."
    ensures '/' in p ==>
              || (r == "/" && p[0] == '/' && '/' !in p[1..])
              || (StartsWith(p, r) && |r| < |p| && p[|r|] == '/' && '/' !in p[|r| + 1..])
  {
    var i := LastIndexOf(p, '/');
    if i < 0 then "." else if i == 0 then "/" else p[..i]
  }

  /** The text that every path strictly inside directory `dir` begins with. */
  function AsDirectory(dir: Path): Path {
    if dir != "" && dir[|dir| - 1] == '/' then dir else dir + "/"
  }

  /** `p` lies strictly below `dir` (at any depth). */
  predicate Under(p: Path, dir: Path) {
    AsDirectory(dir) < p
  }
}
