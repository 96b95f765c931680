/** Path handling used by `compact_path` (src/compactor.rs:44-63): paths as the component
    sequences `Path::components` yields, home-prefix stripping and `Path::join`. */
module Paths {

  datatype Option<T> = None | Some(value: T)

  /** `Component::RootDir` as a string on a Unix host. */
  const RootComponent: string := "/"

  /** `Component::CurDir` as a string. */
  const CurDirComponent: string := "."

  /** `Path::is_absolute` on Unix: the path starts at the root. */
  predicate IsAbsolute(p: seq<string>) {
    |p| > 0 && p[0] == RootComponent
  }

  /** What `Path::components` guarantees: the root and the current-directory marker can
      only be the first component. */
  predicate WellFormed(p: seq<string>) {
    forall i :: 0 < i < |p| ==> p[i] != RootComponent && p[i] != CurDirComponent
  }

  /** `Path::starts_with`: a component-wise prefix. */
  predicate StartsWith(p: seq<string>, base: seq<string>) {
    |base| <= |p| && p[..|base|] == base
  }

  /** `Path::strip_prefix`: what follows `base` when `p` starts with it component-wise,
      nothing otherwise. */
  function StripPrefix(p: seq<string>, base: seq<string>): (r: Option<seq<string>>)
    ensures r.Some? <==> StartsWith(p, base)
    ensures r.Some? ==> base + r.value == p
  {
    if StartsWith(p, base) then Some(p[|base|..]) else None
  }

  /** The components of `Path::new(symbol)`: none for the empty string, otherwise the
      symbol as one component. */
  function SymbolComponents(symbol: string): (r: seq<string>)
    ensures r == [] <==> symbol == ""
    ensures forall x :: x in r ==> x == symbol
  {
    if symbol == "" then [] else [symbol]
  }

  /** `base.join(rel)` read back through `components()`: an absolute `rel` replaces `base`;
      otherwise `rel` follows `base`, and a leading `.` of `rel` disappears once it is no
      longer at the start of the path. */
  function JoinPath(base: seq<string>, rel: seq<string>): (r: seq<string>)
    ensures IsAbsolute(rel) ==> r == rel
    ensures !IsAbsolute(rel) && (rel == [] || rel[0] != CurDirComponent) ==> r == base + rel
    ensures !IsAbsolute(rel) && rel != [] && rel[0] == CurDirComponent ==>
              r == (if base == [] then rel else base + rel[1..])
    ensures forall x :: x in r ==> x in base || x in rel
  {
    if IsAbsolute(rel) then rel
    else if base != [] && rel != [] && rel[0] == CurDirComponent then base + rel[1..]
    else base + rel
  }

  /** The aliasing step of `compact_path`: when the path lies under `home`, the home
      components are replaced by the symbol (as `Path::new(symbol).join(rest)`); otherwise
      the path is kept. */
  function AliasHome(path: seq<string>, home: seq<string>, symbol: string): (r: seq<string>)
    ensures forall x :: x in r ==> x in path || x == symbol
  {
    match StripPrefix(path, home)
    case Some(rest) =>
      assert forall x :: x in rest ==> x in path;
      JoinPath(SymbolComponents(symbol), rest)
    case None => path
  }

  // ---------------------------------------------------------------------------
  // home aliasing

  /** A path under a non-empty home directory gets the symbol in place of the home
      components (nothing, for the empty symbol), the rest of the path following unchanged. */
  lemma AliasUnderHome(path: seq<string>, home: seq<string>, symbol: string)
    requires WellFormed(path) && home != [] && StartsWith(path, home)
    ensures AliasHome(path, home, symbol) == SymbolComponents(symbol) + path[|home|..]
    ensures symbol != "" ==> AliasHome(path, home, symbol) == [symbol] + path[|home|..]
    ensures symbol == "" ==> AliasHome(path, home, symbol) == path[|home|..]
  {
    var rest := path[|home|..];
    if rest != [] {
      assert rest[0] == path[|home|];
    }
  }

  /** A path outside the home directory is kept as it is. */
  lemma AliasOutsideHome(path: seq<string>, home: seq<string>, symbol: string)
    requires !StartsWith(path, home)
    ensures AliasHome(path, home, symbol) == path
  {
  }

  /** With no home directory (`get_home` falling back to the empty path) every path starts
      with it: a relative path gets the symbol prepended (a leading `.` disappearing behind
      it), while an absolute one is kept, because joining an absolute path replaces the
      symbol. The empty symbol leaves every path as it is. */
  lemma AliasWithoutHome(path: seq<string>, symbol: string)
    ensures IsAbsolute(path) ==> AliasHome(path, [], symbol) == path
    ensures !IsAbsolute(path) && symbol != "" && (path == [] || path[0] != CurDirComponent) ==>
      AliasHome(path, [], symbol) == [symbol] + path
    ensures !IsAbsolute(path) && symbol != "" && path != [] && path[0] == CurDirComponent ==>
      AliasHome(path, [], symbol) == [symbol] + path[1..]
    ensures symbol == "" ==> AliasHome(path, [], symbol) == path
  {
    assert path[0..] == path;
  }
}
