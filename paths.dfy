/**
 * The part of Rust's std::path the watcher and the import resolver rely on.
 * A path is a flag saying whether it is rooted plus its normal components in
 * order; PathBuf equality in Rust also compares by components.
 */
module Paths {
  import opened Wrappers

  datatype Path = Path(absolute: bool, parts: seq<string>)

  /** Path::parent: the path without its last component; None for "" and "/". */
  function Parent(p: Path): (r: Option<Path>)
    ensures r.Some? <==> |p.parts| > 0
    ensures r.Some? ==> r.value.absolute == p.absolute && r.value.parts + [p.parts[|p.parts| - 1]] == p.parts
  {
    if p.parts == [] then None else Some(Path(p.absolute, p.parts[..|p.parts| - 1]))
  }

  /** Path::file_name: the last component, if any. */
  function FileName(p: Path): (r: Option<string>)
    ensures r.Some? <==> |p.parts| > 0
    ensures r.Some? ==> r.value == p.parts[|p.parts| - 1]
  {
    if p.parts == [] then None else Some(p.parts[|p.parts| - 1])
  }

  /** Path::join: a rooted argument replaces the base, otherwise its components are appended. */
  function Join(base: Path, p: Path): (r: Path)
    ensures p.absolute ==> r == p
    ensures !p.absolute ==> r.absolute == base.absolute && |r.parts| == |base.parts| + |p.parts| && r.parts[..|base.parts|] == base.parts && r.parts[|base.parts|..] == p.parts
  {
    if p.absolute then p else Path(base.absolute, base.parts + p.parts)
  }

  /** `folder.join(name)` for a single file name. */
  function Child(folder: Path, name: string): (r: Path)
    ensures Parent(r) == Some(folder) && FileName(r) == Some(name)
  {
    Join(folder, Path(false, [name]))
  }

  /** Path::strip_prefix: the relative remainder when `prefix` is a leading part of `p`. */
  function StripPrefix(p: Path, prefix: Path): (r: Option<Path>)
    ensures r.Some? <==> p.absolute == prefix.absolute && |prefix.parts| <= |p.parts| && p.parts[..|prefix.parts|] == prefix.parts
    ensures r.Some? ==> !r.value.absolute && prefix.parts + r.value.parts == p.parts
  {
    if p.absolute == prefix.absolute && |prefix.parts| <= |p.parts| && p.parts[..|prefix.parts|] == prefix.parts
    then Some(Path(false, p.parts[|prefix.parts|..]))
    else None
  }

  /** Position of the last '.' in a file name. */
  function LastDot(name: string): (r: Option<nat>)
    ensures r.None? <==> forall k :: 0 <= k < |name| ==> name[k] != '.'
    ensures r.Some? ==> r.value < |name| && name[r.value] == '.'
    ensures r.Some? ==> forall k :: r.value < k < |name| ==> name[k] != '.'
  {
    if name == [] then None
    else if name[|name| - 1] == '.' then Some(|name| - 1)
    else LastDot(name[..|name| - 1])
  }

  /**
   * OsStr splitting used by Path::file_stem and Path::extension: the text
   * before and after the last '.', except that ".." and a name whose only dot
   * leads it have no extension.
   */
  function Stem(name: string): string
  {
    if name == ".." then name
    else match LastDot(name)
      case None => name
      case Some(i) => if i == 0 then name else name[..i]
  }

  function Extension(name: string): Option<string>
  {
    if name == ".." then None
    else match LastDot(name)
      case None => None
      case Some(i) => if i == 0 then None else Some(name[i + 1..])
  }

  /** A name with an extension is its stem, a dot and the extension; the stem is not empty. */
  lemma StemDotExtension(name: string)
    requires Extension(name).Some?
    ensures name == Stem(name) + "." + Extension(name).value
    ensures Stem(name) != ""
  {
    var i := LastDot(name).value;
    assert name == name[..i] + [name[i]] + name[i + 1..];
  }

  /** Appending ".ext" (ext non-empty, without a dot) to a non-empty stem gives back that stem and extension. */
  lemma {:induction false} SplitOfStemDotExtension(stem: string, ext: string)
    requires stem != "" && ext != ""
    requires forall k :: 0 <= k < |ext| ==> ext[k] != '.'
    ensures Stem(stem + "." + ext) == stem
    ensures Extension(stem + "." + ext) == Some(ext)
  {
    var name := stem + "." + ext;
    assert name[|stem|] == '.';
    LastDotAfterDotFree(stem + ".", ext);
    assert |name| > 2;
    assert name[..|stem|] == stem;
    assert name[|stem| + 1..] == ext;
  }

  /** The last dot of `s + t` when `s` ends with a dot and `t` has none. */
  lemma {:induction false} LastDotAfterDotFree(s: string, t: string)
    requires |s| > 0 && s[|s| - 1] == '.'
    requires forall k :: 0 <= k < |t| ==> t[k] != '.'
    ensures LastDot(s + t) == Some(|s| - 1)
  {
    if t == [] {
      assert s + t == s;
    } else {
      var u := s + t;
      assert u[..|u| - 1] == s + t[..|t| - 1];
      LastDotAfterDotFree(s, t[..|t| - 1]);
    }
  }
}
