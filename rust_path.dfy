/**
 * The parts of `std::path::Path` the model relies on, over file names held
 * as strings: `file_name`, `extension`, `file_stem` and `with_extension`.
 * A file name is split at its last `'.'`, except that a name whose only dot
 * is its first character (a hidden file such as `.profile`) has no extension.
 */
module RustPath {
  import opened RustCore

  function LastIndexOf(s: string, c: char): (r: Option<nat>)
    ensures r.None? ==> forall j :: 0 <= j < |s| ==> s[j] != c
    ensures r.Some? ==> r.value < |s| && s[r.value] == c
    ensures r.Some? ==> forall j :: r.value < j < |s| ==> s[j] != c
  {
    if s == [] then None
    else if s[|s| - 1] == c then Some(|s| - 1)
    else LastIndexOf(s[..|s| - 1], c)
  }

  /** `Path::file_name` of a path with no trailing separator: its last component. */
  function FileName(path: string): (name: string)
    ensures '/' !in name
    ensures path == name || (|name| < |path| && path[|path| - |name| - 1] == '/' && name == path[|path| - |name|..])
  {
    match LastIndexOf(path, '/')
    case None => path
    case Some(i) => path[i + 1..]
  }

  /**
   * `Path::extension`: what follows the last dot, unless that dot is the first
   * character. Unlike `Path`, the name `".."` is not special-cased; record
   * names (a digest and an extension) and the names of canonical input paths
   * never take that form.
   */
  function Extension(name: string): (ext: Option<string>)
    ensures ext.Some? ==> '.' !in ext.value && |ext.value| < |name|
  {
    match LastIndexOf(name, '.')
    case None => None
    case Some(i) => if i == 0 then None else Some(name[i + 1..])
  }

  /** `Path::file_stem`: the name without its extension and the dot before it (`".."` as for `Extension`). */
  function FileStem(name: string): (stem: string)
    ensures |stem| <= |name| && stem == name[..|stem|]
    ensures stem == [] <==> name == []
    ensures Extension(name).None? ==> stem == name
  {
    match LastIndexOf(name, '.')
    case None => name
    case Some(i) => if i == 0 then name else name[..i]
  }

  /**
   * `Path::with_extension`: the stem followed by the new extension. An empty
   * name is left alone, and an empty extension drops the dot as well.
   */
  function WithExtension(name: string, ext: string): string {
    if name == [] then name
    else if ext == [] then FileStem(name)
    else FileStem(name) + "." + ext
  }

  /** A name with an extension is its stem, a dot and that extension, and the stem is not empty. */
  lemma NameParts(name: string)
    requires Extension(name).Some?
    ensures name == FileStem(name) + "." + Extension(name).value
    ensures FileStem(name) != []
  {
    var i := LastIndexOf(name, '.').value;
    assert name == name[..i] + [name[i]] + name[i + 1..];
  }

  /**
   * `with_extension` with a non-empty, dot-free extension keeps the stem and
   * makes that the extension, which is how a record names its companion and
   * back.
   */
  lemma WithExtensionParts(name: string, ext: string)
    requires name != [] && ext != [] && '.' !in ext
    ensures Extension(WithExtension(name, ext)) == Some(ext)
    ensures FileStem(WithExtension(name, ext)) == FileStem(name)
  {
    JoinedName(FileStem(name), ext);
  }

  /** Joining a non-empty stem and a dot-free extension gives back exactly those two parts. */
  lemma JoinedName(stem: string, ext: string)
    requires stem != [] && '.' !in ext
    ensures Extension(stem + "." + ext) == Some(ext)
    ensures FileStem(stem + "." + ext) == stem
  {
    var name := stem + "." + ext;
    assert name[|stem|] == '.';
    assert name[|stem| + 1..] == ext;
    var k := LastIndexOf(name, '.');
    assert k == Some(|stem|) by {
      assert forall j :: |stem| < j < |name| ==> name[j] == ext[j - |stem| - 1];
    }
    assert name[..|stem|] == stem;
  }
}
