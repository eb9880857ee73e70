/** Name and extension derivation of the `File` class (`getExtension`, `getName`,
    `newPath`).  The stored path `$this->file` is the parameter `file`. */
module Naming {
  import opened Strings

  const Dot: char := '.'

  /** `getExtension`: the last piece of the path exploded on `.`.  It is the part
      after the LAST dot, or the whole path when there is no dot at all. */
  function GetExtension(file: string): (ext: string)
    ensures Dot !in ext
    ensures IsSuffix(ext, file)
    ensures Dot !in file ==> ext == file
    ensures Dot in file ==> |ext| < |file| && file == file[..|file| - |ext| - 1] + [Dot] + ext
  {
    var parts := Explode(file, Dot);
    var ext := parts[|parts| - 1];
    LastPiece(file);
    ext
  }

  /** The last piece of the path exploded on `.`, split into the cases with and
      without a dot. */
  lemma LastPiece(file: string)
    ensures Dot !in Explode(file, Dot)[|Explode(file, Dot)| - 1]
    ensures Dot !in file ==> Explode(file, Dot)[|Explode(file, Dot)| - 1] == file
    ensures Dot in file ==> exists stem :: file == stem + [Dot] + Explode(file, Dot)[|Explode(file, Dot)| - 1]
  {
    ExplodeSpec(file, Dot);
    if Dot in file {
      var parts := Explode(file, Dot);
      assert Count(file, Dot) > 0;
      ImplodeLast(parts, Dot);
    }
  }

  /** `getName`: the first piece of the path exploded on `.`.  It is the part
      before the FIRST dot, or the whole path when there is no dot at all. */
  function GetName(file: string): (name: string)
    ensures Dot !in name
    ensures name <= file
    ensures Dot !in file ==> name == file
    ensures Dot in file ==> |name| < |file| && file[|name|] == Dot
  {
    var parts := Explode(file, Dot);
    FirstPiece(file);
    parts[0]
  }

  /** The first piece of the path exploded on `.`: dot-free, and followed by a dot
      when the path has one. */
  lemma FirstPiece(file: string)
    ensures Dot !in Explode(file, Dot)[0]
    ensures Explode(file, Dot)[0] <= file
    ensures Dot !in file ==> Explode(file, Dot)[0] == file
    ensures Dot in file ==> |Explode(file, Dot)[0]| < |file| && file[|Explode(file, Dot)[0]|] == Dot
  {
    var parts := Explode(file, Dot);
    ExplodeSpec(file, Dot);
    if |parts| > 1 {
      assert file == parts[0] + [Dot] + Implode(parts[1..], Dot);
    }
  }

  /** `newPath`: the destination name formed from a base name and the stored
      path's extension.  The new path starts with `name.`, keeps that extension,
      and keeps the base name's own name part. */
  function NewPath(file: string, name: string): (path: string)
    ensures name + [Dot] <= path
    ensures |path| == |name| + 1 + |GetExtension(file)|
    ensures GetExtension(path) == GetExtension(file)
    ensures GetName(path) == GetName(name)
  {
    var ext := GetExtension(file);
    var path := name + [Dot] + ext;
    ExplodeConcat(name, ext, Dot);
    ExplodeNoDelimiter(ext, Dot);
    path
  }

  /** Of two dot-free suffixes of a path, the shorter is not preceded by a dot. */
  lemma ShorterSuffixNotAfterDot(file: string, x: string, y: string)
    requires Dot !in x && IsSuffix(x, file)
    requires Dot !in y && IsSuffix(y, file)
    ensures |x| < |y| ==> file[|file| - |x| - 1] != Dot
  {
    if |x| < |y| {
      assert file[|file| - |x| - 1] == y[|y| - |x| - 1];
    }
  }

  /** The extension is THE part after the last dot: any dot-free suffix of the path
      that is the whole path or is preceded by a dot is the extension. */
  lemma ExtensionIsAfterLastDot(file: string, x: string)
    requires Dot !in x && IsSuffix(x, file)
    requires x == file || file[|file| - |x| - 1] == Dot
    ensures x == GetExtension(file)
  {
    var ext := GetExtension(file);
    ShorterSuffixNotAfterDot(file, x, ext);
    ShorterSuffixNotAfterDot(file, ext, x);
    assert file[|file| - |x|..] == file[|file| - |ext|..];
  }

  /** The name is THE part before the first dot: any dot-free prefix of the path
      that is the whole path or is followed by a dot is the name. */
  lemma NameIsBeforeFirstDot(file: string, x: string)
    requires Dot !in x && x <= file
    requires x == file || file[|x|] == Dot
    ensures x == GetName(file)
  {
  }

  /** The name uses the first dot and the extension the last one: for
      `archive.tar.gz` the name is `archive` and the extension is `gz`. */
  lemma NameFirstExtensionLast(a: string, b: string, c: string)
    requires Dot !in a && Dot !in b && Dot !in c
    ensures GetName(a + [Dot] + b + [Dot] + c) == a
    ensures GetExtension(a + [Dot] + b + [Dot] + c) == c
  {
    var file := a + [Dot] + b + [Dot] + c;
    assert file[..|a|] == a;
    assert file[|a|] == Dot;
    NameIsBeforeFirstDot(file, a);
    assert file[|file| - |c|..] == c;
    assert file[|file| - |c| - 1] == Dot;
    ExtensionIsAfterLastDot(file, c);
  }

  /** The whole stored path is split, directories included: a dot in a directory
      name and none in the file name puts the directory's tail into the extension. */
  lemma ExtensionCrossesDirectories(dir: string, rest: string)
    requires Dot !in rest
    ensures GetExtension(dir + [Dot] + rest) == rest
  {
    var file := dir + [Dot] + rest;
    assert file[|file| - |rest|..] == rest;
    assert file[|file| - |rest| - 1] == Dot;
    ExtensionIsAfterLastDot(file, rest);
  }
}
