/** Directory handling behind `copyTo` and `createDir`: the destination is
    exploded on `/`, its last piece is dropped, and `createDir` walks the
    remaining pieces building `seg0/`, `seg0/seg1/`, ... and creating each
    prefix that does not exist yet.  The filesystem is a set of existing paths;
    the copy itself is a function parameter. */
module Dirs {
  import opened Strings
  import Naming

  const Slash: char := '/'

  /** `p` names a directory on the way to `dest`: a non-empty prefix of `dest`
      that ends with `/`. */
  predicate IsDirPrefix(p: string, dest: string) {
    |p| > 0 && p <= dest && p[|p| - 1] == Slash
  }

  /** The pieces `copyTo` hands to `createDir`: `explode('/', dest)` without its
      last piece. */
  function DirSegments(dest: string): (segs: seq<string>)
    ensures |segs| == Count(dest, Slash)
    ensures forall i :: 0 <= i < |segs| ==> Slash !in segs[i]
    ensures JoinDirs(segs) <= dest
  {
    var parts := Explode(dest, Slash);
    ExplodeSpec(dest, Slash);
    ImplodeAsDirs(parts);
    parts[..|parts| - 1]
  }

  /** The path `createDir` has accumulated after the pieces `segs`: every piece
      followed by `/`. */
  function JoinDirs(segs: seq<string>): string {
    if |segs| == 0 then "" else JoinDirs(segs[..|segs| - 1]) + segs[|segs| - 1] + [Slash]
  }

  /** The paths `createDir` visits, in order: the accumulation after one piece,
      after two pieces, and so on. */
  function DirPrefixes(segs: seq<string>): (ps: seq<string>)
    ensures |ps| == |segs|
  {
    if |segs| == 0 then [] else DirPrefixes(segs[..|segs| - 1]) + [JoinDirs(segs)]
  }

  /** The i-th visited path joins the first i + 1 pieces. */
  lemma {:induction false} DirPrefixesAt(segs: seq<string>, i: nat)
    requires i < |segs|
    ensures DirPrefixes(segs)[i] == JoinDirs(segs[..i + 1])
    decreases |segs|
  {
    var n := |segs|;
    var init := segs[..n - 1];
    if i < n - 1 {
      DirPrefixesAt(init, i);
      assert init[..i + 1] == segs[..i + 1];
    } else {
      if n > 1 {
        DirPrefixesAt(init, 0);
      }
      assert segs[..i + 1] == segs;
    }
  }

  /** `createDir`: visits every accumulated prefix and issues `mkdir` for each one
      not present at that moment.  `existing` is the set of paths that exist
      beforehand; `dirs` the set afterwards. */
  method CreateDir(segs: seq<string>, existing: set<string>)
    returns (visited: seq<string>, mkdirs: seq<string>, dirs: set<string>)
    ensures visited == DirPrefixes(segs)
    ensures forall p :: p in dirs <==> p in existing || p in visited
    ensures forall p :: p in mkdirs <==> p in visited && p !in existing
    ensures forall a, b :: 0 <= a < b < |mkdirs| ==> mkdirs[a] < mkdirs[b]
  {
    var npath := "";
    visited, mkdirs, dirs := [], [], existing;
    var i := 0;
    while i < |segs|
      invariant 0 <= i <= |segs|
      invariant npath == JoinDirs(segs[..i])
      invariant visited == DirPrefixes(segs[..i])
      invariant forall p :: p in dirs <==> p in existing || p in visited
      invariant forall p :: p in mkdirs <==> p in visited && p !in existing
      invariant forall k :: 0 <= k < |mkdirs| ==> mkdirs[k] <= npath
      invariant forall a, b :: 0 <= a < b < |mkdirs| ==> mkdirs[a] < mkdirs[b]
    {
      assert segs[..i + 1][..i] == segs[..i];
      var prev := npath;
      npath := npath + segs[i] + [Slash];
      assert prev < npath;
      forall k | 0 <= k < |mkdirs| ensures mkdirs[k] < npath {
        PrefixTransitive(mkdirs[k], prev, npath);
      }
      if npath !in dirs {
        mkdirs := mkdirs + [npath];
        dirs := dirs + {npath};
      }
      visited := visited + [npath];
      i := i + 1;
    }
    assert segs[..|segs|] == segs;
  }

  /** `copyTo`: creates the directories on the way to `dest`, then copies the file
      to `dest` plus the stored path's extension.  `copy` stands for PHP's `@copy`:
      it sees the paths that exist once the directories are made, and its failure
      is reported as `false` rather than raised.  `dirs` are the paths that exist
      before the copy: the old ones plus exactly the directory prefixes of `dest`,
      with a `mkdir` issued for exactly those that were missing.  `paths` are the
      paths that exist afterwards: a successful copy adds the new file. */
  method CopyTo(file: string, dest: string, existing: set<string>, copy: (string, string, set<string>) -> bool)
    returns (mkdirs: seq<string>, dirs: set<string>, ok: bool, paths: set<string>)
    ensures forall p :: p in dirs <==> p in existing || IsDirPrefix(p, dest)
    ensures forall p :: p in mkdirs <==> IsDirPrefix(p, dest) && p !in existing
    ensures forall a, b :: 0 <= a < b < |mkdirs| ==> mkdirs[a] < mkdirs[b]
    ensures ok <==> copy(file, Naming.NewPath(file, dest), dirs)
    ensures forall p :: p in paths <==> p in dirs || (ok && p == Naming.NewPath(file, dest))
  {
    mkdirs, dirs := MakeDestinationDirs(dest, existing);
    var target := Naming.NewPath(file, dest);
    ok := copy(file, target, dirs);
    paths := if ok then dirs + {target} else dirs;
  }

  /** The directory half of `copyTo`: `createDir` on the destination's pieces,
      skipped when there are none. */
  method MakeDestinationDirs(dest: string, existing: set<string>)
    returns (mkdirs: seq<string>, dirs: set<string>)
    ensures forall p :: p in dirs <==> p in existing || IsDirPrefix(p, dest)
    ensures forall p :: p in mkdirs <==> IsDirPrefix(p, dest) && p !in existing
    ensures forall a, b :: 0 <= a < b < |mkdirs| ==> mkdirs[a] < mkdirs[b]
  {
    var segs := DirSegments(dest);
    DirPrefixesOfDestination(dest);
    if |segs| != 0 {
      var visited;
      visited, mkdirs, dirs := CreateDir(segs, existing);
    } else {
      mkdirs, dirs := [], existing;
    }
  }

  /** The directory prefixes of a destination: one per `/`, each a proper prefix of
      the next, the i-th ending at the (i + 1)-th `/`, and every prefix of the
      destination that ends with `/` among them. */
  lemma DirPrefixesOfDestination(dest: string)
    ensures |DirPrefixes(DirSegments(dest))| == Count(dest, Slash)
    ensures forall i :: 0 <= i < Count(dest, Slash) ==>
      IsDirPrefix(DirPrefixes(DirSegments(dest))[i], dest) && Count(DirPrefixes(DirSegments(dest))[i], Slash) == i + 1
    ensures forall i :: 0 <= i < Count(dest, Slash) - 1 ==>
      DirPrefixes(DirSegments(dest))[i] < DirPrefixes(DirSegments(dest))[i + 1]
    ensures forall p :: IsDirPrefix(p, dest) <==> p in DirPrefixes(DirSegments(dest))
  {
    var segs := DirSegments(dest);
    PrefixesSound(segs, dest);
    PrefixesOrdered(segs);
    forall p | IsDirPrefix(p, dest)
      ensures p in DirPrefixes(segs)
    {
      PrefixesComplete(dest, p);
    }
  }

  /** Each visited path is a directory prefix of the destination whose `/` count is
      its position plus one. */
  lemma PrefixesSound(segs: seq<string>, dest: string)
    requires forall k :: 0 <= k < |segs| ==> Slash !in segs[k]
    requires JoinDirs(segs) <= dest
    ensures forall i :: 0 <= i < |segs| ==>
      IsDirPrefix(DirPrefixes(segs)[i], dest) && Count(DirPrefixes(segs)[i], Slash) == i + 1
  {
    forall i | 0 <= i < |segs|
      ensures IsDirPrefix(DirPrefixes(segs)[i], dest) && Count(DirPrefixes(segs)[i], Slash) == i + 1
    {
      PrefixSound(segs, dest, i);
    }
  }

  lemma PrefixSound(segs: seq<string>, dest: string, i: nat)
    requires forall k :: 0 <= k < |segs| ==> Slash !in segs[k]
    requires JoinDirs(segs) <= dest
    requires i < |segs|
    ensures IsDirPrefix(DirPrefixes(segs)[i], dest) && Count(DirPrefixes(segs)[i], Slash) == i + 1
  {
    var pre := segs[..i + 1];
    DirPrefixesAt(segs, i);
    JoinDirsPrefix(segs, i + 1);
    PrefixTransitive(JoinDirs(pre), JoinDirs(segs), dest);
    JoinDirsEndsWithSlash(pre);
    SlashFreeTake(segs, i + 1);
    JoinDirsCount(pre);
  }

  /** The prefix order is transitive. */
  lemma PrefixTransitive(a: string, b: string, c: string)
    requires a <= b && b <= c
    ensures a <= c
  {
    assert a == b[..|a|] && b == c[..|b|];
  }

  /** A non-empty accumulation ends with `/`. */
  lemma JoinDirsEndsWithSlash(segs: seq<string>)
    requires |segs| > 0
    ensures |JoinDirs(segs)| > 0 && JoinDirs(segs)[|JoinDirs(segs)| - 1] == Slash
  {
  }

  /** The first `j` pieces of `/`-free pieces are `/`-free. */
  lemma SlashFreeTake(segs: seq<string>, j: nat)
    requires j <= |segs|
    requires forall k :: 0 <= k < |segs| ==> Slash !in segs[k]
    ensures forall i :: 0 <= i < j ==> Slash !in segs[..j][i]
  {
    forall i | 0 <= i < j ensures Slash !in segs[..j][i] {
      assert segs[..j][i] == segs[i];
    }
  }

  /** Each visited path is a proper prefix of the next. */
  lemma PrefixesOrdered(segs: seq<string>)
    ensures forall i :: 0 <= i < |segs| - 1 ==> DirPrefixes(segs)[i] < DirPrefixes(segs)[i + 1]
  {
    forall i | 0 <= i < |segs| - 1
      ensures DirPrefixes(segs)[i] < DirPrefixes(segs)[i + 1]
    {
      DirPrefixesAt(segs, i);
      DirPrefixesAt(segs, i + 1);
      assert segs[..i + 2][..i + 1] == segs[..i + 1];
    }
  }

  /** Every directory prefix of the destination is visited. */
  lemma PrefixesComplete(dest: string, p: string)
    requires IsDirPrefix(p, dest)
    ensures p in DirPrefixes(DirSegments(dest))
  {
    var segs := DirSegments(dest);
    PrefixesSound(segs, dest);
    var c := Count(p, Slash);
    assert p[|p| - 1] in multiset(p);
    assert dest == p + dest[|p|..];
    assert multiset(dest) == multiset(p) + multiset(dest[|p|..]);
    assert 1 <= c <= |segs|;
    var q := DirPrefixes(segs)[c - 1];
    SameCountSamePrefix(dest, p, q);
  }

  /** Exploding on `/` and imploding again is the accumulated directory path of
      all pieces but the last, followed by the last piece. */
  lemma {:induction false} ImplodeAsDirs(parts: seq<string>)
    requires |parts| >= 1
    ensures Implode(parts, Slash) == JoinDirs(parts[..|parts| - 1]) + parts[|parts| - 1]
  {
    var n := |parts|;
    if n >= 2 {
      var init := parts[..n - 1];
      ImplodeLast(parts, Slash);
      ImplodeAsDirs(init);
      assert init[..n - 2] == parts[..n - 2];
    }
  }

  /** A shorter accumulation is a prefix of a longer one. */
  lemma {:induction false} JoinDirsPrefix(segs: seq<string>, j: nat)
    requires j <= |segs|
    ensures JoinDirs(segs[..j]) <= JoinDirs(segs)
    decreases |segs|
  {
    if j < |segs| {
      var init := segs[..|segs| - 1];
      JoinDirsPrefix(init, j);
      assert init[..j] == segs[..j];
    } else {
      assert segs[..j] == segs;
    }
  }

  /** The accumulated path of `/`-free pieces holds one `/` per piece. */
  lemma {:induction false} JoinDirsCount(segs: seq<string>)
    requires forall k :: 0 <= k < |segs| ==> Slash !in segs[k]
    ensures Count(JoinDirs(segs), Slash) == |segs|
  {
    if |segs| > 0 {
      var init := segs[..|segs| - 1];
      JoinDirsCount(init);
      assert multiset(segs[|segs| - 1])[Slash] == 0;
    }
  }

  /** Counting `/` along a string: a longer prefix holds at least as many, and
      strictly more when it ends with a `/` the shorter one lacks. */
  lemma CountAlongPrefixes(s: string, a: nat, b: nat)
    requires a <= b <= |s|
    ensures Count(s[..a], Slash) <= Count(s[..b], Slash)
    ensures a < b && s[b - 1] == Slash ==> Count(s[..a], Slash) < Count(s[..b], Slash)
  {
    assert s[..b] == s[..a] + s[a..b];
    if a < b {
      assert s[a..b][b - 1 - a] == s[b - 1];
    }
  }

  /** Two directory prefixes of `s` with the same number of `/` are the same. */
  lemma SameCountSamePrefix(s: string, p: string, q: string)
    requires IsDirPrefix(p, s) && IsDirPrefix(q, s)
    requires Count(p, Slash) == Count(q, Slash)
    ensures p == q
  {
    assert s[..|p|] == p && s[..|q|] == q;
    if |p| <= |q| {
      CountAlongPrefixes(s, |p|, |q|);
    } else {
      CountAlongPrefixes(s, |q|, |p|);
    }
  }
}
