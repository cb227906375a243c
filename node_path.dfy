/**
 * The POSIX flavour of Node's `path.extname`, applied by the image fetcher
 * to the pathname of a favicon or logo URL.
 */
module NodePath {
  import opened Wrappers

  /** The path without the run of '/' at its end; a non-empty result does not end with '/'. */
  function StripTrailingSlashes(p: string): (r: string)
    ensures |r| <= |p| && r == p[..|r|]
    ensures forall i :: |r| <= i < |p| ==> p[i] == '/'
    ensures r == [] || r[|r| - 1] != '/'
  {
    if |p| > 0 && p[|p| - 1] == '/' then StripTrailingSlashes(p[..|p| - 1]) else p
  }

  /** The position of the last `c` in `s`, if any. */
  function LastIndexOf(s: string, c: char): (r: Option<nat>)
    ensures r.Some? ==> r.value < |s| && s[r.value] == c
    ensures r.Some? ==> forall i :: r.value < i < |s| ==> s[i] != c
    ensures r.None? ==> c !in s
  {
    if |s| == 0 then None
    else if s[|s| - 1] == c then Some(|s| - 1)
    else LastIndexOf(s[..|s| - 1], c)
  }

  /**
   * The last component of the path once trailing separators are dropped:
   * the separator-free text after its last '/', or all of it.
   */
  function Basename(p: string): (r: string)
    ensures '/' !in r
    ensures var t := StripTrailingSlashes(p); |r| <= |t| && r == t[|t| - |r|..]
  {
    var t := StripTrailingSlashes(p);
    match LastIndexOf(t, '/')
    case None => t
    case Some(i) => t[i + 1..]
  }

  /**
   * A basename without an extension: no '.', a single '.' that leads
   * (".bashrc"), or the parent-directory name "..".
   */
  predicate NoExt(b: string) {
    '.' !in b || (b != [] && b[0] == '.' && '.' !in b[1..]) || b == ".."
  }

  /**
   * The extension of a basename: from its last '.' to its end. A basename
   * with no '.', one whose only candidate dot is its first character
   * (".bashrc"), and the basename ".." have none; "name." has ".".
   */
  function BaseExt(b: string): (r: string)
    ensures r == [] || (r[0] == '.' && '.' !in r[1..])
    ensures |r| <= |b| && r == b[|b| - |r|..]
  {
    match LastIndexOf(b, '.')
    case None => ""
    case Some(d) =>
      if d == 0 || b == ".." then ""
      else
        NoneAfterLast(b, '.', d);
        b[d..]
  }

  /** A basename has no extension exactly when `NoExt` holds of it. */
  lemma BaseExtEmptyIff(b: string)
    ensures BaseExt(b) == [] <==> NoExt(b)
  {
    match LastIndexOf(b, '.')
    case None =>
    case Some(d) =>
      NoneAfterLast(b, '.', d);
      if d != 0 && b != ".." {
        assert b[d] in b;
        assert b[1..][d - 1] == '.';
      }
  }

  /** path.extname: the extension of the basename. */
  function ExtName(p: string): (r: string)
    ensures r == [] || (r[0] == '.' && '.' !in r[1..])
    ensures '/' !in r
    ensures var t := StripTrailingSlashes(p); |r| <= |t| && r == t[|t| - |r|..]
  {
    ExtIsPathSuffix(p);
    BaseExt(Basename(p))
  }

  /**
   * A path has no extension exactly when its basename holds no '.', holds
   * only a leading one, or is "..".
   */
  lemma ExtNameEmptyIff(p: string)
    ensures ExtName(p) == "" <==> NoExt(Basename(p))
  {
    BaseExtEmptyIff(Basename(p));
  }

  /** The extension of the basename is a separator-free suffix of the stripped path. */
  lemma ExtIsPathSuffix(p: string)
    ensures var t := StripTrailingSlashes(p); var r := BaseExt(Basename(p));
      |r| <= |t| && r == t[|t| - |r|..] && '/' !in r
  {
    SuffixOfSuffix(StripTrailingSlashes(p), Basename(p), BaseExt(Basename(p)));
  }

  /** Past the last occurrence of `c`, there is none. */
  lemma NoneAfterLast(s: string, c: char, d: nat)
    requires d < |s|
    requires forall i :: d < i < |s| ==> s[i] != c
    ensures c !in s[d + 1..]
  {
    var tail := s[d + 1..];
    forall k | 0 <= k < |tail| ensures tail[k] != c {
      assert tail[k] == s[d + 1 + k];
    }
  }

  /** A suffix of a suffix of `t` is a suffix of `t`, and a character missing from the middle one is missing from it. */
  lemma SuffixOfSuffix(t: string, b: string, r: string)
    requires |b| <= |t| && b == t[|t| - |b|..]
    requires |r| <= |b| && r == b[|b| - |r|..]
    requires '/' !in b
    ensures r == t[|t| - |r|..] && '/' !in r
  {
    forall k | 0 <= k < |r| ensures r[k] == t[|t| - |r| + k] && r[k] != '/' {
      assert r[k] == b[|b| - |r| + k];
      assert b[|b| - |r| + k] in b;
    }
  }

  /** The last occurrence is the one with no further occurrence after it. */
  lemma LastIndexOfIs(s: string, c: char, k: nat)
    requires k < |s| && s[k] == c
    requires forall i :: k < i < |s| ==> s[i] != c
    ensures LastIndexOf(s, c) == Some(k)
  {
    var r := LastIndexOf(s, c);
    assert r.Some? by { assert s[k] in s; }
  }

  /** Appending a separator-free name to a directory path ending in '/' gives that name back as the basename. */
  lemma BasenameOfJoin(dir: string, name: string)
    requires dir != [] && dir[|dir| - 1] == '/'
    requires name != [] && '/' !in name
    ensures Basename(dir + name) == name
  {
    var p := dir + name;
    assert p[|p| - 1] == name[|name| - 1];
    assert name[|name| - 1] in name;
    assert StripTrailingSlashes(p) == p;
    var k := |dir| - 1;
    forall i | k < i < |p| ensures p[i] != '/' {
      assert p[i] == name[i - k - 1];
      assert name[i - k - 1] in name;
    }
    LastIndexOfIs(p, '/', k);
    assert p[k + 1..] == name;
  }

  lemma NoSeparatorInStoredName(stem: string, ext: string)
    requires '/' !in stem && '/' !in ext
    ensures '/' !in stem + ext
  {
    var b := stem + ext;
    forall i | 0 <= i < |b| ensures b[i] != '/' {
      if i < |stem| {
        assert b[i] == stem[i] && stem[i] in stem;
      } else {
        assert b[i] == ext[i - |stem|] && ext[i - |stem|] in ext;
      }
    }
  }

  lemma LastDotOfStoredName(stem: string, ext: string)
    requires ext != [] && ext[0] == '.' && '.' !in ext[1..]
    ensures LastIndexOf(stem + ext, '.') == Some(|stem|)
  {
    var b := stem + ext;
    var d := |stem|;
    forall i | d < i < |b| ensures b[i] != '.' {
      assert b[i] == ext[1..][i - d - 1] && ext[1..][i - d - 1] in ext[1..];
    }
    LastIndexOfIs(b, '.', d);
  }

  /** A file stored as `stem + ext` under any directory gives back `ext` as its extension. */
  lemma ExtNameOfStoredFile(dir: string, stem: string, ext: string)
    requires dir != [] && dir[|dir| - 1] == '/'
    requires stem != [] && stem != "." && '/' !in stem
    requires ext != [] && ext[0] == '.' && '.' !in ext[1..] && '/' !in ext
    ensures ExtName(dir + (stem + ext)) == ext
  {
    var b := stem + ext;
    NoSeparatorInStoredName(stem, ext);
    BasenameOfJoin(dir, b);
    LastDotOfStoredName(stem, ext);
    assert b != ".." by {
      if |stem| == 1 { assert b[0] == stem[0] && stem == [stem[0]]; }
    }
    assert b[|stem|..] == ext;
  }

  /** The extension is made of characters of the path. */
  lemma ExtNameCharsFromPath(p: string, c: char)
    requires c !in p
    ensures c !in ExtName(p)
  {
    var t := StripTrailingSlashes(p);
    var r := ExtName(p);
    forall i | 0 <= i < |r| ensures r[i] != c {
      assert r[i] == t[|t| - |r| + i] == p[|t| - |r| + i];
      assert p[|t| - |r| + i] in p;
    }
  }

  /**
   * A file under any directory whose name holds no '.', or only a leading
   * one (".bashrc"), has no extension.
   */
  lemma NoInnerDotHasNoExt(dir: string, b: string)
    requires dir != [] && dir[|dir| - 1] == '/'
    requires b != [] && '/' !in b
    requires '.' !in b || (b[0] == '.' && '.' !in b[1..])
    ensures ExtName(dir + b) == ""
  {
    BasenameOfJoin(dir, b);
    ExtNameEmptyIff(dir + b);
  }

  /** A basename ending in a dot has the extension ".". */
  lemma TrailingDotIsExt()
    ensures ExtName("/logo.") == "."
  {
    BasenameOfJoin("/", "logo.");
    assert "/" + "logo." == "/logo.";
    LastIndexOfIs("logo.", '.', 4);
  }

  /** The parent-directory basename has no extension. */
  lemma DotDotHasNoExt()
    ensures ExtName("/..") == ""
  {
    BasenameOfJoin("/", "..");
    assert "/" + ".." == "/..";
    LastIndexOfIs("..", '.', 1);
  }

  /** A trailing separator does not change the extension. */
  lemma TrailingSlashIgnored(p: string)
    ensures ExtName(p + "/") == ExtName(p)
  {
    assert (p + "/")[..|p|] == p;
    assert Basename(p + "/") == Basename(p);
  }
}
