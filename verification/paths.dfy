/**
 * The two `pathlib.PurePath` properties the handlers use, for POSIX paths.
 * `name` is the last component once trailing separators are dropped; `suffix`
 * is `name[i:]` where `i` is the last '.' of the name, provided `0 < i < len(name) - 1`,
 * and the empty string otherwise.
 */
module Paths {
  import opened Text

  function StripTrailingSlashes(path: string): (r: string)
    ensures |r| <= |path| && r == path[..|r|]
    ensures r == "" || r[|r| - 1] != '/'
    ensures forall j :: |r| <= j < |path| ==> path[j] == '/'
  {
    if |path| > 0 && path[|path| - 1] == '/' then StripTrailingSlashes(path[..|path| - 1]) else path
  }

  /** `PurePath(path).name`. */
  function Name(path: string): (r: string)
    ensures '/' !in r
    ensures |r| <= |StripTrailingSlashes(path)|
    ensures r == StripTrailingSlashes(path)[|StripTrailingSlashes(path)| - |r|..]
  {
    var t := StripTrailingSlashes(path);
    t[LastIndexOf(t, '/') + 1..]
  }

  /** The suffix rule applied to a name: from its last dot, when that dot is neither the first nor the last character. */
  function NameSuffix(name: string): (r: string)
    ensures r == "" || (2 <= |r| && r[0] == '.' && '.' !in r[1..])
    ensures r != "" ==> |r| < |name| && name[|name| - |r|..] == r
    ensures '/' in r ==> '/' in name
  {
    var i := LastIndexOf(name, '.');
    if 0 < i < |name| - 1 then name[i..] else ""
  }

  /** `PurePath(path).suffix`: empty, or a dot, then at least one character, none of them a dot, ending the name after a non-empty stem. */
  function Suffix(path: string): (r: string)
    ensures r == "" || (2 <= |r| && r[0] == '.' && '.' !in r[1..])
    ensures '/' !in r
    ensures r != "" ==> |r| < |Name(path)| && Name(path)[|Name(path)| - |r|..] == r
  {
    NameSuffix(Name(path))
  }

  /** A name made of a non-empty stem, a dot and a dot-free extension has that extension as its suffix, whatever directory precedes it. */
  lemma SuffixOfDottedName(dir: string, stem: string, ext: string)
    requires dir == "" || dir[|dir| - 1] == '/'
    requires stem != "" && '/' !in stem
    requires ext != "" && '.' !in ext && '/' !in ext
    ensures Suffix(dir + stem + "." + ext) == "." + ext
  {
    var base := stem + "." + ext;
    assert dir + stem + "." + ext == dir + base;
    assert '/' !in base;
    NameOfLastComponent(dir, base);
    NameSuffixOfDottedName(stem, ext);
  }

  /** A bare filename made of a non-empty stem, a dot and a dot-free extension has that extension as its suffix. */
  lemma SuffixOfFileName(stem: string, ext: string)
    requires stem != "" && '/' !in stem
    requires ext != "" && '.' !in ext && '/' !in ext
    ensures Suffix(stem + "." + ext) == "." + ext
  {
    var base := stem + "." + ext;
    assert base == stem + ("." + ext);
    NameOfBareName(base);
    NameSuffixOfDottedName(stem, ext);
  }

  lemma NameOfBareName(base: string)
    requires base != "" && '/' !in base
    ensures Name(base) == base
  {
    assert StripTrailingSlashes(base) == base;
  }

  lemma NameOfLastComponent(dir: string, base: string)
    requires dir == "" || dir[|dir| - 1] == '/'
    requires base != "" && '/' !in base
    ensures Name(dir + base) == base
  {
    var p := dir + base;
    assert p[|p| - 1] == base[|base| - 1];
    assert StripTrailingSlashes(p) == p;
    LastIndexOfAppend(dir, base, '/');
    assert LastIndexOf(dir, '/') == |dir| - 1;
    assert p[|dir|..] == base;
  }

  lemma NameSuffixOfDottedName(stem: string, ext: string)
    requires stem != ""
    requires ext != "" && '.' !in ext
    ensures NameSuffix(stem + "." + ext) == "." + ext
  {
    var base := stem + "." + ext;
    assert base == (stem + ".") + ext;
    LastIndexOfAppend(stem + ".", ext, '.');
    assert LastIndexOf(base, '.') == |stem|;
    assert base[|stem|..] == "." + ext;
  }

  /** Appending text without `c` does not move the last `c`. */
  lemma {:induction false} LastIndexOfAppend(a: string, b: string, c: char)
    requires c !in b
    ensures LastIndexOf(a + b, c) == LastIndexOf(a, c)
  {
    if b != [] {
      var b' := b[..|b| - 1];
      assert (a + b)[..|a + b| - 1] == a + b';
      assert (a + b)[|a + b| - 1] == b[|b| - 1];
      LastIndexOfAppend(a, b', c);
    } else {
      assert a + b == a;
    }
  }

  lemma {:induction false} StripTrailingSlashesLower(path: string)
    ensures StripTrailingSlashes(Lower(path)) == Lower(StripTrailingSlashes(path))
  {
    if |path| > 0 {
      var n := |path| - 1;
      assert Lower(path)[n] == LowerChar(path[n]);
      if path[n] == '/' {
        LowerSlice(path, 0, n);
        assert Lower(path)[..n] == Lower(path[..n]);
        StripTrailingSlashesLower(path[..n]);
      }
    }
  }

  lemma NameLower(path: string)
    ensures Name(Lower(path)) == Lower(Name(path))
  {
    var t := StripTrailingSlashes(path);
    StripTrailingSlashesLower(path);
    LastIndexOfLower(t, '/');
    LowerSlice(t, LastIndexOf(t, '/') + 1, |t|);
  }

  lemma NameSuffixLower(name: string)
    ensures NameSuffix(Lower(name)) == Lower(NameSuffix(name))
  {
    LastIndexOfLower(name, '.');
    var i := LastIndexOf(name, '.');
    if 0 < i < |name| - 1 {
      LowerSlice(name, i, |name|);
    } else {
      assert |Lower(NameSuffix(name))| == 0;
    }
  }

  /** Lower-casing a filename lower-cases its suffix and nothing more: the suffix rule never looks at letter case. */
  lemma SuffixLower(path: string)
    ensures Suffix(Lower(path)) == Lower(Suffix(path))
  {
    NameLower(path);
    NameSuffixLower(Name(path));
  }
}
