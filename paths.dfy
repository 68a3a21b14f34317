/**
 * POSIX path helpers used by the script: os.path.basename, the root half of
 * os.path.splitext, and stem_name, which composes the two.
 */
module Paths {
  import opened Text

  /** Some character of `s` at a position in [lo, hi) is not a dot. */
  predicate NonDotIn(s: string, lo: int, hi: int)
    requires 0 <= lo && hi <= |s|
  {
    exists k :: lo <= k < hi && s[k] != '.'
  }

  /** os.path.basename: everything after the last '/'. */
  function Basename(p: string): (r: string)
    ensures '/' !in r
    ensures |r| <= |p| && r == p[|p| - |r|..]
    ensures r == p || p[|p| - |r| - 1] == '/'
  {
    p[LastIndexOf(p, '/') + 1..]
  }

  /**
   * os.path.splitext(p)[0]: `p` without its last extension. The extension
   * starts at the last dot of the last path component, provided some
   * character before that dot in the component is not a dot itself
   * (so ".bashrc" and "..." keep their names).
   */
  function SplitExtRoot(p: string): (root: string)
  {
    var sep := LastIndexOf(p, '/');
    var dot := LastIndexOf(p, '.');
    if sep < dot && NonDotIn(p, sep + 1, dot) then p[..dot] else p
  }

  /** stem_name: the file name without directory and without its last extension. */
  function StemName(p: string): string
  {
    SplitExtRoot(Basename(p))
  }

  /**
   * The stem is a prefix of the file name without '/'; what it drops is a
   * last dot and the dot-free extension after it, and it drops nothing
   * exactly when every dot of the name has only dots before it.
   */
  lemma StemNameShape(p: string)
    ensures var r, b := StemName(p), Basename(p);
      && '/' !in r
      && r <= b
      && (r != b ==> b[|r|] == '.' && '.' !in b[|r| + 1..] && NonDotIn(r, 0, |r|))
      && (r == b <==> forall i :: 0 <= i < |b| && b[i] == '.' ==> !NonDotIn(b, 0, i))
  {
    RootOfFileName(Basename(p));
  }

  /** What SplitExtRoot does to a single path component. */
  lemma RootOfFileName(b: string)
    requires '/' !in b
    ensures var r := SplitExtRoot(b);
      && r <= b
      && (r != b ==> b[|r|] == '.' && '.' !in b[|r| + 1..] && NonDotIn(r, 0, |r|))
      && (r == b <==> forall i :: 0 <= i < |b| && b[i] == '.' ==> !NonDotIn(b, 0, i))
  {
    var dot := LastIndexOf(b, '.');
    assert LastIndexOf(b, '/') == -1;
    if 0 <= dot && NonDotIn(b, 0, dot) {
      var r := SplitExtRoot(b);
      assert r == b[..dot];
      var k :| 0 <= k < dot && b[k] != '.';
      assert r[k] != '.';
    } else {
      forall i | 0 <= i < |b| && b[i] == '.' ensures !NonDotIn(b, 0, i) {
        assert i <= dot;
      }
    }
  }

  /** Joining a name onto a directory does not change its stem. */
  lemma StemNameIgnoresDirectory(dir: string, name: string)
    requires '/' !in name
    ensures Basename(dir + "/" + name) == name
    ensures StemName(dir + "/" + name) == StemName(name)
  {
    var p := dir + "/" + name;
    assert p[|dir|] == '/';
    assert forall j :: |dir| < j < |p| ==> p[j] == name[j - |dir| - 1];
    assert Basename(name) == name;
  }

  /** A name without '/' that has a non-dot character is exactly the stem of `name + ext`. */
  lemma StemNameDropsExtension(name: string, ext: string)
    requires '/' !in name && NonDotIn(name, 0, |name|)
    requires |ext| >= 1 && ext[0] == '.' && '.' !in ext[1..] && '/' !in ext
    ensures SplitExtRoot(name + ext) == name
    ensures StemName(name + ext) == name
  {
    var p := name + ext;
    assert '/' !in p;
    assert Basename(p) == p;
    assert p[|name|] == '.';
    assert forall j :: |name| < j < |p| ==> p[j] == ext[1..][j - |name| - 1];
    var dot := LastIndexOf(p, '.');
    assert dot == |name|;
    var k :| 0 <= k < |name| && name[k] != '.';
    assert p[k] != '.';
    assert p[..dot] == name;
  }
}
