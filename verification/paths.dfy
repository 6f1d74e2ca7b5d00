/** The parts of Python's `posixpath` the bot relies on: `splitext`, `basename`
    and `join`. */
module Paths {
  import opened Strings

  /** Index of the last `c` in `s`, or -1 (`str.rfind`). */
  function RFind(s: string, c: char): (r: int)
    ensures -1 <= r < |s|
    ensures r >= 0 ==> s[r] == c
    ensures forall k :: r < k < |s| ==> s[k] != c
  {
    if |s| == 0 then -1
    else if s[|s| - 1] == c then |s| - 1
    else RFind(s[..|s| - 1], c)
  }

  /** Some character in `s[i..j]` is not a dot. */
  predicate HasNonDot(s: string, i: int, j: int)
    requires 0 <= i <= j <= |s|
  {
    exists k :: i <= k < j && s[k] != '.'
  }

  /** `os.path.splitext`: the extension starts at the last dot of the last path
      component, unless everything before that dot in the component is dots. */
  function SplitExt(p: string): (r: (string, string))
    ensures r.0 + r.1 == p
    ensures r.1 == "" || (r.1[0] == '.' && forall k :: 0 < k < |r.1| ==> r.1[k] != '.' && r.1[k] != '/')
  {
    var sep := RFind(p, '/');
    var dot := RFind(p, '.');
    if dot > sep && HasNonDot(p, sep + 1, dot) then
      assert p[..dot] + p[dot..] == p;
      (p[..dot], p[dot..])
    else (p, "")
  }

  /** `os.path.basename`: what follows the last slash. */
  function Basename(p: string): (r: string)
    ensures |r| <= |p| && r == p[|p| - |r|..]
    ensures forall k :: 0 <= k < |r| ==> r[k] != '/'
  {
    var sep := RFind(p, '/');
    AfterLast(p, '/', sep);
    p[sep + 1..]
  }

  /** What follows position `i`, when `c` does not occur there, is a suffix
      free of `c`. */
  lemma AfterLast(p: string, c: char, i: int)
    requires -1 <= i < |p|
    requires forall k :: i < k < |p| ==> p[k] != c
    ensures var r := p[i + 1..];
            |r| <= |p| && r == p[|p| - |r|..] && forall k :: 0 <= k < |r| ==> r[k] != c
  {
    var r := p[i + 1..];
    forall k | 0 <= k < |r|
      ensures r[k] != c
    {
      assert r[k] == p[i + 1 + k];
    }
  }

  /** `os.path.join(a, b)`. */
  function PathJoin(a: string, b: string): (r: string)
    ensures StartsWith(b, "/") ==> r == b
    ensures !StartsWith(b, "/") && (a == "" || EndsWith(a, "/")) ==> r == a + b
    ensures !StartsWith(b, "/") && a != "" && !EndsWith(a, "/") ==> r == a + "/" + b
  {
    if StartsWith(b, "/") then b
    else if a == "" || EndsWith(a, "/") then a + b
    else a + "/" + b
  }

  /** Joining a relative name onto a directory yields a path whose last
      component is that name. */
  lemma JoinBasename(a: string, b: string)
    requires |b| > 0 && forall k :: 0 <= k < |b| ==> b[k] != '/'
    ensures Basename(PathJoin(a, b)) == b
  {
    var r := PathJoin(a, b);
    assert !StartsWith(b, "/") by { assert b[..1][0] == b[0]; }
    var sep := RFind(r, '/');
    assert forall k :: |r| - |b| <= k < |r| ==> r[k] == b[k - (|r| - |b|)];
    if |r| > |b| {
      assert r[|r| - |b| - 1] == '/' by {
        if a != "" && !EndsWith(a, "/") {
          assert r == a + "/" + b;
          assert r[|a|] == '/';
        } else {
          assert r == a + b;
          assert a[|a| - 1..] == "/";
          assert r[|a| - 1] == a[|a| - 1];
        }
      }
    }
    assert sep == |r| - |b| - 1;
    assert r[sep + 1..] == b;
  }

  /** Everything before the last slash, and the whole path when it has none.
      Not `os.path.dirname` (which gives "" there): only a helper for stating
      the folder layout of paths built by `PathJoin`. */
  function ParentDir(p: string): (r: string)
    ensures |r| < |p| || (r == p && forall k :: 0 <= k < |p| ==> p[k] != '/')
  {
    var sep := RFind(p, '/');
    if sep < 0 then p else p[..sep]
  }

  /** Joining a relative name onto a directory that does not end in a slash
      keeps that directory as the parent. */
  lemma JoinParent(a: string, b: string)
    requires a != "" && !EndsWith(a, "/")
    requires |b| > 0 && forall k :: 0 <= k < |b| ==> b[k] != '/'
    ensures ParentDir(PathJoin(a, b)) == a
  {
    assert !StartsWith(b, "/") by { assert b[..1][0] == b[0]; }
    var r := PathJoin(a, b);
    assert r == a + "/" + b;
    assert r[|a|] == '/';
    assert forall k :: |a| < k < |r| ==> r[k] == b[k - |a| - 1];
    assert RFind(r, '/') == |a|;
    assert r[..|a|] == a;
  }

  /** Joining two slash-free names onto a root: the last component is the
      second name and the one above it the first. */
  lemma JoinTwoNames(root: string, name: string, folder: string)
    requires |name| > 0 && forall k :: 0 <= k < |name| ==> name[k] != '/'
    requires |folder| > 0 && forall k :: 0 <= k < |folder| ==> folder[k] != '/'
    ensures Basename(PathJoin(PathJoin(root, name), folder)) == folder
    ensures Basename(ParentDir(PathJoin(PathJoin(root, name), folder))) == name
  {
    var dir := PathJoin(root, name);
    JoinBasename(dir, folder);
    JoinBasename(root, name);
    assert !EndsWith(dir, "/") by {
      assert dir[|dir| - 1] == name[|name| - 1] by {
        assert !StartsWith(name, "/") by { assert name[..1][0] == name[0]; }
      }
    }
    JoinParent(dir, folder);
  }

  /** A name with a dotted suffix splits into the name and that suffix. */
  lemma SplitExtOfSuffix(base: string, ext: string)
    requires |ext| >= 1 && ext[0] == '.'
    requires forall k :: 1 <= k < |ext| ==> ext[k] != '.' && ext[k] != '/'
    requires exists k :: 0 <= k < |base| && base[k] != '.' && base[k] != '/' && forall m :: k < m < |base| ==> base[m] != '/'
    ensures SplitExt(base + ext) == (base, ext)
  {
    var p := base + ext;
    var k :| 0 <= k < |base| && base[k] != '.' && base[k] != '/' && forall m :: k < m < |base| ==> base[m] != '/';
    var dot := RFind(p, '.');
    assert p[|base|] == '.';
    assert forall m :: |base| < m < |p| ==> p[m] == ext[m - |base|];
    assert dot == |base|;
    var sep := RFind(p, '/');
    assert p[k] == base[k];
    assert sep < k;
    assert HasNonDot(p, sep + 1, dot);
    assert p[..dot] == base;
  }
}
