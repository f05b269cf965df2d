/**
 * The functions of Python's `posixpath` (`os.path` on POSIX) that the driver
 * uses: `basename`, `dirname`, `join` and `splitext`, written from their
 * library definitions.
 */
module PyPath {
  import opened PyStr

  /** `s.rfind(c)`: the last index of `c` in `s`, or -1 when there is none. */
  function RFind(s: string, c: char): (i: int)
    ensures -1 <= i < |s|
    ensures i >= 0 ==> s[i] == c
    ensures forall k :: i < k < |s| ==> s[k] != c
  {
    if s == [] then -1
    else if s[|s| - 1] == c then |s| - 1
    else RFind(s[..|s| - 1], c)
  }

  /** `os.path.basename(p)`: what follows the last `/`. */
  function Basename(p: string): (b: string)
    ensures '/' !in b
    ensures EndsWith(p, b)
  {
    p[RFind(p, '/') + 1..]
  }

  /** `s.rstrip(c)` */
  function RStrip(s: string, c: char): (r: string)
    ensures r <= s
    ensures r == [] || r[|r| - 1] != c
    ensures forall k :: |r| <= k < |s| ==> s[k] == c
  {
    if s != [] && s[|s| - 1] == c then RStrip(s[..|s| - 1], c) else s
  }

  /**
   * `os.path.dirname(p)`: everything up to the last `/`, with trailing
   * slashes removed unless the head consists of slashes only.
   */
  function Dirname(p: string): string {
    var head := p[..RFind(p, '/') + 1];
    if head != [] && exists k :: 0 <= k < |head| && head[k] != '/' then RStrip(head, '/') else head
  }

  /** `os.path.join(a, b)` */
  function Join(a: string, b: string): string {
    if StartsWith(b, "/") then b
    else if a == [] || EndsWith(a, "/") then a + b
    else a + "/" + b
  }

  /**
   * `os.path.splitext(p)`: the extension runs from the last dot of the last
   * path component, unless only dots precede that dot in the component.
   */
  function SplitExt(p: string): (r: (string, string))
    ensures r.0 + r.1 == p
  {
    var sepIndex := RFind(p, '/');
    var dotIndex := RFind(p, '.');
    if dotIndex > sepIndex && exists k :: sepIndex < k < dotIndex && p[k] != '.'
    then (p[..dotIndex], p[dotIndex..])
    else (p, [])
  }

  /**
   * The extension is `.gz` exactly when the name ends in `.gz` and its last
   * component has a character other than a dot before that suffix.
   */
  lemma GzExtension(p: string)
    ensures SplitExt(p).1 == ".gz" <==>
      EndsWith(p, ".gz") && exists k :: RFind(p, '/') < k < |p| - 3 && p[k] != '.'
  {
    if EndsWith(p, ".gz") {
      GzDot(p);
    }
  }

  /** In a name ending in `.gz` the last dot is the one of `.gz`, and no `/` follows it. */
  lemma GzDot(p: string)
    requires EndsWith(p, ".gz")
    ensures RFind(p, '.') == |p| - 3 && RFind(p, '/') < |p| - 3
    ensures p[|p| - 3..] == ".gz"
  {
    assert p[|p| - 3..] == ".gz";
    assert p[|p| - 1] == 'z' && p[|p| - 2] == 'g' && p[|p| - 3] == '.';
  }

  /** With no `c` in `s`, `rfind` reports -1. */
  lemma {:induction false} RFindAbsent(s: string, c: char)
    requires c !in s
    ensures RFind(s, c) == -1
  {
    if s != [] {
      assert s[..|s| - 1] <= s;
      RFindAbsent(s[..|s| - 1], c);
    }
  }

  /** The last `c` is the one before a suffix free of `c`. */
  lemma {:induction false} RFindLast(a: string, c: char, b: string)
    requires c !in b
    ensures RFind(a + [c] + b, c) == |a|
  {
    if b != [] {
      var s := a + [c] + b;
      assert s[..|s| - 1] == a + [c] + b[..|b| - 1];
      assert b[..|b| - 1] <= b;
      RFindLast(a, c, b[..|b| - 1]);
    }
  }

  /**
   * The values `dirname` returns: empty, ending in a character other than a
   * slash, or made of slashes only (the root).
   */
  predicate DirLike(d: string) {
    d == [] || d[|d| - 1] != '/' || forall k :: 0 <= k < |d| ==> d[k] == '/'
  }

  /** Every `dirname` is a directory `join` and `dirname` can take apart again. */
  lemma DirnameIsDirLike(p: string)
    ensures DirLike(Dirname(p))
  {
    var head := p[..RFind(p, '/') + 1];
    if head != [] && exists k :: 0 <= k < |head| && head[k] != '/' {
      var k :| 0 <= k < |head| && head[k] != '/';
      assert k < |RStrip(head, '/')|;
    }
  }

  /**
   * `join` and `basename`/`dirname` are inverse: joining any directory that
   * `dirname` can return with a plain name, and taking the path apart again,
   * gives back both.
   */
  lemma JoinSplitsBack(d: string, n: string)
    requires '/' !in n
    requires DirLike(d)
    ensures Basename(Join(d, n)) == n
    ensures Dirname(Join(d, n)) == d
  {
    if d == [] {
      assert Join(d, n) == n;
      RFindAbsent(n, '/');
    } else if d[|d| - 1] != '/' {
      var j := Join(d, n);
      assert n != [] ==> n[0] != '/';
      assert d[|d| - 1..] == [d[|d| - 1]];
      assert !StartsWith(n, "/") && !EndsWith(d, "/");
      assert j == d + "/" + n;
      RFindLast(d, '/', n);
      assert j[..|d| + 1] == d + "/";
      assert (d + "/")[|d| - 1] != '/';
      var head := d + "/";
      assert RStrip(head, '/') == d;
    } else {
      RootJoinSplitsBack(d, n);
    }
  }

  /** The same for a directory made of slashes only, such as `/`. */
  lemma RootJoinSplitsBack(d: string, n: string)
    requires '/' !in n
    requires d != [] && forall k :: 0 <= k < |d| ==> d[k] == '/'
    ensures Basename(Join(d, n)) == n
    ensures Dirname(Join(d, n)) == d
  {
    var j := Join(d, n);
    assert n != [] ==> n[0] != '/';
    assert d[|d| - 1..] == "/";
    assert j == d + n;
    assert d == d[..|d| - 1] + "/";
    assert j == d[..|d| - 1] + "/" + n;
    RFindLast(d[..|d| - 1], '/', n);
    assert j[..|d|] == d;
    assert !exists k :: 0 <= k < |d| && d[k] != '/';
  }
}
