/**
 * The few methods of Python's `str` that the pipeline driver relies on:
 * `startswith`, `endswith`, `replace` and `split` with an explicit separator,
 * together with `sep.join`, which is their inverse.
 */
module PyStr {

  /** `s.startswith(p)` */
  predicate StartsWith(s: string, p: string) { p <= s }

  /** `s.endswith(p)` */
  predicate EndsWith(s: string, p: string) { |p| <= |s| && s[|s| - |p|..] == p }

  /** `pat` occurs in `s` at index `i`. */
  predicate OccursAt(s: string, pat: string, i: nat) {
    i + |pat| <= |s| && s[i..i + |pat|] == pat
  }

  /** `s.replace("", sub)`: `sub` before every character of `s` and once more at the end. */
  function InsertEverywhere(s: string, sub: string): (r: string)
    ensures |r| == |s| + (|s| + 1) * |sub|
  {
    if s == [] then sub else sub + [s[0]] + InsertEverywhere(s[1..], sub)
  }

  /**
   * `s.replace(pat, sub)`: every occurrence of `pat`, found left to right
   * without overlap, is replaced by `sub`.
   */
  function Replace(s: string, pat: string, sub: string): string
    decreases |s|
  {
    if pat == [] then InsertEverywhere(s, sub)
    else if pat <= s then sub + Replace(s[|pat|..], pat, sub)
    else if s == [] then []
    else [s[0]] + Replace(s[1..], pat, sub)
  }

  /** Replacing a pattern by itself gives the string back. */
  lemma {:induction false} ReplaceByItself(s: string, pat: string)
    ensures Replace(s, pat, pat) == s
    decreases |s|
  {
    if pat == [] {
      InsertNothing(s);
    } else if pat <= s {
      ReplaceByItself(s[|pat|..], pat);
      assert s == pat + s[|pat|..];
    } else if s != [] {
      ReplaceByItself(s[1..], pat);
      assert s == [s[0]] + s[1..];
    }
  }

  lemma {:induction false} InsertNothing(s: string)
    ensures InsertEverywhere(s, []) == s
  {
    if s != [] {
      InsertNothing(s[1..]);
      assert s == [s[0]] + s[1..];
    }
  }

  /** A string in which the pattern does not occur is left unchanged. */
  lemma {:induction false} ReplaceAbsent(s: string, pat: string, sub: string)
    requires pat != []
    requires forall i :: 0 <= i < |s| ==> !OccursAt(s, pat, i)
    ensures Replace(s, pat, sub) == s
    decreases |s|
  {
    if s != [] {
      assert !OccursAt(s, pat, 0);
      assert !(pat <= s);
      forall i | 0 <= i < |s[1..]| ensures !OccursAt(s[1..], pat, i) {
        assert !OccursAt(s, pat, i + 1);
        if i + |pat| <= |s[1..]| {
          assert s[1..][i..i + |pat|] == s[i + 1..i + 1 + |pat|];
        }
      }
      ReplaceAbsent(s[1..], pat, sub);
      assert s == [s[0]] + s[1..];
    }
  }

  /** An occurrence of `pat` in `x + y` that begins in `x` and ends in `y`. */
  predicate Straddles(x: string, y: string, pat: string, j: nat) {
    j < |x| < j + |pat| && OccursAt(x + y, pat, j)
  }

  lemma ShiftOccurrence(x: string, y: string, pat: string, k: nat, j: nat)
    requires k <= |x|
    ensures OccursAt(x[k..] + y, pat, j) <==> OccursAt(x + y, pat, j + k)
  {
    assert x[k..] + y == (x + y)[k..];
    if j + k + |pat| <= |x + y| {
      assert (x + y)[k..][j..j + |pat|] == (x + y)[j + k..j + k + |pat|];
    }
  }

  /**
   * When no occurrence of the pattern straddles the boundary between `x` and
   * `y`, replacing in `x + y` is replacing in each part.
   */
  lemma {:induction false} ReplaceAppend(x: string, y: string, pat: string, sub: string)
    requires pat != []
    requires forall j :: 0 <= j < |x| ==> !Straddles(x, y, pat, j)
    ensures Replace(x + y, pat, sub) == Replace(x, pat, sub) + Replace(y, pat, sub)
    decreases |x|
  {
    if x == [] {
      assert x + y == y;
    } else {
      var k := if pat <= x + y then |pat| else 1;
      var h := if pat <= x + y then sub else [x[0]];
      assert !Straddles(x, y, pat, 0);
      ReplaceHead(x, y, pat, sub);
      NoStraddleInSuffix(x, y, pat, k);
      ReplaceAppend(x[k..], y, pat, sub);
      var r, s := Replace(x[k..], pat, sub), Replace(y, pat, sub);
      assert Replace(x + y, pat, sub) == h + (r + s);
      assert Replace(x, pat, sub) == h + r;
    }
  }

  /** The first step of `replace` is the same in `x + y` and in `x` when nothing straddles at 0. */
  lemma ReplaceHead(x: string, y: string, pat: string, sub: string)
    requires pat != [] && x != []
    requires !Straddles(x, y, pat, 0)
    ensures var k := if pat <= x + y then |pat| else 1;
      var h := if pat <= x + y then sub else [x[0]];
      k <= |x| &&
      Replace(x + y, pat, sub) == h + Replace(x[k..] + y, pat, sub) &&
      Replace(x, pat, sub) == h + Replace(x[k..], pat, sub)
  {
    if pat <= x + y {
      assert OccursAt(x + y, pat, 0);
      assert pat <= x by { assert x[..|pat|] == (x + y)[..|pat|]; }
      assert (x + y)[|pat|..] == x[|pat|..] + y;
    } else {
      assert !(pat <= x);
      assert (x + y)[1..] == x[1..] + y;
    }
  }

  /** Cutting `k` characters off `x` keeps every occurrence clear of the seam. */
  lemma NoStraddleInSuffix(x: string, y: string, pat: string, k: nat)
    requires k <= |x|
    requires forall j :: 0 <= j < |x| ==> !Straddles(x, y, pat, j)
    ensures forall j :: 0 <= j < |x[k..]| ==> !Straddles(x[k..], y, pat, j)
  {
    forall j | 0 <= j < |x[k..]| ensures !Straddles(x[k..], y, pat, j) {
      ShiftOccurrence(x, y, pat, k, j);
      assert !Straddles(x, y, pat, j + k);
    }
  }

  /** `s.split(c)`: the pieces between the separators; two adjacent separators give an empty piece. */
  function Split(s: string, c: char): (r: seq<string>)
    ensures |r| >= 1
    ensures forall k :: 0 <= k < |r| ==> c !in r[k]
  {
    if s == [] then [[]]
    else
      var rest := Split(s[1..], c);
      if s[0] == c then [[]] + rest
      else [[s[0]] + rest[0]] + rest[1..]
  }

  /** `c.join(ts)` for a one-character separator. */
  function JoinWith(ts: seq<string>, c: char): string {
    if |ts| == 0 then []
    else if |ts| == 1 then ts[0]
    else ts[0] + [c] + JoinWith(ts[1..], c)
  }

  lemma {:induction false} SplitNoSeparator(s: string, c: char)
    requires c !in s
    ensures Split(s, c) == [s]
  {
    if s != [] {
      SplitNoSeparator(s[1..], c);
      assert s == [s[0]] + s[1..];
    }
  }

  /** Splitting at a separator splits the two sides independently. */
  lemma {:induction false} SplitAppend(a: string, b: string, c: char)
    ensures Split(a + [c] + b, c) == Split(a, c) + Split(b, c)
  {
    if a == [] {
      assert a + [c] + b == [c] + b;
      assert ([c] + b)[1..] == b;
    } else {
      assert (a + [c] + b)[1..] == a[1..] + [c] + b;
      SplitAppend(a[1..], b, c);
    }
  }

  /** Joining the pieces of a split gives the string back. */
  lemma {:induction false} JoinSplit(s: string, c: char)
    ensures JoinWith(Split(s, c), c) == s
  {
    if s != [] {
      var rest := Split(s[1..], c);
      JoinSplit(s[1..], c);
      if s[0] == c {
        assert JoinWith([[]] + rest, c) == [] + [c] + JoinWith(rest, c) by {
          assert ([[]] + rest)[1..] == rest;
        }
      } else if |rest| == 1 {
        assert Split(s, c) == [[s[0]] + rest[0]];
      } else {
        var ts := [[s[0]] + rest[0]] + rest[1..];
        assert ts[1..] == rest[1..];
        assert JoinWith(ts, c) == [s[0]] + rest[0] + [c] + JoinWith(rest[1..], c);
      }
      assert s == [s[0]] + s[1..];
    }
  }

  /** Splitting a join of separator-free pieces gives the pieces back. */
  lemma {:induction false} SplitJoin(ts: seq<string>, c: char)
    requires |ts| >= 1
    requires forall k :: 0 <= k < |ts| ==> c !in ts[k]
    ensures Split(JoinWith(ts, c), c) == ts
  {
    SplitNoSeparator(ts[0], c);
    if |ts| > 1 {
      SplitJoin(ts[1..], c);
      SplitAppend(ts[0], JoinWith(ts[1..], c), c);
      assert ts == [ts[0]] + ts[1..];
    }
  }
}
