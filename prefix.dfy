/**
 * The two regular expressions of the driver: `get_filenameprefix`, which
 * takes the subject prefix from a file name with `^(\d{1,6})(.*).nii.gz$`
 * (flag `re.S`, so every unescaped `.` matches any character), and
 * `checkvalidinput`, an unanchored search for `[a-zA-Z0-9\-\\/\._]+`.
 */
module Prefix {
  import opened Wrappers

  predicate IsDigit(c: char) { '0' <= c <= '9' }

  predicate AllDigits(s: string) { forall i :: 0 <= i < |s| ==> IsDigit(s[i]) }

  /** The number of leading decimal digits. */
  function LeadingDigits(s: string): (k: nat)
    ensures k <= |s|
    ensures forall i :: 0 <= i < k ==> IsDigit(s[i])
    ensures k < |s| ==> !IsDigit(s[k])
  {
    if s != [] && IsDigit(s[0]) then 1 + LeadingDigits(s[1..]) else 0
  }

  /**
   * `(.*).nii.gz$` matches the rest of the name: seven characters or more,
   * the last seven being any character, `nii`, any character, `gz`.
   */
  predicate TailMatches(t: string) {
    |t| >= 7 && t[|t| - 6..|t| - 3] == "nii" && t[|t| - 2..] == "gz"
  }

  /** The whole pattern matches `s` with group 1 spanning `s[..j]`. */
  predicate MatchesWithGroup(s: string, j: nat) {
    1 <= j <= 6 && j <= |s| && AllDigits(s[..j]) && TailMatches(s[j..])
  }

  /** The backtracking of the greedy `\d{1,6}`: try `j` digits, then one fewer, down to one. */
  function Backtrack(s: string, j: nat): (r: Option<string>)
    requires j <= 6 && j <= LeadingDigits(s)
    ensures r.Some? ==> 1 <= |r.value| <= j && r.value == s[..|r.value|] && MatchesWithGroup(s, |r.value|)
    ensures r.Some? ==> forall i :: |r.value| < i <= j ==> !MatchesWithGroup(s, i)
    ensures r.None? ==> forall i :: 1 <= i <= j ==> !MatchesWithGroup(s, i)
    decreases j
  {
    if j == 0 then None
    else if TailMatches(s[j..]) then Some(s[..j])
    else Backtrack(s, j - 1)
  }

  /**
   * `get_filenameprefix(filename)`; `None` stands for the exception raised
   * when `re.search` returns `None` and `.group(1)` is called on it.
   */
  function GetFilenamePrefix(filename: string): (r: Option<string>)
    ensures r.Some? <==> exists j :: MatchesWithGroup(filename, j)
    ensures r.Some? ==> MatchesWithGroup(filename, |r.value|) && r.value == filename[..|r.value|]
    ensures r.Some? ==> forall j: nat :: MatchesWithGroup(filename, j) ==> j <= |r.value|
  {
    var k := LeadingDigits(filename);
    var r := Backtrack(filename, Min(6, k));
    assert forall j: nat :: MatchesWithGroup(filename, j) ==> j <= Min(6, k) by {
      forall j: nat | MatchesWithGroup(filename, j) ensures j <= k {
        DigitsIff(filename, j);
      }
    }
    r
  }

  /** The name ends like `.nii.gz` where the two dots may be any character. */
  predicate EndsLikeNiiGz(s: string) {
    |s| >= 7 && s[|s| - 6..|s| - 3] == "nii" && s[|s| - 2..] == "gz"
  }

  lemma TailIff(s: string, j: nat)
    requires j <= |s|
    ensures TailMatches(s[j..]) <==> j <= |s| - 7 && EndsLikeNiiGz(s)
  {
    var t := s[j..];
    if |t| >= 7 {
      assert t[|t| - 6..|t| - 3] == s[|s| - 6..|s| - 3];
      assert t[|t| - 2..] == s[|s| - 2..];
    }
  }

  lemma DigitsIff(s: string, j: nat)
    requires j <= |s|
    ensures AllDigits(s[..j]) <==> j <= LeadingDigits(s)
  {
    var k := LeadingDigits(s);
    if j > k {
      assert s[..j][k] == s[k];
    } else {
      forall i | 0 <= i < j ensures IsDigit(s[..j][i]) {
        assert s[..j][i] == s[i];
      }
    }
  }

  /** The pattern matches with `j` digits in group 1 exactly when `j` is within both bounds. */
  lemma MatchIff(s: string, j: nat)
    ensures MatchesWithGroup(s, j) <==>
      1 <= j <= Min(6, LeadingDigits(s)) && j <= |s| - 7 && EndsLikeNiiGz(s)
  {
    if j <= |s| {
      TailIff(s, j);
      DigitsIff(s, j);
    }
  }

  /** The bound on the length of group 1: at most six, all digits, and seven characters left. */
  function GroupBound(s: string): int {
    Min(Min(6, LeadingDigits(s)), |s| - 7)
  }

  lemma MatchExactlyWhen(s: string)
    ensures GetFilenamePrefix(s).Some? <==> GroupBound(s) >= 1 && EndsLikeNiiGz(s)
  {
    if GroupBound(s) >= 1 && EndsLikeNiiGz(s) {
      MatchIff(s, GroupBound(s));
    }
    if GetFilenamePrefix(s).Some? {
      MatchIff(s, |GetFilenamePrefix(s).value|);
    }
  }

  lemma GroupLength(s: string)
    requires GetFilenamePrefix(s).Some?
    ensures |GetFilenamePrefix(s).value| == GroupBound(s)
  {
    var n := GroupBound(s);
    var m := |GetFilenamePrefix(s).value|;
    MatchIff(s, m);
    MatchIff(s, n);
    assert n <= m;
  }

  /**
   * The greedy digit group backs off only to leave seven characters for the
   * tail: the prefix is the first `min(6, k, |s| - 7)` characters, `k` the
   * number of leading digits, and there is a match exactly when that is
   * positive and the name ends like `.nii.gz`.
   */
  lemma PrefixClosedForm(s: string)
    ensures GetFilenamePrefix(s) ==
      if GroupBound(s) >= 1 && EndsLikeNiiGz(s) then Some(s[..GroupBound(s)]) else None
  {
    MatchExactlyWhen(s);
    if GetFilenamePrefix(s).Some? {
      GroupLength(s);
    }
  }

  /**
   * A prefix, when found, is non-empty, all digits, at most six long and a
   * prefix of the name; so the `if filename_prefix:` test of the caller can
   * only fail by exception, never by an empty string.
   */
  lemma PrefixShape(s: string)
    requires GetFilenamePrefix(s).Some?
    ensures var p := GetFilenamePrefix(s).value;
      p != [] && AllDigits(p) && |p| <= 6 && p <= s
  {
  }

  /** The leading-digit count is pinned down by where the digits stop. */
  lemma LeadingDigitsAre(s: string, k: nat)
    requires k <= |s| && AllDigits(s[..k]) && (k == |s| || !IsDigit(s[k]))
    ensures LeadingDigits(s) == k
  {
  }

  lemma Prefix003()
    ensures GetFilenamePrefix("003-dwi.nii.gz") == Some("003")
  {
    var s := "003-dwi.nii.gz";
    LeadingDigitsAre(s, 3);
    assert GroupBound(s) == 3 && EndsLikeNiiGz(s);
    assert s[..3] == "003";
    PrefixClosedForm(s);
  }

  lemma PrefixSevenDigits(s: string)
    requires s == "1234567-dwi.nii.gz"
    ensures GetFilenamePrefix(s) == Some("123456")
  {
    LeadingDigitsAre(s, 7);
    assert GroupBound(s) == 6 && EndsLikeNiiGz(s);
    assert s[..6] == "123456";
    PrefixClosedForm(s);
  }

  /** Both unescaped dots match any character, and the digits back off to leave seven for the tail. */
  lemma PrefixBacksOff()
    ensures GetFilenamePrefix("1234nii5gz") == Some("123")
  {
    var s := "1234nii5gz";
    LeadingDigitsAre(s, 4);
    assert GroupBound(s) == 3 && EndsLikeNiiGz(s);
    assert s[..3] == "123";
    PrefixClosedForm(s);
  }

  lemma PrefixNoMatch()
    ensures GetFilenamePrefix("abc.nii.gz") == None
    ensures GetFilenamePrefix("dwi.nii") == None
    ensures GetFilenamePrefix("AP003.nii.gz") == None
  {
    LeadingDigitsAre("abc.nii.gz", 0);
    PrefixClosedForm("abc.nii.gz");
    PrefixClosedForm("dwi.nii");
    LeadingDigitsAre("AP003.nii.gz", 0);
    PrefixClosedForm("AP003.nii.gz");
  }

  /** The character class `[a-zA-Z0-9\-\\/\._]`. */
  predicate Allowed(c: char) {
    'a' <= c <= 'z' || 'A' <= c <= 'Z' || '0' <= c <= '9' ||
    c == '-' || c == '\\' || c == '/' || c == '.' || c == '_'
  }

  /** The greedy `+`: the end of the run of allowed characters starting at `i`. */
  function RunEnd(s: string, i: nat): (e: nat)
    requires i <= |s|
    ensures i <= e <= |s|
    ensures forall k :: i <= k < e ==> Allowed(s[k])
    ensures e == |s| || !Allowed(s[e])
    decreases |s| - i
  {
    if i < |s| && Allowed(s[i]) then RunEnd(s, i + 1) else i
  }

  /** `re.search` of the class followed by `+`: the leftmost match at or after `from`, as a span. */
  function SearchRun(s: string, from: nat): (r: Option<(nat, nat)>)
    requires from <= |s|
    ensures r.None? <==> forall k :: from <= k < |s| ==> !Allowed(s[k])
    ensures r.Some? ==> from <= r.value.0 < r.value.1 <= |s|
    ensures r.Some? ==> forall k :: from <= k < r.value.0 ==> !Allowed(s[k])
    ensures r.Some? ==> forall k :: r.value.0 <= k < r.value.1 ==> Allowed(s[k])
    ensures r.Some? ==> r.value.1 == |s| || !Allowed(s[r.value.1])
    decreases |s| - from
  {
    if from == |s| then None
    else if Allowed(s[from]) then Some((from, RunEnd(s, from)))
    else SearchRun(s, from + 1)
  }

  /** `checkvalidinput(s)`: true exactly when some character of `s` is in the class. */
  function CheckValidInput(s: string): (ok: bool)
    ensures ok <==> exists i :: 0 <= i < |s| && Allowed(s[i])
  {
    SearchRun(s, 0).Some?
  }

  lemma CheckValidInputExamples()
    ensures !CheckValidInput("")
    ensures CheckValidInput("a;b")
    ensures !CheckValidInput(";; |")
    ensures CheckValidInput("/data/003-dwi.nii.gz")
  {
    assert Allowed("a;b"[0]);
    assert Allowed("/data/003-dwi.nii.gz"[0]);
    assert forall i :: 0 <= i < 4 ==> !Allowed(";; |"[i]);
  }
}
