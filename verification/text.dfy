/** String helpers with Python's meaning: `str(n)`, `s.replace(pat, "")` and
    the search behind `s.rpartition(c)`. */
module Text {
  import opened Base

  function Digit(d: nat): (c: char)
    requires d < 10
    ensures '0' <= c <= '9'
  {
    ('0' as int + d) as char
  }

  /** Python's `str(n)` for a non-negative integer: decimal digits, no sign,
      no leading zero. */
  function NatText(n: nat): (s: string)
    ensures 1 <= |s|
    ensures forall i :: 0 <= i < |s| ==> '0' <= s[i] <= '9'
    ensures n >= 10 ==> s[0] != '0'
    decreases n
  {
    if n < 10 then [Digit(n)] else NatText(n / 10) + [Digit(n % 10)]
  }

  /** Python's `str(i)` for any integer. */
  function IntText(i: int): string
  {
    if i < 0 then "-" + NatText(-i) else NatText(i)
  }

  /** Python's `s.replace(pat, "")`: scans from the left and drops every
      non-overlapping occurrence of `pat`. */
  function Remove(s: string, pat: string): (r: string)
    requires |pat| > 0
    ensures |r| <= |s|
    decreases |s|
  {
    if |s| < |pat| then s
    else if s[..|pat|] == pat then Remove(s[|pat|..], pat)
    else [s[0]] + Remove(s[1..], pat)
  }

  /** When one of the pattern's characters never occurs in `s`, there is
      nothing to drop. */
  lemma {:induction false} RemoveAbsent(s: string, pat: string, k: nat)
    requires |pat| > 0 && k < |pat|
    requires forall i :: 0 <= i < |s| ==> s[i] != pat[k]
    ensures Remove(s, pat) == s
    decreases |s|
  {
    if |s| >= |pat| {
      assert s[..|pat|][k] == s[k];
      RemoveAbsent(s[1..], pat, k);
      assert s == [s[0]] + s[1..];
    }
  }

  /** Dropping a one-character pattern leaves none of that character behind. */
  lemma {:induction false} RemoveCharLeavesNone(s: string, c: char)
    ensures forall i :: 0 <= i < |Remove(s, [c])| ==> Remove(s, [c])[i] != c
    decreases |s|
  {
    if |s| >= 1 {
      RemoveCharLeavesNone(s[1..], c);
    }
  }

  /** The index of the last `c` in `s`, as `s.rpartition(c)` finds it. */
  function LastIndex(s: string, c: char): (r: Option<nat>)
    ensures r.None? <==> forall i :: 0 <= i < |s| ==> s[i] != c
    ensures r.Some? ==> r.value < |s| && s[r.value] == c
    ensures r.Some? ==> forall j :: r.value < j < |s| ==> s[j] != c
    decreases |s|
  {
    if |s| == 0 then None
    else if s[|s| - 1] == c then Some(|s| - 1)
    else LastIndex(s[..|s| - 1], c)
  }
}
