/**
 * The string equality policy of the merge tool: exact comparison, or an
 * ASCII case-insensitive comparison of equal-length strings when the
 * case flag is set (the flag is a parameter here, not a global).
 */
module StrEq {

  /** ASCII lower-casing, as `tolower` does in the C locale. */
  function Lower(c: char): char {
    if 'A' <= c <= 'Z' then (c as int + 32) as char else c
  }

  /** The string with every character lower-cased. */
  ghost function FoldCase(s: string): string {
    seq(|s|, i requires 0 <= i < |s| => Lower(s[i]))
  }

  /**
   * `strncasecmp(l, r, n)` from position `i` on, for strings without NUL
   * characters: the difference of the lower-cased characters at the first
   * position below `n` where they differ, or 0 when there is none.
   */
  function CaseCmp(l: string, r: string, i: nat, n: nat): int
    requires i <= n <= |l| && n <= |r|
    decreases n - i
  {
    if i == n then 0
    else if Lower(l[i]) != Lower(r[i]) then Lower(l[i]) as int - Lower(r[i]) as int
    else CaseCmp(l, r, i + 1, n)
  }

  /** `strequals(l, r)` with the case flag passed in as `ci`. */
  function StrEquals(ci: bool, l: string, r: string): bool {
    if !ci then l == r
    else if |l| != |r| then false
    else 0 == CaseCmp(l, r, 0, |l|)
  }

  lemma {:induction false} CaseCmpZero(l: string, r: string, i: nat, n: nat)
    requires i <= n <= |l| && n <= |r|
    ensures CaseCmp(l, r, i, n) == 0 <==> forall j :: i <= j < n ==> Lower(l[j]) == Lower(r[j])
    decreases n - i
  {
    if i < n {
      CaseCmpZero(l, r, i + 1, n);
    }
  }

  /**
   * With the flag off the policy is exact equality; with it on, strings of
   * different lengths differ and strings of equal length are equal exactly
   * when they agree after ASCII case folding.
   */
  lemma StrEqualsIff(ci: bool, l: string, r: string)
    ensures !ci ==> (StrEquals(ci, l, r) <==> l == r)
    ensures ci && |l| != |r| ==> !StrEquals(ci, l, r)
    ensures ci && |l| == |r| ==> (StrEquals(ci, l, r) <==> FoldCase(l) == FoldCase(r))
  {
    if ci && |l| == |r| {
      CaseCmpZero(l, r, 0, |l|);
      if FoldCase(l) == FoldCase(r) {
        forall j | 0 <= j < |l| ensures Lower(l[j]) == Lower(r[j]) {
          assert FoldCase(l)[j] == FoldCase(r)[j];
        }
      }
    }
  }

  lemma StrEqualsRefl(ci: bool, s: string)
    ensures StrEquals(ci, s, s)
  {
    CaseCmpZero(s, s, 0, |s|);
  }

  lemma StrEqualsSym(ci: bool, l: string, r: string)
    ensures StrEquals(ci, l, r) == StrEquals(ci, r, l)
  {
    if ci && |l| == |r| {
      CaseCmpZero(l, r, 0, |l|);
      CaseCmpZero(r, l, 0, |l|);
    }
  }

  lemma StrEqualsTrans(ci: bool, a: string, b: string, c: string)
    requires StrEquals(ci, a, b) && StrEquals(ci, b, c)
    ensures StrEquals(ci, a, c)
  {
    if ci {
      CaseCmpZero(a, b, 0, |a|);
      CaseCmpZero(b, c, 0, |b|);
      CaseCmpZero(a, c, 0, |a|);
    }
  }

  /** Two strings that both equal a third (here: the attribute name "name") equal each other. */
  lemma StrEqualsViaCommon(ci: bool, a: string, b: string, k: string)
    requires StrEquals(ci, a, k) && StrEquals(ci, b, k)
    ensures StrEquals(ci, a, b)
  {
    StrEqualsSym(ci, b, k);
    StrEqualsTrans(ci, a, k, b);
  }
}
