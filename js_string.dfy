/**
 * `String.prototype.replace` called with a string pattern, as the update
 * pass builds its download URLs: the first-occurrence search inside
 * `replace`, then the substitution of that occurrence only, with the
 * replacement string scanned for `$` substitution patterns.
 */
module JsString {

  /** `pat` occurs in `s` starting at index `k`. */
  predicate OccursAt(s: string, pat: string, k: int)
  {
    0 <= k && k + |pat| <= |s| && s[k..k + |pat|] == pat
  }

  /** `pat` occurs in `s` at `k` and at no earlier index. */
  predicate FirstAt(s: string, pat: string, k: int)
  {
    OccursAt(s, pat, k) && forall j :: 0 <= j < k ==> !OccursAt(s, pat, j)
  }

  /** The first-occurrence search inside `replace`: the first index at which `pat` occurs, or -1. */
  function IndexOf(s: string, pat: string): (r: int)
    ensures r == -1 || FirstAt(s, pat, r)
    ensures r == -1 <==> forall k :: !OccursAt(s, pat, k)
  {
    if exists k :: 0 <= k <= |s| && OccursAt(s, pat, k) then
      var k0 :| 0 <= k0 <= |s| && OccursAt(s, pat, k0);
      FirstOccurrence(s, pat, k0);
      FirstUnique(s, pat);
      var k :| 0 <= k <= |s| && FirstAt(s, pat, k);
      k
    else -1
  }

  /** An occurrence at `k` means there is a first occurrence, at or before `k`. */
  lemma {:induction false} FirstOccurrence(s: string, pat: string, k: int)
    requires OccursAt(s, pat, k)
    ensures exists f :: 0 <= f <= k && FirstAt(s, pat, f)
    decreases k
  {
    if exists j :: 0 <= j < k && OccursAt(s, pat, j) {
      var j :| 0 <= j < k && OccursAt(s, pat, j);
      FirstOccurrence(s, pat, j);
    } else {
      assert FirstAt(s, pat, k);
    }
  }

  /** There is at most one first occurrence. */
  lemma FirstUnique(s: string, pat: string)
    ensures forall k1, k2 :: FirstAt(s, pat, k1) && FirstAt(s, pat, k2) ==> k1 == k2
  {
  }

  /**
   * GetSubstitution for a match without capture groups: `$$` stands for `$`,
   * `$&` for the matched text, `` $` `` for the text before the match and
   * `$'` for the text after it; every other character, including a `$` that
   * starts none of these, is copied as it is.
   */
  function Substitute(repl: string, matched: string, before: string, after: string): (r: string)
    ensures '$' !in repl ==> r == repl
    decreases |repl|
  {
    if |repl| == 0 then ""
    else if repl[0] == '$' && |repl| >= 2 && repl[1] == '$' then
      "$" + Substitute(repl[2..], matched, before, after)
    else if repl[0] == '$' && |repl| >= 2 && repl[1] == '&' then
      matched + Substitute(repl[2..], matched, before, after)
    else if repl[0] == '$' && |repl| >= 2 && repl[1] == '`' then
      before + Substitute(repl[2..], matched, before, after)
    else if repl[0] == '$' && |repl| >= 2 && repl[1] == '\'' then
      after + Substitute(repl[2..], matched, before, after)
    else
      assert '$' !in repl ==> '$' !in repl[1..];
      [repl[0]] + Substitute(repl[1..], matched, before, after)
  }

  /** `s.replace(pat, repl)` with a string pattern. */
  function Replace(s: string, pat: string, repl: string): (r: string)
    ensures IndexOf(s, pat) == -1 ==> r == s
  {
    var i := IndexOf(s, pat);
    if i == -1 then s
    else s[..i] + Substitute(repl, pat, s[..i], s[i + |pat|..]) + s[i + |pat|..]
  }

  /**
   * When the pattern's first character does not occur in `p`, the first
   * occurrence of `pat` in `p + pat + q` is the one right after `p`, and the
   * expanded replacement takes its place.
   */
  lemma ReplaceFirstOccurrence(p: string, pat: string, q: string, repl: string)
    requires |pat| > 0 && pat[0] !in p
    ensures IndexOf(p + pat + q, pat) == |p|
    ensures Replace(p + pat + q, pat, repl) == p + Substitute(repl, pat, p, q) + q
    ensures '$' !in repl ==> Replace(p + pat + q, pat, repl) == p + repl + q
  {
    var s := p + pat + q;
    assert s[|p|..|p| + |pat|] == pat;
    assert OccursAt(s, pat, |p|);
    assert s[..|p|] == p;
    assert s[|p| + |pat|..] == q;
  }

  /** `$&` expands to the matched text. */
  lemma SubstituteMatch(matched: string, before: string, after: string)
    ensures Substitute("$&", matched, before, after) == matched
  {
    var repl := "$&";
    assert repl[0] == '$' && repl[1] == '&' && |repl[2..]| == 0;
  }
}
