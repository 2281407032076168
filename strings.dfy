/**
 The JavaScript string operations the dashboard relies on: `includes`,
 `replace` with a string pattern (which replaces the FIRST occurrence only)
 and `startsWith`. Strings are sequences of characters.
 */
module Strings {
  import opened Seqs

  /** `p` occurs in `s` starting at index `i`. */
  predicate OccursAt(s: string, p: string, i: nat)
  {
    i + |p| <= |s| && s[i..i + |p|] == p
  }

  /** The first index at which `p` occurs in `s`, if any. */
  function IndexOf(s: string, p: string): (r: Option<nat>)
    ensures r.Some? ==> OccursAt(s, p, r.value)
    ensures r.Some? ==> forall j :: 0 <= j < r.value ==> !OccursAt(s, p, j)
    ensures r.None? <==> forall j :: 0 <= j <= |s| ==> !OccursAt(s, p, j)
  {
    SearchFrom(s, p, 0)
  }

  /** First occurrence of `p` in `s` at or after `k`, given none before `k`. */
  function SearchFrom(s: string, p: string, k: nat): (r: Option<nat>)
    requires forall j :: 0 <= j < k ==> !OccursAt(s, p, j)
    ensures r.Some? ==> k <= r.value && OccursAt(s, p, r.value)
    ensures r.Some? ==> forall j :: 0 <= j < r.value ==> !OccursAt(s, p, j)
    ensures r.None? <==> forall j :: 0 <= j <= |s| ==> !OccursAt(s, p, j)
    decreases |s| + 1 - k
  {
    if k + |p| > |s| then None
    else if OccursAt(s, p, k) then Some(k)
    else SearchFrom(s, p, k + 1)
  }

  /** `p` occurs somewhere in `s` (the empty string occurs everywhere). */
  predicate Contains(s: string, p: string)
  {
    IndexOf(s, p).Some?
  }

  /** `s` begins with `p`. */
  predicate StartsWith(s: string, p: string)
  {
    p <= s
  }

  /** Replacement with a string pattern, as JavaScript does it: only the first occurrence is replaced. */
  function ReplaceFirst(s: string, p: string, rep: string): string
  {
    match IndexOf(s, p)
    case None => s
    case Some(i) => s[..i] + rep + s[i + |p|..]
  }

  /** A string contains every prefix of every string it contains. */
  lemma ContainsPrefix(s: string, a: string, b: string)
    requires Contains(s, a + b)
    ensures Contains(s, a)
  {
    var i := IndexOf(s, a + b).value;
    assert s[i..i + |a|] == (a + b)[..|a|] == a;
    assert OccursAt(s, a, i);
  }

  /** What `replace` produces: when the pattern occurs, the text before its first
      occurrence, then the replacement, then the text after it; otherwise the input. */
  lemma ReplaceFirstShape(s: string, p: string, rep: string)
    ensures !Contains(s, p) ==> ReplaceFirst(s, p, rep) == s
    ensures Contains(s, p) ==>
      var i := IndexOf(s, p).value;
      && ReplaceFirst(s, p, rep)[..i] == s[..i]
      && OccursAt(ReplaceFirst(s, p, rep), rep, i)
      && ReplaceFirst(s, p, rep)[i + |rep|..] == s[i + |p|..]
      && |ReplaceFirst(s, p, rep)| == |s| - |p| + |rep|
  {
  }

  /** An occurrence of `q` that does not overlap the replaced occurrence of `p` survives the replacement. */
  lemma ReplaceFirstKeeps(s: string, p: string, rep: string, q: string, at: nat)
    requires OccursAt(s, q, at) && Contains(s, p)
    requires at + |q| <= IndexOf(s, p).value || IndexOf(s, p).value + |p| <= at
    ensures Contains(ReplaceFirst(s, p, rep), q)
  {
    var i := IndexOf(s, p).value;
    var r := ReplaceFirst(s, p, rep);
    assert r == s[..i] + rep + s[i + |p|..];
    if at + |q| <= i {
      assert r[at..at + |q|] == s[at..at + |q|];
      assert OccursAt(r, q, at);
    } else {
      var at' := at - |p| + |rep|;
      assert r[at'..at' + |q|] == s[at..at + |q|];
      assert OccursAt(r, q, at');
    }
  }

  /** After a replacement the replacement text is in the result. */
  lemma ReplaceFirstContainsReplacement(s: string, p: string, rep: string)
    requires Contains(s, p)
    ensures Contains(ReplaceFirst(s, p, rep), rep)
  {
    ReplaceFirstShape(s, p, rep);
  }
}
