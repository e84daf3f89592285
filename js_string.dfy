/**
 * `String.prototype.replace` called with a STRING pattern, as ECMAScript
 * defines it: only the first occurrence of the pattern is replaced, and the
 * replacement text is expanded by GetSubstitution, so that `$$`, `$&`, `` $` ``
 * and `$'` inside it stand for `$`, the match, the text before the match and
 * the text after it.
 */
module JsString {
  import opened Wrappers

  /** `p` occurs in `s` starting at index `k`. */
  predicate OccursAt(s: string, p: string, k: nat)
  {
    k + |p| <= |s| && s[k..k + |p|] == p
  }

  /** `p` occurs somewhere in `s`. */
  ghost predicate Occurs(s: string, p: string)
  {
    exists k: nat :: OccursAt(s, p, k)
  }

  /** `k` is the leftmost index at which `p` occurs in `s`. */
  ghost predicate FirstOccurrence(s: string, p: string, k: nat)
  {
    OccursAt(s, p, k) && forall j: nat :: j < k ==> !OccursAt(s, p, j)
  }

  /** StringIndexOf(s, p, from): the least index `>= from` at which `p` occurs. */
  function IndexFrom(s: string, p: string, from: nat): (r: Option<nat>)
    decreases |s| - from
    ensures r.Some? ==> from <= r.value && OccursAt(s, p, r.value)
    ensures r.Some? ==> forall j: nat :: from <= j < r.value ==> !OccursAt(s, p, j)
    ensures r.None? ==> forall j: nat :: from <= j ==> !OccursAt(s, p, j)
  {
    if from + |p| > |s| then None
    else if s[from..from + |p|] == p then Some(from)
    else IndexFrom(s, p, from + 1)
  }

  /** `s.indexOf(p)`: the first occurrence of `p` in `s`, if any. */
  function IndexOf(s: string, p: string): (r: Option<nat>)
    ensures r.Some? <==> Occurs(s, p)
    ensures r.Some? ==> FirstOccurrence(s, p, r.value)
  {
    IndexFrom(s, p, 0)
  }

  /**
   * GetSubstitution for a string pattern (no capture groups): the replacement
   * text `t` with `$$`, `$&`, `` $` `` and `$'` expanded. Every other `$`
   * (`$1`, `$<`, a lone `$`) stays as it is.
   */
  function Expand(t: string, matched: string, before: string, after: string): (r: string)
    ensures '$' !in t ==> r == t
  {
    if |t| == 0 then ""
    else if t[0] == '$' && |t| >= 2 && t[1] == '$' then "$" + Expand(t[2..], matched, before, after)
    else if t[0] == '$' && |t| >= 2 && t[1] == '&' then matched + Expand(t[2..], matched, before, after)
    else if t[0] == '$' && |t| >= 2 && t[1] == '`' then before + Expand(t[2..], matched, before, after)
    else if t[0] == '$' && |t| >= 2 && t[1] == '\'' then after + Expand(t[2..], matched, before, after)
    else [t[0]] + Expand(t[1..], matched, before, after)
  }

  /**
   * The GetSubstitution table for a string pattern: `$$` is a `$`, `$&` the
   * match, `` $` `` the text before it and `$'` the text after it.
   */
  lemma ExpandPatterns(t: string, matched: string, before: string, after: string)
    ensures Expand("$$" + t, matched, before, after) == "$" + Expand(t, matched, before, after)
    ensures Expand("$&" + t, matched, before, after) == matched + Expand(t, matched, before, after)
    ensures Expand("$`" + t, matched, before, after) == before + Expand(t, matched, before, after)
    ensures Expand("$'" + t, matched, before, after) == after + Expand(t, matched, before, after)
  {
    assert ("$$" + t)[2..] == t;
    assert ("$&" + t)[2..] == t;
    assert ("$`" + t)[2..] == t;
    assert ("$'" + t)[2..] == t;
  }

  /** With no capture groups, `$1` stays as written, and so does a trailing `$`. */
  lemma ExpandKeepsOtherDollars(t: string, matched: string, before: string, after: string)
    ensures Expand("$1" + t, matched, before, after) == "$1" + Expand(t, matched, before, after)
    ensures Expand("$", matched, before, after) == "$"
  {
    assert ("$1" + t)[1..] == "1" + t;
    assert ("1" + t)[1..] == t;
  }

  /** `s` with the `m` characters at `k` replaced by `text`. */
  function Splice(s: string, k: nat, m: nat, text: string): string
    requires k + m <= |s|
  {
    s[..k] + text + s[k + m..]
  }

  /** `s.replace(pattern, replacement)` with a string `pattern`. */
  function Replace(s: string, pattern: string, replacement: string): (r: string)
    ensures !Occurs(s, pattern) ==> r == s
    ensures forall k: nat {:trigger FirstOccurrence(s, pattern, k)} ::
              FirstOccurrence(s, pattern, k) && '$' !in replacement ==>
                r == s[..k] + replacement + s[k + |pattern|..]
  {
    var i := IndexOf(s, pattern);
    if i.None? then s
    else Splice(s, i.value, |pattern|, Expand(replacement, pattern, s[..i.value], s[i.value + |pattern|..]))
  }

  /** The first occurrence is the only one: two leftmost occurrences coincide. */
  lemma FirstOccurrenceUnique(s: string, p: string, i: nat, j: nat)
    requires FirstOccurrence(s, p, i) && FirstOccurrence(s, p, j)
    ensures i == j
  {
  }

  /** Text after a spliced region is kept, shifted by the change in length. */
  lemma SpliceKeepsLater(s: string, k: nat, m: nat, rep: string, j: nat, n: nat)
    requires k + m <= j && j + n <= |s|
    ensures var r := s[..k] + rep + s[k + m..];
      j + |rep| - m + n <= |r| && r[j + |rep| - m..j + |rep| - m + n] == s[j..j + n]
  {
    var r := s[..k] + rep + s[k + m..];
    var j' := j + |rep| - m;
    forall x | j' <= x < j' + n ensures r[x] == s[x - j' + j] {
      assert r[x] == s[k + m..][x - k - |rep|];
    }
  }

  /** A text that starts with the pattern has that first occurrence replaced. */
  lemma ReplaceAtStart(p: string, rest: string, rep: string)
    requires '$' !in rep
    ensures Replace(p + rest, p, rep) == rep + rest
  {
    assert FirstOccurrence(p + rest, p, 0) by { assert (p + rest)[0..|p|] == p; }
    assert (p + rest)[|p|..] == rest;
  }

  /**
   * Only the first occurrence is replaced: an occurrence that starts after the
   * end of an earlier one survives, shifted by the change in length.
   */
  lemma {:induction false} LaterOccurrenceSurvives(s: string, p: string, rep: string, i: nat, j: nat)
    requires OccursAt(s, p, i) && OccursAt(s, p, j) && i + |p| <= j
    requires '$' !in rep
    ensures OccursAt(Replace(s, p, rep), p, j + |rep| - |p|)
  {
    var k := IndexOf(s, p).value;
    var r := Replace(s, p, rep);
    assert FirstOccurrence(s, p, k);
    assert k <= i;
    assert r == s[..k] + rep + s[k + |p|..];
    SpliceKeepsLater(s, k, |p|, rep, j, |p|);
    var j' := j + |rep| - |p|;
    assert r[j'..j' + |p|] == s[j..j + |p|] == p;
  }

  /**
   * The replacement is spliced in where the first occurrence was, and the text
   * after it is kept as it was: whatever `replacement` is, the result ends with
   * `s[k + |pattern|..]` and starts with `s[..k]`.
   */
  lemma ReplaceKeepsOutside(s: string, pattern: string, replacement: string, k: nat)
    requires FirstOccurrence(s, pattern, k)
    ensures Replace(s, pattern, replacement)[..k] == s[..k]
    ensures |Replace(s, pattern, replacement)| >= |s| - k - |pattern|
    ensures var r := Replace(s, pattern, replacement);
            r[|r| - (|s| - k - |pattern|)..] == s[k + |pattern|..]
  {
    FirstOccurrenceUnique(s, pattern, k, IndexOf(s, pattern).value);
  }

  /** An occurrence in `t` is an occurrence in `a + t`, shifted by `|a|`. */
  lemma OccursShifted(a: string, t: string, p: string, j: nat)
    ensures OccursAt(a + t, p, |a| + j) <==> OccursAt(t, p, j)
  {
    if |a| + j + |p| <= |a + t| {
      assert (a + t)[|a| + j..|a| + j + |p|] == t[j..j + |p|];
    }
  }

  /** With no occurrence in `a` and none in `t`, there is none in `a + t`. */
  lemma NoOccurrenceAfterPrefix(a: string, t: string, p: string)
    requires forall k: nat :: k < |a| ==> !OccursAt(a + t, p, k)
    requires !Occurs(t, p)
    ensures !Occurs(a + t, p)
  {
    forall k: nat | |a| <= k ensures !OccursAt(a + t, p, k) {
      OccursShifted(a, t, p, k - |a|);
    }
  }

  /** The first occurrence in `t` is the first in `a + t` when none starts inside `a`. */
  lemma FirstOccurrenceAfterPrefix(a: string, t: string, p: string, j: nat)
    requires forall k: nat :: k < |a| ==> !OccursAt(a + t, p, k)
    requires FirstOccurrence(t, p, j)
    ensures FirstOccurrence(a + t, p, |a| + j)
  {
    OccursShifted(a, t, p, j);
    forall k: nat | |a| <= k < |a| + j ensures !OccursAt(a + t, p, k) {
      OccursShifted(a, t, p, k - |a|);
    }
  }

  /** Splicing `rep` into `a + t` past `a` is splicing it into `t`. */
  lemma SpliceAfterPrefix(a: string, t: string, rep: string, j: nat, m: nat)
    requires j + m <= |t|
    ensures (a + t)[..|a| + j] + rep + (a + t)[|a| + j + m..] == a + (t[..j] + rep + t[j + m..])
  {
    assert (a + t)[..|a| + j] == a + t[..j];
    assert (a + t)[|a| + j + m..] == t[j + m..];
  }

  /** `ReplaceAfterPrefix` when the pattern first occurs in `t` at `j` and in `a + t` at `|a| + j`. */
  lemma {:induction false} ReplaceAfterPrefixAt(a: string, t: string, p: string, rep: string, j: nat)
    requires '$' !in rep && FirstOccurrence(t, p, j) && FirstOccurrence(a + t, p, |a| + j)
    ensures Replace(a + t, p, rep) == a + Replace(t, p, rep)
  {
    calc {
      Replace(a + t, p, rep);
    == { assert FirstOccurrence(a + t, p, |a| + j); }
      (a + t)[..|a| + j] + rep + (a + t)[|a| + j + |p|..];
    == { SpliceAfterPrefix(a, t, rep, j, |p|); }
      a + (t[..j] + rep + t[j + |p|..]);
    == { assert FirstOccurrence(t, p, j); }
      a + Replace(t, p, rep);
    }
  }

  /**
   * Replacing in `a + t` where no occurrence starts inside `a` is replacing in
   * `t` alone (for a replacement without `$`, whose expansion cannot see `a`).
   */
  lemma {:induction false} ReplaceAfterPrefix(a: string, t: string, p: string, rep: string)
    requires forall k: nat :: k < |a| ==> !OccursAt(a + t, p, k)
    requires '$' !in rep
    ensures Replace(a + t, p, rep) == a + Replace(t, p, rep)
  {
    if !Occurs(t, p) {
      NoOccurrenceAfterPrefix(a, t, p);
    } else {
      var j := IndexOf(t, p).value;
      FirstOccurrenceAfterPrefix(a, t, p, j);
      ReplaceAfterPrefixAt(a, t, p, rep, j);
    }
  }
}
