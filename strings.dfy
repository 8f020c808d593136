/** Optional values: the model's stand-in for JavaScript's `undefined`. */
module Optional {
  datatype Option<+T> = None | Some(value: T)

  /** `Map.prototype.get`: the stored value, or `undefined` for a missing key. */
  function Get<K, V>(m: map<K, V>, k: K): (r: Option<V>)
    ensures r.Some? <==> k in m
    ensures r.Some? ==> r.value == m[k]
  {
    if k in m then Some(m[k]) else None
  }
}

/**
 * The JavaScript string operations the builder relies on, stated on
 * `seq<char>`: `split` on one character, `join`, `indexOf` and
 * `replace` with a string pattern (which replaces the FIRST occurrence only,
 * expanding the `$` patterns of its replacement text).
 */
module Strings {
  import opened Optional

  /** `parts.join([c])`; the empty array joins to the empty string. */
  function Join(parts: seq<string>, c: char): string
  {
    if |parts| == 0 then ""
    else if |parts| == 1 then parts[0]
    else parts[0] + [c] + Join(parts[1..], c)
  }

  /** The characters of `s` before its first `c` (all of `s` when there is none). */
  function PrefixBefore(s: string, c: char): (r: string)
    ensures |r| <= |s| && r == s[..|r|] && c !in r
    ensures c in s <==> |r| < |s|
    ensures |r| < |s| ==> s[|r|] == c
  {
    if s == [] || s[0] == c then [] else [s[0]] + PrefixBefore(s[1..], c)
  }

  /** The longest prefix of `s` that ends in `c` (empty when `c` does not occur). */
  function PrefixThroughLast(s: string, c: char): (r: string)
    ensures |r| <= |s| && r == s[..|r|]
    ensures c !in s[|r|..]
    ensures c in s <==> |r| > 0
    ensures |r| > 0 ==> r[|r| - 1] == c
  {
    if s == [] then []
    else if s[|s| - 1] == c then s
    else
      var r := PrefixThroughLast(s[..|s| - 1], c);
      assert s[..|s| - 1][|r|..] + [s[|s| - 1]] == s[|r|..];
      r
  }

  /**
   * `s.split(c)`: the maximal runs of `s` free of `c`, in order. There is
   * always at least one part, and joining them with `c` gives `s` back.
   */
  function Split(s: string, c: char): (parts: seq<string>)
    ensures |parts| >= 1
    ensures forall k :: 0 <= k < |parts| ==> c !in parts[k]
    ensures Join(parts, c) == s
    ensures |parts| > 1 <==> c in s
    ensures parts[0] == PrefixBefore(s, c)
    decreases |s|
  {
    var head := PrefixBefore(s, c);
    if |head| == |s| then [s]
    else
      var rest := Split(s[|head| + 1..], c);
      assert s == head + [c] + s[|head| + 1..];
      assert ([head] + rest)[1..] == rest;
      [head] + rest
  }

  /** Joining the parts of `Split` back up: the last separator splits off the last part. */
  lemma {:induction false} JoinLast(parts: seq<string>, c: char)
    requires |parts| >= 2
    ensures Join(parts, c) == Join(parts[..|parts| - 1], c) + [c] + parts[|parts| - 1]
  {
    if |parts| > 2 {
      JoinLast(parts[1..], c);
      assert parts[1..][..|parts| - 2] == parts[..|parts| - 1][1..];
    }
  }

  /** The part after the last separator contributes no separator: it is what `PrefixThroughLast` leaves. */
  lemma {:induction false} PrefixThroughLastOf(x: string, c: char, y: string)
    requires c !in y
    ensures PrefixThroughLast(x + [c] + y, c) == x + [c]
    decreases |y|
  {
    var s := x + [c] + y;
    if y != [] {
      assert s[..|s| - 1] == x + [c] + y[..|y| - 1];
      PrefixThroughLastOf(x, c, y[..|y| - 1]);
    } else {
      assert s[|s| - 1] == c;
    }
  }

  /**
   * With a separator present, everything but the last part, joined and
   * followed by the separator, is the longest prefix ending in the separator,
   * and the last part is what follows it.
   */
  lemma SplitLast(s: string, c: char, p: seq<string>)
    requires c in s && p == Split(s, c)
    ensures |p| >= 2
    ensures Join(p[..|p| - 1], c) + [c] == PrefixThroughLast(s, c)
    ensures p[|p| - 1] == s[|PrefixThroughLast(s, c)|..]
  {
    var front, last := Join(p[..|p| - 1], c), p[|p| - 1];
    assert c !in last;
    JoinLast(p, c);
    assert s == front + [c] + last;
    PrefixThroughLastOf(front, c, last);
    var q := PrefixThroughLast(s, c);
    assert q == front + [c];
    assert s[|q|..] == last;
  }

  /** Without the separator there is one part, the whole text. */
  lemma SplitWithoutSeparator(s: string, c: char)
    requires c !in s
    ensures Split(s, c) == [s]
  {
    var p := Split(s, c);
    assert |p| == 1;
    assert p[0] == PrefixBefore(s, c) == s[..|s|] == s;
  }

  /** `p` occurs in `s` starting at index `i`. */
  predicate OccursAt(s: string, p: string, i: nat)
  {
    i + |p| <= |s| && s[i..i + |p|] == p
  }

  /** The first position at or after `from` where `p` occurs in `s`, if any: what `indexOf` finds. */
  function FirstOccurrence(s: string, p: string, from: nat): (r: Option<nat>)
    ensures r.Some? ==> from <= r.value && OccursAt(s, p, r.value)
    ensures r.Some? ==> forall k: nat :: from <= k < r.value ==> !OccursAt(s, p, k)
    ensures r.None? ==> forall k: nat :: from <= k ==> !OccursAt(s, p, k)
    decreases |s| + 1 - from
  {
    if from > |s| then None
    else if OccursAt(s, p, from) then Some(from)
    else FirstOccurrence(s, p, from + 1)
  }

  /**
   * The text `replace` inserts for the replacement template `r` when the
   * match `matched` stands between `before` and `after`: `$$` gives `$`,
   * `$&` the match, `` $` `` the text before it and `$'` the text after it.
   * A string pattern has no capture groups, so every other `$` (`$1`, `$<`,
   * a final `$`) stands for itself.
   */
  function Substitution(r: string, before: string, matched: string, after: string): string
    decreases |r|
  {
    if r == [] then []
    else if r[0] == '$' && |r| >= 2 && r[1] == '$' then "$" + Substitution(r[2..], before, matched, after)
    else if r[0] == '$' && |r| >= 2 && r[1] == '&' then matched + Substitution(r[2..], before, matched, after)
    else if r[0] == '$' && |r| >= 2 && r[1] == '`' then before + Substitution(r[2..], before, matched, after)
    else if r[0] == '$' && |r| >= 2 && r[1] == '\'' then after + Substitution(r[2..], before, matched, after)
    else [r[0]] + Substitution(r[1..], before, matched, after)
  }

  /**
   * `s.replace(p, r)` with a string pattern: only the first occurrence of
   * `p` is replaced, by the expansion of the template `r`; an empty pattern
   * occurs at the start.
   */
  function ReplaceFirst(s: string, p: string, r: string): string
  {
    match FirstOccurrence(s, p, 0)
    case None => s
    case Some(i) => s[..i] + Substitution(r, s[..i], p, s[i + |p|..]) + s[i + |p|..]
  }

  /** A template without `$` is inserted as it stands. */
  lemma {:induction false} LiteralReplacement(r: string, before: string, matched: string, after: string)
    requires '$' !in r
    ensures Substitution(r, before, matched, after) == r
    decreases |r|
  {
    if r != [] {
      assert '$' !in r[1..];
      LiteralReplacement(r[1..], before, matched, after);
      assert [r[0]] + r[1..] == r;
    }
  }

  /** The four replacement patterns, and a `$` that starts none of them. */
  lemma ReplacementPatterns(before: string, matched: string, after: string)
    ensures Substitution("$$", before, matched, after) == "$"
    ensures Substitution("$&", before, matched, after) == matched
    ensures Substitution("$`", before, matched, after) == before
    ensures Substitution("$'", before, matched, after) == after
    ensures Substitution("$1", before, matched, after) == "$1"
  {
    assert "$$"[2..] == [] && "$&"[2..] == [] && "$`"[2..] == [] && "$'"[2..] == [];
    assert "$1"[1..] == "1" && "1"[1..] == [];
  }

  /** A `$`-free prefix of the replacement text is copied as it stands. */
  lemma {:induction false} SubstitutionPrefix(x: string, r: string, before: string, matched: string, after: string)
    requires '$' !in x
    ensures Substitution(x + r, before, matched, after) == x + Substitution(r, before, matched, after)
    decreases |x|
  {
    if x != [] {
      assert (x + r)[0] == x[0] != '$';
      assert (x + r)[1..] == x[1..] + r;
      assert '$' !in x[1..];
      SubstitutionPrefix(x[1..], r, before, matched, after);
      assert [x[0]] + (x[1..] + Substitution(r, before, matched, after)) == x + Substitution(r, before, matched, after);
    } else {
      assert x + r == r;
    }
  }

  /** `$$` at the head of the replacement text becomes one `$`. */
  lemma DollarDollarPrefix(r: string, before: string, matched: string, after: string)
    ensures Substitution("$$" + r, before, matched, after) == "$" + Substitution(r, before, matched, after)
  {
    assert ("$$" + r)[2..] == r;
  }

  /** With no occurrence of the pattern nothing is replaced. */
  lemma ReplaceAbsent(s: string, p: string, r: string)
    requires forall k: nat :: !OccursAt(s, p, k)
    ensures ReplaceFirst(s, p, r) == s
  {
  }

  /** The first occurrence, at `i`, is the one replaced: `indexOf` locates what `replace` substitutes. */
  lemma ReplaceFirstOccurrence(s: string, p: string, r: string, i: nat)
    requires OccursAt(s, p, i)
    requires forall k: nat :: k < i ==> !OccursAt(s, p, k)
    ensures ReplaceFirst(s, p, r) == s[..i] + Substitution(r, s[..i], p, s[i + |p|..]) + s[i + |p|..]
    ensures '$' !in r ==> ReplaceFirst(s, p, r) == s[..i] + r + s[i + |p|..]
  {
    var j := FirstOccurrence(s, p, 0);
    assert j == Some(i);
    if '$' !in r {
      LiteralReplacement(r, s[..i], p, s[i + |p|..]);
    }
  }

  /** Replacing in `a + p + b` when `p` does not start inside `a` substitutes exactly that `p`. */
  lemma ReplaceFirstAt(a: string, p: string, b: string, r: string)
    requires forall k: nat :: k < |a| ==> !OccursAt(a + p + b, p, k)
    ensures ReplaceFirst(a + p + b, p, r) == a + Substitution(r, a, p, b) + b
    ensures '$' !in r ==> ReplaceFirst(a + p + b, p, r) == a + r + b
  {
    var s := a + p + b;
    assert s[|a|..|a| + |p|] == p;
    assert s[..|a|] == a && s[|a| + |p|..] == b;
    ReplaceFirstOccurrence(s, p, r, |a|);
  }

  /** A text that is exactly the pattern becomes the replacement, when that has no `$`. */
  lemma ReplaceWhole(p: string, r: string)
    requires '$' !in r
    ensures ReplaceFirst(p, p, r) == r
  {
    assert p == [] + p + [];
    ReplaceFirstAt([], p, [], r);
    assert [] + r + [] == r;
  }
}
