/**
 The part of JavaScript's string library that the feed's label formatting
 relies on: `String.prototype.replace` called with a string (not a regular
 expression) as its pattern. Such a call searches for the first occurrence of
 the pattern, from the left, and splices the replacement text in its place;
 when the pattern does not occur, the string comes back unchanged.
 */
module JsString {

  datatype Option<T> = None | Some(value: T)

  /** `pat` occurs in `s` starting at position `i`. */
  predicate OccursAt(s: string, pat: string, i: nat)
  {
    i + |pat| <= |s| && s[i..i + |pat|] == pat
  }

  predicate Contains(s: string, pat: string)
  {
    exists i: nat | i <= |s| :: OccursAt(s, pat, i)
  }

  /** `i` is the leftmost position at which `pat` occurs in `s`. */
  predicate FirstOccurrence(s: string, pat: string, i: nat)
  {
    OccursAt(s, pat, i) && forall j: nat :: j < i ==> !OccursAt(s, pat, j)
  }

  /** The search `replace` performs: the leftmost occurrence of `pat` at or after `from`. */
  function IndexOf(s: string, pat: string, from: nat): (r: Option<nat>)
    ensures r.Some? ==> from <= r.value && OccursAt(s, pat, r.value)
    ensures r.Some? ==> forall j: nat :: from <= j < r.value ==> !OccursAt(s, pat, j)
    ensures r.None? ==> forall j: nat :: from <= j ==> !OccursAt(s, pat, j)
    decreases |s| - from
  {
    if from + |pat| > |s| then None
    else if s[from..from + |pat|] == pat then Some(from)
    else IndexOf(s, pat, from + 1)
  }

  /**
   `s.replace(pat, rep)` for a string pattern and a replacement text without
   `$` substitution patterns: the first occurrence is replaced, everything
   before and after it is kept verbatim.
   */
  function ReplaceFirst(s: string, pat: string, rep: string): (r: string)
    ensures !Contains(s, pat) ==> r == s
    ensures forall i: nat :: FirstOccurrence(s, pat, i) ==> r == s[..i] + rep + s[i + |pat|..]
  {
    match IndexOf(s, pat, 0)
    case None => s
    case Some(i) => s[..i] + rep + s[i + |pat|..]
  }

  /** A pattern holding a character that the string lacks cannot occur in it. */
  lemma MissingCharacter(s: string, pat: string, c: char)
    requires c in pat && c !in s
    ensures !Contains(s, pat)
  {
    var m :| 0 <= m < |pat| && pat[m] == c;
    forall i: nat | i + |pat| <= |s|
      ensures !OccursAt(s, pat, i)
    {
      assert s[i..i + |pat|][m] == s[i + m];
    }
  }

  /** Where occurrences of `a` at `p` and of `b` at `q` overlap, they agree character by character. */
  lemma OverlapAgrees(s: string, a: string, p: nat, b: string, q: nat, m: nat)
    requires OccursAt(s, a, p) && OccursAt(s, b, q)
    requires m < |b| && p <= q + m < p + |a|
    ensures b[m] == a[q + m - p]
  {
    assert s[q..q + |b|][m] == s[q + m];
    assert s[p..p + |a|][q + m - p] == s[q + m];
  }

  /** In no string does an occurrence of `a` overlap an occurrence of `b`. */
  ghost predicate Disjoint(a: string, b: string)
  {
    forall s: string, p: nat, q: nat :: OccursAt(s, a, p) && OccursAt(s, b, q) ==> p + |a| <= q || q + |b| <= p
  }

  /**
   No occurrence of `b` starts at an offset in [lo, hi) from an occurrence of
   `a`: there, `b[m]` would have to equal a character of `a[lo + m..hi + m]`.
   */
  lemma NoStartWithin(a: string, b: string, lo: nat, hi: nat, m: nat)
    requires m < |b| && lo <= hi && hi + m <= |a|
    requires b[m] !in a[lo + m..hi + m]
    ensures forall s: string, p: nat, q: nat :: OccursAt(s, a, p) && OccursAt(s, b, q) ==> !(p + lo <= q < p + hi)
  {
    forall s: string, p: nat, q: nat | OccursAt(s, a, p) && OccursAt(s, b, q)
      ensures !(p + lo <= q < p + hi)
    {
      if p + lo <= q < p + hi {
        OverlapAgrees(s, a, p, b, q, m);
        assert false;
      }
    }
  }

  /** `pat` occurs twice in `s` without the two copies overlapping. */
  ghost predicate TwoCopies(s: string, pat: string)
  {
    exists p: nat, q: nat :: OccursAt(s, pat, p) && OccursAt(s, pat, q) && p + |pat| <= q
  }

  /** Text that ends before the replaced occurrence stays where it was. */
  lemma OccurrenceBefore(s: string, pat: string, rep: string, f: nat, other: string, q: nat)
    requires FirstOccurrence(s, pat, f)
    requires OccursAt(s, other, q) && q + |other| <= f
    ensures OccursAt(ReplaceFirst(s, pat, rep), other, q)
  {
    var r := ReplaceFirst(s, pat, rep);
    assert r == s[..f] + rep + s[f + |pat|..];
    assert r[..f] == s[..f];
    assert r[q..q + |other|] == s[..f][q..q + |other|];
  }

  /** Text that starts after the replaced occurrence survives, shifted by the change in length. */
  lemma OccurrenceAfter(s: string, pat: string, rep: string, f: nat, other: string, q: nat)
    requires FirstOccurrence(s, pat, f)
    requires OccursAt(s, other, q) && f + |pat| <= q
    ensures OccursAt(ReplaceFirst(s, pat, rep), other, q - |pat| + |rep|)
  {
    var r := ReplaceFirst(s, pat, rep);
    var suffix := s[f + |pat|..];
    assert r == s[..f] + rep + suffix;
    assert r[f + |rep|..] == suffix;
    assert suffix[q - f - |pat|..q - f - |pat| + |other|] == s[q..q + |other|];
  }

  /**
   Only the first occurrence is replaced: when the pattern occurs twice without
   overlap, the result still contains it.
   */
  lemma TwoCopiesLeaveOne(s: string, pat: string, rep: string)
    requires TwoCopies(s, pat)
    ensures Contains(ReplaceFirst(s, pat, rep), pat)
  {
    var p: nat, q: nat :| OccursAt(s, pat, p) && OccursAt(s, pat, q) && p + |pat| <= q;
    var f := IndexOf(s, pat, 0).value;
    assert FirstOccurrence(s, pat, f);
    OccurrenceAfter(s, pat, rep, f, pat, q);
  }

  /** Replacing a pattern that never overlaps `other` keeps an occurrence of `other`. */
  lemma ReplaceKeeps(s: string, pat: string, rep: string, other: string)
    requires Disjoint(other, pat)
    requires Contains(s, other)
    ensures Contains(ReplaceFirst(s, pat, rep), other)
  {
    var q: nat :| q <= |s| && OccursAt(s, other, q);
    match IndexOf(s, pat, 0)
    case None =>
    case Some(f) =>
      assert FirstOccurrence(s, pat, f);
      if q + |other| <= f {
        OccurrenceBefore(s, pat, rep, f, other, q);
      } else {
        OccurrenceAfter(s, pat, rep, f, other, q);
      }
  }

  /** Replacing a pattern that never overlaps `other` keeps two separate copies of `other`. */
  lemma ReplaceKeepsTwo(s: string, pat: string, rep: string, other: string)
    requires Disjoint(other, pat)
    requires TwoCopies(s, other)
    ensures TwoCopies(ReplaceFirst(s, pat, rep), other)
  {
    var r := ReplaceFirst(s, pat, rep);
    var p: nat, q: nat :| OccursAt(s, other, p) && OccursAt(s, other, q) && p + |other| <= q;
    match IndexOf(s, pat, 0)
    case None =>
      assert OccursAt(r, other, p) && OccursAt(r, other, q);
    case Some(f) =>
      assert FirstOccurrence(s, pat, f);
      if q + |other| <= f {
        OccurrenceBefore(s, pat, rep, f, other, p);
        OccurrenceBefore(s, pat, rep, f, other, q);
        assert OccursAt(r, other, p) && OccursAt(r, other, q);
      } else if p + |other| <= f {
        OccurrenceBefore(s, pat, rep, f, other, p);
        OccurrenceAfter(s, pat, rep, f, other, q);
        assert OccursAt(r, other, p) && OccursAt(r, other, q - |pat| + |rep|);
      } else {
        OccurrenceAfter(s, pat, rep, f, other, p);
        OccurrenceAfter(s, pat, rep, f, other, q);
        assert OccursAt(r, other, p - |pat| + |rep|) && OccursAt(r, other, q - |pat| + |rep|);
      }
  }

  /** In the result, text that ends before the replacement was already there. */
  lemma OriginBefore(s: string, pat: string, rep: string, f: nat, other: string, q: nat)
    requires FirstOccurrence(s, pat, f)
    requires OccursAt(ReplaceFirst(s, pat, rep), other, q) && q + |other| <= f
    ensures OccursAt(s, other, q)
  {
    var r := ReplaceFirst(s, pat, rep);
    assert r == s[..f] + rep + s[f + |pat|..];
    assert r[..f] == s[..f];
    assert r[q..q + |other|] == s[..f][q..q + |other|];
  }

  /** In the result, text that starts after the replacement was already there, shifted. */
  lemma OriginAfter(s: string, pat: string, rep: string, f: nat, other: string, q: nat)
    requires FirstOccurrence(s, pat, f)
    requires OccursAt(ReplaceFirst(s, pat, rep), other, q) && f + |rep| <= q
    ensures OccursAt(s, other, q - |rep| + |pat|)
  {
    var r := ReplaceFirst(s, pat, rep);
    var suffix := s[f + |pat|..];
    assert r == s[..f] + rep + suffix;
    assert r[f + |rep|..] == suffix;
    var k := q - f - |rep|;
    assert r[q..q + |other|] == suffix[k..k + |other|];
    assert s[q - |rep| + |pat|..q - |rep| + |pat| + |other|] == suffix[k..k + |other|];
  }

  /** The replacement text sits where the replaced occurrence began. */
  lemma ReplacementAt(s: string, pat: string, rep: string, f: nat)
    requires FirstOccurrence(s, pat, f)
    ensures OccursAt(ReplaceFirst(s, pat, rep), rep, f)
  {
    var r := ReplaceFirst(s, pat, rep);
    assert r == s[..f] + rep + s[f + |pat|..];
    assert r[f..f + |rep|] == rep;
  }

  /**
   A replacement text that never overlaps `other` creates no occurrence of it:
   every occurrence in the result comes from the original string.
   */
  lemma NoNewOccurrence(s: string, pat: string, rep: string, other: string)
    requires Disjoint(rep, other)
    ensures Contains(ReplaceFirst(s, pat, rep), other) ==> Contains(s, other)
  {
    var r := ReplaceFirst(s, pat, rep);
    match IndexOf(s, pat, 0)
    case None =>
    case Some(f) =>
      if Contains(r, other) {
        var q: nat :| q <= |r| && OccursAt(r, other, q);
        assert FirstOccurrence(s, pat, f);
        ReplacementAt(s, pat, rep, f);
        if q + |other| <= f {
          OriginBefore(s, pat, rep, f, other, q);
        } else {
          OriginAfter(s, pat, rep, f, other, q);
        }
      }
  }

  /** When `t` never overlaps `c`, an occurrence of `c` in `t + rest` lies in `rest`. */
  lemma ContainsInSuffix(t: string, rest: string, c: string)
    requires Disjoint(t, c)
    requires Contains(t + rest, c)
    ensures Contains(rest, c)
  {
    var s := t + rest;
    var q: nat :| q <= |s| && OccursAt(s, c, q);
    assert s[..|t|] == t;
    assert OccursAt(s, t, 0);
    if q + |c| <= 0 {
      assert OccursAt(rest, c, 0);
    } else {
      assert s[q..q + |c|] == rest[q - |t|..q - |t| + |c|];
      assert OccursAt(rest, c, q - |t|);
    }
  }

  /** A string that starts with the pattern has that prefix replaced. */
  lemma ReplaceLeading(pat: string, rest: string, rep: string)
    ensures ReplaceFirst(pat + rest, pat, rep) == rep + rest
  {
    var s := pat + rest;
    assert s[..|pat|] == pat;
    assert FirstOccurrence(s, pat, 0);
    assert s[|pat|..] == rest;
  }

  /** A pattern holding a character the string lacks leaves the string unchanged. */
  lemma ReplaceMissing(s: string, pat: string, rep: string, c: char)
    requires c in pat && c !in s
    ensures ReplaceFirst(s, pat, rep) == s
  {
    MissingCharacter(s, pat, c);
  }
}
