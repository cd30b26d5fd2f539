/**
  The three Python string operations the URL rewrite is built from, on strings
  as sequences of code points: the `p in s` test, `s.replace(p, r)` and
  `s.rstrip(c)` for a single character `c`.
 */
module PyStr {

  /** `p` occurs in `s` starting at index `i`. */
  predicate OccursAt(s: string, p: string, i: int) {
    0 <= i && i + |p| <= |s| && s[i..i + |p|] == p
  }

  /** Python's `p in s`: `p` occurs somewhere in `s`. The empty string occurs in every
      string, a prefix occurs in its string, and nothing longer than `s` occurs in it. */
  function Contains(s: string, p: string): (b: bool)
    ensures p == [] ==> b
    ensures StartsWith(s, p) ==> b
    ensures b ==> |p| <= |s|
  {
    assert StartsWith(s, p) ==> OccursAt(s, p, 0);
    exists i :: 0 <= i <= |s| - |p| && OccursAt(s, p, i)
  }

  predicate StartsWith(s: string, p: string) {
    |p| <= |s| && s[..|p|] == p
  }

  /**
    Python's `s.replace(p, r)`: every occurrence of `p`, found scanning left to right
    and without overlap, is replaced by `r`. An empty `p` matches before every
    character and at the end, as in Python (`"ab".replace("", "X") == "XaXbX"`), so the
    result then has `|s| + 1` copies of `r`. A replacement as long as the pattern keeps
    the length, and a longer one never shortens the string.
   */
  function Replace(s: string, p: string, r: string): (t: string)
    ensures p == [] ==> |t| == |s| + (|s| + 1) * |r|
    ensures p != [] && |r| == |p| ==> |t| == |s|
    ensures p != [] && |r| >= |p| ==> |t| >= |s|
    decreases |s|
  {
    if p == [] then
      if s == [] then r else r + [s[0]] + Replace(s[1..], p, r)
    else if |s| < |p| then s
    else if s[..|p|] == p then r + Replace(s[|p|..], p, r)
    else [s[0]] + Replace(s[1..], p, r)
  }

  /** Python's `s.rstrip(c)`: the trailing run of `c` characters removed. */
  function RStrip(s: string, c: char): (t: string)
    ensures |t| <= |s| && t == s[..|t|]
    ensures t == [] || t[|t| - 1] != c
    ensures forall k :: |t| <= k < |s| ==> s[k] == c
  {
    if s != [] && s[|s| - 1] == c then RStrip(s[..|s| - 1], c) else s
  }

  /** The three facts RStrip ensures single out its result: no other string meets them. */
  lemma RStripUnique(s: string, c: char, t: string)
    requires |t| <= |s| && t == s[..|t|]
    requires t == [] || t[|t| - 1] != c
    requires forall k :: |t| <= k < |s| ==> s[k] == c
    ensures t == RStrip(s, c)
  {
    var u := RStrip(s, c);
  }

  /** Two adjacent occurrences make one occurrence of the concatenation. */
  lemma OccursAtConcat(s: string, a: string, b: string, i: int)
    requires OccursAt(s, a, i) && OccursAt(s, b, i + |a|)
    ensures OccursAt(s, a + b, i)
  {
    assert s[i..i + |a| + |b|] == s[i..i + |a|] + s[i + |a|..i + |a| + |b|];
  }

  /** An occurrence in a prefix is an occurrence in the whole string. */
  lemma ContainsPrefix(s: string, p: string, k: nat)
    requires k <= |s|
    ensures Contains(s[..k], p) ==> Contains(s, p)
  {
    if Contains(s[..k], p) {
      var i :| 0 <= i <= k - |p| && OccursAt(s[..k], p, i);
      assert s[i..i + |p|] == s[..k][i..i + |p|];
      assert OccursAt(s, p, i);
    }
  }

  /** An occurrence in either part is an occurrence in the concatenation. */
  lemma ContainsConcat(x: string, y: string, p: string)
    requires Contains(x, p) || Contains(y, p)
    ensures Contains(x + y, p)
  {
    if Contains(x, p) {
      var i :| 0 <= i <= |x| - |p| && OccursAt(x, p, i);
      assert (x + y)[i..i + |p|] == x[i..i + |p|];
      assert OccursAt(x + y, p, i);
    } else {
      var i :| 0 <= i <= |y| - |p| && OccursAt(y, p, i);
      assert (x + y)[|x| + i..|x| + i + |p|] == y[i..i + |p|];
      assert OccursAt(x + y, p, |x| + i);
    }
  }

  /** `p` cannot occur in `s` when the first character of `p` only appears at the start of `s`
      and `s` does not start with `p`. */
  lemma AbsentByFirstChar(s: string, p: string)
    requires p != []
    requires forall i :: 1 <= i < |s| ==> s[i] != p[0]
    requires !StartsWith(s, p)
    ensures !Contains(s, p)
  {
    forall i | 0 <= i <= |s| - |p|
      ensures !OccursAt(s, p, i)
    {
      if i > 0 {
        assert s[i..i + |p|][0] != p[0];
      }
    }
  }

  /** Concatenation creates no occurrence of `p` across the seam when `y` starts with a
      character that `p` only has at its start. */
  lemma AbsentConcatRight(x: string, y: string, p: string)
    requires !Contains(x, p) && !Contains(y, p)
    requires y != []
    requires forall k :: 1 <= k < |p| ==> p[k] != y[0]
    ensures !Contains(x + y, p)
  {
    forall i | 0 <= i <= |x + y| - |p|
      ensures !OccursAt(x + y, p, i)
    {
      if i + |p| <= |x| {
        assert !OccursAt(x, p, i);
        assert x[i..i + |p|] == (x + y)[i..i + |p|];
      } else if |x| <= i {
        assert !OccursAt(y, p, i - |x|);
        assert y[i - |x|..i - |x| + |p|] == (x + y)[i..i + |p|];
      } else {
        assert (x + y)[i..i + |p|][|x| - i] == y[0];
      }
    }
  }

  /** Concatenation creates no occurrence of `p` across the seam when the first character
      of `p` is absent from the last `|p| - 1` positions of `x`. */
  lemma AbsentConcatLeft(x: string, y: string, p: string)
    requires !Contains(x, p) && !Contains(y, p)
    requires forall i :: 0 <= i < |x| < i + |p| ==> x[i] != p[0]
    ensures !Contains(x + y, p)
  {
    forall i | 0 <= i <= |x + y| - |p|
      ensures !OccursAt(x + y, p, i)
    {
      if i + |p| <= |x| {
        assert !OccursAt(x, p, i);
        assert x[i..i + |p|] == (x + y)[i..i + |p|];
      } else if |x| <= i {
        assert !OccursAt(y, p, i - |x|);
        assert y[i - |x|..i - |x| + |p|] == (x + y)[i..i + |p|];
      } else {
        assert (x + y)[i..i + |p|][0] == x[i];
      }
    }
  }

  /** Putting one character in front creates an occurrence only at the start. */
  lemma AbsentCons(c: char, rest: string, p: string)
    requires !Contains(rest, p) && !StartsWith([c] + rest, p)
    ensures !Contains([c] + rest, p)
  {
    forall i | 0 <= i <= |[c] + rest| - |p|
      ensures !OccursAt([c] + rest, p, i)
    {
      if i > 0 {
        assert !OccursAt(rest, p, i - 1);
        assert rest[i - 1..i - 1 + |p|] == ([c] + rest)[i..i + |p|];
      }
    }
  }

  /** Replacing a pattern that does not occur changes nothing. */
  lemma {:induction false} ReplaceAbsent(s: string, p: string, r: string)
    requires p != [] && !Contains(s, p)
    ensures Replace(s, p, r) == s
    decreases |s|
  {
    if |s| >= |p| {
      assert !OccursAt(s, p, 0);
      forall i | 0 <= i <= |s[1..]| - |p|
        ensures !OccursAt(s[1..], p, i)
      {
        assert !OccursAt(s, p, i + 1);
        SliceOfSlice(s, 1, |s|, i, i + |p|);
      }
      ReplaceAbsent(s[1..], p, r);
      assert [s[0]] + s[1..] == s;
    }
  }

  /** A prefix of the replaced string made of characters other than the first of `r` was
      already a prefix of the original. */
  lemma {:induction false} ReplaceKeepsPrefix(t: string, p: string, r: string, q: string)
    requires p != [] && r != []
    requires forall j :: 0 <= j < |q| ==> q[j] != r[0]
    ensures StartsWith(Replace(t, p, r), q) ==> StartsWith(t, q)
    decreases |t|
  {
    if q != [] && |t| >= |p| {
      if t[..|p|] == p {
        ReplaceMatch(t, p, r);
        assert Replace(t, p, r)[0] == r[0] != q[0];
      } else {
        ReplaceStep(t, p, r);
        ReplaceKeepsPrefix(t[1..], p, r, q[1..]);
        PrefixCons(t[0], Replace(t[1..], p, r), t[1..], q);
        assert [t[0]] + t[1..] == t;
      }
    }
  }

  /** Where an occurrence starts at the front, the replacement text comes first. */
  lemma ReplaceMatch(s: string, p: string, r: string)
    requires p != [] && |s| >= |p| && s[..|p|] == p
    ensures Replace(s, p, r) == r + Replace(s[|p|..], p, r)
  {
  }

  /** How a prefix relates to a string with one character in front. */
  lemma PrefixCons(c: char, x: string, y: string, q: string)
    requires q != []
    ensures StartsWith([c] + x, q) ==> q[0] == c && StartsWith(x, q[1..])
    ensures q[0] == c && StartsWith(y, q[1..]) ==> StartsWith([c] + y, q)
  {
    if StartsWith([c] + x, q) {
      assert x[..|q| - 1] == ([c] + x)[1..|q|];
    }
    if q[0] == c && StartsWith(y, q[1..]) {
      assert ([c] + y)[..|q|] == [c] + y[..|q| - 1];
    }
  }

  /**
    After a replacement, no occurrence of the pattern survives and none is created, provided
    the replacement cannot combine with its neighbours into one: the first character of `r`
    is absent from the rest of `p`, the first character of `p` is absent from the rest of `r`,
    `r` is at least as long as `p` and does not start with it.
   */
  lemma {:induction false} ReplaceRemoves(s: string, p: string, r: string)
    requires p != [] && |r| >= |p|
    requires forall j :: 1 <= j < |p| ==> p[j] != r[0]
    requires forall i :: 1 <= i < |r| ==> r[i] != p[0]
    requires !StartsWith(r, p)
    ensures !Contains(Replace(s, p, r), p)
    decreases |s|
  {
    if |s| >= |p| {
      if s[..|p|] == p {
        ReplaceRemoves(s[|p|..], p, r);
        AbsentByFirstChar(r, p);
        AbsentConcatLeft(r, Replace(s[|p|..], p, r), p);
      } else {
        var rest := Replace(s[1..], p, r);
        ReplaceRemoves(s[1..], p, r);
        assert Replace(s, p, r) == [s[0]] + rest;
        NoMatchAfterCons(s, p, r);
        AbsentCons(s[0], rest, p);
      }
    }
  }

  /** When `s` does not start with `p`, neither does its replacement `[s[0]] + Replace(s[1..], p, r)`. */
  lemma NoMatchAfterCons(s: string, p: string, r: string)
    requires p != [] && r != [] && |s| >= |p| && s[..|p|] != p
    requires forall j :: 1 <= j < |p| ==> p[j] != r[0]
    ensures !StartsWith([s[0]] + Replace(s[1..], p, r), p)
  {
    var tail := p[1..];
    forall j | 0 <= j < |tail|
      ensures tail[j] != r[0]
    {
      assert tail[j] == p[j + 1];
    }
    ReplaceKeepsPrefix(s[1..], p, r, tail);
    PrefixCons(s[0], Replace(s[1..], p, r), s[1..], p);
    assert [s[0]] + s[1..] == s;
  }

  /** Where no occurrence starts at the front, the first character is copied through. */
  lemma ReplaceStep(s: string, p: string, r: string)
    requires p != [] && s != [] && !OccursAt(s, p, 0)
    ensures Replace(s, p, r) == [s[0]] + Replace(s[1..], p, r)
  {
    if |s| >= |p| {
      assert s[..|p|] == s[0..|p|];
    } else {
      assert [s[0]] + s[1..] == s;
    }
  }

  /** A prefix `s[..k]` in which no occurrence of `p` starts is copied through unchanged. */
  lemma {:induction false} ReplaceSkips(s: string, k: nat, p: string, r: string)
    requires p != [] && k <= |s|
    requires forall j :: 0 <= j < k ==> !OccursAt(s, p, j)
    ensures Replace(s, p, r) == s[..k] + Replace(s[k..], p, r)
    decreases k
  {
    if k > 0 {
      ReplaceSkips(s, k - 1, p, r);
      ReplaceSkipsOne(s, k, p, r);
    } else {
      assert s[k..] == s;
    }
  }

  /** One more character copied through: the step of ReplaceSkips. */
  lemma ReplaceSkipsOne(s: string, k: nat, p: string, r: string)
    requires p != [] && 0 < k <= |s| && !OccursAt(s, p, k - 1)
    requires Replace(s, p, r) == s[..k - 1] + Replace(s[k - 1..], p, r)
    ensures Replace(s, p, r) == s[..k] + Replace(s[k..], p, r)
  {
    var t := s[k - 1..];
    var rest := Replace(s[k..], p, r);
    NotOccursAtSuffix(s, p, k - 1);
    ReplaceStep(t, p, r);
    assert t[1..] == s[k..];
    assert Replace(t, p, r) == [t[0]] + rest;
    assert s[..k] == s[..k - 1] + [t[0]];
    SnocConcat(s[..k - 1], t[0], rest);
  }

  lemma NotOccursAtSuffix(s: string, p: string, i: nat)
    requires i <= |s| && !OccursAt(s, p, i)
    ensures !OccursAt(s[i..], p, 0)
  {
    if i + |p| <= |s| {
      assert s[i..][0..|p|] == s[i..i + |p|];
    }
  }

  lemma SnocConcat(a: string, c: char, y: string)
    ensures a + ([c] + y) == (a + [c]) + y
  {
  }

  /** A pattern with a character that `s` lacks does not occur in `s`. */
  lemma AbsentByMissingChar(s: string, p: string, k: nat)
    requires k < |p| && p[k] !in s
    ensures !Contains(s, p)
  {
    forall i | 0 <= i <= |s| - |p|
      ensures !OccursAt(s, p, i)
    {
      assert s[i..i + |p|][k] == s[i + k];
    }
  }

  /** An occurrence stays an occurrence when text is added after it or before it. */
  lemma OccursExtend(x: string, y: string, q: string, k: int)
    requires OccursAt(x, q, k)
    ensures OccursAt(x + y, q, k) && OccursAt(y + x, q, |y| + k)
  {
    assert (x + y)[k..k + |q|] == x[k..k + |q|];
    assert (y + x)[|y| + k..|y| + k + |q|] == x[k..k + |q|];
  }

  /** A string lacking a part of `p` lacks `p`. */
  lemma AbsentWithoutPart(s: string, p: string, q: string, k: int)
    requires OccursAt(p, q, k) && !Contains(s, q)
    ensures !Contains(s, p)
  {
    forall i | 0 <= i <= |s| - |p|
      ensures !OccursAt(s, p, i)
    {
      assert !OccursAt(s, q, i + k);
      SliceOfSlice(s, i, i + |p|, k, k + |q|);
    }
  }

  lemma SliceOfSlice(s: string, i: nat, j: nat, a: nat, b: nat)
    requires i <= j <= |s| && a <= b <= j - i
    ensures s[i..j][a..b] == s[i + a..i + b]
  {
    forall m | 0 <= m < b - a
      ensures s[i..j][a..b][m] == s[i + a..i + b][m]
    {
    }
  }

  /** In `base + p + id`, no occurrence of `p` starts inside `base` when `p`'s first
      character appears nowhere else in `p`. */
  lemma NoOccurrenceInBase(base: string, p: string, id: string)
    requires p != [] && !Contains(base, p)
    requires forall k :: 1 <= k < |p| ==> p[k] != p[0]
    ensures forall j :: 0 <= j < |base| ==> !OccursAt(base + p + id, p, j)
  {
    var s := base + p + id;
    forall j | 0 <= j < |base|
      ensures !OccursAt(s, p, j)
    {
      if j + |p| <= |base| {
        assert !OccursAt(base, p, j);
        assert s[j..j + |p|] == base[j..j + |p|];
      } else if j + |p| <= |s| {
        assert s[j..j + |p|][|base| - j] == p[0];
      }
    }
  }

  /** The only occurrence of `p` in `base + p + id` is rewritten, and nothing else changes,
      when `p`'s first character does not recur in it (so no occurrence straddles `base`). */
  lemma ReplaceOnlyOccurrence(base: string, p: string, r: string, id: string)
    requires p != [] && !Contains(base, p) && !Contains(id, p)
    requires forall k :: 1 <= k < |p| ==> p[k] != p[0]
    ensures Replace(base + p + id, p, r) == base + r + id
  {
    var s := base + p + id;
    NoOccurrenceInBase(base, p, id);
    ReplaceSkips(s, |base|, p, r);
    assert s[..|base|] == base;
    var tail := s[|base|..];
    assert tail == p + id;
    assert tail[..|p|] == p && tail[|p|..] == id;
    ReplaceAbsent(id, p, r);
  }
}
