/** Sequence helpers shared by both services: the boolean-mask filter,
    the first match, and pandas `unique` (distinct values in order of
    first appearance). */
module Seqs {

  datatype Option<+T> = None | Some(value: T)

  datatype Result<+T, +E> = Ok(value: T) | Err(error: E)

  predicate NoDup<T(==)>(s: seq<T>) {
    forall i, j :: 0 <= i < j < |s| ==> s[i] != s[j]
  }

  /** The elements of `s` that satisfy `p`, in their order in `s`
      (a pandas boolean mask `df[mask]`). */
  function Filter<T>(s: seq<T>, p: T -> bool): (r: seq<T>)
    ensures |r| <= |s|
    ensures forall x :: x in r ==> x in s && p(x)
    decreases |s|
  {
    if s == [] then []
    else Filter(s[..|s| - 1], p) + (if p(s[|s| - 1]) then [s[|s| - 1]] else [])
  }

  /** The positions of `s` whose element satisfies `p`, ascending. */
  function MatchingIndices<T>(s: seq<T>, p: T -> bool): (idx: seq<nat>)
    ensures forall k :: 0 <= k < |idx| ==> idx[k] < |s| && p(s[idx[k]])
    ensures forall k, l :: 0 <= k < l < |idx| ==> idx[k] < idx[l]
    ensures forall i :: 0 <= i < |s| && p(s[i]) ==> i in idx
    decreases |s|
  {
    if s == [] then []
    else
      var prev := MatchingIndices(s[..|s| - 1], p);
      if p(s[|s| - 1]) then prev + [|s| - 1] else prev
  }

  /** The filter keeps exactly the matching positions, in ascending order:
      its k-th element is the element at the k-th matching position. */
  lemma {:induction false} FilterIsMatchingPositions<T>(s: seq<T>, p: T -> bool)
    ensures |Filter(s, p)| == |MatchingIndices(s, p)|
    ensures forall k :: 0 <= k < |Filter(s, p)| ==> Filter(s, p)[k] == s[MatchingIndices(s, p)[k]]
    decreases |s|
  {
    if s != [] {
      var init, last := s[..|s| - 1], s[|s| - 1];
      var f, idx := Filter(init, p), MatchingIndices(init, p);
      var f', idx' := Filter(s, p), MatchingIndices(s, p);
      assert f' == f + (if p(last) then [last] else []);
      assert idx' == idx + (if p(last) then [|s| - 1] else []);
      assert |f| == |idx| by {
        FilterIsMatchingPositions(init, p);
      }
      forall k | 0 <= k < |f'| ensures f'[k] == s[idx'[k]] {
        if k < |f| {
          assert f'[k] == f[k] && idx'[k] == idx[k];
          assert f[k] == init[idx[k]] by {
            FilterIsMatchingPositions(init, p);
          }
        }
      }
    }
  }

  /** Two sequences of one length that pass and fail `p` at the same
      positions have the same matching positions. */
  lemma {:induction false} SameMaskSameIndices<T>(s: seq<T>, t: seq<T>, p: T -> bool)
    requires |s| == |t| && forall i :: 0 <= i < |s| ==> p(s[i]) == p(t[i])
    ensures MatchingIndices(s, p) == MatchingIndices(t, p)
    decreases |s|
  {
    if s != [] {
      SameMaskSameIndices(s[..|s| - 1], t[..|t| - 1], p);
    }
  }

  /** An empty filter result means that no element matches. */
  lemma FilterEmptyIff<T>(s: seq<T>, p: T -> bool)
    ensures Filter(s, p) == [] <==> forall i :: 0 <= i < |s| ==> !p(s[i])
  {
    FilterIsMatchingPositions(s, p);
    var idx := MatchingIndices(s, p);
    if exists i :: 0 <= i < |s| && p(s[i]) {
      var i :| 0 <= i < |s| && p(s[i]);
      assert i in idx;
    }
  }

  /** Membership in the filter: exactly the members of `s` that satisfy `p`. */
  lemma {:induction false} FilterMembers<T>(s: seq<T>, p: T -> bool, x: T)
    ensures x in Filter(s, p) <==> x in s && p(x)
    decreases |s|
  {
    if s != [] {
      FilterMembers(s[..|s| - 1], p, x);
      assert s == s[..|s| - 1] + [s[|s| - 1]];
    }
  }

  /** A filter that every element passes keeps the whole sequence. */
  lemma {:induction false} FilterKeepsAll<T>(s: seq<T>, p: T -> bool)
    requires forall x :: x in s ==> p(x)
    ensures Filter(s, p) == s
    decreases |s|
  {
    if s != [] {
      var init, last := s[..|s| - 1], s[|s| - 1];
      assert Filter(init, p) == init by {
        assert forall x :: x in init ==> x in s;
        FilterKeepsAll(init, p);
      }
      assert p(last);
      calc {
        Filter(s, p);
        Filter(init, p) + [last];
        init + [last];
        { assert [last] == s[|s| - 1..]; }
        init + s[|s| - 1..];
        s;
      }
    }
  }

  /** Filtering a duplicate-free sequence gives a duplicate-free sequence. */
  lemma FilterNoDup<T>(s: seq<T>, p: T -> bool)
    ensures NoDup(s) ==> NoDup(Filter(s, p))
  {
    FilterIsMatchingPositions(s, p);
  }

  lemma NoDupAppend<T>(a: seq<T>, b: seq<T>)
    ensures NoDup(a) && NoDup(b) && (forall x :: x in b ==> x !in a) ==> NoDup(a + b)
  {
    if NoDup(a) && NoDup(b) && (forall x :: x in b ==> x !in a) {
      forall i, j | 0 <= i < j < |a + b| ensures (a + b)[i] != (a + b)[j] {
        if j < |a| {
          assert (a + b)[i] == a[i] && (a + b)[j] == a[j];
        } else if i < |a| {
          assert (a + b)[i] == a[i] && (a + b)[j] == b[j - |a|];
          assert b[j - |a|] in b;
        } else {
          assert (a + b)[i] == b[i - |a|] && (a + b)[j] == b[j - |a|];
        }
      }
    }
  }

  /** The index of the first element satisfying `p`, or None. */
  function FirstIndex<T>(s: seq<T>, p: T -> bool): (r: Option<nat>)
    ensures r.None? <==> forall i :: 0 <= i < |s| ==> !p(s[i])
    ensures r.Some? ==> r.value < |s| && p(s[r.value]) && forall j :: 0 <= j < r.value ==> !p(s[j])
    decreases |s|
  {
    if s == [] then None
    else if p(s[0]) then Some(0)
    else match FirstIndex(s[1..], p)
      case None => None
      case Some(i) => Some(i + 1)
  }

  /** `FirstIndex` is fixed by its contract: a matching position with no
      match before it is the first index. */
  lemma FirstIndexAt<T>(s: seq<T>, p: T -> bool, i: nat)
    requires i < |s| && p(s[i]) && forall j :: 0 <= j < i ==> !p(s[j])
    ensures FirstIndex(s, p) == Some(i)
  {
    var r := FirstIndex(s, p);
    assert r.Some?;
    assert !(r.value < i) && !(i < r.value);
  }

  /** A sequence extended by one element and matching `p` at the same
      positions as `s` keeps the first match of `s`, and otherwise has its
      first match at the new position if that element matches. */
  lemma FirstIndexExtended<T>(s: seq<T>, t: seq<T>, p: T -> bool)
    requires |t| == |s| + 1 && forall i :: 0 <= i < |s| ==> p(t[i]) == p(s[i])
    ensures FirstIndex(t, p) ==
      if FirstIndex(s, p).Some? then FirstIndex(s, p) else if p(t[|s|]) then Some(|s|) else None
  {
    match FirstIndex(s, p)
    case Some(i) =>
      FirstIndexAt(t, p, i);
    case None =>
      if p(t[|s|]) {
        FirstIndexAt(t, p, |s|);
      }
  }

  /** Replacing the first match by another match keeps the first index. */
  lemma FirstIndexReplaced<T>(s: seq<T>, i: nat, x: T, p: T -> bool)
    requires FirstIndex(s, p) == Some(i) && p(x)
    ensures FirstIndex(s[i := x], p) == Some(i)
  {
    FirstIndexAt(s[i := x], p, i);
  }

  /** Filtering by `q` keeps every element that satisfies `p`, so the first
      match of `p` survives the filter: it exists after filtering exactly when
      it existed before, and it is the same element. */
  lemma {:induction false} FirstIndexOfFilter<T>(s: seq<T>, q: T -> bool, p: T -> bool)
    requires forall x :: p(x) ==> q(x)
    ensures FirstIndex(Filter(s, q), p).None? <==> FirstIndex(s, p).None?
    ensures FirstIndex(s, p).Some? ==>
      Filter(s, q)[FirstIndex(Filter(s, q), p).value] == s[FirstIndex(s, p).value]
    decreases |s|
  {
    if s != [] {
      var init, last := s[..|s| - 1], s[|s| - 1];
      var f, f' := Filter(init, q), Filter(s, q);
      FirstIndexOfFilter(init, q, p);
      assert forall i :: 0 <= i < |init| ==> p(s[i]) == p(init[i]);
      FirstIndexExtended(init, s, p);
      if q(last) {
        assert f' == f + [last];
        assert forall i :: 0 <= i < |f| ==> p(f'[i]) == p(f[i]);
        FirstIndexExtended(f, f', p);
      } else {
        assert f' == f;
        assert !p(last);
      }
    }
  }

  /** The first element of the filter (`df[mask].iloc[0]`) is the element at
      the first matching index. */
  lemma FilterHeadIsFirstMatch<T>(s: seq<T>, p: T -> bool)
    ensures FirstIndex(s, p).None? <==> Filter(s, p) == []
    ensures FirstIndex(s, p).Some? ==> Filter(s, p)[0] == s[FirstIndex(s, p).value]
  {
    FilterEmptyIff(s, p);
    FilterIsMatchingPositions(s, p);
    var idx := MatchingIndices(s, p);
    if FirstIndex(s, p).Some? {
      var i := FirstIndex(s, p).value;
      assert i in idx;
      assert idx[0] == i;
    }
  }

  /** Position of the first occurrence of `x` in `s`. */
  function IndexOf<T(==)>(s: seq<T>, x: T): (k: nat)
    requires x in s
    ensures k < |s| && s[k] == x && x !in s[..k]
  {
    if s[0] == x then 0
    else
      var k := IndexOf(s[1..], x) + 1;
      assert s[..k] == [s[0]] + s[1..][..k - 1];
      k
  }

  /** The distinct elements of `s` in order of first appearance
      (pandas `Series.unique`). */
  function Distinct<T(==)>(s: seq<T>): (r: seq<T>)
    ensures forall x :: x in r ==> x in s
    ensures forall i :: 0 <= i < |s| ==> s[i] in r
    ensures NoDup(r)
    decreases |s|
  {
    if s == [] then []
    else
      var init := s[..|s| - 1];
      var d := Distinct(init);
      assert s == init + [s[|s| - 1]];
      if s[|s| - 1] in d then d else d + [s[|s| - 1]]
  }

  /** The distinct elements are no more than the elements. */
  lemma {:induction false} DistinctNoLonger<T>(s: seq<T>)
    ensures |Distinct(s)| <= |s|
    decreases |s|
  {
    if s != [] {
      DistinctNoLonger(s[..|s| - 1]);
    }
  }

  lemma IndexOfInPrefix<T>(s: seq<T>, y: T)
    requires s != [] && y in s[..|s| - 1]
    ensures IndexOf(s, y) == IndexOf(s[..|s| - 1], y)
  {
    var init := s[..|s| - 1];
    var k' := IndexOf(init, y);
    assert s[..k'] == init[..k'];
  }

  /** `Distinct` lists values in the order of their first appearance in `s`. */
  lemma {:induction false} DistinctFirstAppearanceOrder<T>(s: seq<T>)
    ensures forall i, j :: 0 <= i < j < |Distinct(s)| ==>
      IndexOf(s, Distinct(s)[i]) < IndexOf(s, Distinct(s)[j])
    decreases |s|
  {
    if s != [] {
      var init := s[..|s| - 1];
      var last := s[|s| - 1];
      var d := Distinct(init);
      DistinctFirstAppearanceOrder(init);
      assert s == init + [last];
      forall y | y in d
        ensures IndexOf(s, y) == IndexOf(init, y) && IndexOf(init, y) < |s| - 1
      {
        IndexOfInPrefix(s, y);
      }
      if last !in d {
        assert last !in init;
        assert IndexOf(s, last) == |s| - 1;
      }
    }
  }

  function LowerChar(c: char): char {
    if 'A' <= c <= 'Z' then (c as int - 'A' as int + 'a' as int) as char else c
  }

  /** ASCII lower-casing (Python `str.lower` restricted to ASCII letters). */
  function Lower(s: string): (r: string)
    ensures |r| == |s|
    ensures forall i :: 0 <= i < |s| ==> r[i] == LowerChar(s[i])
  {
    seq(|s|, i requires 0 <= i < |s| => LowerChar(s[i]))
  }

  /** Lower-casing is idempotent. */
  lemma LowerTwice(s: string)
    ensures Lower(Lower(s)) == Lower(s)
  {
  }

  /** Two characters that are equal or are the two cases of one ASCII
      letter. */
  predicate SameLetterIgnoringCase(c: char, d: char) {
    || c == d
    || ('A' <= c <= 'Z' && d as int == c as int + 32)
    || ('A' <= d <= 'Z' && c as int == d as int + 32)
  }

  /** Two texts that differ at most in the case of ASCII letters. */
  predicate EqualIgnoringCase(a: string, b: string) {
    |a| == |b| && forall i :: 0 <= i < |a| ==> SameLetterIgnoringCase(a[i], b[i])
  }

  lemma LowerCharIgnoresCase(c: char, d: char)
    ensures LowerChar(c) == LowerChar(d) <==> SameLetterIgnoringCase(c, d)
  {
  }

  /** Two texts lower-case to the same text exactly when they differ at
      most in the case of ASCII letters. */
  lemma LowerIgnoresCase(a: string, b: string)
    ensures Lower(a) == Lower(b) <==> EqualIgnoringCase(a, b)
  {
    if Lower(a) == Lower(b) {
      forall i | 0 <= i < |a| ensures SameLetterIgnoringCase(a[i], b[i]) {
        assert Lower(a)[i] == Lower(b)[i];
        LowerCharIgnoresCase(a[i], b[i]);
      }
    }
    if EqualIgnoringCase(a, b) {
      forall i | 0 <= i < |a| ensures Lower(a)[i] == Lower(b)[i] {
        LowerCharIgnoresCase(a[i], b[i]);
      }
    }
  }

  /** The whitespace characters the regular-expression class `\s` matches
      in ASCII: space, tab, line feed, vertical tab, form feed and carriage
      return. */
  predicate IsSpace(c: char) {
    c == ' ' || '\t' <= c <= '\r'
  }

  predicate AllSpace(s: string) {
    forall i :: 0 <= i < |s| ==> IsSpace(s[i])
  }

  /** Neither starts nor ends with whitespace. */
  predicate Trimmed(s: string) {
    s == [] || (!IsSpace(s[0]) && !IsSpace(s[|s| - 1]))
  }

  /** Number of whitespace characters at the start of `s`. */
  function LeadingSpaces(s: string): (k: nat)
    ensures k <= |s| && AllSpace(s[..k])
    ensures k < |s| ==> !IsSpace(s[k])
  {
    if s == [] || !IsSpace(s[0]) then 0
    else
      var k := 1 + LeadingSpaces(s[1..]);
      assert s[..k] == [s[0]] + s[1..][..k - 1];
      k
  }

  /** Number of whitespace characters at the end of `s`. */
  function TrailingSpaces(s: string): (k: nat)
    ensures k <= |s| && AllSpace(s[|s| - k..])
    ensures k < |s| ==> !IsSpace(s[|s| - 1 - k])
  {
    if s == [] || !IsSpace(s[|s| - 1]) then 0
    else
      var init := s[..|s| - 1];
      var k := 1 + TrailingSpaces(init);
      assert s[|s| - k..] == init[|init| - (k - 1)..] + [s[|s| - 1]];
      k
  }

  /** `s` without the whitespace around it (`str.strip`, ASCII). */
  function Trim(s: string): (r: string)
    ensures Trimmed(r)
  {
    var a := LeadingSpaces(s);
    var t := s[a..];
    var b := |t| - TrailingSpaces(t);
    if b == 0 then
      assert AllSpace(s[..a]) && s[a..][0..] == s[a..];
      assert s[a..a] == [];
      []
    else
      assert s[a..][..b] == s[a..a + b] && s[a..][b..] == s[a + b..];
      s[a..a + b]
  }

  /** The trimmed text is a slice of `s` with only whitespace cut off on
      either side. */
  lemma TrimSlice(s: string)
    ensures exists a, b :: 0 <= a <= b <= |s| && Trim(s) == s[a..b] && AllSpace(s[..a]) && AllSpace(s[b..])
  {
    var a := LeadingSpaces(s);
    var t := s[a..];
    var b := |t| - TrailingSpaces(t);
    assert t[b..] == s[a + b..];
    if b == 0 {
      assert Trim(s) == s[a..a];
    } else {
      assert Trim(s) == s[a..a + b];
    }
  }

  /** Leading whitespace followed by a non-space (or nothing) is counted
      exactly. */
  lemma {:induction false} LeadingSpacesOfPadded(p: string, rest: string)
    requires AllSpace(p) && (rest == [] || !IsSpace(rest[0]))
    ensures LeadingSpaces(p + rest) == |p|
    decreases |p|
  {
    if p == [] {
      assert p + rest == rest;
    } else {
      assert (p + rest)[1..] == p[1..] + rest;
      LeadingSpacesOfPadded(p[1..], rest);
    }
  }

  /** Trailing whitespace after a non-space (or nothing) is counted
      exactly. */
  lemma {:induction false} TrailingSpacesOfPadded(rest: string, q: string)
    requires AllSpace(q) && (rest == [] || !IsSpace(rest[|rest| - 1]))
    ensures TrailingSpaces(rest + q) == |q|
    decreases |q|
  {
    if q == [] {
      assert rest + q == rest;
    } else {
      var s := rest + q;
      assert s[..|s| - 1] == rest + q[..|q| - 1];
      TrailingSpacesOfPadded(rest, q[..|q| - 1]);
    }
  }

  /** Whitespace around a trimmed text is removed, and nothing else. */
  lemma TrimPadded(p: string, m: string, q: string)
    requires AllSpace(p) && AllSpace(q) && Trimmed(m)
    ensures Trim(p + m + q) == m
  {
    var s := p + m + q;
    if m == [] {
      assert s == (p + q) + [];
      assert AllSpace(p + q);
      LeadingSpacesOfPadded(p + q, []);
    } else {
      assert s == p + (m + q);
      LeadingSpacesOfPadded(p, m + q);
      assert s[|p|..] == m + q;
      TrailingSpacesOfPadded(m, q);
      assert s[|p|..|p| + |m|] == m;
    }
  }

  /** A text without surrounding whitespace is its own trim. */
  lemma TrimOfTrimmed(m: string)
    requires Trimmed(m)
    ensures Trim(m) == m
  {
    assert [] + m + [] == m;
    TrimPadded([], m, []);
  }
}
