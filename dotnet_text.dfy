/** The .NET string primitives the core relies on, all ordinal (culture-free):
    `string.Split(char)`, `string.CompareOrdinal`, `string.StartsWith`/`Contains`,
    `string.Replace(string, string)`, `string.IsNullOrEmpty` and
    `string.IsNullOrWhiteSpace`. A C# `string?` is an `Option<string>`. */
module DotNetText {
  import opened Wrappers

  // ---------------------------------------------------------------------------
  // Split and its inverse

  /** `s.Split(d)`: the pieces between separators, empty pieces included. */
  function Split(s: string, d: char): (pieces: seq<string>)
    ensures |pieces| >= 1
  {
    if s == [] then [[]]
    else
      var rest := Split(s[1..], d);
      if s[0] == d then [[]] + rest else [[s[0]] + rest[0]] + rest[1..]
  }

  /** `string.Join(d, pieces)`. */
  function Join(pieces: seq<string>, d: char): string
    requires |pieces| >= 1
  {
    if |pieces| == 1 then pieces[0] else pieces[0] + [d] + Join(pieces[1..], d)
  }

  /** Splitting loses nothing: joining the pieces gives the text back, and no
      piece holds the separator. */
  lemma {:induction false} JoinSplit(s: string, d: char)
    ensures Join(Split(s, d), d) == s
    ensures forall i :: 0 <= i < |Split(s, d)| ==> d !in Split(s, d)[i]
  {
    if s != [] {
      var rest := Split(s[1..], d);
      JoinSplit(s[1..], d);
      if s[0] == d {
        assert Split(s, d)[1..] == rest;
        assert s == [d] + s[1..];
      } else {
        var pieces := Split(s, d);
        assert pieces[1..] == rest[1..];
        if |rest| == 1 {
          assert s == [s[0]] + rest[0];
        } else {
          assert Join(rest, d) == rest[0] + [d] + Join(rest[1..], d);
          assert s == [s[0]] + rest[0] + [d] + Join(rest[1..], d);
        }
        forall i | 0 <= i < |pieces| ensures d !in pieces[i] {
          if i > 0 {
            assert pieces[i] == rest[i];
          }
        }
      }
    }
  }

  /** Text without the separator is a single piece. */
  lemma {:induction false} SplitWithout(s: string, d: char)
    requires d !in s
    ensures Split(s, d) == [s]
  {
    if s != [] {
      assert d !in s[1..];
      SplitWithout(s[1..], d);
      assert [s[0]] + s[1..] == s;
    }
  }

  /** Splitting at a separator splits the two sides independently. */
  lemma {:induction false} SplitConcat(u: string, v: string, d: char)
    ensures Split(u + [d] + v, d) == Split(u, d) + Split(v, d)
  {
    var s := u + [d] + v;
    if u == [] {
      assert s == [d] + v;
    } else {
      assert s[0] == u[0] && s[1..] == u[1..] + [d] + v;
      SplitConcat(u[1..], v, d);
    }
  }

  // ---------------------------------------------------------------------------
  // Ordinal comparison

  /** The sign of `string.CompareOrdinal(a, b)`: character by character, and a
      proper prefix first. */
  function CompareOrdinal(a: string, b: string): (r: int)
    ensures -1 <= r <= 1
    ensures r == 0 <==> a == b
  {
    if a == [] && b == [] then 0
    else if a == [] then -1
    else if b == [] then 1
    else if a[0] < b[0] then -1
    else if a[0] > b[0] then 1
    else
      var r := CompareOrdinal(a[1..], b[1..]);
      assert a == [a[0]] + a[1..] && b == [b[0]] + b[1..];
      r
  }

  lemma {:induction false} CompareOrdinalAntisymmetric(a: string, b: string)
    ensures CompareOrdinal(a, b) == -CompareOrdinal(b, a)
  {
    if a != [] && b != [] && a[0] == b[0] {
      CompareOrdinalAntisymmetric(a[1..], b[1..]);
    }
  }

  lemma {:induction false} CompareOrdinalTransitive(a: string, b: string, c: string)
    requires CompareOrdinal(a, b) <= 0 && CompareOrdinal(b, c) <= 0
    ensures CompareOrdinal(a, c) <= 0
  {
    if a != [] && b != [] && c != [] && a[0] == b[0] == c[0] {
      CompareOrdinalTransitive(a[1..], b[1..], c[1..]);
    }
  }

  // ---------------------------------------------------------------------------
  // Searching

  /** `s.StartsWith(p, StringComparison.Ordinal)`. */
  predicate StartsWith(s: string, p: string) {
    |p| <= |s| && s[..|p|] == p
  }

  /** `s.Contains(p)`: some position of `s` starts an occurrence of `p`. */
  predicate Contains(s: string, p: string) {
    StartsWith(s, p) || (s != [] && Contains(s[1..], p))
  }

  lemma {:induction false} ContainsFits(s: string, p: string)
    requires Contains(s, p)
    ensures |p| <= |s|
  {
    if !StartsWith(s, p) {
      ContainsFits(s[1..], p);
    }
  }

  /** An occurrence in a suffix is an occurrence in the whole. */
  lemma {:induction false} ContainsAppendLeft(u: string, v: string, p: string)
    requires Contains(v, p)
    ensures Contains(u + v, p)
  {
    if u == [] {
      assert u + v == v;
    } else {
      ContainsAppendLeft(u[1..], v, p);
      assert (u + v)[1..] == u[1..] + v;
      assert u + v != [] && Contains((u + v)[1..], p);
    }
  }

  /** An occurrence in a prefix is an occurrence in the whole. */
  lemma {:induction false} ContainsAppendRight(u: string, v: string, p: string)
    requires Contains(u, p)
    ensures Contains(u + v, p)
  {
    if StartsWith(u, p) {
      assert (u + v)[..|p|] == u[..|p|];
    } else {
      ContainsAppendRight(u[1..], v, p);
      assert (u + v)[1..] == u[1..] + v;
    }
  }

  /** Text holding an occurrence of a pattern that starts with a non-white
      character is not blank. */
  lemma {:induction false} ContainsNotBlank(s: string, p: string)
    requires p != [] && !IsWhiteSpace(p[0]) && Contains(s, p)
    ensures !IsNullOrWhiteSpace(Some(s))
  {
    if StartsWith(s, p) {
      assert s[0] == p[0];
    } else {
      ContainsNotBlank(s[1..], p);
      var i :| 0 <= i < |s[1..]| && !IsWhiteSpace(s[1..][i]);
      assert s[i + 1] == s[1..][i];
    }
  }

  /** Occurrence is transitive: what occurs in an occurrence occurs in the whole. */
  lemma {:induction false} ContainsTransitive(a: string, b: string, c: string)
    requires Contains(a, b) && Contains(b, c)
    ensures Contains(a, c)
  {
    if StartsWith(a, b) {
      assert a == b + a[|b|..];
      ContainsAppendRight(b, a[|b|..], c);
    } else {
      ContainsTransitive(a[1..], b, c);
      assert a == [a[0]] + a[1..];
      ContainsAppendLeft([a[0]], a[1..], c);
    }
  }

  /** No occurrence of `p` can start inside `u` when `u` lacks `p`'s first
      character, so an occurrence in `u + v` lies in `v`. */
  lemma {:induction false} ContainsSkip(u: string, v: string, p: string)
    requires p != [] && p[0] !in u
    requires Contains(u + v, p)
    ensures Contains(v, p)
  {
    if u == [] {
      assert u + v == v;
    } else {
      assert (u + v)[0] == u[0] != p[0];
      assert !StartsWith(u + v, p);
      assert (u + v)[1..] == u[1..] + v;
      assert Contains(u[1..] + v, p);
      ContainsSkip(u[1..], v, p);
    }
  }

  // ---------------------------------------------------------------------------
  // Replace

  /** `s.Replace(p, r)`: scanning left to right, every occurrence of `p` that does
      not overlap an earlier replaced one becomes `r`. .NET throws on an empty `p`. */
  function ReplaceAll(s: string, p: string, r: string): string
    requires p != []
  {
    if |s| < |p| then s
    else if s[..|p|] == p then r + ReplaceAll(s[|p|..], p, r)
    else [s[0]] + ReplaceAll(s[1..], p, r)
  }

  /** Text with no occurrence of the pattern comes back unchanged. */
  lemma {:induction false} ReplaceAbsent(s: string, p: string, r: string)
    requires p != [] && !Contains(s, p)
    ensures ReplaceAll(s, p, r) == s
  {
    if |s| >= |p| {
      ReplaceAbsent(s[1..], p, r);
      assert s == [s[0]] + s[1..];
    }
  }

  /** Where the text holds the pattern, the result holds the replacement. */
  lemma {:induction false} ReplaceInserts(s: string, p: string, r: string)
    requires p != [] && Contains(s, p)
    ensures Contains(ReplaceAll(s, p, r), r)
  {
    ContainsFits(s, p);
    if s[..|p|] == p {
      assert StartsWith(r + ReplaceAll(s[|p|..], p, r), r);
    } else {
      ReplaceInserts(s[1..], p, r);
      ContainsAppendLeft([s[0]], ReplaceAll(s[1..], p, r), r);
    }
  }

  /** A text `w` occurs anchored at `c` when `c` starts it and occurs nowhere else
      in it: then occurrences of two anchored texts cannot partly overlap. */
  predicate Anchored(w: string, c: char) {
    w != [] && w[0] == c && c !in w[1..]
  }

  /** The replacement copies a prefix that lacks the pattern's first character. */
  lemma {:induction false} ReplaceCopiesPrefix(t: string, p: string, r: string, w: string)
    requires p != [] && p[0] !in w && StartsWith(t, w)
    ensures StartsWith(ReplaceAll(t, p, r), w)
  {
    if w != [] && |t| >= |p| {
      assert t[0] == w[0] != p[0];
      assert StartsWith(t[1..], w[1..]);
      ReplaceCopiesPrefix(t[1..], p, r, w[1..]);
      assert w == [t[0]] + w[1..];
    }
  }

  /** Conversely, a prefix of the result that lacks the replacement's first
      character was already a prefix of the input. */
  lemma {:induction false} ReplacePrefixOrigin(t: string, p: string, r: string, w: string)
    requires p != [] && r != [] && r[0] !in w
    requires StartsWith(ReplaceAll(t, p, r), w)
    ensures StartsWith(t, w)
  {
    if w != [] && |t| >= |p| {
      assert ReplaceAll(t, p, r)[0] == w[0] && w[0] != r[0];
      assert t[..|p|] != p;
      var rest := ReplaceAll(t[1..], p, r);
      assert ReplaceAll(t, p, r) == [t[0]] + rest;
      assert StartsWith(rest, w[1..]);
      ReplacePrefixOrigin(t[1..], p, r, w[1..]);
      assert w == [t[0]] + w[1..];
    }
  }

  /** Where no occurrence starts at the first character, that character is
      copied and the scan moves on to the next one. */
  lemma ReplaceCons(a: char, v: string, p: string, r: string)
    requires p != [] && !StartsWith([a] + v, p)
    ensures ReplaceAll([a] + v, p, r) == [a] + ReplaceAll(v, p, r)
  {
    assert ([a] + v)[1..] == v;
  }

  /** An occurrence at the start is replaced, and the scan resumes after it. */
  lemma ReplaceAtStart(p: string, v: string, r: string)
    requires p != []
    ensures ReplaceAll(p + v, p, r) == r + ReplaceAll(v, p, r)
  {
    assert (p + v)[..|p|] == p && (p + v)[|p|..] == v;
  }

  /** A prefix without the pattern's first character is copied unchanged. */
  lemma {:induction false} ReplaceSkipsPrefix(u: string, v: string, p: string, r: string)
    requires p != [] && p[0] !in u
    ensures ReplaceAll(u + v, p, r) == u + ReplaceAll(v, p, r)
    decreases |u|
  {
    if u == [] {
      assert u + v == v;
    } else {
      assert u + v == [u[0]] + (u[1..] + v);
      assert ([u[0]] + (u[1..] + v))[0] != p[0];
      ReplaceCons(u[0], u[1..] + v, p, r);
      ReplaceSkipsPrefix(u[1..], v, p, r);
      assert u == [u[0]] + u[1..];
    }
  }

  /** A word anchored like the pattern, that neither starts with it nor begins
      it, is copied unchanged. */
  lemma ReplaceSkipsWord(w: string, v: string, p: string, r: string, c: char)
    requires Anchored(w, c) && Anchored(p, c)
    requires !StartsWith(w, p) && !StartsWith(p, w)
    ensures ReplaceAll(w + v, p, r) == w + ReplaceAll(v, p, r)
  {
    assert w + v == [w[0]] + (w[1..] + v);
    assert !StartsWith(w + v, p) by {
      if |w| >= |p| {
        assert (w + v)[..|p|] == w[..|p|];
      } else {
        assert (w + v)[..|w|] == w;
      }
    }
    ReplaceCons(w[0], w[1..] + v, p, r);
    ReplaceSkipsPrefix(w[1..], v, p, r);
    assert w == [w[0]] + w[1..];
  }

  /** A replacement anchored like `q`, neither starting with `q` nor shorter than
      it, followed by text without `q`, holds no `q`. */
  lemma ReplacementAddsNo(r: string, t: string, q: string, c: char)
    requires Anchored(r, c) && Anchored(q, c)
    requires |r| >= |q| && !StartsWith(r, q) && !Contains(t, q)
    ensures !Contains(r + t, q)
  {
    if Contains(r + t, q) {
      StartsWithinPrefix(r, t, q);
      ContainsUncons(r + t, q);
      TailOfAppend(r, t);
      ContainsSkip(r[1..], t, q);
    }
  }

  /** A text that does not start with `q` and is at least as long, followed by
      anything, does not start with `q`. */
  lemma StartsWithinPrefix(u: string, v: string, q: string)
    requires |u| >= |q| && !StartsWith(u, q)
    ensures !StartsWith(u + v, q)
  {
    assert (u + v)[..|q|] == u[..|q|];
  }

  /** An occurrence that is not at the start is in the rest. */
  lemma ContainsUncons(s: string, q: string)
    requires Contains(s, q) && !StartsWith(s, q)
    ensures s != [] && Contains(s[1..], q)
  {
  }

  /** Dropping the first character of an append drops it from the left part. */
  lemma TailOfAppend(u: string, v: string)
    requires u != []
    ensures (u + v)[1..] == u[1..] + v
  {
  }

  /** A text starting with `a` holds `q` only at its start or in its rest. */
  lemma ContainsCons(a: char, t: string, q: string)
    requires !Contains(t, q) && !StartsWith([a] + t, q)
    ensures !Contains([a] + t, q)
  {
    assert ([a] + t)[1..] == t;
  }

  /** A character the replacement copied, followed by the rest of the result,
      starts a `q` only if the input started with one. */
  lemma CopiedStartsNo(s: string, p: string, r: string, q: string, c: char)
    requires Anchored(r, c) && Anchored(q, c)
    requires s != [] && p != [] && !StartsWith(s, q)
    ensures !StartsWith([s[0]] + ReplaceAll(s[1..], p, r), q)
  {
    var t := ReplaceAll(s[1..], p, r);
    if StartsWith([s[0]] + t, q) {
      assert q[0] == s[0] && StartsWith(t, q[1..]) by {
        assert ([s[0]] + t)[..|q|] == [s[0]] + t[..|q| - 1];
      }
      ReplacePrefixOrigin(s[1..], p, r, q[1..]);
    }
  }

  /** Where the input does not start with the pattern, a result without `q`
      after the copied character gains none from it. */
  lemma CopiedAddsNo(s: string, p: string, r: string, q: string, c: char)
    requires Anchored(r, c) && Anchored(q, c)
    requires |s| >= |p| && p != [] && s[..|p|] != p
    requires !Contains(ReplaceAll(s[1..], p, r), q) && !StartsWith(s, q)
    ensures !Contains(ReplaceAll(s, p, r), q)
  {
    CopiedStartsNo(s, p, r, q, c);
    ContainsCons(s[0], ReplaceAll(s[1..], p, r), q);
  }

  /** With the pattern `p`, the replacement `r` and a text `q` all anchored at the
      same character, and `r` neither starting with `q` nor shorter than it: the
      result holds no `q` when `q` is `p` itself (every occurrence is replaced),
      or when the input held no `q` (replacing does not create one). */
  lemma {:induction false} ReplaceLeavesNo(s: string, p: string, r: string, q: string, c: char)
    requires Anchored(p, c) && Anchored(r, c) && Anchored(q, c)
    requires |r| >= |q| && !StartsWith(r, q)
    requires q == p || !Contains(s, q)
    ensures !Contains(ReplaceAll(s, p, r), q)
  {
    if |s| < |p| {
      if q == p && Contains(s, q) {
        ContainsFits(s, q);
      }
    } else if s[..|p|] == p {
      var s' := s[|p|..];
      if q != p && Contains(s', q) {
        assert s == s[..|p|] + s';
        ContainsAppendLeft(s[..|p|], s', q);
      }
      ReplaceLeavesNo(s', p, r, q, c);
      ReplacementAddsNo(r, ReplaceAll(s', p, r), q, c);
    } else {
      ReplaceLeavesNo(s[1..], p, r, q, c);
      CopiedAddsNo(s, p, r, q, c);
    }
  }

  /** Two texts that start at the same position: one starts with the other. */
  lemma SameStart(s: string, p: string, w: string)
    requires StartsWith(s, p)
    ensures StartsWith(s, w) ==> StartsWith(w, p) || StartsWith(p, w)
  {
    if StartsWith(s, w) {
      if |w| >= |p| {
        assert w[..|p|] == s[..|p|];
      } else {
        assert p[..|w|] == s[..|w|];
      }
    }
  }

  /** An anchored text `w` occurring in text that starts with the pattern, which
      it cannot overlap, occurs after the pattern. */
  lemma OccursAfterPattern(s: string, p: string, w: string, c: char)
    requires Anchored(p, c) && Anchored(w, c)
    requires !StartsWith(w, p) && !StartsWith(p, w)
    requires |s| >= |p| && s[..|p|] == p && Contains(s, w)
    ensures Contains(s[|p|..], w)
  {
    SameStart(s, p, w);
    assert s == [c] + (p[1..] + s[|p|..]);
    ContainsSkip(p[1..], s[|p|..], w);
  }

  /** Where the input starts with `w` but not with the pattern, the result starts
      with `w` too. */
  lemma CopiedKeepsStart(s: string, p: string, r: string, w: string, c: char)
    requires Anchored(p, c) && Anchored(w, c)
    requires |s| >= |p| && s[..|p|] != p && StartsWith(s, w)
    ensures StartsWith(ReplaceAll(s, p, r), w)
  {
    var t := ReplaceAll(s[1..], p, r);
    assert ReplaceAll(s, p, r) == [s[0]] + t;
    assert StartsWith(s[1..], w[1..]);
    ReplaceCopiesPrefix(s[1..], p, r, w[1..]);
    assert w == [s[0]] + w[1..];
  }

  /** An anchored text `w` that the pattern cannot overlap (neither starts with
      the other) survives replacement. */
  lemma {:induction false} ReplaceKeeps(s: string, p: string, r: string, w: string, c: char)
    requires Anchored(p, c) && Anchored(w, c)
    requires !StartsWith(w, p) && !StartsWith(p, w)
    requires Contains(s, w)
    ensures Contains(ReplaceAll(s, p, r), w)
  {
    if |s| >= |p| {
      if s[..|p|] == p {
        var s' := s[|p|..];
        OccursAfterPattern(s, p, w, c);
        ReplaceKeeps(s', p, r, w, c);
        ContainsAppendLeft(r, ReplaceAll(s', p, r), w);
      } else if StartsWith(s, w) {
        CopiedKeepsStart(s, p, r, w, c);
      } else {
        var t := ReplaceAll(s[1..], p, r);
        assert ReplaceAll(s, p, r) == [s[0]] + t;
        ReplaceKeeps(s[1..], p, r, w, c);
        ContainsAppendLeft([s[0]], t, w);
      }
    }
  }

  // ---------------------------------------------------------------------------
  // Null-or-empty and null-or-white-space tests

  /** `string.IsNullOrEmpty`. */
  predicate IsNullOrEmpty(s: Option<string>) {
    s.None? || s.value == []
  }

  /** `char.IsWhiteSpace`: the Unicode White_Space characters. */
  predicate IsWhiteSpace(c: char) {
    ('\U{9}' <= c <= '\U{D}') || c == ' ' || c == '\U{85}' || c == '\U{A0}'
    || c == '\U{1680}' || ('\U{2000}' <= c <= '\U{200A}') || c == '\U{2028}'
    || c == '\U{2029}' || c == '\U{202F}' || c == '\U{205F}' || c == '\U{3000}'
  }

  /** `string.IsNullOrWhiteSpace`. */
  predicate IsNullOrWhiteSpace(s: Option<string>) {
    s.None? || forall i :: 0 <= i < |s.value| ==> IsWhiteSpace(s.value[i])
  }
}
