/** trim (ExpShell.cpp:114-123): strip leading and trailing white space. */
module Trimming {
  import opened Chars

  /** What trim can be applied to: the empty string, or one with a
      character that is not white space. On a non-empty all-white string
      the backward scan walks below index 0. */
  predicate Trimmable(s: string)
  {
    s == [] || SomeNotIn(s, WhiteSpace)
  }

  /** s neither starts nor ends with white space. */
  predicate IsTrimmed(s: string)
  {
    s == [] || (!IsWhiteSpace(s[0]) && !IsWhiteSpace(s[|s| - 1]))
  }

  /** The part of s between its leading and its trailing white space. */
  function Trimmed(s: string): (r: string)
    requires Trimmable(s)
    ensures IsTrimmed(r)
    ensures r == [] <==> s == []
    ensures |r| <= |s|
  {
    if s == [] then []
    else
      LeadTrailApart(s, WhiteSpace);
      s[Lead(s, WhiteSpace)..|s| - Trail(s, WhiteSpace)]
  }

  /** trim(s) is s with its leading and trailing white space cut off, and
      nothing else. */
  lemma TrimmedParts(s: string)
    requires Trimmable(s)
    ensures Lead(s, WhiteSpace) + |Trimmed(s)| <= |s|
    ensures AllIn(s[..Lead(s, WhiteSpace)], WhiteSpace)
    ensures AllIn(s[Lead(s, WhiteSpace) + |Trimmed(s)|..], WhiteSpace)
    ensures s[..Lead(s, WhiteSpace)] + Trimmed(s) + s[Lead(s, WhiteSpace) + |Trimmed(s)|..] == s
  {
    if s != [] {
      LeadTrailApart(s, WhiteSpace);
      var a, b := Lead(s, WhiteSpace), |s| - Trail(s, WhiteSpace);
      assert Trimmed(s) == s[a..b];
      SliceParts(s, a, b);
    }
  }

  /** Trimming adds no character: what s avoids, trim(s) avoids. */
  lemma TrimmedNoneIn(s: string, ds: string)
    requires Trimmable(s) && NoneIn(s, ds)
    ensures NoneIn(Trimmed(s), ds)
  {
    if s != [] {
      LeadTrailApart(s, WhiteSpace);
      var a, b := Lead(s, WhiteSpace), |s| - Trail(s, WhiteSpace);
      var r := s[a..b];
      assert Trimmed(s) == r;
      forall x | 0 <= x < |r| ensures r[x] !in ds {
        assert r[x] == s[a + x];
      }
    }
  }

  /** trim: the two scans of the source, `p` forward and `q` backward. */
  method Trim(s: string) returns (r: string)
    requires Trimmable(s)
    ensures r == Trimmed(s)
  {
    if |s| == 0 {
      return s;
    }
    ghost var w :| 0 <= w < |s| && s[w] !in WhiteSpace;
    var p := 0;
    var q := |s| - 1;
    while IsWhiteSpace(s[p])
      invariant p <= w
      invariant forall i :: 0 <= i < p ==> s[i] in WhiteSpace
      decreases |s| - p
    {
      p := p + 1;
    }
    while IsWhiteSpace(s[q])
      invariant w <= q < |s|
      invariant forall i :: q < i < |s| ==> s[i] in WhiteSpace
      decreases q
    {
      q := q - 1;
    }
    TrimmedAt(s, p, q);
    r := s[p..q + 1];
  }

  /** Where the two scans stop, p forward over white space and q backward,
      s[p..q + 1] is trim(s). */
  lemma TrimmedAt(s: string, p: nat, q: nat)
    requires p <= q < |s| && s[p] !in WhiteSpace && s[q] !in WhiteSpace
    requires forall i :: 0 <= i < p ==> s[i] in WhiteSpace
    requires forall i :: q < i < |s| ==> s[i] in WhiteSpace
    ensures Trimmable(s) && Trimmed(s) == s[p..q + 1]
  {
    LeadAtFirst(s, WhiteSpace, p);
    TrailAtLast(s, WhiteSpace, q);
  }

  /** The only way to cut s into white space, a trimmed middle and white
      space: the middle is trim(s). */
  lemma TrimmedUnique(a: string, m: string, b: string)
    requires AllIn(a, WhiteSpace) && AllIn(b, WhiteSpace) && IsTrimmed(m)
    requires m == [] ==> a + b == []
    ensures Trimmable(a + m + b) && Trimmed(a + m + b) == m
  {
    var s := a + m + b;
    if m != [] {
      assert s[|a|] == m[0];
      assert s[..|a|] == a;
      LeadIs(s, WhiteSpace, |a|);
      assert s[|s| - |b|..] == b;
      assert s[|s| - |b| - 1] == m[|m| - 1];
      TrailIs(s, WhiteSpace, |b|);
      assert s[|a|..|s| - |b|] == m;
    }
  }

  /** trim(trim(s)) == trim(s). */
  lemma TrimIdempotent(s: string)
    requires Trimmable(s)
    ensures Trimmable(Trimmed(s)) && Trimmed(Trimmed(s)) == Trimmed(s)
  {
    TrimmedUnique([], Trimmed(s), []);
    assert [] + Trimmed(s) + [] == Trimmed(s);
  }

  /** x + y is trimmed when x does not start, and y does not end, with
      white space. */
  lemma TrimmedJoin(x: string, y: string)
    requires x != [] && !IsWhiteSpace(x[0])
    requires y != [] && !IsWhiteSpace(y[|y| - 1])
    ensures IsTrimmed(x + y)
  {
    assert (x + y)[0] == x[0] && (x + y)[|x + y| - 1] == y[|y| - 1];
  }

  /** The same for text made of five parts. */
  lemma TrimmedParts5(a: string, b: string, c: string, d: string, e: string)
    requires a != [] && !IsWhiteSpace(a[0])
    requires e != [] && !IsWhiteSpace(e[|e| - 1])
    ensures IsTrimmed(a + b + c + d + e)
  {
    var s := a + b + c + d + e;
    assert s[0] == a[0] && s[|s| - 1] == e[|e| - 1];
  }

  /** A trimmed string is left as it is. */
  lemma TrimmedFixed(s: string)
    requires IsTrimmed(s)
    ensures Trimmable(s) && Trimmed(s) == s
  {
    TrimmedUnique([], s, []);
    assert [] + s + [] == s;
  }

  /** A word without white space is left as it is. */
  lemma WordTrimmed(w: string)
    requires NoneIn(w, WhiteSpace)
    ensures Trimmable(w) && Trimmed(w) == w
  {
    if w != [] {
      assert w[0] !in WhiteSpace && w[|w| - 1] !in WhiteSpace;
    }
    TrimmedFixed(w);
  }

  /** A suffix of a trimmed string can be trimmed. */
  lemma SuffixTrimmable(s: string, i: nat)
    requires IsTrimmed(s) && i <= |s|
    ensures Trimmable(s[i..])
  {
    if i < |s| {
      assert s[i..][|s| - i - 1] == s[|s| - 1];
    }
  }

  /** A prefix of a trimmed string can be trimmed. */
  lemma PrefixTrimmable(s: string, i: nat)
    requires IsTrimmed(s) && i <= |s|
    ensures Trimmable(s[..i])
  {
    if i > 0 {
      assert s[..i][0] == s[0];
    }
  }

  /** Trimming removes only white space, so it keeps every other
      character, in particular every operator. */
  lemma TrimmedCount(s: string, c: char)
    requires Trimmable(s) && !IsWhiteSpace(c)
    ensures Count(Trimmed(s), c) == Count(s, c)
  {
    TrimmedParts(s);
    var a := Lead(s, WhiteSpace);
    var r := Trimmed(s);
    var pre, post := s[..a], s[a + |r|..];
    assert pre + r + post == s;
    CountAppend(pre + r, post, c);
    CountAppend(pre, r, c);
    CountAbsent(pre, c);
    CountAbsent(post, c);
  }
}
