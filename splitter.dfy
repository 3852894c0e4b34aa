/** string_split and its two callers string_split_first and
    string_split_last (ExpShell.cpp:67-112). */
module Splitter {
  import opened Chars

  /** The maximal non-empty runs of characters outside ds, left to right. */
  function Split(s: string, ds: string): (r: seq<string>)
    ensures forall k :: 0 <= k < |r| ==> r[k] != [] && NoneIn(r[k], ds)
    decreases |s|
  {
    if s == [] then []
    else if s[0] in ds then Split(s[1..], ds)
    else
      var n := RunLength(s, ds);
      [s[..n]] + Split(s[n..], ds)
  }

  /** s with every character of ds removed. */
  function Strip(s: string, ds: string): (r: string)
    ensures NoneIn(r, ds)
  {
    if s == [] then []
    else (if s[0] in ds then [] else [s[0]]) + Strip(s[1..], ds)
  }

  function Concat(ts: seq<string>): string
  {
    if ts == [] then [] else ts[0] + Concat(ts[1..])
  }

  /** The words of ts separated by the single character d. */
  function Join(ts: seq<string>, d: char): string
  {
    if |ts| == 0 then []
    else if |ts| == 1 then ts[0]
    else ts[0] + [d] + Join(ts[1..], d)
  }

  /** string_split: the `p`/`q` loop over find_first_of. */
  method StringSplit(s: string, ds: string) returns (vec: seq<string>)
    ensures vec == Split(s, ds)
  {
    vec := [];
    var p := 0;
    var q := FindFrom(s, p, ds);
    while q < |s|
      invariant p <= q <= |s| && q == FindFrom(s, p, ds)
      invariant SplitSoFar(s, ds, p, vec)
      decreases |s| - p
    {
      SplitStep(s, ds, p, q, vec);
      if q > p {
        vec := vec + [s[p..q]];
      }
      p := q + 1;
      q := FindFrom(s, p, ds);
    }
    SplitLastRun(s, ds, p);
    if p < |s| {
      vec := vec + [s[p..]];
    } else {
      assert vec + [] == vec;
    }
  }

  /** The loop's invariant: the words pushed so far, followed by the words
      of the text from p on, are the words of s. */
  predicate SplitSoFar(s: string, ds: string, p: nat, vec: seq<string>)
    requires p <= |s|
  {
    vec + Split(s[p..], ds) == Split(s, ds)
  }

  /** One step of the loop: the text between p and the next delimiter q
      is one word, unless it is empty. */
  lemma SplitAtDelimiter(s: string, ds: string, p: nat, q: nat)
    requires p <= q < |s| && s[q] in ds
    requires forall x :: p <= x < q ==> s[x] !in ds
    ensures Split(s[p..], ds) == (if q > p then [s[p..q]] else []) + Split(s[q + 1..], ds)
  {
    var t := s[p..];
    if q == p {
      assert t[1..] == s[q + 1..];
    } else {
      assert t[..q - p] == s[p..q];
      RunLengthIs(t, ds, q - p);
      assert t[q - p..] == s[q..];
      assert s[q..][1..] == s[q + 1..];
    }
  }

  /** The loop invariant across one step. */
  lemma SplitStep(s: string, ds: string, p: nat, q: nat, vec: seq<string>)
    requires p <= q < |s| && s[q] in ds
    requires forall x :: p <= x < q ==> s[x] !in ds
    requires SplitSoFar(s, ds, p, vec)
    ensures SplitSoFar(s, ds, q + 1, if q > p then vec + [s[p..q]] else vec)
  {
    SplitAtDelimiter(s, ds, p, q);
    if q > p {
      AppendAssoc(vec, [s[p..q]], Split(s[q + 1..], ds));
    } else {
      assert [] + Split(s[q + 1..], ds) == Split(s[q + 1..], ds);
    }
  }

  /** The loop's exit: what is left after the last delimiter is one word,
      unless it is empty. */
  lemma SplitLastRun(s: string, ds: string, p: nat)
    requires p <= |s|
    requires forall x :: p <= x < |s| ==> s[x] !in ds
    ensures Split(s[p..], ds) == (if p < |s| then [s[p..]] else [])
  {
    var t := s[p..];
    if p < |s| {
      assert t[..|t|] == t;
      RunLengthIs(t, ds, |t|);
      assert t[|t|..] == [];
    }
  }

  /** Nothing but delimiters is lost: the words put together give s
      with its delimiters removed. */
  lemma {:induction false} SplitConcat(s: string, ds: string)
    ensures Concat(Split(s, ds)) == Strip(s, ds)
    decreases |s|
  {
    if s == [] {
    } else if s[0] in ds {
      SplitConcat(s[1..], ds);
    } else {
      var n := RunLength(s, ds);
      SplitConcat(s[n..], ds);
      assert s == s[..n] + s[n..];
      StripAppend(s[..n], s[n..], ds);
      StripNone(s[..n], ds);
      assert ([s[..n]] + Split(s[n..], ds))[1..] == Split(s[n..], ds);
    }
  }

  lemma {:induction false} StripAppend(a: string, b: string, ds: string)
    ensures Strip(a + b, ds) == Strip(a, ds) + Strip(b, ds)
  {
    if a == [] {
      assert a + b == b;
    } else {
      assert (a + b)[1..] == a[1..] + b;
      StripAppend(a[1..], b, ds);
    }
  }

  lemma {:induction false} StripNone(a: string, ds: string)
    requires NoneIn(a, ds)
    ensures Strip(a, ds) == a
  {
    if a != [] {
      StripNone(a[1..], ds);
    }
  }

  /** Round trip: joining words by a delimiter and splitting again gives
      the words back. */
  lemma {:induction false} SplitJoin(ts: seq<string>, d: char, ds: string)
    requires d in ds
    requires forall k :: 0 <= k < |ts| ==> ts[k] != [] && NoneIn(ts[k], ds)
    ensures Split(Join(ts, d), ds) == ts
  {
    if |ts| == 1 {
      SplitLastRun(ts[0], ds, 0);
      assert ts[0][0..] == ts[0];
    } else if |ts| > 1 {
      var s := Join(ts, d);
      var w := ts[0];
      assert s == w + ([d] + Join(ts[1..], d));
      assert s[..|w|] == w;
      RunLengthIs(s, ds, |w|);
      assert s[|w|..] == [d] + Join(ts[1..], d);
      assert s[|w|..][1..] == Join(ts[1..], d);
      SplitJoin(ts[1..], d, ds);
    }
  }

  /** The split is empty exactly when s holds nothing but delimiters. */
  lemma {:induction false} SplitEmpty(s: string, ds: string)
    ensures Split(s, ds) == [] <==> AllIn(s, ds)
    decreases |s|
  {
    if s != [] && s[0] in ds {
      SplitEmpty(s[1..], ds);
      assert forall i :: 1 <= i < |s| ==> s[i] == s[1..][i - 1];
    }
  }

  /** Leading delimiters do not change the split. */
  lemma {:induction false} SplitSkip(s: string, ds: string, k: nat)
    requires k <= |s| && AllIn(s[..k], ds)
    ensures Split(s, ds) == Split(s[k..], ds)
    decreases k
  {
    if k == 0 {
      assert s[0..] == s;
    } else {
      assert s[..k][0] == s[0];
      var u := s[1..][..k - 1];
      forall i | 0 <= i < |u|
        ensures u[i] in ds
      {
        assert u[i] == s[..k][i + 1];
      }
      SplitSkip(s[1..], ds, k - 1);
      assert s[1..][k - 1..] == s[k..];
    }
  }

  /** The first word starts after the leading delimiters and runs up to
      the next delimiter. */
  lemma SplitFirstWord(s: string, ds: string)
    requires SomeNotIn(s, ds)
    ensures Split(s, ds) != []
    ensures Split(s, ds)[0] == s[Lead(s, ds)..Lead(s, ds) + RunLength(s[Lead(s, ds)..], ds)]
  {
    LeadShort(s, ds);
    var k := Lead(s, ds);
    SplitSkip(s, ds, k);
    var t := s[k..];
    assert t[0] == s[k];
    var n := RunLength(t, ds);
    assert Split(t, ds) == [t[..n]] + Split(t[n..], ds);
    SliceOfSuffix(s, k, n);
  }

  /** w is the last word of s: it ends where the trailing delimiters
      begin and is preceded by a delimiter or by the start of s. */
  predicate EndsWith(s: string, ds: string, w: string)
  {
    var e := |s| - Trail(s, ds);
    |w| <= e && s[e - |w|..e] == w && (e == |w| || s[e - |w| - 1] in ds)
  }

  /** A suffix that still holds a word has the same trailing delimiters. */
  lemma TrailOfSuffix(s: string, n: nat, ds: string)
    requires n <= |s| && SomeNotIn(s[n..], ds)
    ensures Trail(s, ds) == Trail(s[n..], ds) < |s| - n
  {
    var t := s[n..];
    var b := Trail(t, ds);
    LeadTrailApart(t, ds);
    assert s[|s| - b..] == t[|t| - b..];
    assert s[|s| - b - 1] == t[|t| - b - 1];
    TrailIs(s, ds, b);
  }

  /** The last word of a suffix that follows a delimiter is the last word
      of the whole string. */
  lemma EndsWithShift(s: string, n: nat, ds: string, w: string)
    requires 0 < n <= |s| && s[n - 1] in ds && SomeNotIn(s[n..], ds)
    requires EndsWith(s[n..], ds, w)
    ensures EndsWith(s, ds, w)
  {
    var t := s[n..];
    TrailOfSuffix(s, n, ds);
    var e, f := |s| - Trail(s, ds), |t| - Trail(t, ds);
    assert e == n + f;
    assert |w| <= f && t[f - |w|..f] == w && (f == |w| || t[f - |w| - 1] in ds);
    SliceInSuffix(s, n, f - |w|, f);
    if f != |w| {
      assert t[f - |w| - 1] == s[e - |w| - 1];
    }
    EndsWithAt(s, ds, w, e);
  }

  /** EndsWith, with the end of the last word given. */
  lemma EndsWithAt(s: string, ds: string, w: string, e: nat)
    requires e == |s| - Trail(s, ds) && |w| <= e && s[e - |w|..e] == w
    requires e == |w| || s[e - |w| - 1] in ds
    ensures EndsWith(s, ds, w)
  {
  }

  /** The last word of the split is the last word of s. */
  lemma {:induction false} SplitLastWord(s: string, ds: string)
    requires SomeNotIn(s, ds)
    ensures Split(s, ds) != [] && EndsWith(s, ds, Last(Split(s, ds)))
    decreases |s|
  {
    if s[0] in ds {
      assert s[0..] == s;
      SomeNotInPast(s, 0, ds);
      SplitLastWord(s[1..], ds);
      assert Split(s, ds) == Split(s[1..], ds);
      EndsWithShift(s, 1, ds, Last(Split(s[1..], ds)));
    } else if SomeNotIn(s[RunLength(s, ds)..], ds) {
      var n := RunLength(s, ds);
      SomeNotInPast(s, n, ds);
      SplitLastWord(s[n + 1..], ds);
      var rest := Split(s[n + 1..], ds);
      SplitAfterWord(s, ds);
      assert Split(s, ds) == [s[..n]] + rest;
      assert Last(Split(s, ds)) == Last(rest);
      EndsWithShift(s, n + 1, ds, Last(rest));
    } else {
      SingleWord(s, ds);
    }
  }

  /** A word after position n, where a delimiter stands, is after n + 1. */
  lemma SomeNotInPast(s: string, n: nat, ds: string)
    requires n < |s| && s[n] in ds && SomeNotIn(s[n..], ds)
    ensures SomeNotIn(s[n + 1..], ds)
  {
    var j :| 0 <= j < |s[n..]| && s[n..][j] !in ds;
    assert s[n + 1..][j - 1] == s[n..][j];
  }

  function Last(ts: seq<string>): string
    requires ts != []
  {
    ts[|ts| - 1]
  }

  /** A word followed by a delimiter is the first piece, and the split
      goes on after the delimiter. */
  lemma SplitWordThen(w: string, s: string, ds: string)
    requires w != [] && NoneIn(w, ds) && s != [] && s[0] in ds
    ensures Split(w + s, ds) == [w] + Split(s[1..], ds)
  {
    var t := w + s;
    assert t[..|w|] == w && t[|w|] == s[0];
    RunLengthIs(t, ds, |w|);
    SplitAfterWord(t, ds);
    assert t[|w| + 1..] == s[1..];
  }

  /** After the first word comes a delimiter, which the split skips. */
  lemma SplitAfterWord(s: string, ds: string)
    requires s != [] && s[0] !in ds && RunLength(s, ds) < |s|
    ensures Split(s, ds) == [s[..RunLength(s, ds)]] + Split(s[RunLength(s, ds) + 1..], ds)
  {
    var n := RunLength(s, ds);
    assert s[n..][1..] == s[n + 1..];
  }

  /** A string whose only word is at its start. */
  lemma SingleWord(s: string, ds: string)
    requires s != [] && s[0] !in ds && !SomeNotIn(s[RunLength(s, ds)..], ds)
    ensures Split(s, ds) == [s[..RunLength(s, ds)]] && EndsWith(s, ds, s[..RunLength(s, ds)])
  {
    var n := RunLength(s, ds);
    var rest := s[n..];
    assert AllIn(rest, ds);
    SplitEmpty(rest, ds);
    assert s[|s| - (|s| - n)..] == rest;
    TrailIs(s, ds, |s| - n);
  }

  /** string_split_first: the first word. Out of range (`.at(0)` on an
      empty split) when s holds only delimiters. */
  function StringSplitFirst(s: string, ds: string): (r: string)
    requires SomeNotIn(s, ds)
    ensures r != [] && NoneIn(r, ds)
    ensures var k := Lead(s, ds); k + |r| <= |s| && s[k..k + |r|] == r
    ensures var k := Lead(s, ds); k + |r| == |s| || s[k + |r|] in ds
  {
    SplitFirstWord(s, ds);
    var k := Lead(s, ds);
    var w := Split(s, ds)[0];
    assert w == s[k..][..RunLength(s[k..], ds)];
    w
  }

  /** string_split_last: the last word. Out of range (`.at(size() - 1)`
      on an empty split) when s holds only delimiters. */
  function StringSplitLast(s: string, ds: string): (r: string)
    requires SomeNotIn(s, ds)
    ensures r != [] && NoneIn(r, ds)
    ensures EndsWith(s, ds, r)
  {
    SplitLastWord(s, ds);
    Last(Split(s, ds))
  }
}
