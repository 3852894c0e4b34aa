/** Character classes of the shell and the scanning primitives on strings
    that the splitters, the trimmer and the parser are built from. */
module Chars {

  /** WHITE_SPACE: the characters that separate words. */
  const WhiteSpace: string := " \t\r\n"
  /** SYMBOL: the structural operators of a command line. */
  const Symbols: string := "|<>"
  /** The redirect operators, the part of Symbols that is not a pipe. */
  const Redirects: string := "<>"
  /** The pipe operator, as a one-character delimiter set. */
  const PipeOp: string := "|"
  /** The quote mark, as a one-character delimiter set. */
  const QuoteMark: string := "\""

  /** is_white_space */
  function IsWhiteSpace(c: char): (b: bool)
    ensures b <==> c == ' ' || c == '\t' || c == '\r' || c == '\n'
  {
    c in WhiteSpace
  }

  /** is_symbol */
  function IsSymbol(c: char): (b: bool)
    ensures b <==> c == '|' || c == '<' || c == '>'
  {
    c in Symbols
  }

  /** Membership in the operator sets, character by character. */
  lemma OperatorSets(c: char)
    ensures c in Symbols <==> IsSymbol(c)
    ensures c in Redirects <==> c == '<' || c == '>'
    ensures c in PipeOp <==> c == '|'
    ensures c in QuoteMark <==> c == '"'
  {
  }

  /** The blank is white space, and neither an operator nor a quote. */
  lemma Blank()
    ensures ' ' in WhiteSpace && ' ' !in Symbols && ' ' !in QuoteMark
    ensures AllIn([' '], WhiteSpace) && NoneIn([' '], Symbols) && NoneIn([' '], QuoteMark)
  {
    OperatorSets(' ');
  }

  /** No character of s is in ds. */
  predicate NoneIn(s: string, ds: string)
  {
    forall i :: 0 <= i < |s| ==> s[i] !in ds
  }

  /** Every character of s is in ds. */
  predicate AllIn(s: string, ds: string)
  {
    forall i :: 0 <= i < |s| ==> s[i] in ds
  }

  /** Some character of s is outside ds. */
  predicate SomeNotIn(s: string, ds: string)
  {
    exists i :: 0 <= i < |s| && s[i] !in ds
  }

  /** Length of the longest prefix of s that holds no character of ds. */
  function RunLength(s: string, ds: string): (n: nat)
    ensures n <= |s| && NoneIn(s[..n], ds)
    ensures n == |s| || s[n] in ds
  {
    if s == [] || s[0] in ds then 0
    else
      var m := RunLength(s[1..], ds);
      assert s[..m + 1] == [s[0]] + s[1..][..m];
      m + 1
  }

  /** Length of the longest prefix of s made only of characters of ds. */
  function Lead(s: string, ds: string): (n: nat)
    ensures n <= |s| && AllIn(s[..n], ds)
    ensures n == |s| || s[n] !in ds
  {
    if s == [] || s[0] !in ds then 0
    else
      var m := Lead(s[1..], ds);
      assert s[..m + 1] == [s[0]] + s[1..][..m];
      m + 1
  }

  /** Length of the longest suffix of s made only of characters of ds. */
  function Trail(s: string, ds: string): (n: nat)
    ensures n <= |s| && AllIn(s[|s| - n..], ds)
    ensures n == |s| || s[|s| - n - 1] !in ds
  {
    if s == [] || s[|s| - 1] !in ds then 0
    else
      var m := Trail(s[..|s| - 1], ds);
      assert s[|s| - (m + 1)..] == s[..|s| - 1][|s| - 1 - m..] + [s[|s| - 1]];
      m + 1
  }

  /** std::string::find_first_of(ds, from): the first index at or after
      `from` whose character is in ds, with |s| standing for npos. */
  function FindFrom(s: string, from: nat, ds: string): (j: nat)
    requires from <= |s|
    ensures from <= j <= |s|
    ensures forall x :: from <= x < j ==> s[x] !in ds
    ensures j < |s| ==> s[j] in ds
  {
    var n := RunLength(s[from..], ds);
    assert forall x :: from <= x < from + n ==> s[x] == s[from..][..n][x - from];
    from + n
  }

  /** find_first_of is the first index from `from` on whose character is
      in ds. */
  lemma FindFromIs(s: string, from: nat, ds: string, j: nat)
    requires from <= j <= |s|
    requires forall x :: from <= x < j ==> s[x] !in ds
    requires j == |s| || s[j] in ds
    ensures FindFrom(s, from, ds) == j
  {
  }

  /** The last index below e whose character is in ds, if any. */
  function LastIn(s: string, e: nat, ds: string): (r: Option<nat>)
    requires e <= |s|
    ensures r.Some? ==> r.value < e && s[r.value] in ds
    ensures r.Some? ==> forall x :: r.value < x < e ==> s[x] !in ds
    ensures r.None? ==> forall x :: 0 <= x < e ==> s[x] !in ds
  {
    if e == 0 then None
    else if s[e - 1] in ds then Some(e - 1)
    else LastIn(s, e - 1, ds)
  }

  /** Two maximal delimiter-free prefixes have the same length. */
  lemma RunLengthIs(s: string, ds: string, k: nat)
    requires k <= |s| && NoneIn(s[..k], ds)
    requires k == |s| || s[k] in ds
    ensures RunLength(s, ds) == k
  {
  }

  /** Two maximal prefixes made of ds have the same length. */
  lemma LeadIs(s: string, ds: string, k: nat)
    requires k <= |s| && AllIn(s[..k], ds)
    requires k == |s| || s[k] !in ds
    ensures Lead(s, ds) == k
  {
  }

  /** Two maximal suffixes made of ds have the same length. */
  lemma TrailIs(s: string, ds: string, k: nat)
    requires k <= |s| && AllIn(s[|s| - k..], ds)
    requires k == |s| || s[|s| - k - 1] !in ds
    ensures Trail(s, ds) == k
  {
  }

  /** The leading run stops before the first character not in ds. */
  lemma LeadShort(s: string, ds: string)
    requires SomeNotIn(s, ds)
    ensures Lead(s, ds) < |s|
  {
    var i :| 0 <= i < |s| && s[i] !in ds;
    if Lead(s, ds) > i {
      assert false;
    }
  }

  /** When s has a character outside ds, the leading and trailing runs
      of ds characters do not meet. */
  lemma LeadTrailApart(s: string, ds: string)
    requires SomeNotIn(s, ds)
    ensures Lead(s, ds) + Trail(s, ds) < |s|
  {
    var i :| 0 <= i < |s| && s[i] !in ds;
    var a, b := Lead(s, ds), Trail(s, ds);
    if i < a {
      assert false;
    }
    if i >= |s| - b {
      assert false;
    }
  }

  /** s cut at a and at b and put back together is s. */
  lemma SliceParts(s: string, a: nat, b: nat)
    requires a <= b <= |s|
    ensures s[..a] + s[a..b] + s[b..] == s
  {
    assert s[..a] + s[a..b] == s[..b];
  }

  /** A prefix of a suffix is a slice. */
  lemma SliceOfSuffix(s: string, k: nat, n: nat)
    requires k + n <= |s|
    ensures s[k..][..n] == s[k..k + n]
  {
  }

  /** A slice of a suffix is a slice. */
  lemma SliceInSuffix(s: string, k: nat, a: nat, b: nat)
    requires a <= b && k + b <= |s|
    ensures s[k..][a..b] == s[k + a..k + b]
  {
  }

  lemma AppendAssoc<T>(a: seq<T>, b: seq<T>, c: seq<T>)
    ensures (a + b) + c == a + (b + c)
  {
  }

  /** Where a forward scan over ds characters stops is Lead(s, ds). */
  lemma LeadAtFirst(s: string, ds: string, p: nat)
    requires p <= |s| && (p == |s| || s[p] !in ds)
    requires forall i :: 0 <= i < p ==> s[i] in ds
    ensures Lead(s, ds) == p
  {
    assert forall i :: 0 <= i < p ==> s[..p][i] == s[i];
    LeadIs(s, ds, p);
  }

  /** Where a backward scan over ds characters stops is the last index
      before Trail(s, ds). */
  lemma TrailAtLast(s: string, ds: string, q: nat)
    requires q < |s| && s[q] !in ds
    requires forall i :: q < i < |s| ==> s[i] in ds
    ensures Trail(s, ds) == |s| - 1 - q
  {
    var t := s[q + 1..];
    forall i | 0 <= i < |t|
      ensures t[i] in ds
    {
      assert t[i] == s[q + 1 + i];
    }
    TrailIs(s, ds, |s| - 1 - q);
  }

  /** The pieces of a + [c] + b + [d] + e, by index. */
  lemma Pieces(a: string, c: char, b: string, d: char, e: string)
    ensures var t := a + [c] + b + [d] + e;
      && |t| == |a| + |b| + |e| + 2
      && t[..|a|] == a && t[|a|] == c && t[|a| + 1..] == b + [d] + e
      && t[|a| + 1..|a| + 1 + |b|] == b && t[|a| + 1..|a| + 2 + |b|] == b + [d]
      && t[|a| + 1 + |b|] == d && t[|a| + 2 + |b|..] == e
  {
    var t := a + [c] + b + [d] + e;
    assert t == a + ([c] + (b + ([d] + e)));
  }

  /** No character of a + b is in ds exactly when none of a and none of b
      is. */
  lemma NoneInAppend(a: string, b: string, ds: string)
    ensures NoneIn(a + b, ds) <==> NoneIn(a, ds) && NoneIn(b, ds)
  {
    if NoneIn(a, ds) && NoneIn(b, ds) {
      forall i | 0 <= i < |a + b| ensures (a + b)[i] !in ds {
        if i >= |a| {
          assert (a + b)[i] == b[i - |a|];
        }
      }
    }
    if NoneIn(a + b, ds) {
      forall i | 0 <= i < |a| ensures a[i] !in ds {
        assert (a + b)[i] == a[i];
      }
      forall i | 0 <= i < |b| ensures b[i] !in ds {
        assert (a + b)[|a| + i] == b[i];
      }
    }
  }

  /** Number of occurrences of c in s. */
  function Count(s: string, c: char): (n: nat)
    ensures n <= |s|
  {
    if s == [] then 0 else (if s[0] == c then 1 else 0) + Count(s[1..], c)
  }

  lemma {:induction false} CountAppend(a: string, b: string, c: char)
    ensures Count(a + b, c) == Count(a, c) + Count(b, c)
  {
    if a != [] {
      assert (a + b)[1..] == a[1..] + b;
      CountAppend(a[1..], b, c);
    } else {
      assert a + b == b;
    }
  }

  lemma CountSplit(s: string, i: nat, c: char)
    requires i < |s|
    ensures Count(s, c) == Count(s[..i], c) + (if s[i] == c then 1 else 0) + Count(s[i + 1..], c)
  {
    assert s == s[..i] + s[i..];
    CountAppend(s[..i], s[i..], c);
    assert s[i..][1..] == s[i + 1..];
  }

  lemma {:induction false} CountAbsent(s: string, c: char)
    requires forall i :: 0 <= i < |s| ==> s[i] != c
    ensures Count(s, c) == 0
  {
    if s != [] {
      CountAbsent(s[1..], c);
    }
  }

  datatype Option<T> = None | Some(value: T)
}
