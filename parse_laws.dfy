/** What the parser makes of the shapes of command line it is written for
    (the command lines listed in the comment above the C++ function
    `parse`, ExpShell.cpp:272-275), and the
    invariants of every tree it builds. */
module ParseLaws {
  import opened Chars
  import opened Trimming
  import opened Command
  import opened Parser

  /** The characters of t in [lo, hi) are no operators. */
  lemma SymbolFree(t: string, lo: nat, hi: nat)
    requires lo <= hi <= |t| && NoneIn(t[lo..hi], Symbols)
    ensures forall x :: lo <= x < hi ==> t[x] !in Symbols && t[x] !in PipeOp && t[x] !in Redirects
  {
    forall x | lo <= x < hi ensures t[x] !in Symbols && t[x] !in PipeOp && t[x] !in Redirects {
      assert t[lo..hi][x - lo] == t[x];
      OperatorSets(t[x]);
    }
  }

  /** A line with n pipe symbols parses into n + 1 stages: quotes and
      redirects do not hide a pipe from the parser. */
  lemma {:induction false} PipeCount(line: string)
    requires Trimmable(line)
    ensures Stages(Parsed(line)) == Count(line, '|') + 1
    decreases |line|
  {
    var t := Trimmed(line);
    TrimmedCount(line, '|');
    var p := FindFrom(t, 0, PipeOp);
    forall x | 0 <= x < p ensures t[..p][x] != '|' {
      OperatorSets(t[x]);
    }
    CountAbsent(t[..p], '|');
    if p < |t| {
      UnfoldParsedPipe(line, t, p);
      PipeCount(t[p + 1..]);
      OperatorSets(t[p]);
      CountSplit(t, p, '|');
    } else {
      UnfoldParsedEnd(line, t);
      assert t[..p] == t;
    }
  }

  /** parse trims the line before anything else. */
  lemma ParsedTrims(line: string)
    requires Trimmable(line)
    ensures Trimmable(Trimmed(line)) && Parsed(Trimmed(line)) == Parsed(line)
  {
    var t := Trimmed(line);
    TrimIdempotent(line);
    var p := FindFrom(t, 0, PipeOp);
    if p < |t| {
      UnfoldParsedPipe(line, t, p);
      UnfoldParsedPipe(t, t, p);
    } else {
      UnfoldParsedEnd(line, t);
      UnfoldParsedEnd(t, t);
    }
  }

  /** The segment of t when its first operator is a pipe at k, or when
      it has none (k == |t|). */
  lemma PlainSegment(t: string, k: nat)
    requires IsTrimmed(t) && k <= |t| && (k == |t| || t[k] == '|') && NoneIn(t[..k], Symbols)
    ensures FindFrom(t, 0, PipeOp) == k && Trimmable(t[..k]) && Segment(t) == ParseExecCmd(t[..k])
  {
    SymbolFree(t, 0, k);
    if k < |t| {
      OperatorSets(t[k]);
    }
    FindFromIs(t, 0, Symbols, k);
    FindFromIs(t, 0, PipeOp, k);
    SegmentPlainIs(t, k, k);
  }

  /** A line without operators is one plain command. */
  lemma ParsePlain(line: string)
    requires Trimmable(line) && NoneIn(line, Symbols)
    ensures Parsed(line) == ParseExecCmd(line)
  {
    var t := Trimmed(line);
    TrimmedNoneIn(line, Symbols);
    TrimIdempotent(line);
    assert t[..|t|] == t;
    PlainSegment(t, |t|);
    UnfoldParsedEnd(line, t);
  }

  /** An empty line is a plain command with no arguments. */
  lemma EmptyLine()
    ensures Trimmable("") && Parsed("") == Exec([])
  {
  }

  /** A pipe at k with no operator before it: the plain command before
      it is piped into the tree of the rest. */
  lemma PipeAt(t: string, k: nat)
    requires IsTrimmed(t) && k < |t| && t[k] == '|' && NoneIn(t[..k], Symbols)
    ensures Trimmable(t[..k]) && Trimmable(t[k + 1..])
    ensures Parsed(t) == Pipe(ParseExecCmd(t[..k]), Parsed(t[k + 1..]))
  {
    PlainSegment(t, k);
    TrimmedFixed(t);
    UnfoldParsedPipe(t, t, k);
  }

  /** The segment of t when its only operator is a redirect at k. */
  lemma RedirectSegment(t: string, k: nat)
    requires IsTrimmed(t) && k < |t| && (t[k] == '<' || t[k] == '>')
    requires NoneIn(t[..k], Symbols) && NoneIn(t[k + 1..], Symbols)
    ensures FindFrom(t, 0, PipeOp) == |t| && Trimmable(t[..k]) && Trimmable(t[k + 1..])
    ensures Segment(t) == Redirect(DirOf(t[k]), ParseExecCmd(t[..k]), Trimmed(t[k + 1..]))
  {
    SymbolFree(t, 0, k);
    SymbolFree(t, k + 1, |t|);
    OperatorSets(t[k]);
    FindFromIs(t, 0, Symbols, k);
    FindFromIs(t, 0, PipeOp, |t|);
    LastInIs(t, k, |t|, Redirects);
    SegmentIs(t, k, |t|, k);
    TargetAtEnd(t, k);
  }

  /** The only operator is a redirect at k: it wraps the plain command
      before it, and its target is the rest of the line, trimmed. */
  lemma RedirectAt(t: string, k: nat)
    requires IsTrimmed(t) && k < |t| && (t[k] == '<' || t[k] == '>')
    requires NoneIn(t[..k], Symbols) && NoneIn(t[k + 1..], Symbols)
    ensures Trimmable(t[..k]) && Trimmable(t[k + 1..])
    ensures Parsed(t) == Redirect(DirOf(t[k]), ParseExecCmd(t[..k]), Trimmed(t[k + 1..]))
  {
    RedirectSegment(t, k);
    TrimmedFixed(t);
    UnfoldParsedEnd(t, t);
  }

  /** The segment of t when a redirect at k is its first operator and the
      pipe at p the next one. */
  lemma RedirectPipeSegment(t: string, k: nat, p: nat)
    requires IsTrimmed(t) && k < p < |t| && (t[k] == '<' || t[k] == '>') && t[p] == '|'
    requires NoneIn(t[..k], Symbols) && NoneIn(t[k + 1..p], Symbols)
    ensures FindFrom(t, 0, PipeOp) == p && Trimmable(t[..k]) && Trimmable(t[k + 1..p + 1])
    ensures Segment(t) == Redirect(DirOf(t[k]), ParseExecCmd(t[..k]), Trimmed(t[k + 1..p + 1]))
  {
    SymbolFree(t, 0, k);
    SymbolFree(t, k + 1, p);
    OperatorSets(t[k]);
    OperatorSets(t[p]);
    FindFromIs(t, 0, Symbols, k);
    FindFromIs(t, 0, PipeOp, p);
    LastInIs(t, k, p, Redirects);
    SegmentIs(t, k, p, k);
    TargetAtSymbol(t, k, p);
  }

  /** A redirect at k whose target ends at the pipe at p: the target runs
      up to and including that pipe, so the file name ends in `|`, and the
      redirect is piped into the tree of the rest. */
  lemma RedirectIntoPipeAt(t: string, k: nat, p: nat)
    requires IsTrimmed(t) && k < p < |t| && (t[k] == '<' || t[k] == '>') && t[p] == '|'
    requires NoneIn(t[..k], Symbols) && NoneIn(t[k + 1..p], Symbols)
    ensures Trimmable(t[..k]) && Trimmable(t[k + 1..p + 1]) && Trimmable(t[p + 1..])
    ensures Parsed(t)
      == Pipe(Redirect(DirOf(t[k]), ParseExecCmd(t[..k]), Trimmed(t[k + 1..p + 1])), Parsed(t[p + 1..]))
  {
    RedirectPipeSegment(t, k, p);
    TrimmedFixed(t);
    UnfoldParsedPipe(t, t, p);
  }

  /** The segment of t when its only operators are redirects at k and m. */
  lemma SecondRedirectSegment(t: string, k: nat, m: nat)
    requires IsTrimmed(t) && k < m < |t| && (t[k] == '<' || t[k] == '>') && (t[m] == '<' || t[m] == '>')
    requires NoneIn(t[..k], Symbols) && NoneIn(t[k + 1..m], Symbols) && NoneIn(t[m + 1..], Symbols)
    ensures FindFrom(t, 0, PipeOp) == |t| && Trimmable(t[..k]) && Trimmable(t[m + 1..])
    ensures Segment(t) == Redirect(DirOf(t[m]), ParseExecCmd(t[..k]), Trimmed(t[m + 1..]))
  {
    SymbolFree(t, 0, k);
    SymbolFree(t, k + 1, m);
    SymbolFree(t, m + 1, |t|);
    OperatorSets(t[k]);
    OperatorSets(t[m]);
    FindFromIs(t, 0, Symbols, k);
    FindFromIs(t, 0, PipeOp, |t|);
    LastInIs(t, m, |t|, Redirects);
    SegmentIs(t, k, |t|, m);
    TargetAtEnd(t, m);
  }

  /** Two redirects at k and m and no pipe: the second replaces the first,
      whose target is dropped, and both wrap the same plain command. */
  lemma SecondRedirectAt(t: string, k: nat, m: nat)
    requires IsTrimmed(t) && k < m < |t| && (t[k] == '<' || t[k] == '>') && (t[m] == '<' || t[m] == '>')
    requires NoneIn(t[..k], Symbols) && NoneIn(t[k + 1..m], Symbols) && NoneIn(t[m + 1..], Symbols)
    ensures Trimmable(t[..k]) && Trimmable(t[m + 1..])
    ensures Parsed(t) == Redirect(DirOf(t[m]), ParseExecCmd(t[..k]), Trimmed(t[m + 1..]))
  {
    SecondRedirectSegment(t, k, m);
    TrimmedFixed(t);
    UnfoldParsedEnd(t, t);
  }
}
