/** parse_exec_cmd and parse (ExpShell.cpp:265-305): a left-to-right scan
    of a trimmed line that builds the command tree, recursing on the text
    after the first pipe. */
module Parser {
  import opened Chars
  import opened Trimming
  import opened Protect
  import opened Command

  /** parse_exec_cmd: the segment trimmed and split into words. */
  function ParseExecCmd(seg: string): (c: Cmd)
    requires Trimmable(seg)
    ensures c.Exec?
  {
    Exec(SplitProtect(Trimmed(seg)))
  }

  /** The text the source takes as the file name of the redirect at m when
      the next symbol is at j (or j is the end): `substr(m + 1, j - m)`,
      which runs up to and including that next symbol. */
  function TargetText(t: string, m: nat, j: nat): (r: string)
    requires m < j <= |t|
    ensures |r| == (if j < |t| then j - m else j - m - 1)
  {
    if j < |t| then t[m + 1..j + 1] else t[m + 1..]
  }

  /** The redirect target: that text, trimmed, so no blank surrounds it. */
  function RedirectTarget(t: string, m: nat, j: nat): (r: string)
    requires IsTrimmed(t) && m < j <= |t| && (j == |t| || IsSymbol(t[j]))
    ensures IsTrimmed(r) && |r| <= j - m
  {
    TargetTrimmable(t, m, j);
    Trimmed(TargetText(t, m, j))
  }

  lemma TargetTrimmable(t: string, m: nat, j: nat)
    requires IsTrimmed(t) && m < j <= |t| && (j == |t| || IsSymbol(t[j]))
    ensures Trimmable(TargetText(t, m, j))
  {
    if j < |t| {
      assert TargetText(t, m, j)[j - m - 1] == t[j];
    } else {
      SuffixTrimmable(t, m + 1);
    }
  }

  /** What the scan builds from a trimmed line up to its first pipe: the
      words before the first symbol as a plain command, wrapped in a
      redirect when the segment has one. Only the last redirect before the
      pipe survives, and it always wraps the plain command. */
  function Segment(t: string): (c: Cmd)
    requires IsTrimmed(t)
    ensures IsSegment(c)
    ensures c.Redirect? ==> IsTrimmed(c.file)
  {
    var k := FindFrom(t, 0, Symbols);
    var p := FindFrom(t, 0, PipeOp);
    PrefixTrimmable(t, k);
    match LastIn(t, p, Redirects)
    case None => ParseExecCmd(t[..k])
    case Some(m) => Redirect(DirOf(t[m]), ParseExecCmd(t[..k]), RedirectTarget(t, m, p))
  }

  /** The tree parse builds: the segment before the first pipe, piped into
      the tree of the text after it. Every such tree is a right-nested
      chain of pipes whose stages are plain commands or one redirect
      around a plain command. */
  function Parsed(line: string): (c: Cmd)
    requires Trimmable(line)
    ensures IsPipeline(c)
    decreases |line|
  {
    var t := Trimmed(line);
    var p := FindFrom(t, 0, PipeOp);
    if p < |t| then
      SuffixTrimmable(t, p + 1);
      Pipe(Segment(t), Parsed(t[p + 1..]))
    else Segment(t)
  }

  /** The last redirect symbol before e is at m. */
  lemma {:induction false} LastInIs(t: string, m: nat, e: nat, ds: string)
    requires m < e <= |t| && t[m] in ds
    requires forall x :: m < x < e ==> t[x] !in ds
    ensures LastIn(t, e, ds) == Some(m)
    decreases e
  {
    if e - 1 != m {
      LastInIs(t, m, e - 1, ds);
    }
  }

  /** What the scan of parse knows at index i of the trimmed line t:
      before any redirect, `cur_read` is the text so far and holds no
      symbol; after one, `cur_read` is the text before the first symbol,
      the scan stands on a symbol (or at the end), and `cur_cmd` is the
      redirect built for the last redirect symbol. No pipe lies behind i. */
  ghost predicate ScanState(t: string, i: nat, curRead: string, curCmd: Option<Cmd>)
    requires IsTrimmed(t)
  {
    var k := FindFrom(t, 0, Symbols);
    var p := FindFrom(t, 0, PipeOp);
    && i <= p <= |t|
    && (curCmd.None? ==> i <= k && curRead == t[..i])
    && (curCmd.Some? ==>
         && k < i && curRead == t[..k] && (i == |t| || IsSymbol(t[i]))
         && LastIn(t, i, Redirects).Some?
         && var m := LastIn(t, i, Redirects).value;
            curCmd.value == Redirect(DirOf(t[m]), ParseExecCmd(t[..k]), RedirectTarget(t, m, i)))
  }

  /** A literal character is appended to `cur_read`. */
  lemma ScanLiteral(t: string, i: nat, curRead: string, curCmd: Option<Cmd>)
    requires IsTrimmed(t) && i < |t| && !IsSymbol(t[i])
    requires ScanState(t, i, curRead, curCmd)
    ensures curCmd.None? && ScanState(t, i + 1, curRead + [t[i]], curCmd)
  {
    assert t[..i + 1] == t[..i] + [t[i]];
  }

  /** At a redirect symbol the text read so far can be trimmed. */
  lemma ScanRedirectLhs(t: string, i: nat, curRead: string, curCmd: Option<Cmd>)
    requires IsTrimmed(t) && i < |t| && ScanState(t, i, curRead, curCmd)
    ensures Trimmable(curRead)
  {
    if curCmd.None? {
      PrefixTrimmable(t, i);
    } else {
      PrefixTrimmable(t, FindFrom(t, 0, Symbols));
    }
  }

  /** A redirect at i whose target runs to the next symbol at j. */
  lemma ScanRedirect(t: string, i: nat, j: nat, curRead: string, curCmd: Option<Cmd>)
    requires IsTrimmed(t) && i < j <= |t| && (t[i] == '<' || t[i] == '>')
    requires forall x :: i < x < j ==> !IsSymbol(t[x])
    requires j == |t| || IsSymbol(t[j])
    requires ScanState(t, i, curRead, curCmd)
    ensures Trimmable(curRead) && Trimmable(TargetText(t, i, j))
    ensures ScanState(t, j, curRead,
      Some(Redirect(DirOf(t[i]), ParseExecCmd(curRead), RedirectTarget(t, i, j))))
  {
    var k := FindFrom(t, 0, Symbols);
    OperatorSets(t[i]);
    if curCmd.None? {
      assert k == i;
    }
    PrefixTrimmable(t, k);
    TargetTrimmable(t, i, j);
    RedirectRun(t, i, j);
  }

  /** The text scanned over a redirect holds neither a pipe nor another
      redirect symbol. */
  lemma RedirectRun(t: string, i: nat, j: nat)
    requires i < j <= |t| && (t[i] == '<' || t[i] == '>')
    requires forall x :: i < x < j ==> !IsSymbol(t[x])
    requires i <= FindFrom(t, 0, PipeOp)
    ensures LastIn(t, j, Redirects) == Some(i)
    ensures j <= FindFrom(t, 0, PipeOp)
  {
    OperatorSets(t[i]);
    forall x | i < x < j ensures t[x] !in Redirects {
      OperatorSets(t[x]);
    }
    LastInIs(t, i, j, Redirects);
    var p := FindFrom(t, 0, PipeOp);
    if p < j {
      OperatorSets(t[p]);
      assert false;
    }
  }

  /** At the first pipe, what has been built is the segment. */
  lemma ScanPipe(t: string, i: nat, curRead: string, curCmd: Option<Cmd>)
    requires IsTrimmed(t) && i < |t| && t[i] == '|'
    requires ScanState(t, i, curRead, curCmd)
    ensures i == FindFrom(t, 0, PipeOp) && Trimmable(curRead)
    ensures Segment(t) == if curCmd.None? then ParseExecCmd(curRead) else curCmd.value
  {
    PrefixTrimmable(t, FindFrom(t, 0, Symbols));
  }

  /** At the end of a line without pipes, what has been built is the
      segment. */
  lemma ScanEnd(t: string, curRead: string, curCmd: Option<Cmd>)
    requires IsTrimmed(t) && ScanState(t, |t|, curRead, curCmd)
    ensures FindFrom(t, 0, PipeOp) == |t| && Trimmable(curRead)
    ensures Segment(t) == if curCmd.None? then ParseExecCmd(curRead) else curCmd.value
  {
    PrefixTrimmable(t, FindFrom(t, 0, Symbols));
  }

  /** The target of a redirect that runs to the end of the line. */
  lemma TargetAtEnd(t: string, m: nat)
    requires IsTrimmed(t) && m < |t|
    ensures Trimmable(t[m + 1..]) && RedirectTarget(t, m, |t|) == Trimmed(t[m + 1..])
  {
    SuffixTrimmable(t, m + 1);
  }

  /** The target of a redirect that runs to the next symbol, at j. */
  lemma TargetAtSymbol(t: string, m: nat, j: nat)
    requires IsTrimmed(t) && m < j < |t| && IsSymbol(t[j])
    ensures Trimmable(t[m + 1..j + 1]) && RedirectTarget(t, m, j) == Trimmed(t[m + 1..j + 1])
  {
    TargetTrimmable(t, m, j);
  }

  /** The segment of t when its last redirect before the first pipe is
      at m and its first symbol at k. */
  lemma SegmentIs(t: string, k: nat, p: nat, m: nat)
    requires IsTrimmed(t) && k == FindFrom(t, 0, Symbols) && p == FindFrom(t, 0, PipeOp)
    requires LastIn(t, p, Redirects) == Some(m)
    ensures Trimmable(t[..k]) && (p == |t| || IsSymbol(t[p])) && m < p
    ensures Segment(t) == Redirect(DirOf(t[m]), ParseExecCmd(t[..k]), RedirectTarget(t, m, p))
  {
    PrefixTrimmable(t, k);
    if p < |t| {
      OperatorSets(t[p]);
    }
  }

  /** The segment of t when it has no redirect before its first pipe. */
  lemma SegmentPlainIs(t: string, k: nat, p: nat)
    requires IsTrimmed(t) && k == FindFrom(t, 0, Symbols) && p == FindFrom(t, 0, PipeOp)
    requires LastIn(t, p, Redirects) == None
    ensures Trimmable(t[..k]) && Segment(t) == ParseExecCmd(t[..k])
  {
    PrefixTrimmable(t, k);
  }

  /** One unfolding of Parsed on a line with a pipe. */
  lemma UnfoldParsedPipe(line: string, t: string, p: nat)
    requires Trimmable(line) && t == Trimmed(line) && p == FindFrom(t, 0, PipeOp) && p < |t|
    ensures Trimmable(t[p + 1..])
    ensures Parsed(line) == Pipe(Segment(t), Parsed(t[p + 1..]))
  {
    SuffixTrimmable(t, p + 1);
    var u := t[p + 1..];
    assert Parsed(line) == Pipe(Segment(t), Parsed(u));
  }

  /** One unfolding of Parsed on a line without a pipe. */
  lemma UnfoldParsedEnd(line: string, t: string)
    requires Trimmable(line) && t == Trimmed(line) && FindFrom(t, 0, PipeOp) == |t|
    ensures Parsed(line) == Segment(t)
  {
  }

  /** The inner scan of parse past a redirect symbol: the index of the
      next symbol at or after `from`, or the end of t. */
  method NextSymbol(t: string, from: nat) returns (j: nat)
    requires from <= |t|
    ensures from <= j <= |t| && (j == |t| || IsSymbol(t[j]))
    ensures forall x :: from <= x < j ==> !IsSymbol(t[x])
  {
    j := from;
    while j < |t| && !IsSymbol(t[j])
      invariant from <= j <= |t|
      invariant forall x :: from <= x < j ==> !IsSymbol(t[x])
    {
      j := j + 1;
    }
  }

  /** parse: the `while` loop over `i` with `cur_read` and `cur_cmd`
      (None standing for CMD_TYPE_NULL), and the recursive call on the
      text after a pipe. */
  method Parse(line: string) returns (c: Cmd)
    requires Trimmable(line)
    ensures c == Parsed(line)
    decreases |line|
  {
    var t := Trim(line);
    var curRead: string := [];
    var curCmd: Option<Cmd> := None;
    var i := 0;
    while i < |t|
      invariant ScanState(t, i, curRead, curCmd)
      decreases |t| - i
    {
      if t[i] == '<' || t[i] == '>' {
        ScanRedirectLhs(t, i, curRead, curCmd);
        var lhs := ParseExecCmd(curRead);
        var j := NextSymbol(t, i + 1);
        ScanRedirect(t, i, j, curRead, curCmd);
        var file := Trim(if j < |t| then t[i + 1..j + 1] else t[i + 1..]);
        curCmd := Some(Redirect(DirOf(t[i]), lhs, file));
        i := j;
      } else if t[i] == '|' {
        ScanPipe(t, i, curRead, curCmd);
        SuffixTrimmable(t, i + 1);
        var rhs := Parse(t[i + 1..]);
        if curCmd.None? {
          curCmd := Some(ParseExecCmd(curRead));
        }
        UnfoldParsedPipe(line, t, i);
        return Pipe(curCmd.value, rhs);
      } else {
        ScanLiteral(t, i, curRead, curCmd);
        curRead := curRead + [t[i]];
        i := i + 1;
      }
    }
    ScanEnd(t, curRead, curCmd);
    UnfoldParsedEnd(line, t);
    if curCmd.None? {
      c := ParseExecCmd(curRead);
    } else {
      c := curCmd.value;
    }
  }
}
