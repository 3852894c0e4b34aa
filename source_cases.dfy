/** The command lines listed in the comment above the C++ function
    `parse` (ExpShell.cpp:272-275), and the three-stage pipeline `a | b | c`, with
    their words as parameters. */
module SourceCases {
  import opened Chars
  import opened Splitter
  import opened Trimming
  import opened Protect
  import opened Command
  import opened Parser
  import opened ParseLaws

  /** A plain word: no white space, no quote, no operator. */
  predicate Word(w: string)
  {
    w != [] && NoneIn(w, WhiteSpace) && NoneIn(w, QuoteMark) && NoneIn(w, Symbols)
  }

  /** A word followed by a blank is parsed into that word alone. */
  lemma WordCmd(w: string)
    requires Word(w)
    ensures NoneIn(w + " ", Symbols) && Trimmable(w + " ") && ParseExecCmd(w + " ") == Exec([w])
  {
    NoneInAppend(w, " ", Symbols);
    assert w + " " == w + [' '] + [];
    TrimmedUnique([], w, " ");
    assert [] + w + " " == w + " ";
    PrefixWord(w, [], []);
    assert w + [] == w && [] + w == w;
  }

  /** `bin "quoted" `: the quoted text, blank and all, is one argument. */
  lemma QuotedFree(bin: string, quoted: string, cmd: string)
    requires NoneIn(bin, Symbols) && NoneIn(quoted, Symbols)
    requires cmd == bin + [' ', '"'] + quoted + ['"', ' ']
    ensures NoneIn(cmd, Symbols)
  {
    assert NoneIn([' ', '"'], Symbols) && NoneIn(['"', ' '], Symbols);
    NoneInAppend(bin, [' ', '"'], Symbols);
    NoneInAppend(bin + [' ', '"'], quoted, Symbols);
    NoneInAppend(bin + [' ', '"'] + quoted, ['"', ' '], Symbols);
  }

  lemma QuotedCmd(bin: string, quoted: string, cmd: string)
    requires Word(bin) && quoted != [] && NoneIn(quoted, QuoteMark) && NoneIn(quoted, Symbols)
    requires cmd == bin + [' ', '"'] + quoted + ['"', ' ']
    ensures NoneIn(cmd, Symbols)
    ensures Trimmable(cmd) && ParseExecCmd(cmd) == Exec([bin, quoted])
  {
    var m := bin + [' ', '"'] + quoted + ['"'];
    QuotedFree(bin, quoted, cmd);
    assert cmd == m + [' '];
    assert m[0] == bin[0];
    TrimmedUnique([], m, [' ']);
    assert [] + m + [' '] == cmd;
    QuotedArgument(bin, quoted);
    assert Trimmed(cmd) == m;
  }

  /** `cmd > mid > tail` with no other operator: the second redirect wins. */
  lemma TwoOutRedirects(cmd: string, mid: string, tail: string, line: string)
    requires line == cmd + ['>'] + mid + ['>'] + tail && IsTrimmed(line)
    requires NoneIn(cmd, Symbols) && NoneIn(mid, Symbols) && NoneIn(tail, Symbols)
    ensures Trimmable(cmd) && Trimmable(tail)
    ensures Parsed(line) == Redirect(Out, ParseExecCmd(cmd), Trimmed(tail))
  {
    Pieces(cmd, '>', mid, '>', tail);
    SecondRedirectAt(line, |cmd|, |cmd| + 1 + |mid|);
  }

  /** A blank and a word trim to the word. */
  lemma BlankWord(w: string, tail: string)
    requires Word(w) && tail == [' '] + w
    ensures NoneIn(tail, Symbols)
    ensures Trimmable(tail) && Trimmed(tail) == w
  {
    Blank();
    NoneInAppend([' '], w, Symbols);
    WordTrimmed(w);
    TrimmedUnique([' '], w, []);
    assert [' '] + w + [] == tail;
  }

  /** `some_bin "hello world" > b.txt > c.txt` gives
      Redirect(Out, Exec([some_bin, hello world]), c.txt). */
  lemma QuotedThenTwoRedirects(bin: string, quoted: string, f1: string, f2: string)
    requires Word(bin) && quoted != [] && NoneIn(quoted, QuoteMark) && NoneIn(quoted, Symbols)
    requires Word(f1) && Word(f2)
    ensures var line := bin + [' ', '"'] + quoted + ['"', ' '] + ['>'] + ([' '] + f1 + [' ']) + ['>'] + ([' '] + f2);
      Trimmable(line) && Parsed(line) == Redirect(Out, Exec([bin, quoted]), f2)
  {
    var cmd := bin + [' ', '"'] + quoted + ['"', ' '];
    var mid := [' '] + f1 + [' '];
    var tail := [' '] + f2;
    var line := cmd + ['>'] + mid + ['>'] + tail;
    QuotedCmd(bin, quoted, cmd);
    Blank();
    NoneInAppend([' '], f1, Symbols);
    NoneInAppend([' '] + f1, [' '], Symbols);
    BlankWord(f2, tail);
    assert IsTrimmed(line) by {
      assert cmd[0] == bin[0] && tail[|tail| - 1] == f2[|f2| - 1];
      TrimmedParts5(cmd, ['>'], mid, ['>'], tail);
    }
    TrimmedFixed(line);
    TwoOutRedirects(cmd, mid, tail, line);
  }

  /** The words of a list are all plain. */
  predicate Words(ws: seq<string>)
  {
    forall k :: 0 <= k < |ws| ==> Word(ws[k])
  }

  /** Plain words joined by single blanks: no operator, no quote, and
      no white space at either end. */
  lemma {:induction false} JoinedWords(ws: seq<string>)
    requires |ws| > 0 && Words(ws)
    ensures var j := Join(ws, ' ');
      j != [] && NoneIn(j, Symbols) && NoneIn(j, QuoteMark) && IsTrimmed(j)
  {
    if |ws| > 1 {
      var rest := Join(ws[1..], ' ');
      JoinedWords(ws[1..]);
      var j := ws[0] + [' '] + rest;
      assert Join(ws, ' ') == j;
      Blank();
      NoneInAppend(ws[0], [' '], Symbols);
      NoneInAppend(ws[0] + [' '], rest, Symbols);
      NoneInAppend(ws[0], [' '], QuoteMark);
      NoneInAppend(ws[0] + [' '], rest, QuoteMark);
      assert j[0] == ws[0][0] && j[|j| - 1] == rest[|rest| - 1];
    }
  }

  /** The words of a command followed by a blank, as before an operator. */
  lemma WordsCmd(ws: seq<string>, cmd: string)
    requires |ws| > 0 && Words(ws) && cmd == Join(ws, ' ') + [' ']
    ensures NoneIn(cmd, Symbols) && Trimmable(cmd) && ParseExecCmd(cmd) == Exec(ws)
  {
    var j := Join(ws, ' ');
    JoinedWords(ws);
    Blank();
    NoneInAppend(j, [' '], Symbols);
    TrimmedUnique([], j, [' ']);
    assert [] + j + [' '] == cmd;
    ProtectJoin(ws);
  }

  /** A blank followed by text that starts and ends with no white space
      trims to that text. */
  lemma BlankThen(m: string, s: string)
    requires m != [] && IsTrimmed(m) && s == [' '] + m
    ensures Trimmable(s) && Trimmed(s) == m
  {
    Blank();
    TrimmedUnique([' '], m, []);
    assert [' '] + m + [] == s;
  }

  /** `cmd < mid | rest`: the redirect's target runs up to and including
      the pipe. */
  lemma RedirectThenPipe(cmd: string, op: char, mid: string, rest: string, line: string)
    requires op == '<' || op == '>'
    requires line == cmd + [op] + mid + ['|'] + rest && IsTrimmed(line)
    requires NoneIn(cmd, Symbols) && NoneIn(mid, Symbols)
    ensures Trimmable(cmd) && Trimmable(mid + ['|']) && Trimmable(rest)
    ensures Parsed(line) == Pipe(Redirect(DirOf(op), ParseExecCmd(cmd), Trimmed(mid + ['|'])), Parsed(rest))
  {
    Pieces(cmd, op, mid, '|', rest);
    RedirectIntoPipeAt(line, |cmd|, |cmd| + 1 + |mid|);
  }

  /** `cmd > tail` with no other operator. */
  lemma OneRedirect(cmd: string, op: char, tail: string, line: string)
    requires op == '<' || op == '>'
    requires line == cmd + [op] + tail && IsTrimmed(line)
    requires NoneIn(cmd, Symbols) && NoneIn(tail, Symbols)
    ensures Trimmable(cmd) && Trimmable(tail)
    ensures Parsed(line) == Redirect(DirOf(op), ParseExecCmd(cmd), Trimmed(tail))
  {
    assert line[..|cmd|] == cmd && line[|cmd|] == op && line[|cmd| + 1..] == tail;
    RedirectAt(line, |cmd|);
  }

  /** `cmd | rest` with no operator in cmd. */
  lemma OnePipe(cmd: string, rest: string, line: string)
    requires line == cmd + ['|'] + rest && IsTrimmed(line) && NoneIn(cmd, Symbols)
    ensures Trimmable(cmd) && Trimmable(rest)
    ensures Parsed(line) == Pipe(ParseExecCmd(cmd), Parsed(rest))
  {
    assert line[..|cmd|] == cmd && line[|cmd|] == '|' && line[|cmd| + 1..] == rest;
    PipeAt(line, |cmd|);
  }

  /** The second stage of the next example: ` grep linux > b.txt`. */
  lemma OutStage(ws: seq<string>, f: string, rest: string)
    requires |ws| > 0 && Words(ws) && Word(f)
    requires rest == [' '] + (Join(ws, ' ') + [' '] + ['>'] + ([' '] + f))
    ensures Trimmable(rest) && Parsed(rest) == Redirect(Out, Exec(ws), f)
  {
    var cmd := Join(ws, ' ') + [' '];
    var tail := [' '] + f;
    var m := cmd + ['>'] + tail;
    WordsCmd(ws, cmd);
    BlankWord(f, tail);
    assert IsTrimmed(m) by {
      JoinedWords(ws);
      assert (cmd + ['>'])[0] == Join(ws, ' ')[0] && tail[|tail| - 1] == f[|f| - 1];
      TrimmedJoin(cmd + ['>'], tail);
    }
    BlankThen(m, rest);
    ParsedTrims(rest);
    OneRedirect(cmd, '>', tail, m);
  }

  /** The first redirect's target in the next example: ` a.txt ` with
      the pipe after it trims to `a.txt |`. */
  lemma BlankTarget(f: string, mid: string)
    requires Word(f) && mid == [' '] + f + [' ']
    ensures NoneIn(mid, Symbols)
    ensures Trimmable(mid + ['|']) && Trimmed(mid + ['|']) == f + [' ', '|']
  {
    Blank();
    NoneInAppend([' '], f, Symbols);
    NoneInAppend([' '] + f, [' '], Symbols);
    var target := f + [' ', '|'];
    assert mid + ['|'] == [' '] + target;
    assert IsTrimmed(target) by {
      assert target[0] == f[0];
    }
    BlankThen(target, mid + ['|']);
  }

  /** `ls -a < a.txt | grep linux > b.txt` gives
      Pipe(Redirect(In, Exec([ls, -a]), `a.txt |`), Redirect(Out, Exec([grep, linux]), b.txt)). */
  lemma RedirectsAroundPipe(ws1: seq<string>, f1: string, ws2: seq<string>, f2: string)
    requires |ws1| > 0 && Words(ws1) && Word(f1)
    requires |ws2| > 0 && Words(ws2) && Word(f2)
    ensures var line := Join(ws1, ' ') + [' '] + ['<'] + ([' '] + f1 + [' ']) + ['|']
        + ([' '] + (Join(ws2, ' ') + [' '] + ['>'] + ([' '] + f2)));
      Trimmable(line)
      && Parsed(line) == Pipe(Redirect(In, Exec(ws1), f1 + [' ', '|']), Redirect(Out, Exec(ws2), f2))
  {
    var cmd := Join(ws1, ' ') + [' '];
    var mid := [' '] + f1 + [' '];
    var rest := [' '] + (Join(ws2, ' ') + [' '] + ['>'] + ([' '] + f2));
    var line := cmd + ['<'] + mid + ['|'] + rest;
    WordsCmd(ws1, cmd);
    BlankTarget(f1, mid);
    assert IsTrimmed(line) by {
      JoinedWords(ws1);
      assert cmd[0] == Join(ws1, ' ')[0] && rest[|rest| - 1] == f2[|f2| - 1];
      TrimmedParts5(cmd, ['<'], mid, ['|'], rest);
    }
    TrimmedFixed(line);
    OutStage(ws2, f2, rest);
    RedirectThenPipe(cmd, '<', mid, rest, line);
  }

  /** A last stage ` c` is the plain command c. */
  lemma LastStage(c: string, last: string)
    requires Word(c) && last == [' '] + c
    ensures Trimmable(last) && Parsed(last) == Exec([c])
  {
    BlankWord(c, last);
    ParsePlain(last);
    PrefixWord(c, [], []);
    assert c + [] == c && [] + c == c;
  }

  /** `b | c`. */
  lemma TwoStages(b: string, c: string, m: string)
    requires Word(b) && Word(c) && m == b + [' '] + ['|'] + ([' '] + c)
    ensures IsTrimmed(m) && Parsed(m) == Pipe(Exec([b]), Exec([c]))
  {
    var last := [' '] + c;
    WordCmd(b);
    NoneInAppend(b, [' '], Symbols);
    assert IsTrimmed(m) by {
      assert (b + [' '] + ['|'])[0] == b[0] && last[|last| - 1] == c[|c| - 1];
      TrimmedJoin(b + [' '] + ['|'], last);
    }
    LastStage(c, last);
    assert b + " " == b + [' '];
    OnePipe(b + [' '], last, m);
  }

  /** `a | m` for a word a and a trimmed rest m. */
  lemma WordThenPipe(a: string, m: string)
    requires Word(a) && m != [] && IsTrimmed(m)
    ensures var line := a + [' '] + ['|'] + ([' '] + m);
      Trimmable(line) && Parsed(line) == Pipe(Exec([a]), Parsed(m))
  {
    var rest := [' '] + m;
    var line := a + [' '] + ['|'] + rest;
    WordCmd(a);
    NoneInAppend(a, [' '], Symbols);
    assert IsTrimmed(line) by {
      assert (a + [' '] + ['|'])[0] == a[0] && rest[|rest| - 1] == m[|m| - 1];
      TrimmedJoin(a + [' '] + ['|'], rest);
    }
    TrimmedFixed(line);
    BlankThen(m, rest);
    ParsedTrims(rest);
    assert a + " " == a + [' '];
    OnePipe(a + [' '], rest, line);
  }

  /** `a | b | c` gives Pipe(Exec([a]), Pipe(Exec([b]), Exec([c]))). */
  lemma ThreeStages(a: string, b: string, c: string)
    requires Word(a) && Word(b) && Word(c)
    ensures var line := a + [' '] + ['|'] + ([' '] + (b + [' '] + ['|'] + ([' '] + c)));
      Trimmable(line) && Parsed(line) == Pipe(Exec([a]), Pipe(Exec([b]), Exec([c])))
  {
    var m := b + [' '] + ['|'] + ([' '] + c);
    TwoStages(b, c, m);
    WordThenPipe(a, m);
  }
}
