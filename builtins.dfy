/** process_builtin_command (ExpShell.cpp:307-333): `cd` and `quit`,
    handled by the shell itself. The directory change is left to the
    caller: the model says which directory `chdir` is asked for, and takes
    whether it succeeds as a parameter. */
module Builtins {
  import opened Chars
  import opened Splitter
  import opened Trimming

  /** `line.substr(0, 2) == "cd"`: any line whose first two characters are
      `cd`, whatever follows them. */
  predicate StartsWithCd(line: string)
  {
    |line| >= 2 && line[..2] == "cd"
  }

  /** A `cd` with something after it, whose second word is looked up. */
  predicate CdWithArgument(line: string)
  {
    line != "cd" && StartsWithCd(line)
  }

  /** `arg1.find("~") == 0` */
  predicate StartsWithTilde(w: string)
  {
    |w| > 0 && w[0] == '~'
  }

  /** The line after the `~` rewrite: when the second word starts with
      `~`, the line becomes `cd `, the home directory and the rest of that
      word; whatever followed the word is dropped. */
  function CdLine(line: string, home: string): (r: string)
    requires CdWithArgument(line) && |Split(line, WhiteSpace)| >= 2
    ensures StartsWithCd(r)
  {
    var arg1 := Split(line, WhiteSpace)[1];
    if StartsWithTilde(arg1) then "cd " + home + arg1[1..] else line
  }

  /** What the source demands of a cd line: its second word exists
      (`string_split(...)[1]` is out of range otherwise) and the text after
      `cd` can be trimmed. */
  predicate CdDefined(line: string, home: string)
  {
    CdWithArgument(line) ==>
      |Split(line, WhiteSpace)| >= 2 && Trimmable(CdLine(line, home)[2..])
  }

  /** `quit` is not a cd line. */
  lemma QuitIsNotCd()
    ensures "quit" != "cd" && !StartsWithCd("quit")
  {
    assert "quit"[1] != "cd"[1];
  }

  /** What follows `cd` in `cd x` is a blank and x. */
  lemma AfterCd(x: string)
    ensures StartsWithCd("cd " + x) && ("cd " + x)[2..] == [' '] + x
  {
    assert ("cd " + x)[..2] == "cd";
  }

  datatype Builtin =
    | NotBuiltin
    | CdHome           // a bare `cd`: chdir(home_dir)
    | CdTo(dir: string)
    | Quit

  /** Which builtin a line is, and for `cd` the directory chdir is given. */
  function Classify(line: string, home: string): (b: Builtin)
    requires CdDefined(line, home)
    ensures b.CdHome? <==> line == "cd"
    ensures b.CdTo? <==> CdWithArgument(line)
    ensures b.Quit? <==> line == "quit"
    ensures b.NotBuiltin? <==> !StartsWithCd(line) && line != "quit"
    ensures b.CdTo? ==> IsTrimmed(b.dir)
  {
    QuitIsNotCd();
    if line == "cd" then CdHome
    else if StartsWithCd(line) then CdTo(Trimmed(CdLine(line, home)[2..]))
    else if line == "quit" then Quit
    else NotBuiltin
  }

  /** What process_builtin_command does: return 0 (nothing done), 1 (a cd
      was handled) or -1 (chdir failed), or exit the shell with status 0. */
  datatype Outcome = Returned(code: int) | Exited(status: int)

  function ProcessBuiltin(line: string, home: string, chdirSucceeds: bool): (o: Outcome)
    requires CdDefined(line, home)
    ensures o.Exited? <==> line == "quit"
    ensures o.Exited? ==> o.status == 0
    ensures o == Returned(1) <==> line == "cd" || (CdWithArgument(line) && chdirSucceeds)
    ensures o == Returned(-1) <==> CdWithArgument(line) && !chdirSucceeds
    ensures o == Returned(0) <==> !StartsWithCd(line) && line != "quit"
  {
    match Classify(line, home)
    case CdHome => Returned(1)
    case CdTo(_) => if chdirSucceeds then Returned(1) else Returned(-1)
    case Quit => Exited(0)
    case NotBuiltin => Returned(0)
  }

  /** `cd dir` for a single word dir that does not start with `~`: chdir
      is given dir, whatever the home directory. */
  lemma CdPlainTarget(dir: string, home: string)
    requires dir != [] && NoneIn(dir, WhiteSpace) && !StartsWithTilde(dir)
    ensures CdDefined("cd " + dir, home) && Classify("cd " + dir, home) == CdTo(dir)
  {
    var line := "cd " + dir;
    assert line == Join(["cd", dir], ' ');
    SplitJoin(["cd", dir], ' ', WhiteSpace);
    assert CdLine(line, home) == line;
    AfterCd(dir);
    WordTrimmed(dir);
    TrimmedUnique([' '], dir, []);
    assert [' '] + dir + [] == [' '] + dir;
  }

  /** `cd ~path ...`: when the second word starts with `~`, chdir is
      given the home directory followed by the rest of that word. */
  lemma CdTildeTarget(line: string, home: string)
    requires home != [] && IsTrimmed(home)
    requires CdWithArgument(line) && |Split(line, WhiteSpace)| >= 2
    requires StartsWithTilde(Split(line, WhiteSpace)[1])
    ensures var arg1 := Split(line, WhiteSpace)[1];
      CdDefined(line, home) && Classify(line, home) == CdTo(home + arg1[1..])
  {
    var arg1 := Split(line, WhiteSpace)[1];
    var path := arg1[1..];
    assert NoneIn(path, WhiteSpace) by {
      assert forall i :: 0 <= i < |path| ==> path[i] == arg1[i + 1];
    }
    var m := home + path;
    assert IsTrimmed(m) by {
      if path != [] {
        assert m[|m| - 1] == path[|path| - 1];
      }
    }
    AppendAssoc("cd ", home, path);
    AfterCd(m);
    assert [' '] + m + [] == [' '] + m;
    TrimmedUnique([' '], m, []);
  }

  /** `cd ~path extra`: the words after the first argument are dropped by
      the rewrite. */
  lemma CdTildeDropsRest(home: string, path: string, extra: string)
    requires home != [] && IsTrimmed(home) && NoneIn(path, WhiteSpace)
    requires extra != [] && NoneIn(extra, WhiteSpace)
    ensures var line := "cd ~" + path + " " + extra;
      CdDefined(line, home) && Classify(line, home) == CdTo(home + path)
  {
    var arg1 := ['~'] + path;
    var line := "cd ~" + path + " " + extra;
    assert NoneIn(arg1, WhiteSpace) by {
      assert forall i :: 1 <= i < |arg1| ==> arg1[i] == path[i - 1];
    }
    assert Join([arg1, extra], ' ') == arg1 + [' '] + extra;
    assert ["cd", arg1, extra][1..] == [arg1, extra];
    assert line == "cd" + [' '] + (arg1 + [' '] + extra);
    SplitJoin(["cd", arg1, extra], ' ', WhiteSpace);
    assert line[..2] == "cd";
    CdTildeTarget(line, home);
    assert arg1[1..] == path;
  }

  /** `cdname arg`: a line that merely starts with `cd` is still a cd, and
      the directory is the text after the first two characters, whatever
      the home directory. */
  lemma CdPrefixOnly(rest: string, arg: string, home: string)
    requires rest != [] && NoneIn(rest, WhiteSpace)
    requires arg != [] && NoneIn(arg, WhiteSpace) && !StartsWithTilde(arg)
    ensures var line := "cd" + rest + " " + arg;
      CdDefined(line, home) && Classify(line, home) == CdTo(rest + " " + arg)
  {
    var w := "cd" + rest;
    var line := w + " " + arg;
    assert NoneIn(w, WhiteSpace) by {
      assert forall i :: 2 <= i < |w| ==> w[i] == rest[i - 2];
    }
    assert line == Join([w, arg], ' ');
    SplitJoin([w, arg], ' ', WhiteSpace);
    assert CdLine(line, home) == line;
    assert line[..2] == "cd";
    var m := rest + " " + arg;
    assert line[2..] == [] + m + [];
    assert m[0] == rest[0] && m[|m| - 1] == arg[|arg| - 1];
    TrimmedUnique([], m, []);
  }
}
