/** The part of run_cmd that prepares an exec_cmd for execvp
    (ExpShell.cpp:338-360): alias rewriting of the first argument and the
    argument list handed to execvp, with blank arguments skipped. */
module ExecArgs {
  import opened Chars
  import opened Splitter
  import opened Trimming
  import opened Protect

  /** init_alias: the one alias the shell installs. */
  const ShippedAliases: map<string, string> := map["ll" := "ls -l"]

  /** The argument vector after alias rewriting: when the first argument
      is a key of the table, it is replaced by the words of its value, and
      the words of the value are not looked up again. */
  function Resolved(argv: seq<string>, aliases: map<string, string>): (r: seq<string>)
    requires |argv| > 0
    ensures argv[0] in aliases ==> |r| == |Split(aliases[argv[0]], WhiteSpace)| + |argv| - 1
    ensures argv[0] in aliases ==> r[..|Split(aliases[argv[0]], WhiteSpace)|] == Split(aliases[argv[0]], WhiteSpace)
    ensures argv[0] !in aliases ==> r == argv
    ensures r[|r| - (|argv| - 1)..] == argv[1..]
  {
    if argv[0] in aliases then Split(aliases[argv[0]], WhiteSpace) + argv[1..] else argv
  }

  /** The alias rewriting of run_cmd: `erase` of the first argument
      followed by an `insert` at the front of each word of the alias value,
      last word first. */
  method ResolveAlias(argv: seq<string>, aliases: map<string, string>) returns (r: seq<string>)
    requires |argv| > 0
    ensures r == Resolved(argv, aliases)
  {
    r := argv;
    if argv[0] in aliases {
      var replace := StringSplit(aliases[argv[0]], WhiteSpace);
      r := r[1..];
      var k := |replace|;
      while k > 0
        invariant 0 <= k <= |replace|
        invariant r == replace[k..] + argv[1..]
        decreases k
      {
        k := k - 1;
        ConsSuffix(replace, k, argv[1..]);
        r := [replace[k]] + r;
      }
      assert replace[0..] == replace;
    }
  }

  /** Putting element k in front of the elements after it. */
  lemma ConsSuffix<T>(xs: seq<T>, k: nat, tail: seq<T>)
    requires k < |xs|
    ensures [xs[k]] + (xs[k + 1..] + tail) == xs[k..] + tail
  {
    assert xs[k..] == [xs[k]] + xs[k + 1..];
  }

  /** Every argument can be trimmed: trim walks off the front of an
      argument that is non-empty and all white space. */
  predicate AllTrimmable(argv: seq<string>)
  {
    forall i :: 0 <= i < |argv| ==> Trimmable(argv[i])
  }

  lemma SuffixAllTrimmable(argv: seq<string>, i: nat)
    requires i <= |argv| && AllTrimmable(argv)
    ensures AllTrimmable(argv[i..])
  {
    assert forall j :: 0 <= j < |argv| - i ==> argv[i..][j] == argv[i + j];
  }

  /** The arguments execvp receives: each argument trimmed, and those
      that are then empty dropped, in order. */
  function ExecList(argv: seq<string>): (r: seq<string>)
    requires AllTrimmable(argv)
    ensures |r| <= |argv|
    ensures forall k :: 0 <= k < |r| ==> r[k] != [] && IsTrimmed(r[k])
  {
    if argv == [] then []
    else
      var a := Trimmed(argv[0]);
      (if a == [] then [] else [a]) + ExecList(argv[1..])
  }

  /** The `push_back` loop of run_cmd that fills argv_c_str. */
  method BuildExecArgs(argv: seq<string>) returns (out: seq<string>)
    requires AllTrimmable(argv)
    ensures out == ExecList(argv)
  {
    out := [];
    var i := 0;
    assert argv[0..] == argv;
    while i < |argv|
      invariant i <= |argv| && BuiltSoFar(argv, i, out)
    {
      var argTrim := Trim(argv[i]);
      ExecListStep(argv, i, out);
      if |argTrim| > 0 {
        out := out + [argTrim];
      }
      i := i + 1;
    }
    assert ExecList(argv[i..]) == [];
    assert out + [] == out;
  }

  /** The arguments from i on are still to come after out. */
  predicate BuiltSoFar(argv: seq<string>, i: nat, out: seq<string>)
    requires i <= |argv| && AllTrimmable(argv)
  {
    AllTrimmable(argv[i..]) && out + ExecList(argv[i..]) == ExecList(argv)
  }

  /** One step of that loop. */
  lemma ExecListStep(argv: seq<string>, i: nat, out: seq<string>)
    requires i < |argv| && AllTrimmable(argv) && BuiltSoFar(argv, i, out)
    ensures BuiltSoFar(argv, i + 1, if Trimmed(argv[i]) == [] then out else out + [Trimmed(argv[i])])
  {
    SuffixAllTrimmable(argv, i + 1);
    var a := Trimmed(argv[i]);
    var rest := ExecList(argv[i + 1..]);
    assert argv[i..][1..] == argv[i + 1..];
    assert ExecList(argv[i..]) == (if a == [] then [] else [a]) + rest;
    if a == [] {
      assert [] + rest == rest;
    } else {
      AppendAssoc(out, [a], rest);
    }
  }

  /** A word is passed to execvp exactly when it is what some argument
      trims to and is not empty. */
  lemma {:induction false} ExecListMembers(argv: seq<string>, w: string)
    requires AllTrimmable(argv)
    ensures w in ExecList(argv) <==> w != [] && exists i :: 0 <= i < |argv| && Trimmed(argv[i]) == w
  {
    if argv != [] {
      ExecListMembers(argv[1..], w);
      if w != [] && Trimmed(argv[0]) != w && (exists i :: 0 <= i < |argv| && Trimmed(argv[i]) == w) {
        var i :| 0 <= i < |argv| && Trimmed(argv[i]) == w;
        assert argv[1..][i - 1] == argv[i];
      }
    }
  }

  /** Arguments that are already non-empty and trimmed pass unchanged. */
  lemma {:induction false} ExecListKeepsClean(argv: seq<string>)
    requires forall i :: 0 <= i < |argv| ==> argv[i] != [] && IsTrimmed(argv[i])
    ensures (AllTrimmable(argv)) && ExecList(argv) == argv
  {
    forall i | 0 <= i < |argv| ensures Trimmable(argv[i]) {
      TrimmedFixed(argv[i]);
    }
    if argv != [] {
      TrimmedFixed(argv[0]);
      ExecListKeepsClean(argv[1..]);
    }
  }

  /** Preparing the list twice changes nothing more. */
  lemma ExecListIdempotent(argv: seq<string>)
    requires AllTrimmable(argv)
    ensures (forall i :: 0 <= i < |ExecList(argv)| ==> Trimmable(ExecList(argv)[i]))
    ensures ExecList(ExecList(argv)) == ExecList(argv)
  {
    ExecListKeepsClean(ExecList(argv));
  }

  /** Words without white space trim to themselves, so the list keeps
      exactly the non-empty ones. */
  lemma {:induction false} ExecListOfWords(ts: seq<string>)
    requires forall k :: 0 <= k < |ts| ==> NoneIn(ts[k], WhiteSpace)
    ensures (forall k :: 0 <= k < |ts| ==> Trimmable(ts[k])) && ExecList(ts) == NonEmpty(ts)
  {
    forall k | 0 <= k < |ts| ensures Trimmable(ts[k]) && Trimmed(ts[k]) == ts[k] {
      WordTrimmed(ts[k]);
    }
    if ts != [] {
      ExecListOfWords(ts[1..]);
    }
  }

  /** For a segment without quotes, the empty words string_split_protect
      pushes for repeated blanks are dropped again here, and execvp
      receives exactly string_split's words. */
  lemma PlainSegmentArgs(s: string)
    requires NoneIn(s, QuoteMark)
    ensures (forall k :: 0 <= k < |SplitProtect(s)| ==> Trimmable(SplitProtect(s)[k]))
    ensures ExecList(SplitProtect(s)) == Split(s, WhiteSpace)
  {
    PlainTokens(s, []);
    PlainTokensNoWhite(s, []);
    assert [] + s == s;
    ExecListOfWords(SplitProtect(s));
  }

  /** The words of an alias value hold no white space. */
  lemma ResolvedTrimmable(argv: seq<string>, aliases: map<string, string>)
    requires |argv| > 0 && AllTrimmable(argv)
    ensures forall i :: 0 <= i < |Resolved(argv, aliases)| ==> Trimmable(Resolved(argv, aliases)[i])
  {
    if argv[0] in aliases {
      var ws := Split(aliases[argv[0]], WhiteSpace);
      var r := Resolved(argv, aliases);
      assert r == ws + argv[1..];
      forall i | 0 <= i < |r| ensures Trimmable(r[i]) {
        if i < |ws| {
          WordTrimmed(ws[i]);
        } else {
          assert r[i] == argv[i - |ws| + 1];
        }
      }
    }
  }

  /** `ll x` runs `ls -l x`. */
  lemma ShippedAliasExample()
    ensures Resolved(["ll", "x"], ShippedAliases) == ["ls", "-l", "x"]
  {
    assert Join(["ls", "-l"], ' ') == "ls -l";
    SplitJoin(["ls", "-l"], ' ', WhiteSpace);
  }

  /** Rewriting happens once: an alias whose value starts with its own
      name leaves that name in place instead of expanding it again. */
  lemma AliasNotExpandedAgain()
    ensures Resolved(["ll"], map["ll" := "ll -a"]) == ["ll", "-a"]
  {
    assert Join(["ll", "-a"], ' ') == "ll -a";
    SplitJoin(["ll", "-a"], ' ', WhiteSpace);
  }
}
