/** string_split_protect (ExpShell.cpp:81-102): the quote-aware word
    splitter that turns a command segment into an argument vector. */
module Protect {
  import opened Chars
  import opened Splitter

  /** The words still to come from s when `tmp` has been collected so far:
      white space ends the current word even when it is empty, a quote
      appends everything up to the closing quote to the current word, an
      unclosed quote appends the rest of s, and at the end the current
      word is kept only when it is not empty. There is at most one word
      per character, and the word being collected starts the first one. */
  function Tokens(s: string, tmp: string): (r: seq<string>)
    ensures |r| <= |s| + (if tmp == [] then 0 else 1)
    ensures tmp != [] ==> r != [] && tmp <= r[0]
    decreases |s|
  {
    if s == [] then (if tmp == [] then [] else [tmp])
    else if IsWhiteSpace(s[0]) then [tmp] + Tokens(s[1..], [])
    else if s[0] == '"' then
      var n := RunLength(s[1..], QuoteMark);
      if n + 1 < |s| then Tokens(s[n + 2..], tmp + s[1..n + 1])
      else Tokens([], tmp + s[1..])
    else Tokens(s[1..], tmp + [s[0]])
  }

  /** The word vector string_split_protect returns: no more words than
      characters, and on a line without quotes its non-empty words are
      those of a plain split on white space. */
  function SplitProtect(s: string): (r: seq<string>)
    ensures |r| <= |s|
    ensures NoneIn(s, QuoteMark) ==> NonEmpty(r) == Split(s, WhiteSpace)
  {
    QuoteFreeSplit(s);
    Tokens(s, [])
  }

  lemma QuoteFreeSplit(s: string)
    ensures NoneIn(s, QuoteMark) ==> NonEmpty(Tokens(s, [])) == Split(s, WhiteSpace)
  {
    if NoneIn(s, QuoteMark) {
      PlainTokens(s, []);
      assert [] + s == s;
    }
  }

  /** The scan meets a quote that is never closed, which is when the
      source reports "unclosed quote"; that takes a quote mark. */
  function Unclosed(s: string): (r: bool)
    ensures r ==> '"' in s
    decreases |s|
  {
    if s == [] then false
    else if s[0] == '"' then
      var n := RunLength(s[1..], QuoteMark);
      if n + 1 < |s| then Unclosed(s[n + 2..]) else true
    else Unclosed(s[1..])
  }

  /** The part of s from index i on; empty once the scan is past the end. */
  function From(s: string, i: nat): string
  {
    if i <= |s| then s[i..] else []
  }

  /** The loop's invariant: the words pushed so far, followed by the
      words still to come from index i with `tmp` collected, are the
      result; and the panic has fired or is still to come exactly when
      the scan of the whole string meets an unclosed quote. */
  predicate ScanSoFar(str: string, i: nat, vec: seq<string>, tmp: string, unclosed: bool)
  {
    && vec + Tokens(From(str, i), tmp) == SplitProtect(str)
    && Unclosed(str) == (unclosed || Unclosed(From(str, i)))
  }

  /** string_split_protect: the outer `for` loop over `i` with the inner
      quote loop; `unclosed` records the panic, after which the source
      carries on with what it has collected. */
  method StringSplitProtect(str: string) returns (vec: seq<string>, unclosed: bool)
    ensures vec == SplitProtect(str)
    ensures unclosed == Unclosed(str)
  {
    vec := [];
    var tmp: string := [];
    unclosed := false;
    var i := 0;
    assert From(str, 0) == str;
    while i < |str|
      invariant i <= |str| + 1
      invariant ScanSoFar(str, i, vec, tmp, unclosed)
      decreases |str| + 1 - i
    {
      if IsWhiteSpace(str[i]) {
        WhiteScan(str, i, vec, tmp, unclosed);
        vec := vec + [tmp];
        tmp := [];
      } else if str[i] == '"' {
        ghost var open, before := i, tmp;
        i, tmp := ScanQuoted(str, i, tmp);
        QuoteScan(str, open, i, vec, before, tmp, unclosed);
        if i == |str| {
          unclosed := true;
        }
      } else {
        CharScan(str, i, vec, tmp, unclosed);
        tmp := tmp + [str[i]];
      }
      i := i + 1;
    }
    ScanDone(str, i, vec, tmp, unclosed);
    if |tmp| > 0 {
      vec := vec + [tmp];
    }
  }

  /** The inner loop of string_split_protect: from the opening quote at
      `open`, every character up to the closing quote, or to the end of
      the string when there is none, joins the current word. */
  method ScanQuoted(str: string, open: nat, before: string) returns (close: nat, tmp: string)
    requires open < |str| && str[open] == '"'
    ensures open < close <= |str| && (close == |str| || str[close] == '"')
    ensures NoneIn(str[open + 1..close], QuoteMark)
    ensures tmp == before + str[open + 1..close]
  {
    tmp := before;
    close := open + 1;
    while close < |str| && str[close] != '"'
      invariant open < close <= |str|
      invariant tmp == before + str[open + 1..close]
      invariant NoneIn(str[open + 1..close], QuoteMark)
    {
      assert str[open + 1..close + 1] == str[open + 1..close] + [str[close]];
      tmp := tmp + [str[close]];
      close := close + 1;
    }
  }

  /** The invariant across one step over white space. */
  lemma WhiteScan(str: string, i: nat, vec: seq<string>, tmp: string, unclosed: bool)
    requires i < |str| && IsWhiteSpace(str[i]) && ScanSoFar(str, i, vec, tmp, unclosed)
    ensures ScanSoFar(str, i + 1, vec + [tmp], [], unclosed)
  {
    PlainStep(str, i, tmp);
    assert From(str, i) == str[i..];
    AppendAssoc(vec, [tmp], Tokens(From(str, i + 1), []));
  }

  /** The invariant across one step over a character that is neither
      white space nor a quote. */
  lemma CharScan(str: string, i: nat, vec: seq<string>, tmp: string, unclosed: bool)
    requires i < |str| && !IsWhiteSpace(str[i]) && str[i] != '"'
    requires ScanSoFar(str, i, vec, tmp, unclosed)
    ensures ScanSoFar(str, i + 1, vec, tmp + [str[i]], unclosed)
  {
    PlainStep(str, i, tmp);
    assert From(str, i) == str[i..];
  }

  /** The invariant across one quoted run, from the opening quote at
      `open` to the closing quote at `close` or the end of the string. */
  lemma QuoteScan(str: string, open: nat, close: nat, vec: seq<string>, before: string, tmp: string,
                  unclosed: bool)
    requires open < close <= |str| && str[open] == '"'
    requires NoneIn(str[open + 1..close], QuoteMark)
    requires close == |str| || str[close] == '"'
    requires ScanSoFar(str, open, vec, before, unclosed)
    requires tmp == before + str[open + 1..close]
    ensures ScanSoFar(str, close + 1, vec, tmp, unclosed || close == |str|)
  {
    QuoteStep(str, open, close);
    assert From(str, open) == str[open..];
  }

  /** The invariant once the scan is past the end. */
  lemma ScanDone(str: string, i: nat, vec: seq<string>, tmp: string, unclosed: bool)
    requires i >= |str| && ScanSoFar(str, i, vec, tmp, unclosed)
    ensures (if |tmp| > 0 then vec + [tmp] else vec) == SplitProtect(str)
    ensures unclosed == Unclosed(str)
  {
    assert From(str, i) == [];
    if |tmp| == 0 {
      assert vec + [] == vec;
    }
  }

  /** One step over a character that is not a quote. */
  lemma PlainStep(str: string, i: nat, tmp: string)
    requires i < |str| && str[i] != '"'
    ensures Tokens(str[i..], tmp) ==
      if IsWhiteSpace(str[i]) then [tmp] + Tokens(From(str, i + 1), [])
      else Tokens(From(str, i + 1), tmp + [str[i]])
    ensures Unclosed(str[i..]) == Unclosed(From(str, i + 1))
  {
    assert str[i..][1..] == str[i + 1..];
  }

  /** One quoted run: from the opening quote at `open` to the closing quote
      at `close`, or to the end of the string when there is none. */
  lemma QuoteStep(str: string, open: nat, close: nat)
    requires open < close <= |str| && str[open] == '"'
    requires NoneIn(str[open + 1..close], QuoteMark)
    requires close == |str| || str[close] == '"'
    ensures forall tmp :: Tokens(str[open..], tmp) == Tokens(From(str, close + 1), tmp + str[open + 1..close])
    ensures Unclosed(str[open..]) == (close == |str| || Unclosed(From(str, close + 1)))
  {
    var s := str[open..];
    assert s[1..] == str[open + 1..];
    assert s[1..][..close - open - 1] == str[open + 1..close];
    RunLengthIs(s[1..], QuoteMark, close - open - 1);
    if close < |str| {
      assert s[close - open + 1..] == str[close + 1..];
      assert s[1..close - open] == str[open + 1..close];
    } else {
      assert s[1..] == str[open + 1..close];
    }
  }

  /** A quote's contents join the current word verbatim, white space and
      operators included, and the two quote marks are dropped. */
  lemma QuotedVerbatim(q: string, rest: string, tmp: string)
    requires NoneIn(q, QuoteMark)
    ensures Tokens(['"'] + q + ['"'] + rest, tmp) == Tokens(rest, tmp + q)
  {
    var s := ['"'] + q + ['"'] + rest;
    assert s[1..][..|q|] == q;
    RunLengthIs(s[1..], QuoteMark, |q|);
    assert s[|q| + 2..] == rest;
    assert s[1..|q| + 1] == q;
  }

  /** An unclosed quote keeps the rest of the text as the last word. */
  lemma UnclosedKeepsText(q: string, tmp: string)
    requires NoneIn(q, QuoteMark)
    ensures Tokens(['"'] + q, tmp) == (if tmp + q == [] then [] else [tmp + q])
    ensures Unclosed(['"'] + q)
  {
    var s := ['"'] + q;
    assert s[1..] == q;
    assert q[..|q|] == q;
    RunLengthIs(q, QuoteMark, |q|);
  }

  /** The panic fires exactly when the line holds an odd number of quote
      marks: quotes pair up left to right, whatever surrounds them. */
  lemma {:induction false} UnclosedIffOddQuotes(s: string)
    ensures Unclosed(s) <==> Count(s, '"') % 2 == 1
    decreases |s|
  {
    if s == [] {
    } else if s[0] == '"' {
      var n := RunLength(s[1..], QuoteMark);
      var inner := s[1..n + 1];
      assert inner == s[1..][..n];
      CountAbsent(inner, '"');
      assert s[..n + 1][1..] == inner;
      assert Count(s[..n + 1], '"') == 1;
      if n + 1 < |s| {
        CountSplit(s, n + 1, '"');
        assert Count(s, '"') == 2 + Count(s[n + 2..], '"');
        assert Unclosed(s) == Unclosed(s[n + 2..]);
        UnclosedIffOddQuotes(s[n + 2..]);
      } else {
        assert s[..n + 1] == s;
        assert Unclosed(s) && Count(s, '"') == 1;
      }
    } else {
      UnclosedIffOddQuotes(s[1..]);
    }
  }

  /** The words that are not empty. */
  function NonEmpty(ts: seq<string>): (r: seq<string>)
    ensures forall k :: 0 <= k < |r| ==> r[k] != []
  {
    if ts == [] then []
    else (if ts[0] == [] then [] else [ts[0]]) + NonEmpty(ts[1..])
  }

  lemma {:induction false} NonEmptyAppend(a: seq<string>, b: seq<string>)
    ensures NonEmpty(a + b) == NonEmpty(a) + NonEmpty(b)
  {
    if a == [] {
      assert a + b == b;
    } else {
      assert (a + b)[1..] == a[1..] + b;
      NonEmptyAppend(a[1..], b);
    }
  }

  /** Without quotes, the non-empty words are exactly string_split's
      words: a word collected so far is continued by the text after it. */
  lemma {:induction false} PlainTokens(s: string, tmp: string)
    requires NoneIn(s, QuoteMark) && NoneIn(tmp, WhiteSpace)
    ensures NonEmpty(Tokens(s, tmp)) == Split(tmp + s, WhiteSpace)
    decreases |s|
  {
    if s == [] {
      assert tmp + s == tmp;
      if tmp != [] {
        SplitLastRun(tmp, WhiteSpace, 0);
        assert tmp[0..] == tmp;
      }
    } else if IsWhiteSpace(s[0]) {
      PlainTokens(s[1..], []);
      assert [] + s[1..] == s[1..];
      PlainWhiteStep(s, tmp);
    } else {
      assert NoneIn(tmp + [s[0]], WhiteSpace);
      PlainTokens(s[1..], tmp + [s[0]]);
      PlainCharStep(s, tmp);
    }
  }

  /** The step of PlainTokens over white space, which ends the word. */
  lemma PlainWhiteStep(s: string, tmp: string)
    requires s != [] && IsWhiteSpace(s[0]) && NoneIn(tmp, WhiteSpace)
    requires NonEmpty(Tokens(s[1..], [])) == Split(s[1..], WhiteSpace)
    ensures NonEmpty(Tokens(s, tmp)) == Split(tmp + s, WhiteSpace)
  {
    assert Tokens(s, tmp) == [tmp] + Tokens(s[1..], []);
    NonEmptyAppend([tmp], Tokens(s[1..], []));
    if tmp != [] {
      SplitWordThen(tmp, s, WhiteSpace);
    } else {
      assert tmp + s == s;
    }
  }

  /** The step of PlainTokens over any other character, which joins it. */
  lemma PlainCharStep(s: string, tmp: string)
    requires s != [] && !IsWhiteSpace(s[0]) && s[0] != '"'
    requires NonEmpty(Tokens(s[1..], tmp + [s[0]])) == Split(tmp + [s[0]] + s[1..], WhiteSpace)
    ensures NonEmpty(Tokens(s, tmp)) == Split(tmp + s, WhiteSpace)
  {
    assert tmp + [s[0]] + s[1..] == tmp + s;
  }

  /** Without quotes, no word holds white space. */
  lemma {:induction false} PlainTokensNoWhite(s: string, tmp: string)
    requires NoneIn(s, QuoteMark) && NoneIn(tmp, WhiteSpace)
    ensures forall k :: 0 <= k < |Tokens(s, tmp)| ==> NoneIn(Tokens(s, tmp)[k], WhiteSpace)
    decreases |s|
  {
    if s == [] {
    } else if IsWhiteSpace(s[0]) {
      PlainTokensNoWhite(s[1..], []);
    } else {
      assert NoneIn(tmp + [s[0]], WhiteSpace);
      PlainTokensNoWhite(s[1..], tmp + [s[0]]);
    }
  }

  /** "a  b": the second blank pushes an empty word. */
  lemma DoubleBlankGivesEmptyWord()
    ensures SplitProtect("a  b") == ["a", "", "b"]
  {
    assert Tokens("b", []) == ["b"] by {
      assert "b"[1..] == [];
      assert [] + "b" == "b";
    }
    assert Tokens(" b", []) == [[]] + ["b"] by {
      assert " b"[1..] == "b";
    }
    assert Tokens("  b", "a") == ["a"] + [[], "b"] by {
      assert "  b"[1..] == " b";
    }
    assert Tokens("a  b", []) == Tokens("  b", "a") by {
      assert "a  b"[1..] == "  b";
      assert [] + "a" == "a";
    }
  }

  /** A word, a blank and a quoted text, as in `some_bin "hello world"`:
      the quoted text, blanks and all, is one argument. */
  lemma QuotedArgument(word: string, quoted: string)
    requires word != [] && NoneIn(word, WhiteSpace) && NoneIn(word, QuoteMark)
    requires quoted != [] && NoneIn(quoted, QuoteMark)
    ensures SplitProtect(word + [' ', '"'] + quoted + ['"']) == [word, quoted]
  {
    var arg := ['"'] + quoted + ['"'];
    var line := word + ([' '] + arg);
    assert word + [' ', '"'] + quoted + ['"'] == line;
    assert SplitProtect(line) == Tokens(line, []);
    assert Tokens(line, []) == Tokens([' '] + arg, word) by {
      PrefixWord(word, [' '] + arg, []);
      assert [] + word == word;
    }
    assert Tokens([' '] + arg, word) == [word] + Tokens(arg, []) by {
      assert ([' '] + arg)[1..] == arg;
    }
    assert Tokens(arg, []) == [quoted] by {
      QuotedVerbatim(quoted, [], []);
      assert arg + [] == arg && [] + quoted == quoted;
    }
  }

  /** A word without white space or quotes is collected as it stands. */
  lemma {:induction false} PrefixWord(w: string, rest: string, tmp: string)
    requires NoneIn(w, WhiteSpace) && NoneIn(w, QuoteMark)
    ensures Tokens(w + rest, tmp) == Tokens(rest, tmp + w)
    decreases |w|
  {
    if w == [] {
      assert w + rest == rest;
      assert tmp + w == tmp;
    } else {
      assert (w + rest)[0] == w[0];
      assert (w + rest)[1..] == w[1..] + rest;
      PrefixWord(w[1..], rest, tmp + [w[0]]);
      assert tmp + [w[0]] + w[1..] == tmp + w;
    }
  }

  /** Round trip: words without white space or quotes, joined by single
      blanks, are split back into the same words. */
  lemma {:induction false} ProtectJoin(ws: seq<string>)
    requires forall k :: 0 <= k < |ws| ==> ws[k] != [] && NoneIn(ws[k], WhiteSpace) && NoneIn(ws[k], QuoteMark)
    ensures SplitProtect(Join(ws, ' ')) == ws
  {
    if |ws| == 1 {
      PrefixWord(ws[0], [], []);
      assert ws[0] + [] == ws[0] && [] + ws[0] == ws[0];
    } else if |ws| > 1 {
      var rest := Join(ws[1..], ' ');
      assert Join(ws, ' ') == ws[0] + ([' '] + rest);
      PrefixWord(ws[0], [' '] + rest, []);
      assert [] + ws[0] == ws[0];
      assert ([' '] + rest)[1..] == rest;
      ProtectJoin(ws[1..]);
    }
  }
}
