/** The text of show_command_prompt (ExpShell.cpp:134-160), such as
    `[root@localhost tmp]> `. The user name, the working directory and the
    host name are queries to the system and are parameters here. */
module Prompt {
  import opened Chars
  import opened Splitter

  /** The home directory the shell takes a user to have. */
  function HomeDir(username: string): (h: string)
    ensures |h| > 1 && h[0] == '/'
    ensures username == "root" ==> h == "/root"
    ensures username != "root" ==> |h| == |username| + 6 && h[..6] == "/home/" && h[6..] == username
  {
    if username == "root" then "/root" else "/home/" + username
  }

  /** When the prompt can be built: the working directory is the home
      directory or the root, or string_split_last finds a name in it. */
  predicate DirShowable(cwd: string, home: string)
  {
    cwd == home || cwd == "/" || SomeNotIn(cwd, "/")
  }

  /** The directory shown: `~` for the home directory, `/` for the root,
      and otherwise the last name of the path. */
  function PromptDir(cwd: string, home: string): (d: string)
    requires DirShowable(cwd, home)
    ensures cwd == home ==> d == "~"
    ensures cwd != home && cwd == "/" ==> d == "/"
    ensures cwd != home && cwd != "/" ==> d != [] && NoneIn(d, "/") && EndsWith(cwd, "/", d)
  {
    if cwd == home then "~"
    else if cwd == "/" then "/"
    else StringSplitLast(cwd, "/")
  }

  /** The host name up to its first dot. */
  function HostLabel(hostname: string): (h: string)
    requires SomeNotIn(hostname, ".")
    ensures h != [] && NoneIn(h, ".")
  {
    StringSplitFirst(hostname, ".")
  }

  /** The whole prompt. */
  function PromptText(username: string, cwd: string, hostname: string): (p: string)
    requires DirShowable(cwd, HomeDir(username)) && SomeNotIn(hostname, ".")
    ensures |p| >= |username| + 7
    ensures p[..|username| + 2] == "[" + username + "@"
    ensures p[|p| - 3..] == "]> "
  {
    "[" + username + "@" + HostLabel(hostname) + " " + PromptDir(cwd, HomeDir(username)) + "]> "
  }

  /** For an absolute path `/n1/.../nk` the prompt shows nk. */
  lemma PromptDirIsLastName(names: seq<string>, home: string)
    requires |names| > 0
    requires forall k :: 0 <= k < |names| ==> names[k] != [] && NoneIn(names[k], "/")
    requires "/" + Join(names, '/') != home
    ensures DirShowable("/" + Join(names, '/'), home)
    ensures PromptDir("/" + Join(names, '/'), home) == names[|names| - 1]
  {
    var cwd := "/" + Join(names, '/');
    SplitJoin(names, '/', "/");
    assert cwd[1..] == Join(names, '/');
    assert Split(cwd, "/") == Split(cwd[1..], "/");
    assert names[0][0] == cwd[1];
    assert cwd[1] !in "/";
    assert cwd != "/";
    SplitLastWord(cwd, "/");
  }

  /** `localhost.localdomain` gives `localhost`: the first label. */
  lemma HostLabelIsFirst(labels: seq<string>)
    requires |labels| > 0
    requires forall k :: 0 <= k < |labels| ==> labels[k] != [] && NoneIn(labels[k], ".")
    ensures SomeNotIn(Join(labels, '.'), ".") && HostLabel(Join(labels, '.')) == labels[0]
  {
    var h := Join(labels, '.');
    SplitJoin(labels, '.', ".");
    SplitEmpty(h, ".");
    SplitFirstWord(h, ".");
  }
}
