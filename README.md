# ExpShell command-line core in Dafny

ExpShell is a small interactive shell for Linux. It shows a prompt and reads a line. It handles the builtins `cd` and `quit` itself. Any other line is parsed into a command tree, and the tree runs as a set of forked processes that are connected by pipes and redirections.

This project models the deterministic text processing behind that loop:

- the character classes (white space, the operators `|`, `<`, `>`);
- `string_split`, `string_split_protect` (quote-aware splitting), `string_split_first`, `string_split_last` and `trim`;
- the command tree: plain commands, pipes, and input or output redirects;
- `parse_exec_cmd` and the recursive `parse` scanner;
- the part of `run_cmd` that prepares an `exec_cmd` for `execvp`: alias rewriting of the first argument, and the argument list with blank arguments dropped;
- `process_builtin_command`: `cd` with its `~` rewrite, and `quit`;
- the text of the prompt.

Operations that work step by step in the source are `method`s with loops, each proved equal to a specification function. These are `StringSplit`, `Trim`, `StringSplitProtect`, `Parse`, `ResolveAlias` and `BuildExecArgs`. The properties of each operation are then proved as lemmas about that function. Pure operations become functions.

Some inputs make the source fail:

- `trim` of a non-empty line that is all white space steps `q` below index 0 and reads out of range (ExpShell.cpp:118-121);
- `string_split_first` and `string_split_last` on a string that is all delimiters call `.at` on an empty vector (ExpShell.cpp:106, 111). That throws `std::out_of_range`, nothing catches it, and the shell terminates;
- `process_builtin_command` reads the second word of a `cd` line out of range when there is none (ExpShell.cpp:316);
- `run_cmd` reads `argv[0]` of an empty argument list out of range (ExpShell.cpp:341).

These cases are the preconditions of the modelled members (`Trimmable`, `SomeNotIn`, `CdDefined`, `|argv| > 0`).

## Behaviour of the code worth knowing

- **Redirect target.** The file name of a redirect is `trim(line.substr(i + 1, j - i))`, where `j` is the index of the next operator or the end of the line (ExpShell.cpp:284-287). The name therefore includes the next operator. In `ls -a < a.txt | grep linux > b.txt` the input file is `a.txt |` (`ParseLaws.RedirectIntoPipeAt`, `SourceCases.RedirectsAroundPipe`).
- **Two redirects.** Each redirect builds a new `redirect_cmd` around `parse_exec_cmd(cur_read)`, and `cur_read` is not cleared (ExpShell.cpp:282-291). A second redirect in a segment therefore replaces the first one, around the same plain command, and the first target is dropped (`ParseLaws.SecondRedirectAt`).
- **Unclosed quote.** At an unclosed quote, `string_split_protect` calls `panic("unclosed quote")` (ExpShell.cpp:94-95). `panic` only prints, since its `exit_` argument defaults to false (ExpShell.cpp:53-58). Splitting goes on, and the rest of the text becomes part of the current word (`Protect.UnclosedKeepsText`).
- **Quotes and operators.** `parse` looks for `|`, `<` and `>` (ExpShell.cpp:281-299) before `parse_exec_cmd` splits a segment into words (ExpShell.cpp:266-268). Quotes therefore protect blanks inside an argument, but not operators. The number of stages is always one more than the number of `|` characters in the line (`ParseLaws.PipeCount`).
- **Empty words.** `string_split_protect` pushes the current word at every blank, even when it is empty (ExpShell.cpp:85-87). So repeated blanks give empty words (`Protect.DoubleBlankGivesEmptyWord`). They are dropped only when the `execvp` argument list is built (ExpShell.cpp:352-354, `ExecArgs.PlainSegmentArgs`).
- **Empty line.** An empty line parses to a plain command with no arguments, because `parse` falls through to `parse_exec_cmd("")` (ExpShell.cpp:301-302, `ParseLaws.EmptyLine`).
- **What counts as `cd`.** Every line whose first two characters are `cd` is a `cd`, including `cdrom x` (ExpShell.cpp:314, `Builtins.CdPrefixOnly`).
- **Failed `cd`.** A failed `cd` returns -1 (ExpShell.cpp:321-323). `main` continues only on a positive result (ExpShell.cpp:435-436), so it goes on to fork and parse the line.
- **The `~` rewrite.** The rewrite keeps only the second word of the line (ExpShell.cpp:316-318, `Builtins.CdTildeDropsRest`).

## Model

| member | source | states |
|---|---|---|
| Chars.IsWhiteSpace | ExpShell.cpp:63-63 | true exactly for blank, tab, carriage return and newline |
| Chars.IsSymbol | ExpShell.cpp:65-65 | true exactly for `\|`, `<` and `>` |
| Chars.FindFrom | ExpShell.cpp:70-70 | `find_first_of`: the first index at or after `from` holding a delimiter, or the length when there is none, with no delimiter between |
| Chars.Lead | ExpShell.cpp:117-119 | the forward scan of `trim`: every character before the result is white space, and the one at it is not |
| Chars.Trail | ExpShell.cpp:120-121 | the backward scan of `trim`: the last n characters are white space, and the one before them is not |
| Splitter.Split | ExpShell.cpp:67-78 | the words of s: every word is non-empty and holds no delimiter |
| Splitter.StringSplit | ExpShell.cpp:67-78 | the `find_first_of` loop returns exactly `Split(s, ds)` |
| Splitter.SplitAtDelimiter | ExpShell.cpp:70-73 | at the next delimiter the text before it is pushed when non-empty, and splitting goes on after it |
| Splitter.SplitLastRun | ExpShell.cpp:75-76 | text left after the last delimiter is one final word, unless it is empty |
| Splitter.SplitConcat | ExpShell.cpp:67-78 | the words, concatenated, are s with its delimiters removed |
| Splitter.SplitJoin | ExpShell.cpp:67-78 | non-empty delimiter-free words joined by a delimiter split back into the same words |
| Splitter.SplitEmpty | ExpShell.cpp:67-78 | the split is empty if and only if s holds only delimiters |
| Splitter.SplitFirstWord | ExpShell.cpp:109-112 | the first word starts after the leading delimiters and runs to the next delimiter |
| Splitter.SplitLastWord | ExpShell.cpp:104-107 | the last word of the split ends where the trailing delimiters begin and follows a delimiter or the start |
| Splitter.StringSplitFirst | ExpShell.cpp:109-112 | a non-empty, delimiter-free substring starting after the leading delimiters and followed by a delimiter or the end |
| Splitter.StringSplitLast | ExpShell.cpp:104-107 | a non-empty, delimiter-free last word of s |
| Trimming.Trimmed | ExpShell.cpp:114-123 | the result neither starts nor ends with white space, is empty only for the empty input, and is no longer than it |
| Trimming.TrimmedParts | ExpShell.cpp:114-123 | s is white space, then the result, then white space |
| Trimming.Trim | ExpShell.cpp:114-123 | the two scanning loops return exactly `Trimmed(s)` |
| Trimming.TrimmedUnique | ExpShell.cpp:114-123 | whatever white space surrounds a trimmed text, trimming gives that text back |
| Trimming.TrimIdempotent | ExpShell.cpp:114-123 | trimming twice gives the same as trimming once |
| Trimming.TrimmedFixed | ExpShell.cpp:114-123 | trimmed text is left unchanged |
| Trimming.WordTrimmed | ExpShell.cpp:114-123 | text without white space is left unchanged |
| Trimming.TrimmedNoneIn | ExpShell.cpp:114-123 | trimming adds no character |
| Trimming.TrimmedCount | ExpShell.cpp:114-123 | trimming keeps every occurrence of a character that is not white space |
| Protect.Tokens | ExpShell.cpp:81-102 | the words still to come after a partial scan: at most one per character, and the word being collected is the start of the first one |
| Protect.SplitProtect | ExpShell.cpp:81-102 | the word vector: no more words than characters, and for a line without quotes its non-empty words are those of a plain split on white space |
| Protect.Unclosed | ExpShell.cpp:94-95 | the scan meets a quote that is never closed; this needs a quote mark in the line |
| Protect.StringSplitProtect | ExpShell.cpp:81-102 | the loop returns exactly `SplitProtect(str)`, and its flag is set exactly when a quote is unclosed |
| Protect.ScanQuoted | ExpShell.cpp:89-93 | the inner loop stops at the closing quote or at the end of the string, and the current word gains exactly the characters between the quote marks |
| Protect.QuoteStep | ExpShell.cpp:88-95 | a quote appends everything up to the closing quote (or the end) to the current word |
| Protect.QuotedVerbatim | ExpShell.cpp:88-93 | quoted text, with blanks and operators, is appended verbatim and the quote marks are dropped |
| Protect.UnclosedKeepsText | ExpShell.cpp:90-100 | after an unclosed quote the rest of the text becomes part of the last word, and the quote is reported unclosed |
| Protect.UnclosedIffOddQuotes | ExpShell.cpp:88-95 | a quote is left unclosed if and only if the line holds an odd number of quote marks |
| Protect.PlainTokens | ExpShell.cpp:84-100 | without quotes, the non-empty words are exactly the words of `string_split` on white space |
| Protect.PlainTokensNoWhite | ExpShell.cpp:84-100 | without quotes, no word holds white space |
| Protect.DoubleBlankGivesEmptyWord | ExpShell.cpp:85-87 | `a  b` splits into `a`, an empty word and `b` |
| Protect.QuotedArgument | ExpShell.cpp:81-102 | `word "quoted text"` splits into exactly the word and the quoted text |
| Protect.PrefixWord | ExpShell.cpp:96-97 | a word without blanks or quotes is collected as it stands |
| Protect.ProtectJoin | ExpShell.cpp:81-102 | words without blanks or quotes, joined by single blanks, split back into the same words |
| Command.DirOf | ExpShell.cpp:288-289 | the redirect is an input redirect exactly for `<` |
| Parser.ParseExecCmd | ExpShell.cpp:266-270 | a segment always becomes a plain command |
| Parser.TargetText | ExpShell.cpp:287-287 | `substr(i + 1, j - i)`: the target text includes the next operator when there is one |
| Parser.RedirectTarget | ExpShell.cpp:287-287 | the target is the text after the redirect symbol, trimmed: no blank surrounds it, and it is no longer than that text |
| Parser.Segment | ExpShell.cpp:282-297 | what parse builds before the first pipe is a plain command or one redirect around a plain command, and a redirect's target is trimmed |
| Parser.Parsed | ExpShell.cpp:276-305 | every tree is a right-nested chain of pipes whose stages are plain commands or one redirect around a plain command |
| Parser.ScanRedirect | ExpShell.cpp:282-291 | a redirect builds Redirect(direction, the plain command read so far, the trimmed target), and the scan resumes at the next operator |
| Parser.RedirectRun | ExpShell.cpp:284-286 | the inner scan passes no pipe, and the redirect is the last one before where it stops |
| Parser.ScanPipe | ExpShell.cpp:292-297 | at the first pipe, what the scan built is the segment before that pipe |
| Parser.ScanEnd | ExpShell.cpp:301-304 | at the end of a line without pipes, what the scan built is the whole segment |
| Parser.NextSymbol | ExpShell.cpp:284-286 | the inner loop stops at the first operator after the redirect, or at the end |
| Parser.Parse | ExpShell.cpp:276-305 | the scanning loop with its recursive call returns exactly `Parsed(line)` |
| ParseLaws.PipeCount | ExpShell.cpp:292-297 | a line with n pipe characters parses into n + 1 stages |
| ParseLaws.ParsedTrims | ExpShell.cpp:277-277 | parsing a line and parsing it trimmed give the same tree |
| ParseLaws.ParsePlain | ExpShell.cpp:298-302 | a line without operators is one plain command |
| ParseLaws.EmptyLine | ExpShell.cpp:301-302 | an empty line is a plain command with no arguments |
| ParseLaws.PipeAt | ExpShell.cpp:292-297 | the words before a first pipe are piped into the tree of the rest |
| ParseLaws.RedirectAt | ExpShell.cpp:282-291 | a single redirect wraps the plain command before it, and its target is the rest of the line, trimmed |
| ParseLaws.RedirectIntoPipeAt | ExpShell.cpp:282-297 | a redirect followed by a pipe gets a target that ends with `\|`, and is piped into the tree of the rest |
| ParseLaws.SecondRedirectAt | ExpShell.cpp:282-291 | of two redirects the second is kept, around the plain command before the first |
| SourceCases.WordCmd | ExpShell.cpp:266-270 | a word followed by a blank is the plain command of that word |
| SourceCases.QuotedCmd | ExpShell.cpp:266-270 | `bin "quoted text" ` is the plain command of the two arguments |
| SourceCases.QuotedThenTwoRedirects | ExpShell.cpp:275-275 | `some_bin "hello world" > b.txt > c.txt` parses to Redirect(Out, Exec([some_bin, hello world]), c.txt) |
| SourceCases.RedirectsAroundPipe | ExpShell.cpp:274-274 | `ls -a < a.txt \| grep linux > b.txt` parses to Pipe(Redirect(In, Exec([ls, -a]), `a.txt \|`), Redirect(Out, Exec([grep, linux]), b.txt)) |
| SourceCases.ThreeStages | ExpShell.cpp:292-297 | `a \| b \| c` parses to Pipe(Exec([a]), Pipe(Exec([b]), Exec([c]))) |
| ExecArgs.Resolved | ExpShell.cpp:341-349 | a first argument that is an alias is replaced by the words of its value, and the other arguments stay in order after them |
| ExecArgs.ResolveAlias | ExpShell.cpp:341-349 | the erase and reverse-insert loop returns exactly `Resolved(argv, aliases)` |
| ExecArgs.ExecList | ExpShell.cpp:351-359 | at most as many arguments as given, each non-empty and trimmed |
| ExecArgs.BuildExecArgs | ExpShell.cpp:351-359 | the `push_back` loop returns exactly `ExecList(argv)` |
| ExecArgs.ExecListMembers | ExpShell.cpp:352-358 | a word reaches `execvp` if and only if it is non-empty and some argument trims to it |
| ExecArgs.ExecListKeepsClean | ExpShell.cpp:351-359 | arguments that are non-empty and trimmed pass unchanged |
| ExecArgs.ExecListIdempotent | ExpShell.cpp:351-359 | preparing the list a second time changes nothing |
| ExecArgs.ExecListOfWords | ExpShell.cpp:351-359 | of words without white space, exactly the non-empty ones are kept, in order |
| ExecArgs.PlainSegmentArgs | ExpShell.cpp:351-359 | for a segment without quotes, `execvp` receives exactly the `string_split` words of the segment |
| ExecArgs.ResolvedTrimmable | ExpShell.cpp:341-353 | every argument after alias rewriting can be trimmed |
| ExecArgs.ShippedAliasExample | ExpShell.cpp:50-50 | with the shipped table, `ll x` becomes `ls -l x` |
| ExecArgs.AliasNotExpandedAgain | ExpShell.cpp:341-349 | rewriting happens once: `ll` mapped to `ll -a` gives `ll -a` |
| Builtins.CdLine | ExpShell.cpp:316-318 | the rewritten line still starts with `cd` |
| Builtins.Classify | ExpShell.cpp:309-331 | a bare `cd`, a `cd` with more text, a `quit`, or none of these, each if and only if the line has that form; a cd directory is trimmed |
| Builtins.ProcessBuiltin | ExpShell.cpp:309-333 | returns 1 for `cd`, or for a cd line whose chdir succeeds; -1 exactly when a cd line's chdir fails; exits with 0 exactly for `quit`; otherwise returns 0 |
| Builtins.CdPlainTarget | ExpShell.cpp:314-320 | `cd dir` asks chdir for dir, whatever the home directory |
| Builtins.CdTildeTarget | ExpShell.cpp:316-320 | when the second word starts with `~`, chdir gets the home directory followed by the rest of that word |
| Builtins.CdTildeDropsRest | ExpShell.cpp:316-320 | `cd ~path extra` asks chdir for the home directory followed by path, dropping extra |
| Builtins.CdPrefixOnly | ExpShell.cpp:314-320 | `cdname arg` is still a cd, and chdir is given `name arg`, whatever the home directory |
| Prompt.HomeDir | ExpShell.cpp:143-146 | an absolute path: `/root` for root, and for any other user `/home/` followed by the user name |
| Prompt.PromptDir | ExpShell.cpp:147-153 | `~` for the home directory; otherwise `/` for the root, and for any other path a non-empty last name of the path with no `/` in it |
| Prompt.HostLabel | ExpShell.cpp:155-158 | a non-empty host label without dots |
| Prompt.PromptText | ExpShell.cpp:160-160 | the prompt starts with `[`, the user name and `@`, and ends with `]> ` |
| Prompt.PromptDirIsLastName | ExpShell.cpp:149-153 | for `/n1/.../nk` the prompt shows nk |
| Prompt.HostLabelIsFirst | ExpShell.cpp:157-158 | for `l1.l2...` the prompt shows l1 |

## Left out

- Process orchestration in `run_cmd`: the pipe, redirect and exec cases, `fork`, `pipe`, `dup2`, `open`, `execvp`, `wait` and their `panic` wrappers, and `check_wait_status`. These are operating-system effects with no text processing in them.
- `main`, `read_line` and the `stty` call. They are only the read loop and I/O. `main` trims the line before it calls `process_builtin_command` and `parse` (ExpShell.cpp:433-441). The model does not rely on that: `Parsed` trims the line itself, as `parse` does (ExpShell.cpp:277), and `ProcessBuiltin` takes the line as given.
- The system queries: `getpwuid`, `getcwd` and `gethostname` become parameters of the prompt functions, and the result of `chdir` is a parameter of `ProcessBuiltin`.
- Output: the text `panic` writes to standard error and the "Bye from ExpShell." message. An unclosed quote is returned as a flag instead.
- The global `home_dir` and `alias_map` become parameters.
- `pipe_fd` and `char_buf` are not modelled.
- `ShippedAliases` is the table `init_alias` fills.
- Text is modelled as sequences of Unicode `char`, while ExpShell works on bytes. Splitting, trimming and parsing lose nothing by this: every delimiter and operator is ASCII, and no byte of a UTF-8 multi-byte sequence is ASCII. Lengths differ, though: the `MAX_ARGV_LEN` limit below counts bytes.
- The 128-byte buffers for `execvp` arguments (`MAX_ARGV_LEN`) and the `strcpy` into them are not modelled. Arguments longer than 127 bytes overflow in the source.
- The `NULL` terminator of the list is not modelled.
- The 1024-byte `getcwd` and `gethostname` buffers are not modelled.
- The `fd` field of a redirect node, which only `run_cmd` fills, is not modelled.
- ExecArgs.ResolveAlias: the in-place `erase` and `insert` on the node's vector become a returned sequence. Aliasing of the node is not modelled.
- Prompt.PromptText: states the frame of the prompt. The host and directory parts in between are described by the contracts of `HostLabel` and `PromptDir`.
- `string_split_protect`'s `delims` parameter is never used by the source (it always splits on white space), so the model has no such parameter.
