/** The command tree: the classes cmd, exec_cmd, pipe_cmd and redirect_cmd
    (ExpShell.cpp:211-263) as one datatype. The run-time descriptor field
    of redirect_cmd is not part of the tree. */
module Command {

  /** CMD_TYPE_REDIR_IN and CMD_TYPE_REDIR_OUT. */
  datatype Direction = In | Out

  datatype Cmd =
    | Exec(argv: seq<string>)
    | Pipe(left: Cmd, right: Cmd)
    | Redirect(dir: Direction, inner: Cmd, file: string)

  /** The direction the parser picks for a redirect symbol: `<` reads,
      anything else (that is, `>`) writes. */
  function DirOf(c: char): (d: Direction)
    ensures d == In <==> c == '<'
  {
    if c == '<' then In else Out
  }

  /** One segment of a pipeline as the parser builds it: a plain command,
      or a redirect wrapped around a plain command. */
  predicate IsSegment(c: Cmd)
  {
    c.Exec? || (c.Redirect? && c.inner.Exec?)
  }

  /** A right-nested chain of segments joined by pipes. */
  predicate IsPipeline(c: Cmd)
  {
    if c.Pipe? then IsSegment(c.left) && IsPipeline(c.right) else IsSegment(c)
  }

  /** Number of segments along the right spine of a pipeline. */
  function Stages(c: Cmd): (n: nat)
    ensures n >= 1
  {
    if c.Pipe? then 1 + Stages(c.right) else 1
  }
}
