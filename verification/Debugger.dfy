/** `debugger.Interactive`: turns a step's result and the user's typed answers into a
    decision.  Input is the text still unread; prompts are not modelled. */
module Debugger {
  import opened Strings

  datatype Decision = Continue | Abort | Retry

  /** `reply` is what AfterStep returns, `rest` the input it leaves, `shell` whether it
      opened a shell session. */
  datatype Answer = Answer(reply: Decision, rest: string, shell: bool)

  datatype Line = Eof | Line(text: string, rest: string)

  function Newlines(s: string): nat {
    if |s| == 0 then 0 else (if s[0] == '\n' then 1 else 0) + Newlines(s[1..])
  }

  /** `ReadString('\n')`: an unterminated tail is an error like no input at all. */
  function ReadLine(s: string): (l: Line)
    ensures l.Line? ==> s == l.text + l.rest && |l.rest| < |s| && Newlines(l.rest) == Newlines(s) - 1
    ensures l.Line? ==> |l.text| > 0 && Newlines(l.text[..|l.text| - 1]) == 0 && l.text[|l.text| - 1] == '\n'
    ensures l.Eof? <==> Newlines(s) == 0
  {
    if |s| == 0 then Eof
    else if s[0] == '\n' then Line(s[..1], s[1..])
    else match ReadLine(s[1..])
         case Eof => Eof
         case Line(t, r) =>
           assert ([s[0]] + t)[..|t|][1..] == t[..|t| - 1];
           Line([s[0]] + t, r)
  }

  /** What is left after a shell session, or after other jobs' prompts: anything, as long
      as no complete line was added. */
  function Leaves(before: string, after: string): (r: string)
    ensures Newlines(r) <= Newlines(before)
  {
    if Newlines(after) <= Newlines(before) then after else ""
  }

  function Normalise(line: string): string {
    ToLower(TrimSpace(line))
  }

  /** The answer a line gives after a shell session, if it is one. */
  function ParseAfterShell(line: string): Option<Decision> {
    var a := Normalise(line);
    if a in {"", "c", "continue"} then Some(Continue)
    else if a in {"a", "abort"} then Some(Abort)
    else if a in {"r", "retry"} then Some(Retry)
    else None
  }

  datatype Choice = Move(d: Decision) | Shell

  /** The answer a line gives at the step prompt, if it is one. */
  function ParseStep(line: string): Option<Choice> {
    var a := Normalise(line);
    if a in {"", "y", "yes"} then Some(Move(Continue))
    else if a in {"n", "a", "abort"} then Some(Move(Abort))
    else if a in {"s", "shell"} then Some(Choice.Shell)
    else None
  }

  /** The first line of `input` that answers the prompt after a shell decides. */
  function AskAfterShell(input: string): (a: Answer)
    ensures a.reply == Retry ==> Newlines(a.rest) < Newlines(input)
    ensures Newlines(a.rest) <= Newlines(input)
    ensures Newlines(input) == 0 ==> a.reply == Abort
    ensures a.shell
    decreases |input|
  {
    match ReadLine(input)
    case Eof => Answer(Abort, "", true)
    case Line(text, rest) =>
      match ParseAfterShell(text)
      case Some(d) => Answer(d, rest, true)
      case None => AskAfterShell(rest)
  }

  /** The same at the step prompt; `leaves` is what a shell session would leave unread. */
  function AskStep(input: string, leaves: string): (a: Answer)
    ensures a.reply == Retry ==> a.shell && Newlines(a.rest) < Newlines(input)
    ensures Newlines(a.rest) <= Newlines(input)
    ensures Newlines(input) == 0 ==> a.reply == Abort
    decreases |input|
  {
    match ReadLine(input)
    case Eof => Answer(Abort, "", false)
    case Line(text, rest) =>
      match ParseStep(text)
      case Some(Move(d)) => Answer(d, rest, false)
      case Some(Shell) => AskAfterShell(Leaves(rest, leaves))
      case None => AskStep(rest, leaves)
  }

  datatype Flags = Flags(stepByStep: bool, shellOnFail: bool)

  /** What AfterStep answers.  A retry always follows a shell session of the same call and
      costs a line; running out of input aborts. */
  function Decide(flags: Flags, failed: bool, input: string, leaves: string): (a: Answer)
    ensures a.reply == Retry ==> a.shell && Newlines(a.rest) < Newlines(input)
    ensures Newlines(a.rest) <= Newlines(input)
    ensures Newlines(input) == 0 && (flags.stepByStep || failed) ==> a.reply == Abort
    ensures !flags.stepByStep && !failed ==> a == Answer(Continue, input, false)
    ensures failed && flags.shellOnFail ==> a.shell
  {
    if failed && flags.shellOnFail then AskAfterShell(Leaves(input, leaves))
    else if !flags.stepByStep then Answer(if failed then Abort else Continue, input, false)
    else AskStep(input, leaves)
  }

  class Interactive {
    var input: string
    const flags: Flags

    constructor (input: string, flags: Flags)
      ensures this.input == input && this.flags == flags
    {
      this.input, this.flags := input, flags;
    }

    /** Somebody else -- the shell, or another job's prompt -- reads from the terminal. */
    method ReadElsewhere(leaves: string)
      modifies this
      ensures input == Leaves(old(input), leaves)
    {
      input := Leaves(input, leaves);
    }

    method AfterStep(failed: bool, leaves: string) returns (d: Decision, shell: bool)
      modifies this
      ensures Answer(d, input, shell) == Decide(flags, failed, old(input), leaves)
    {
      if failed && flags.shellOnFail {
        ReadElsewhere(leaves);
        d := PromptAfterShell();
        return d, true;
      }
      if !flags.stepByStep {
        return if failed then Abort else Continue, false;
      }
      while true
        invariant AskStep(input, leaves) == AskStep(old(input), leaves)
        decreases |input|
      {
        match ReadLine(input)
        case Eof =>
          input := "";
          return Abort, false;
        case Line(text, rest) =>
          input := rest;
          match ParseStep(text) {
            case Some(Move(m)) => return m, false;
            case Some(Shell) =>
              ReadElsewhere(leaves);
              d := PromptAfterShell();
              return d, true;
            case None =>
          }
      }
    }

    method PromptAfterShell() returns (d: Decision)
      modifies this
      ensures Answer(d, input, true) == AskAfterShell(old(input))
    {
      while true
        invariant AskAfterShell(input) == AskAfterShell(old(input))
        decreases |input|
      {
        match ReadLine(input)
        case Eof =>
          input := "";
          return Abort;
        case Line(text, rest) =>
          input := rest;
          match ParseAfterShell(text) {
            case Some(m) => return m;
            case None =>
          }
      }
    }
  }
}
