/** What the words typed at the debugger's prompts mean. */
module Answers {
  import opened Strings
  import opened Debugger

  /** `c` is a way to write the lower-case letter `d`: the Kelvin sign and the dotted capital I
      are the two beyond ASCII. */
  predicate Writes(c: char, d: char) {
    c == d
    || ('A' <= c <= 'Z' && d as int == c as int + 32)
    || (c == '\U{212A}' && d == 'k')
    || (c == '\U{0130}' && d == 'i')
  }

  /** `v` is `word` in any letter case. */
  ghost predicate InAnyCase(v: string, word: string) {
    |v| == |word| && forall i :: 0 <= i < |v| ==> Writes(v[i], word[i])
  }

  /** A line that holds `word`, in any letter case, and otherwise white space. */
  ghost predicate Spells(line: string, word: string) {
    exists pre, v, post :: line == pre + v + post && AllSpace(pre) && AllSpace(post) && InAnyCase(v, word)
  }

  /** A complete line. */
  ghost predicate IsLine(line: string) {
    |line| > 0 && line[|line| - 1] == '\n' && forall i :: 0 <= i < |line| - 1 ==> line[i] != '\n'
  }

  /** The words the prompts know: nothing, or small letters. */
  ghost predicate SmallLetters(word: string) {
    forall i :: 0 <= i < |word| ==> 'a' <= word[i] <= 'z'
  }

  lemma WritesLetter(c: char, d: char)
    requires 'a' <= d <= 'z'
    ensures Writes(c, d) <==> ToLowerChar(c) == d
    ensures Writes(c, d) ==> !IsSpace(c)
  {
  }

  /** A line reads as a word exactly when it spells it. */
  lemma NormaliseIffSpells(line: string, word: string)
    requires SmallLetters(word)
    ensures Normalise(line) == word <==> Spells(line, word)
  {
    if Normalise(line) == word {
      var pre, post := TrimSpaceParts(line);
      var v := TrimSpace(line);
      forall i | 0 <= i < |v| ensures Writes(v[i], word[i]) {
        assert ToLower(v)[i] == word[i];
        WritesLetter(v[i], word[i]);
      }
      assert InAnyCase(v, word);
    }
    if Spells(line, word) {
      var pre, v, post :| line == pre + v + post && AllSpace(pre) && AllSpace(post) && InAnyCase(v, word);
      forall i | 0 <= i < |v| ensures ToLowerChar(v[i]) == word[i] && !IsSpace(v[i]) { WritesLetter(v[i], word[i]); }
      TrimSpaceOff(pre, v, post);
      assert ToLower(v) == word;
    }
  }

  lemma {:induction false} LineIsRead(line: string, rest: string)
    requires IsLine(line)
    ensures ReadLine(line + rest) == Line(line, rest)
  {
    var s := line + rest;
    if line[0] == '\n' {
      assert |line| == 1;
      assert s[..1] == line && s[1..] == rest;
    } else {
      assert s[1..] == line[1..] + rest;
      LineIsRead(line[1..], rest);
      assert [s[0]] + line[1..] == line;
    }
  }

  // ------------------------------------------------------------- the prompts

  /** The lines a prompt answers with one of the given words. */
  ghost predicate SpellsOne(line: string, words: set<string>) {
    exists w :: w in words && Spells(line, w)
  }


  lemma SpellsOneIff(line: string, words: set<string>)
    requires forall w :: w in words ==> SmallLetters(w)
    ensures SpellsOne(line, words) <==> Normalise(line) in words
  {
    forall w | w in words ensures Normalise(line) == w <==> Spells(line, w) { NormaliseIffSpells(line, w); }
  }

  /** Which of the answers after a shell a line gives. */
  lemma AfterShellWords(line: string)
    ensures SpellsOne(line, {"", "c", "continue"}) ==> ParseAfterShell(line) == Some(Continue)
    ensures SpellsOne(line, {"a", "abort"}) ==> ParseAfterShell(line) == Some(Abort)
    ensures SpellsOne(line, {"r", "retry"}) ==> ParseAfterShell(line) == Some(Retry)
    ensures !SpellsOne(line, {"", "c", "continue", "a", "abort", "r", "retry"}) ==> ParseAfterShell(line) == None
  {
    hide SpellsOne, Normalise;
    SpellsOneIff(line, {"", "c", "continue"});
    SpellsOneIff(line, {"a", "abort"});
    SpellsOneIff(line, {"r", "retry"});
    SpellsOneIff(line, {"", "c", "continue", "a", "abort", "r", "retry"});
  }

  lemma StepWords(line: string)
    ensures SpellsOne(line, {"", "y", "yes"}) ==> ParseStep(line) == Some(Move(Continue))
    ensures SpellsOne(line, {"n", "a", "abort"}) ==> ParseStep(line) == Some(Move(Abort))
    ensures SpellsOne(line, {"s", "shell"}) ==> ParseStep(line) == Some(Choice.Shell)
    ensures !SpellsOne(line, {"", "y", "yes", "n", "a", "abort", "s", "shell"}) ==> ParseStep(line) == None
  {
    hide SpellsOne, Normalise;
    SpellsOneIff(line, {"", "y", "yes"});
    SpellsOneIff(line, {"n", "a", "abort"});
    SpellsOneIff(line, {"s", "shell"});
    SpellsOneIff(line, {"", "y", "yes", "n", "a", "abort", "s", "shell"});
  }

  /** After a shell: the first line that spells an answer decides, and every other line is
      passed over. */
  lemma AfterShellAnswers(line: string, rest: string)
    requires IsLine(line)
    ensures SpellsOne(line, {"", "c", "continue"}) ==> AskAfterShell(line + rest) == Answer(Continue, rest, true)
    ensures SpellsOne(line, {"a", "abort"}) ==> AskAfterShell(line + rest) == Answer(Abort, rest, true)
    ensures SpellsOne(line, {"r", "retry"}) ==> AskAfterShell(line + rest) == Answer(Retry, rest, true)
    ensures !SpellsOne(line, {"", "c", "continue", "a", "abort", "r", "retry"}) ==>
              AskAfterShell(line + rest) == AskAfterShell(rest)
  {
    hide SpellsOne, ParseAfterShell, ReadLine;
    AfterShellWords(line);
    LineIsRead(line, rest);
  }

  /** At the step prompt, likewise; a shell is followed by the prompt after it. */
  lemma StepAnswers(line: string, rest: string, leaves: string)
    requires IsLine(line)
    ensures SpellsOne(line, {"", "y", "yes"}) ==> AskStep(line + rest, leaves) == Answer(Continue, rest, false)
    ensures SpellsOne(line, {"n", "a", "abort"}) ==> AskStep(line + rest, leaves) == Answer(Abort, rest, false)
    ensures SpellsOne(line, {"s", "shell"}) ==> AskStep(line + rest, leaves) == AskAfterShell(Leaves(rest, leaves))
    ensures !SpellsOne(line, {"", "y", "yes", "n", "a", "abort", "s", "shell"}) ==>
              AskStep(line + rest, leaves) == AskStep(rest, leaves)
  {
    hide SpellsOne, ParseStep, ReadLine, AskAfterShell, Leaves;
    StepWords(line);
    LineIsRead(line, rest);
  }

  /** Input without a complete line ends every prompt with abort. */
  lemma NoLineAborts(input: string, leaves: string)
    requires '\n' !in input
    ensures AskStep(input, leaves) == Answer(Abort, "", false) && AskAfterShell(input) == Answer(Abort, "", true)
  {
    NoLineNoNewlines(input);
  }

  lemma {:induction false} NoLineNoNewlines(s: string)
    requires '\n' !in s
    ensures Newlines(s) == 0
  {
    if |s| > 0 {
      assert s[0] in s;
      NoLineNoNewlines(s[1..]);
    }
  }

  /** Which prompt is used: none without step mode unless a failure opens a shell. */
  lemma WhichPrompt(flags: Flags, failed: bool, input: string, leaves: string)
    ensures failed && flags.shellOnFail ==> Decide(flags, failed, input, leaves) == AskAfterShell(Leaves(input, leaves))
    ensures flags.stepByStep && !(failed && flags.shellOnFail) ==>
            Decide(flags, failed, input, leaves) == AskStep(input, leaves)
    ensures !flags.stepByStep && failed && !flags.shellOnFail ==>
            Decide(flags, failed, input, leaves) == Answer(Abort, input, false)
    ensures !flags.stepByStep && !failed ==> Decide(flags, failed, input, leaves) == Answer(Continue, input, false)
  {
  }
}
