/**
 * `generate_gemini_cmd` and `run_gemini` (src/tutor_agent.py): the shell
 * command that hands the resolved prompt and the source document to the
 * Gemini command-line tool, and the single fallback run after a failure.
 *
 * The external process is an oracle: a `Shell` records every command it
 * starts and answers with an exit status chosen by a function of the
 * command and of how many processes ran before it.
 */
module Gemini {
  import opened Text

  /** The model flags of the command built at line 158. */
  const FlashFlag: string := "-y -m gemini-2.5-flash "

  /** The flag the fallback rewrite looks for (the command at line 157 had it). */
  const YoloFlag: string := "--yolo "

  /** The fixed text around the two paths in a built command. */
  const CommandHead: string := "gemini '" + FlashFlag + ("\"Please follow the prompt " + "step by step in the xml ") + "@"
  const CommandMiddle: string := " then follow the " + "instructions outlined " + "in the xml using @"
  const CommandTail: string := "\"" + "'"

  /**
   * `gemini_instruction`, built from the three f-string pieces (the long
   * literals are written as concatenations of shorter ones).
   */
  function Instruction(prompt: string, srcFile: string): string {
    ("\"Please follow the prompt " + "step by step in the xml ")
    + ("@" + prompt + " then follow the " + "instructions outlined ")
    + ("in the xml using @" + srcFile + "\"")
  }

  /** `generate_gemini_cmd(prompt, src_file)`. */
  function BuildCommand(prompt: string, srcFile: string): string {
    "gemini '" + FlashFlag + Instruction(prompt, srcFile) + "'"
  }

  /**
   * The built command is the fixed head, the prompt path, the fixed middle,
   * the source path and the fixed tail: the prompt comes before the source,
   * and each path can be read back at its offset.
   */
  lemma BuildCommandLayout(prompt: string, srcFile: string)
    ensures BuildCommand(prompt, srcFile) == CommandHead + prompt + CommandMiddle + srcFile + CommandTail
    ensures var cmd, p := BuildCommand(prompt, srcFile), |CommandHead|;
      && |cmd| == p + |prompt| + |CommandMiddle| + |srcFile| + |CommandTail|
      && cmd[p..p + |prompt|] == prompt
      && cmd[p + |prompt| + |CommandMiddle|..|cmd| - |CommandTail|] == srcFile
  {
    BuildCommandIsHeadMiddleTail(prompt, srcFile);
    FiveSlices(CommandHead, prompt, CommandMiddle, srcFile, CommandTail);
  }

  lemma BuildCommandIsHeadMiddleTail(prompt: string, srcFile: string)
    ensures BuildCommand(prompt, srcFile) == CommandHead + prompt + CommandMiddle + srcFile + CommandTail
  {
  }

  lemma FiveSlices(h: string, p: string, m: string, s: string, t: string)
    ensures var c := h + p + m + s + t;
      && |c| == |h| + |p| + |m| + |s| + |t|
      && c[|h|..|h| + |p|] == p
      && c[|h| + |p| + |m|..|c| - |t|] == s
  {
    var c := h + p + m + s + t;
    assert c[|h|..] == p + m + s + t;
    assert c[|h| + |p| + |m|..] == s + t;
  }

  /** Commands built from prompt paths of one length determine both paths. */
  lemma BuildCommandInjective(p1: string, s1: string, p2: string, s2: string)
    requires |p1| == |p2| && BuildCommand(p1, s1) == BuildCommand(p2, s2)
    ensures p1 == p2 && s1 == s2
  {
    BuildCommandLayout(p1, s1);
    BuildCommandLayout(p2, s2);
  }

  /** The command `run_gemini` retries with: `--yolo ` becomes the flash-model flags. */
  function FallbackCommand(cmd: string): string {
    Replace(cmd, YoloFlag, FlashFlag)
  }

  /** The fallback differs from the primary exactly when the primary has `--yolo `. */
  lemma FallbackUnchangedIff(cmd: string)
    ensures FallbackCommand(cmd) == cmd <==> !Contains(cmd, YoloFlag)
  {
    ReplaceLongerChangesIff(cmd, YoloFlag, FlashFlag);
  }

  /** A prefix without `-` is kept by the fallback rewrite. */
  lemma KeepDashFree(a: string, b: string)
    requires '-' !in a
    ensures FallbackCommand(a + b) == a + FallbackCommand(b)
  {
    ReplaceFreePrefix(a, b, YoloFlag, FlashFlag);
  }

  /** A `-` followed by text without `-` is kept by the fallback rewrite. */
  lemma KeepSingleDash(a: string, b: string)
    requires a != [] && '-' !in a
    ensures FallbackCommand("-" + a + b) == "-" + a + FallbackCommand(b)
  {
    assert ("-" + a)[1..] == a;
    ReplaceLeadPrefix("-" + a, b, YoloFlag, FlashFlag);
  }

  lemma FlashFlagPieces()
    ensures FlashFlag == "-" + "y " + "-" + "m gemini" + "-" + "2.5" + "-" + "flash "
  {
  }

  lemma KeepFlashFlagPieces(b: string)
    ensures FallbackCommand("-" + "y " + ("-" + "m gemini" + ("-" + "2.5" + ("-" + "flash " + b))))
         == "-" + "y " + ("-" + "m gemini" + ("-" + "2.5" + ("-" + "flash " + FallbackCommand(b))))
  {
    var b3 := "-" + "flash " + b;
    var b2 := "-" + "2.5" + b3;
    var b1 := "-" + "m gemini" + b2;
    KeepSingleDash("flash ", b);
    KeepSingleDash("2.5", b3);
    KeepSingleDash("m gemini", b2);
    KeepSingleDash("y ", b1);
  }

  /** The flags of the built command are kept by the fallback rewrite. */
  lemma KeepFlashFlag(b: string)
    ensures FallbackCommand(FlashFlag + b) == FlashFlag + FallbackCommand(b)
  {
    KeepFlashFlagPieces(b);
    FlashFlagPieces();
    assert FlashFlag + b == "-" + "y " + ("-" + "m gemini" + ("-" + "2.5" + ("-" + "flash " + b)));
    assert FlashFlag + FallbackCommand(b)
        == "-" + "y " + ("-" + "m gemini" + ("-" + "2.5" + ("-" + "flash " + FallbackCommand(b))));
  }

  /**
   * The built command, cut where the proofs below need it. The literals are
   * split into short pieces (`"t" + "hen ..."`, `"-" + "m gemini"`) so that the
   * rewrite lemmas can walk the command one piece at a time.
   */
  lemma BuildCommandPieces(prompt: string, srcFile: string)
    ensures BuildCommand(prompt, srcFile) ==
      "gemini '" + (FlashFlag + ("\"Please follow the prompt " + ("step by step in the xml " + ("@" +
        (prompt + " " + ("t" + ("hen follow the " + ("instructions outlined " + ("in the xml using @" +
          (srcFile + ("\"" + "'")))))))))))
  {
    var tail := srcFile + ("\"" + "'");
    var middle := "hen follow the " + ("instructions outlined " + ("in the xml using @" + tail));
    assert " then follow the " == " " + "t" + "hen follow the ";
    assert Instruction(prompt, srcFile) + "'"
        == "\"Please follow the prompt " + ("step by step in the xml " + ("@" + (prompt + " " + ("t" + middle))));
  }

  lemma KeepCommandEnd(srcFile: string)
    requires !Contains(srcFile, YoloFlag)
    ensures FallbackCommand(srcFile + ("\"" + "'")) == srcFile + ("\"" + "'")
  {
    assert srcFile + ("\"" + "'") == srcFile + ['"'] + "'";
    ReplaceSeparator(srcFile, '"', "'", YoloFlag, FlashFlag);
    ReplaceAbsent(srcFile, YoloFlag, FlashFlag);
    KeepDashFree("'", []);
  }

  lemma KeepCommandMiddle(x: string)
    ensures FallbackCommand("hen follow the " + ("instructions outlined " + ("in the xml using @" + x)))
         == "hen follow the " + ("instructions outlined " + ("in the xml using @" + FallbackCommand(x)))
  {
    KeepDashFree("in the xml using @", x);
    KeepDashFree("instructions outlined ", "in the xml using @" + x);
    KeepDashFree("hen follow the ", "instructions outlined " + ("in the xml using @" + x));
  }

  lemma KeepPrompt(prompt: string, x: string)
    requires !Contains(prompt + " ", YoloFlag)
    ensures FallbackCommand(prompt + " " + ("t" + x)) == prompt + " " + ("t" + FallbackCommand(x))
  {
    assert prompt + " " + ("t" + x) == (prompt + " ") + ['t'] + x;
    ReplaceSeparator(prompt + " ", 't', x, YoloFlag, FlashFlag);
    ReplaceAbsent(prompt + " ", YoloFlag, FlashFlag);
  }

  lemma KeepCommandHead(x: string)
    ensures FallbackCommand("gemini '" + (FlashFlag + ("\"Please follow the prompt " + ("step by step in the xml " + ("@" + x)))))
         == "gemini '" + (FlashFlag + ("\"Please follow the prompt " + ("step by step in the xml " + ("@" + FallbackCommand(x)))))
  {
    var x2 := "step by step in the xml " + ("@" + x);
    var x1 := "\"Please follow the prompt " + x2;
    KeepDashFree("@", x);
    KeepDashFree("step by step in the xml ", "@" + x);
    KeepDashFree("\"Please follow the prompt ", x2);
    KeepFlashFlag(x1);
    KeepDashFree("gemini '", FlashFlag + x1);
  }

  /**
   * The fallback of a command built at line 158 is that same command
   * whenever the paths do not bring in `--yolo ` (the prompt path may not
   * end in `--yolo`, since a space follows it), so the retry repeats the
   * failed run unchanged.
   */
  lemma FallbackOfBuiltCommand(prompt: string, srcFile: string)
    requires !Contains(prompt + " ", YoloFlag) && !Contains(srcFile, YoloFlag)
    ensures FallbackCommand(BuildCommand(prompt, srcFile)) == BuildCommand(prompt, srcFile)
  {
    var tail := srcFile + ("\"" + "'");
    var middle := "hen follow the " + ("instructions outlined " + ("in the xml using @" + tail));
    var fromPrompt := prompt + " " + ("t" + middle);
    KeepCommandEnd(srcFile);
    KeepCommandMiddle(tail);
    KeepPrompt(prompt, middle);
    KeepCommandHead(fromPrompt);
    BuildCommandPieces(prompt, srcFile);
  }

  /**
   * On a command of the form at line 157 the rewrite does what it was
   * written for: `--yolo ` becomes the flash-model flags.
   */
  lemma FallbackOfYoloCommand(rest: string)
    ensures FallbackCommand("gemini " + (YoloFlag + ("-" + "p " + rest)))
         == "gemini " + (FlashFlag + ("-" + "p " + FallbackCommand(rest)))
  {
    var s := YoloFlag + ("-" + "p " + rest);
    assert StartsWith(s, YoloFlag);
    assert s[|YoloFlag|..] == "-" + "p " + rest;
    KeepSingleDash("p ", rest);
    KeepDashFree("gemini ", s);
  }

  /** The commands `run_gemini` starts, given the exit status of the first. */
  function Attempts(cmd: string, primaryStatus: int): seq<string> {
    if primaryStatus == 0 then [cmd] else [cmd, FallbackCommand(cmd)]
  }

  /**
   * At most two processes run; the fallback runs only after the primary
   * failed, and then it is the rewritten primary.
   */
  lemma AttemptsAtMostTwo(cmd: string, primaryStatus: int)
    ensures 1 <= |Attempts(cmd, primaryStatus)| <= 2
    ensures Attempts(cmd, primaryStatus)[0] == cmd
    ensures |Attempts(cmd, primaryStatus)| == 2 <==> primaryStatus != 0
    ensures primaryStatus != 0 ==> Attempts(cmd, primaryStatus)[1] == FallbackCommand(cmd)
  {
  }

  /** The processes started so far, with an oracle for their exit status. */
  class Shell {
    var history: seq<string>
    const exitStatus: (string, nat) -> int

    constructor (exitStatus: (string, nat) -> int)
      ensures history == [] && this.exitStatus == exitStatus
    {
      history := [];
      this.exitStatus := exitStatus;
    }

    /** `subprocess.run(cmd, shell=True)`: one more process, and its exit status. */
    method Run(cmd: string) returns (status: int)
      modifies this
      ensures history == old(history) + [cmd]
      ensures status == exitStatus(cmd, |old(history)|)
    {
      status := exitStatus(cmd, |history|);
      history := history + [cmd];
    }
  }

  /**
   * `run_gemini`: run the command; if it exits non-zero, run the fallback
   * once. The fallback's exit status is not checked, so nothing is reported.
   */
  method RunGemini(shell: Shell, cmd: string)
    modifies shell
    ensures shell.history == old(shell.history) + Attempts(cmd, shell.exitStatus(cmd, |old(shell.history)|))
  {
    var status := shell.Run(cmd);
    if status != 0 {
      var fallback := FallbackCommand(cmd);
      var _ := shell.Run(fallback);
    }
  }
}
