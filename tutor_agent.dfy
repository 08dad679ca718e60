/**
 * `main()` (src/tutor_agent.py) after argument parsing and directory
 * creation: resolve the prompt, build the command from the updated inputs,
 * run it with its fallback. An exception from `update_metaprompt` ends the
 * run before any process starts.
 */
module TutorAgent {
  import opened Wrappers
  import opened Metaprompt
  import opened Gemini

  /**
   * One run. On success the command names the resolved file just written
   * (never the template, unless the template path has no `.xml`) and the
   * source document, and the shell has started it, plus its fallback when
   * it failed.
   */
  method RunTutorAgent(inputs: Inputs, template: string, shell: Shell) returns (result: Result<string, Error>)
    modifies inputs, shell
    ensures inputs.entries == UpdatedInputs(old(inputs.entries))
    ensures match Resolve(old(inputs.entries), template)
      case Err(e) =>
        result == Err(e) && shell.history == old(shell.history)
      case Ok(resolved) =>
        var cmd := BuildCommand(resolved.path, old(inputs.entries)[SrcFileKey]);
        && SrcFileKey in old(inputs.entries)
        && resolved.path == ResolvedPath(old(inputs.entries)[PromptPathKey])
        && result == Ok(cmd)
        && shell.history == old(shell.history) + Attempts(cmd, shell.exitStatus(cmd, |old(shell.history)|))
  {
    ResolveSucceedsIff(old(inputs.entries), template);
    var resolved := UpdateMetaprompt(inputs, template);
    if resolved.Err? {
      return Err(resolved.error);
    }
    assert SrcFileKey in TableKeys;
    var cmd := BuildCommand(inputs.entries[PromptPathKey], inputs.entries[SrcFileKey]);
    RunGemini(shell, cmd);
    return Ok(cmd);
  }
}
