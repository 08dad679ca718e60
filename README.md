# tutor_agent: prompt templating and Gemini invocation, modelled in Dafny

`tutor_agent.py` turns a lecture document into LaTeX notes and a keyword
summary by handing it to the Gemini command-line tool. The part modelled
here is its templating and command composition:

- `update_metaprompt` derives the path of the resolved prompt. Every `.xml`
  in the template path becomes `_new.xml`. It points the run's `inputs`
  dictionary at that path, in place. It picks the token table for the task
  type. It then replaces `TXT_NAME`, `TXT_PATH`, `SRC_FILE`, `TEX_NAME` and
  `TEX_PATH` in the template text, one token after another, each by the
  input under the token's lower-case name.
- `generate_gemini_cmd` builds the shell command that names the resolved
  prompt and the source document.
- `run_gemini` runs the command. If it exits non-zero, it runs one fallback
  in which `--yolo ` is rewritten to `-y -m gemini-2.5-flash `.
- `main` calls these three in that order.

Modules:

- `Text` (text.dfy) models Python's `str.replace`, `str.count`, `str.split`,
  `str.join` and `str.lower`. `Replace` is proved to agree with
  `rep.join(s.split(pat))`, a Python identity; the pieces of the split
  contain no `pat` and rejoin to `s`.
- `Metaprompt` (metaprompt.dfy) models `update_metaprompt`. The inputs
  dictionary is the class `Inputs`, whose `entries` map is updated in place.
  The token loop is the method `SubstituteTokens`, proved against the
  function `Substitute`. `Resolve` states what the whole call raises or
  writes.
- `Gemini` (gemini.dfy) models `generate_gemini_cmd`, the fallback rewrite
  and `run_gemini`. The external process is a `Shell` object. It records
  every command it starts. Its exit status comes from an oracle function of
  the command and of the number of processes started before it.
- `TutorAgent` (tutor_agent.dfy) models `main` after argument parsing.

Quirks of the code that the model keeps (each is proved below):

- Only `pdf2tex` substitutes anything. `generate_tutor` and `hw_help` map to
  empty lists, so `.keys()` raises `AttributeError`. Any other task type
  raises `KeyError`. No task type passes the template through unchanged.
- `inputs['prompt_path']` is overwritten before the table is built. An
  exception raised afterwards leaves the dictionary already updated.
- The fallback's exit status is never checked (`subprocess.run` without
  `check=True`), so a failed fallback is not reported to the caller.
- The command built at line 158 already selects `gemini-2.5-flash` and has
  no `--yolo `. The fallback is therefore the same command, unless a path
  brings `--yolo ` in (`Gemini.FallbackOfBuiltCommand`). The rewrite only
  changes the form at the commented-out line 157
  (`Gemini.FallbackOfYoloCommand`).
- A template path without `.xml` resolves to itself
  (`Metaprompt.ResolvedPathUnchangedIff`). The resolved file then
  overwrites the template.

## Model

| member | source | states |
|---|---|---|
| `Text.Replace` | src/tutor_agent.py:117 | `str.replace`; its meaning is stated by `ReplaceIsJoinOfSplit`, `ReplaceAbsent`, `ReplaceLength` and `ReplaceSeparator` |
| `Text.Count` | src/tutor_agent.py:135 | `str.count`; `CountPositiveIff` ties it to the pattern occurring, `ReplaceLength` to the replaced length |
| `Text.Split` | src/tutor_agent.py:135 | `str.split`; one more piece than `Count`, pieces free of the pattern (`SplitPiecesFree`), rejoining to the text (`JoinSplitRoundTrip`) |
| `Text.Join` | src/tutor_agent.py:135 | `str.join`; `JoinSplitRoundTrip` and `ReplaceIsJoinOfSplit` state what it gives on a split |
| `Text.Lower` | src/tutor_agent.py:135 | `str.lower` on ASCII; `LowerTokensAreKeys` gives its value on the five tokens |
| `Text.ReplaceAbsent` | src/tutor_agent.py:135 | text in which the pattern does not occur is returned unchanged by `str.replace` |
| `Text.ReplaceLength` | src/tutor_agent.py:135 | the result is longer by `count * (len(new) - len(old))` |
| `Text.CountPositiveIff` | src/tutor_agent.py:135 | the count of occurrences is positive exactly when the pattern occurs |
| `Text.ReplaceLongerChangesIff` | src/tutor_agent.py:117 | replacing by a longer string changes the text if and only if the pattern occurs |
| `Text.ReplaceSelf` | src/tutor_agent.py:135 | replacing a pattern by itself is the identity |
| `Text.ReplaceSeparator` | src/tutor_agent.py:135 | text on either side of a character absent from the pattern is replaced independently; no occurrence spans it |
| `Text.ReplaceFreePrefix` | src/tutor_agent.py:225 | a prefix without the pattern's first character is copied unchanged |
| `Text.ReplaceIsJoinOfSplit` | src/tutor_agent.py:135 | `s.replace(p, r) == r.join(s.split(p))` for all inputs |
| `Text.JoinSplitRoundTrip` | src/tutor_agent.py:135 | `p.join(s.split(p)) == s` |
| `Text.SplitPiecesFree` | src/tutor_agent.py:135 | no piece of `s.split(p)` contains `p`, so every occurrence is replaced |
| `Metaprompt.ResolvedPath` | src/tutor_agent.py:117 | the copy's path; `ResolvedPathUnchangedIff` and `ResolvedPathLength` state what it changes |
| `Metaprompt.Substitute` | src/tutor_agent.py:134-135 | the token loop as a fold; `Pdf2TexOrder`, `SubstituteAbsent`, `SubstituteAgree` and `SubstituteSeparator` state its meaning, `SubstituteTokens` is proved equal to it |
| `Metaprompt.Resolve` | src/tutor_agent.py:108-146 | what the whole call raises or writes; `ResolveSucceedsIff`, `ResolveOtherTaskFails` and `ResolveUntouched` state it, `UpdateMetaprompt` is proved equal to it |
| `Metaprompt.TaskTable` | src/tutor_agent.py:121-131 | `pdf2tex` maps to the five tokens, `generate_tutor` and `hw_help` to lists, every other name to nothing |
| `Metaprompt.LowerTokensAreKeys` | src/tutor_agent.py:122-128 | each token's `lower()` is the input key its table entry reads |
| `Metaprompt.MissingKey` | src/tutor_agent.py:122-128 | reports the first input key, in dict-literal order, that is missing (the `KeyError` Python raises), and none exactly when all are present |
| `Metaprompt.UpdatedInputs` | src/tutor_agent.py:116-118 | the same keys; only `prompt_path` changes, to the resolved path |
| `Metaprompt.ResolvedPathUnchangedIff` | src/tutor_agent.py:117 | the resolved path equals the template path if and only if it contains no `.xml` |
| `Metaprompt.ResolvedPathLength` | src/tutor_agent.py:117 | each `.xml` adds four characters to the resolved path |
| `Metaprompt.SubstituteTokens` | src/tutor_agent.py:133-135 | the loop computes `Substitute` of the template over the tokens in order |
| `Metaprompt.SubstituteSnoc` | src/tutor_agent.py:134-135 | substituting one more token rewrites the text produced so far |
| `Metaprompt.Pdf2TexOrder` | src/tutor_agent.py:121-135 | for `pdf2tex` the text is five global replaces, in the order `TXT_NAME`, `TXT_PATH`, `SRC_FILE`, `TEX_NAME`, `TEX_PATH` |
| `Metaprompt.SubstituteAbsent` | src/tutor_agent.py:134-135 | text containing none of the tokens comes out unchanged |
| `Metaprompt.SubstituteSeparator` | src/tutor_agent.py:134-135 | characters that are in no token are kept in place; the text around them is substituted independently |
| `Metaprompt.SubstituteAgree` | src/tutor_agent.py:135 | only the inputs under the tokens' lower-case names affect the result |
| `Metaprompt.SubstituteSequential` | src/tutor_agent.py:134-135 | substitution is sequential: a `txt_name` equal to `SRC_FILE` becomes the source path |
| `Metaprompt.UpdateMetaprompt` | src/tutor_agent.py:108-146 | updates the inputs in place to `UpdatedInputs`, then raises or writes exactly what `Resolve` says |
| `Metaprompt.ResolveSucceedsIff` | src/tutor_agent.py:108-146 | succeeds if and only if all keys are present and the task type is `pdf2tex`; then writes the substituted template to the resolved path |
| `Metaprompt.ResolveOtherTaskFails` | src/tutor_agent.py:129-134 | `generate_tutor` and `hw_help` raise `AttributeError`, any other task type raises `KeyError` with its name |
| `Metaprompt.ResolveUntouched` | src/tutor_agent.py:134-135 | a `pdf2tex` template without tokens is written out verbatim |
| `Gemini.BuildCommand` | src/tutor_agent.py:149-159 | `generate_gemini_cmd`; `BuildCommandLayout` and `BuildCommandInjective` state its layout and that it determines both paths |
| `Gemini.FallbackCommand` | src/tutor_agent.py:225 | the fallback rewrite; `FallbackUnchangedIff`, `FallbackOfBuiltCommand` and `FallbackOfYoloCommand` state what it changes |
| `Gemini.Attempts` | src/tutor_agent.py:216-227 | the commands `run_gemini` starts; `AttemptsAtMostTwo` states them, `RunGemini` is proved to start exactly them |
| `Gemini.BuildCommandLayout` | src/tutor_agent.py:149-159 | the command is the fixed head, the prompt path, the fixed middle, the source path and the fixed tail; each path sits at its offset, the prompt first |
| `Gemini.BuildCommandInjective` | src/tutor_agent.py:153-158 | with the prompt length known, the command determines both paths |
| `Gemini.FallbackUnchangedIff` | src/tutor_agent.py:225 | the fallback differs from the primary if and only if the primary contains `--yolo ` |
| `Gemini.FallbackOfBuiltCommand` | src/tutor_agent.py:225 | for a command built at line 158 whose paths bring in no `--yolo `, the fallback is the primary itself |
| `Gemini.FallbackOfYoloCommand` | src/tutor_agent.py:157 | on the commented-out `gemini --yolo -p ...` form the rewrite swaps in the flash-model flags |
| `Gemini.AttemptsAtMostTwo` | src/tutor_agent.py:216-227 | one or two processes; the second runs exactly when the first failed, and it is the rewritten command |
| `Gemini.Shell.Run` | src/tutor_agent.py:218-220 | one more process is recorded, and its status is the oracle's answer |
| `Gemini.RunGemini` | src/tutor_agent.py:214-227 | the shell's history grows by exactly `Attempts` of the command and its exit status |
| `TutorAgent.RunTutorAgent` | src/tutor_agent.py:229-246 | an exception from `update_metaprompt` starts no process; otherwise the command names the resolved path and the source file, and runs with its fallback |

## Left out

- `parse_script_args` and `check_paths`: argument parsing and directory creation. `RunTutorAgent` takes the parsed dictionary as given.
- Reading the template with `cat`: the template text is a parameter. A missing file gives `cat` an error, and Python then reads an empty text; the model takes whatever text was read.
- Writing the resolved file with one `echo` per line: the shell expands `$`, backticks and quotes, so the bytes written are not a faithful copy. The model describes the written file abstractly, as `Resolved(path, text)`.
- `pdf_to_txt`: it uses foreign libraries and undefined names, and nothing calls it.
- `os.chdir`, printing, and the capture of standard output in `run_gemini`. The process itself is the exit-status oracle of `Shell`.
- Text.Replace: Python's behaviour for an empty pattern is not modelled (`Replace` requires a non-empty pattern). Every call in `tutor_agent.py` passes a non-empty literal.
- Text.Lower: models `str.lower()` on ASCII capitals only. It is applied only to the five ASCII tokens.
