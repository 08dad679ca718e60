/**
 * `update_metaprompt` (src/tutor_agent.py): derive the path of the
 * resolved prompt, point the run's inputs at it, pick the token table for
 * the task type and substitute the tokens into the template text one after
 * another.
 *
 * Reading the template (through `cat`) and writing the resolved file
 * (through `echo`) are left out: the template text is a parameter and the
 * written file is described by the returned `Resolved` value.
 */
module Metaprompt {
  import opened Wrappers
  import opened Text

  /** Keys of the run's inputs dictionary. */
  const PromptPathKey: string := "prompt_path"
  const SrcFileKey: string := "src_file"
  const TaskTypeKey: string := "task_type"

  /** The tokens of the `pdf2tex` table, in the order the dictionary lists them. */
  const Pdf2TexTokens: seq<string> := ["TXT_NAME", "TXT_PATH", "SRC_FILE", "TEX_NAME", "TEX_PATH"]

  /** The input keys read while the table is built, in evaluation order. */
  const TableKeys: seq<string> := ["txt_name", "txt_path", "src_file", "tex_name", "tex_path"]

  /** A value of the task-type table: a token dictionary, or an empty list. */
  datatype TokenTable = TokenDict(tokens: seq<string>) | EmptyList

  /** The Python exceptions `update_metaprompt` can raise. */
  datatype Error =
    | KeyError(key: string)
    | AttributeError(owner: string, attribute: string)

  /** The resolved prompt file: where it is written and what it holds. */
  datatype Resolved = Resolved(path: string, text: string)

  /** The run's inputs dictionary, which `update_metaprompt` changes in place. */
  class Inputs {
    var entries: map<string, string>

    constructor (entries: map<string, string>)
      ensures this.entries == entries
    {
      this.entries := entries;
    }
  }

  /** Looking a task type up in the table. */
  function TaskTable(taskType: string): (t: Option<TokenTable>)
    ensures t == Some(TokenDict(Pdf2TexTokens)) <==> taskType == "pdf2tex"
    ensures t == Some(EmptyList) <==> taskType == "generate_tutor" || taskType == "hw_help"
    ensures t == None <==> taskType !in {"pdf2tex", "generate_tutor", "hw_help"}
  {
    if taskType == "pdf2tex" then Some(TokenDict(Pdf2TexTokens))
    else if taskType == "generate_tutor" || taskType == "hw_help" then Some(EmptyList)
    else None
  }

  /** The path of the resolved prompt: every `.xml` becomes `_new.xml`. */
  function ResolvedPath(promptPath: string): string {
    Replace(promptPath, ".xml", "_new.xml")
  }

  /** The inputs after the in-place update: only `prompt_path` changes. */
  function UpdatedInputs(entries: map<string, string>): (r: map<string, string>)
    ensures r.Keys == entries.Keys
    ensures forall k | k in entries && k != PromptPathKey :: r[k] == entries[k]
    ensures PromptPathKey in entries ==> r[PromptPathKey] == ResolvedPath(entries[PromptPathKey])
  {
    if PromptPathKey in entries then entries[PromptPathKey := ResolvedPath(entries[PromptPathKey])]
    else entries
  }

  /** The first of `keys` missing from `entries`, if any. */
  function MissingKey(entries: map<string, string>, keys: seq<string>): (r: Option<string>)
    ensures r == None <==> forall k | k in keys :: k in entries
    ensures r.Some? ==> r.value in keys && r.value !in entries
    ensures r.Some? ==>
      exists i | 0 <= i < |keys| :: keys[i] == r.value && forall j | 0 <= j < i :: keys[j] in entries
  {
    if keys == [] then None
    else if keys[0] !in entries then Some(keys[0])
    else MissingKey(entries, keys[1..])
  }

  /** Every token is non-empty and its lower-case form is an input key. */
  predicate Substitutable(tokens: seq<string>, values: map<string, string>) {
    forall i | 0 <= i < |tokens| :: tokens[i] != [] && Lower(tokens[i]) in values
  }

  /**
   * The substitution loop: replace every occurrence of the first token by
   * the input under its lower-case name, then go on with the rest.
   */
  function Substitute(text: string, tokens: seq<string>, values: map<string, string>): string
    requires Substitutable(tokens, values)
    decreases |tokens|
  {
    if tokens == [] then text
    else Substitute(Replace(text, tokens[0], values[Lower(tokens[0])]), tokens[1..], values)
  }

  lemma LowerTokensAreKeys()
    ensures |Pdf2TexTokens| == |TableKeys|
    ensures forall i | 0 <= i < |Pdf2TexTokens| :: Lower(Pdf2TexTokens[i]) == TableKeys[i]
  {
    assert Lower("TXT_NAME") == "txt_name";
    assert Lower("TXT_PATH") == "txt_path";
    assert Lower("SRC_FILE") == "src_file";
    assert Lower("TEX_NAME") == "tex_name";
    assert Lower("TEX_PATH") == "tex_path";
  }

  /** Once the table has been built, the `pdf2tex` tokens can be substituted. */
  lemma Pdf2TexSubstitutable(values: map<string, string>)
    requires MissingKey(values, TableKeys) == None
    ensures Substitutable(Pdf2TexTokens, values)
  {
    LowerTokensAreKeys();
    forall t | t in Pdf2TexTokens
      ensures t != [] && Lower(t) in values
    {
      var i :| 0 <= i < |Pdf2TexTokens| && Pdf2TexTokens[i] == t;
      assert TableKeys[i] in TableKeys;
    }
  }

  /**
   * What `update_metaprompt` produces from the inputs it is given: the
   * exception it raises, or the resolved file it writes.
   */
  function Resolve(entries: map<string, string>, template: string): Result<Resolved, Error> {
    if PromptPathKey !in entries then Err(KeyError(PromptPathKey))
    else
      var updated := UpdatedInputs(entries);
      match MissingKey(updated, TableKeys)
      case Some(k) => Err(KeyError(k))
      case None =>
        if TaskTypeKey !in updated then Err(KeyError(TaskTypeKey))
        else
          match TaskTable(updated[TaskTypeKey])
          case None => Err(KeyError(updated[TaskTypeKey]))
          case Some(EmptyList) => Err(AttributeError("list", "keys"))
          case Some(TokenDict(tokens)) =>
            Pdf2TexSubstitutable(updated);
            Ok(Resolved(updated[PromptPathKey], Substitute(template, tokens, updated)))
  }

  /**
   * `update_metaprompt`: the inputs object is updated in place first, then
   * the table is built and the tokens are substituted, so the update stays
   * even when a later step raises.
   */
  method UpdateMetaprompt(inputs: Inputs, template: string) returns (result: Result<Resolved, Error>)
    modifies inputs
    ensures inputs.entries == UpdatedInputs(old(inputs.entries))
    ensures result == Resolve(old(inputs.entries), template)
  {
    if PromptPathKey !in inputs.entries {
      return Err(KeyError(PromptPathKey));
    }
    var newPath := ResolvedPath(inputs.entries[PromptPathKey]);
    inputs.entries := inputs.entries[PromptPathKey := newPath];

    var missing := MissingKey(inputs.entries, TableKeys);
    if missing.Some? {
      return Err(KeyError(missing.value));
    }
    if TaskTypeKey !in inputs.entries {
      return Err(KeyError(TaskTypeKey));
    }
    var taskType := inputs.entries[TaskTypeKey];
    var table := TaskTable(taskType);
    if table.None? {
      return Err(KeyError(taskType));
    }
    if table.value.EmptyList? {
      return Err(AttributeError("list", "keys"));
    }

    Pdf2TexSubstitutable(inputs.entries);
    var prompt := SubstituteTokens(template, table.value.tokens, inputs.entries);
    return Ok(Resolved(newPath, prompt));
  }

  /** The `for` loop of `update_metaprompt`, rewriting the prompt token by token. */
  method SubstituteTokens(template: string, tokens: seq<string>, values: map<string, string>) returns (prompt: string)
    requires Substitutable(tokens, values)
    ensures prompt == Substitute(template, tokens, values)
  {
    prompt := template;
    var i := 0;
    while i < |tokens|
      invariant 0 <= i <= |tokens|
      invariant Substitutable(tokens[..i], values)
      invariant prompt == Substitute(template, tokens[..i], values)
    {
      var token := tokens[i];
      assert tokens[..i + 1] == tokens[..i] + [token];
      SubstituteSnoc(template, tokens[..i], token, values);
      prompt := Replace(prompt, token, values[Lower(token)]);
      i := i + 1;
    }
    assert tokens[..|tokens|] == tokens;
  }

  // ---------------------------------------------------------------------
  // The substitution loop

  /** Substituting one more token rewrites the text obtained so far. */
  lemma {:induction false} SubstituteSnoc(text: string, tokens: seq<string>, t: string, values: map<string, string>)
    requires Substitutable(tokens + [t], values)
    ensures Substitutable(tokens, values) && t != [] && Lower(t) in values
    ensures Substitute(text, tokens + [t], values) == Replace(Substitute(text, tokens, values), t, values[Lower(t)])
    decreases |tokens|
  {
    assert (tokens + [t])[|tokens|] == t;
    assert forall i | 0 <= i < |tokens| :: (tokens + [t])[i] == tokens[i];
    if tokens != [] {
      var next := Replace(text, tokens[0], values[Lower(tokens[0])]);
      assert (tokens + [t])[1..] == tokens[1..] + [t];
      SubstituteSnoc(next, tokens[1..], t, values);
    }
  }

  /** The `pdf2tex` table substitutes its five tokens in exactly this order. */
  lemma Pdf2TexOrder(text: string, values: map<string, string>)
    requires MissingKey(values, TableKeys) == None
    ensures Substitutable(Pdf2TexTokens, values)
    ensures Substitute(text, Pdf2TexTokens, values) ==
      Replace(Replace(Replace(Replace(Replace(text,
        "TXT_NAME", values["txt_name"]),
        "TXT_PATH", values["txt_path"]),
        "SRC_FILE", values["src_file"]),
        "TEX_NAME", values["tex_name"]),
        "TEX_PATH", values["tex_path"])
  {
    Pdf2TexSubstitutable(values);
    LowerTokensAreKeys();
    var ts := Pdf2TexTokens;
    assert ts[1..][1..][1..][1..][1..] == [];
  }

  /** Text that contains none of the tokens comes out unchanged. */
  lemma {:induction false} SubstituteAbsent(text: string, tokens: seq<string>, values: map<string, string>)
    requires Substitutable(tokens, values)
    requires forall t | t in tokens :: !Contains(text, t)
    ensures Substitute(text, tokens, values) == text
    decreases |tokens|
  {
    if tokens != [] {
      assert tokens[0] in tokens;
      ReplaceAbsent(text, tokens[0], values[Lower(tokens[0])]);
      SubstituteAbsent(text, tokens[1..], values);
    }
  }

  /**
   * Text on either side of a character that no token contains is
   * substituted independently, so such a character is never removed or
   * moved past other text. The inserted values may contain any character.
   */
  lemma {:induction false} SubstituteSeparator(a: string, c: char, b: string, tokens: seq<string>, values: map<string, string>)
    requires Substitutable(tokens, values)
    requires forall t | t in tokens :: c !in t
    ensures Substitute(a + [c] + b, tokens, values) ==
            Substitute(a, tokens, values) + [c] + Substitute(b, tokens, values)
    decreases |tokens|
  {
    if tokens != [] {
      var t := tokens[0];
      var v := values[Lower(t)];
      assert t in tokens;
      ReplaceSeparator(a, c, b, t, v);
      SubstituteSeparator(Replace(a, t, v), c, Replace(b, t, v), tokens[1..], values);
    }
  }

  /** Only the values under the tokens' lower-case names matter. */
  lemma {:induction false} SubstituteAgree(text: string, tokens: seq<string>, v1: map<string, string>, v2: map<string, string>)
    requires Substitutable(tokens, v1) && Substitutable(tokens, v2)
    requires forall t | t in tokens :: v1[Lower(t)] == v2[Lower(t)]
    ensures Substitute(text, tokens, v1) == Substitute(text, tokens, v2)
    decreases |tokens|
  {
    if tokens != [] {
      assert tokens[0] in tokens;
      SubstituteAgree(Replace(text, tokens[0], v1[Lower(tokens[0])]), tokens[1..], v1, v2);
    }
  }

  /**
   * Substitution is sequential, not simultaneous: a `txt_name` that is
   * itself the token `SRC_FILE` ends up as the source file's path, where a
   * simultaneous substitution would have left the text `SRC_FILE`.
   */
  lemma SubstituteSequential(values: map<string, string>)
    requires MissingKey(values, TableKeys) == None
    requires values["txt_name"] == "SRC_FILE"
    requires !Contains(values["src_file"], "TEX_NAME") && !Contains(values["src_file"], "TEX_PATH")
    ensures Substitutable(Pdf2TexTokens, values)
    ensures Substitute("TXT_NAME", Pdf2TexTokens, values) == values["src_file"]
  {
    Pdf2TexSubstitutable(values);
    Pdf2TexOrder("TXT_NAME", values);
    var src := values["src_file"];
    ReplaceWhole("TXT_NAME", "SRC_FILE");
    ContainsShort("SRC_FILE", "TXT_PATH");
    ReplaceAbsent("SRC_FILE", "TXT_PATH", values["txt_path"]);
    ReplaceWhole("SRC_FILE", src);
    ReplaceAbsent(src, "TEX_NAME", values["tex_name"]);
    ReplaceAbsent(src, "TEX_PATH", values["tex_path"]);
  }

  // ---------------------------------------------------------------------
  // The derived path

  /**
   * The resolved path is the prompt path itself exactly when the prompt
   * path has no `.xml` in it; the resolved file then overwrites the template.
   */
  lemma ResolvedPathUnchangedIff(promptPath: string)
    ensures ResolvedPath(promptPath) == promptPath <==> !Contains(promptPath, ".xml")
  {
    ReplaceLongerChangesIff(promptPath, ".xml", "_new.xml");
  }

  /** Every `.xml` in the prompt path grows by four characters. */
  lemma ResolvedPathLength(promptPath: string)
    ensures |ResolvedPath(promptPath)| == |promptPath| + 4 * Count(promptPath, ".xml")
  {
    ReplaceLength(promptPath, ".xml", "_new.xml");
  }

  // ---------------------------------------------------------------------
  // The whole operation

  /** All the keys `update_metaprompt` reads are present. */
  predicate HasRunKeys(entries: map<string, string>) {
    PromptPathKey in entries && TaskTypeKey in entries && forall k | k in TableKeys :: k in entries
  }

  /**
   * `update_metaprompt` succeeds exactly for a complete set of inputs whose
   * task type is `pdf2tex`; it then writes the template with the five
   * tokens substituted to the resolved path.
   */
  lemma ResolveSucceedsIff(entries: map<string, string>, template: string)
    ensures Resolve(entries, template).Ok? <==> HasRunKeys(entries) && entries[TaskTypeKey] == "pdf2tex"
    ensures Resolve(entries, template).Ok? ==>
      Substitutable(Pdf2TexTokens, entries) &&
      Resolve(entries, template).value ==
        Resolved(ResolvedPath(entries[PromptPathKey]), Substitute(template, Pdf2TexTokens, entries))
  {
    if HasRunKeys(entries) && entries[TaskTypeKey] == "pdf2tex" {
      var updated := UpdatedInputs(entries);
      LowerTokensAreKeys();
      Pdf2TexSubstitutable(entries);
      Pdf2TexSubstitutable(updated);
      forall t | t in Pdf2TexTokens
        ensures entries[Lower(t)] == updated[Lower(t)]
      {
        var i :| 0 <= i < |Pdf2TexTokens| && Pdf2TexTokens[i] == t;
        assert TableKeys[i] in TableKeys;
      }
      SubstituteAgree(template, Pdf2TexTokens, updated, entries);
    }
  }

  /**
   * Every other task type fails instead of passing the template through:
   * `generate_tutor` and `hw_help` map to lists, which have no `keys`, and
   * any other name is missing from the table.
   */
  lemma ResolveOtherTaskFails(entries: map<string, string>, template: string)
    requires HasRunKeys(entries) && entries[TaskTypeKey] != "pdf2tex"
    ensures Resolve(entries, template) ==
      if entries[TaskTypeKey] in {"generate_tutor", "hw_help"} then Err(AttributeError("list", "keys"))
      else Err(KeyError(entries[TaskTypeKey]))
  {
  }

  /** A `pdf2tex` template with none of the tokens is written out verbatim. */
  lemma ResolveUntouched(entries: map<string, string>, template: string)
    requires HasRunKeys(entries) && entries[TaskTypeKey] == "pdf2tex"
    requires forall t | t in Pdf2TexTokens :: !Contains(template, t)
    ensures Resolve(entries, template) == Ok(Resolved(ResolvedPath(entries[PromptPathKey]), template))
  {
    ResolveSucceedsIff(entries, template);
    Pdf2TexSubstitutable(entries);
    SubstituteAbsent(template, Pdf2TexTokens, entries);
  }
}
