/** The hosted language model (a `HuggingFaceHub` instance), seen as an oracle:
    generation is a fixed function of the prompt, token counting a fixed function
    of the text, and every generation request is recorded in a ghost log. */
module LanguageModel {

  /** The generation arguments every request in the pipeline passes. */
  const MAX_NEW_TOKENS: nat := 2048
  const REPETITION_PENALTY: real := 1.2

  /** One generation request: the prompt and the two keyword arguments. */
  datatype Call = Call(prompt: string, maxNewTokens: nat, repetitionPenalty: real)

  class Model {
    /** What the service answers to a prompt. */
    const complete: string -> string
    /** `get_num_tokens`. */
    const numTokens: string -> nat
    /** Every generation request issued so far, oldest first. */
    ghost var log: seq<Call>

    constructor (complete: string -> string, numTokens: string -> nat)
      ensures this.complete == complete && this.numTokens == numTokens
      ensures log == []
    {
      this.complete := complete;
      this.numTokens := numTokens;
      log := [];
    }

    /** `llm(prompt, max_new_tokens=..., repetition_penalty=...)`. */
    method Generate(prompt: string, maxNewTokens: nat, repetitionPenalty: real) returns (text: string)
      modifies this
      ensures text == complete(prompt)
      ensures log == old(log) + [Call(prompt, maxNewTokens, repetitionPenalty)]
    {
      text := complete(prompt);
      log := log + [Call(prompt, maxNewTokens, repetitionPenalty)];
    }

    /** `llm.get_num_tokens(text)`: asks nothing of the service and leaves the log alone. */
    method GetNumTokens(text: string) returns (n: nat)
      ensures n == numTokens(text)
    {
      n := numTokens(text);
    }
  }
}
