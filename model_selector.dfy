/** The short label of a model identifier (`getShortName` in src/components/ModelSelector.tsx). */
module ModelSelector {
  import opened Text

  predicate IsSlash(c: char)
  {
    c == '/'
  }

  /** `model.split('/')` followed by its last element: the text after the last `/`. */
  function ModelName(model: string): (r: string)
    ensures NoneSatisfy(r, IsSlash)
    ensures NoneSatisfy(model, IsSlash) ==> r == model
  {
    AfterLast(model, IsSlash)
  }

  /** The model name contains the keyword. */
  predicate Mentions(model: string, keyword: string)
  {
    Contains(ModelName(model), keyword)
  }

  /**
   * `getShortName`: the first of "mistral", "gpt", "kimi", "qwen" that the
   * model name contains picks the label; with none, the name itself.
   */
  function GetShortName(model: string): (r: string)
    ensures Mentions(model, "mistral") ==> r == "Mistral"
    ensures (!Mentions(model, "mistral") && Mentions(model, "gpt")) ==> r == "GPT-4.1"
    ensures (!Mentions(model, "mistral") && !Mentions(model, "gpt") && Mentions(model, "kimi")) ==> r == "Kimi K2"
    ensures (!Mentions(model, "mistral") && !Mentions(model, "gpt") && !Mentions(model, "kimi")
             && Mentions(model, "qwen")) ==> r == "Qwen3"
    ensures (!Mentions(model, "mistral") && !Mentions(model, "gpt") && !Mentions(model, "kimi")
             && !Mentions(model, "qwen")) ==> r == ModelName(model)
    ensures ModelName(model) != [] ==> r != []
    ensures r in {"Mistral", "GPT-4.1", "Kimi K2", "Qwen3", ModelName(model)}
  {
    var name := ModelName(model);
    if Contains(name, "mistral") then "Mistral"
    else if Contains(name, "gpt") then "GPT-4.1"
    else if Contains(name, "kimi") then "Kimi K2"
    else if Contains(name, "qwen") then "Qwen3"
    else name
  }

  /** Only the last path segment matters: a provider prefix does not change the label. */
  lemma ShortNameOfPath(prefix: string, name: string)
    requires prefix != [] && IsSlash(prefix[|prefix| - 1])
    requires NoneSatisfy(name, IsSlash)
    ensures GetShortName(prefix + name) == GetShortName(name)
  {
    AfterLastSeparator(prefix, IsSlash, name);
  }
}
