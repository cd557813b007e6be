/**
 * Model discovery for the two providers, from the already-parsed listing
 * the provider's models endpoint returned. The request itself is not
 * modelled: the parsed body is a parameter, and it is ignored when the
 * provider's API key is empty, since no request is then made.
 */
module Discovery {
  import opened Wrappers
  import Lex

  /** One element of Groq's `data` array; `id` is absent when the key is missing. */
  datatype GroqModel = GroqModel(id: Option<string>)

  /** Groq's listing body; `data` is absent when the key is missing. */
  datatype GroqListing = GroqListing(data: Option<seq<GroqModel>>)

  /** One element of Gemini's `models` array. */
  datatype GeminiModel = GeminiModel(name: Option<string>, supportedGenerationMethods: Option<seq<string>>)

  /** Gemini's listing body. */
  datatype GeminiListing = GeminiListing(models: Option<seq<GeminiModel>>)

  const ModelsPrefix: string := "models/"
  const GenerateContent: string := "generateContent"

  /** Python truthiness of `m.get("id")` for a string id: present and non-empty. */
  predicate HasId(m: GroqModel)
  {
    m.id.Some? && m.id.value != ""
  }

  /** `[m.get("id","") for m in data if m.get("id")]`, in listing order. */
  function GroqIds(data: seq<GroqModel>): (ids: seq<string>)
    ensures forall i :: 0 <= i < |ids| ==> ids[i] != ""
    ensures forall x :: x in ids <==> exists j :: 0 <= j < |data| && HasId(data[j]) && data[j].id.value == x
  {
    if |data| == 0 then []
    else
      var rest := GroqIds(data[1..]);
      assert forall j :: 0 < j < |data| ==> data[j] == data[1..][j - 1];
      if HasId(data[0]) then [data[0].id.value] + rest else rest
  }

  /** `groq_models()`: the distinct non-empty ids, sorted; `[]` without a key. */
  function GroqModels(key: string, fetched: GroqListing): (r: seq<string>)
    ensures key == "" ==> r == []
    ensures Lex.StrictlySorted(r)
    ensures forall i :: 0 <= i < |r| ==> r[i] != ""
    ensures key != "" ==> forall x :: x in r <==>
              exists j :: 0 <= j < |fetched.data.GetOr([])| && HasId(fetched.data.GetOr([])[j])
                          && fetched.data.GetOr([])[j].id.value == x
  {
    if key == "" then []
    else
      var ids := GroqIds(fetched.data.GetOr([]));
      Lex.SortSet(set x | x in ids)
  }

  /** Index of the first occurrence of `c` in `s`. */
  function IndexOf(s: string, c: char): (i: nat)
    requires c in s
    ensures i < |s| && s[i] == c
    ensures forall j :: 0 <= j < i ==> s[j] != c
  {
    if s[0] == c then 0 else 1 + IndexOf(s[1..], c)
  }

  /** `s.split(sep, 1)[1]`: the text after the first `sep`. */
  function AfterFirst(s: string, sep: char): string
    requires sep in s
  {
    s[IndexOf(s, sep) + 1..]
  }

  /** On a `models/`-prefixed name, splitting once at `/` drops exactly the prefix. */
  lemma AfterFirstDropsModelsPrefix(name: string)
    requires ModelsPrefix <= name
    ensures '/' in name
    ensures AfterFirst(name, '/') == name[|ModelsPrefix|..]
  {
    assert name[6] == ModelsPrefix[6];
    assert forall j :: 0 <= j < 6 ==> name[j] == ModelsPrefix[j];
    var i := IndexOf(name, '/');
    assert i == 6;
  }

  /** The filter of `gemini_models()`: `generateContent` supported and a `models/` name. */
  predicate Qualifies(m: GeminiModel)
  {
    GenerateContent in m.supportedGenerationMethods.GetOr([]) && ModelsPrefix <= m.name.GetOr("")
  }

  /** The name of a qualifying entry with `models/` removed. */
  function Suffix(m: GeminiModel): string
    requires Qualifies(m)
  {
    m.name.GetOr("")[|ModelsPrefix|..]
  }

  /** The `out` list the loop of `gemini_models()` appends to, in listing order. */
  function GeminiNames(models: seq<GeminiModel>): (out: seq<string>)
    ensures forall x :: x in out <==> exists j :: 0 <= j < |models| && Qualifies(models[j]) && Suffix(models[j]) == x
  {
    if |models| == 0 then []
    else
      var m := models[0];
      var rest := GeminiNames(models[1..]);
      assert forall j :: 0 < j < |models| ==> models[j] == models[1..][j - 1];
      if Qualifies(m) then
        var name := m.name.GetOr("");
        AfterFirstDropsModelsPrefix(name);
        [AfterFirst(name, '/')] + rest
      else rest
  }

  /** `gemini_models()`: the distinct suffixes of qualifying entries, sorted;
      `[]` without a key. */
  function GeminiModels(key: string, fetched: GeminiListing): (r: seq<string>)
    ensures key == "" ==> r == []
    ensures Lex.StrictlySorted(r)
    ensures key != "" ==> forall x :: x in r <==>
              exists j :: 0 <= j < |fetched.models.GetOr([])| && Qualifies(fetched.models.GetOr([])[j])
                          && Suffix(fetched.models.GetOr([])[j]) == x
  {
    if key == "" then []
    else
      var out := GeminiNames(fetched.models.GetOr([]));
      Lex.SortSet(set x | x in out)
  }

  /** `groq_models()` is the only strictly increasing listing of the live ids. */
  lemma GroqModelsIsTheSortedIdListing(key: string, fetched: GroqListing, r: seq<string>)
    requires key != ""
    requires Lex.StrictlySorted(r)
    requires forall x :: x in r <==> x in GroqIds(fetched.data.GetOr([]))
    ensures r == GroqModels(key, fetched)
  {
    Lex.StrictlySortedUnique(r, GroqModels(key, fetched));
  }

  /** `gemini_models()` is the only strictly increasing listing of the qualifying suffixes. */
  lemma GeminiModelsIsTheSortedNameListing(key: string, fetched: GeminiListing, r: seq<string>)
    requires key != ""
    requires Lex.StrictlySorted(r)
    requires forall x :: x in r <==> x in GeminiNames(fetched.models.GetOr([]))
    ensures r == GeminiModels(key, fetched)
  {
    Lex.StrictlySortedUnique(r, GeminiModels(key, fetched));
  }
}
