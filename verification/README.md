# quicknote-model-registry: selection logic in Dafny

`build_models_json.py` lists the models two providers offer (Groq and Gemini),
filters and sorts their identifiers, drops denied ones and writes a
`models.json` document. For each provider the document holds a `prefer` list,
a `deny` list and a default temperature. It also holds a version and a refresh
hint. This project models the pure part of that script and proves its
properties:

- `groq_models`: keep each truthy `id`, de-duplicate, sort.
- `gemini_models`: keep entries that support `generateContent` and whose name
  starts with `models/`. Strip the text up to the first `/`, de-duplicate, sort.
- `rank_prefer`: drop denied ids and keep the order. Fall back to a fixed list
  when nothing is left.
- `main`: build the document from the two ranked lists, the sorted deny sets
  and fixed constants.

Modules:

- `Wrappers` (`wrappers.dfy`): `Option`, for JSON keys that may be absent. `GetOr` is Python's `dict.get(key, default)`.
- `Lex` (`lex.dfy`): code-point lexicographic order on strings, which is how Python's `<` compares `str`. Also `SortSet`, which is `sorted(set(...))`, and the proof that a strictly increasing listing of a set is unique.
- `Ranking` (`ranking.dfy`): the list comprehension of `rank_prefer` (`Live`), and `RankPrefer`.
- `Discovery` (`discovery.dfy`): the parsed listings as datatypes, and the two extractors.
- `Registry` (`registry.dfy`): the constants, the document datatypes, and `BuildDocument`, which is `main` without I/O.
- `Scenarios` (`scenarios.dfy`): concrete inputs and the results they must give.

The API keys are parameters. The parsed body each endpoint would return is a
parameter too (`GroqListing`, `GeminiListing`). An extractor ignores that body
when its key is empty, because the script then makes no request. Temperatures
are stored as their decimal literal in tenths (`Tenths(1)` is 0.1).

## Model

| member | source | states |
|---|---|---|
| Lex.SortSet | build_models_json.py:19 | `sorted(set(...))`: the result is strictly increasing in code-point order, holds exactly the elements of the set, and has one entry per element |
| Lex.SortSetIsTheSortedListing | build_models_json.py:19 | any strictly increasing sequence with the set's elements is the sorted listing, so the sorted output is fully determined by its element set |
| Ranking.Live | build_models_json.py:41 | the comprehension keeps the candidates in order as a subsequence, keeps no denied id, and keeps every non-denied id exactly as often as it occurs |
| Ranking.LiveIsUnique | build_models_json.py:41 | any subsequence with those three properties is the comprehension's result |
| Ranking.RankPrefer | build_models_json.py:40-42 | if some candidate is not denied, the result is the candidates minus denied ids in their original order. If every candidate is denied, or there are none, the result is the fallback unchanged. The result is non-empty whenever the fallback is |
| Discovery.GroqIds | build_models_json.py:18 | the comprehension yields only non-empty ids. An id is in it exactly when some record has that id present and non-empty |
| Discovery.GroqModels | build_models_json.py:12-19 | an empty key gives `[]`. Otherwise the result is strictly increasing, has no empty id, and its elements are exactly the non-empty ids of the listing's `data` records (an absent `data` counts as empty) |
| Discovery.GroqModelsIsTheSortedIdListing | build_models_json.py:18-19 | with a key, any strictly increasing listing of the live ids equals `groq_models()` |
| Discovery.AfterFirstDropsModelsPrefix | build_models_json.py:31 | on a name starting with `models/`, `split("/",1)[1]` is defined and equals the name with its first 7 characters removed |
| Discovery.GeminiNames | build_models_json.py:26-31 | a string is appended exactly when some entry lists `generateContent` among its methods, has a name starting with `models/`, and has that string as its name minus the prefix |
| Discovery.GeminiModels | build_models_json.py:21-32 | an empty key gives `[]`. Otherwise the result is strictly increasing, and its elements are exactly the prefix-stripped names of qualifying entries |
| Discovery.GeminiModelsIsTheSortedNameListing | build_models_json.py:26-32 | with a key, any strictly increasing listing of the appended names equals `gemini_models()` |
| Registry.FallbacksAvoidDeny | build_models_json.py:34-38 | neither fallback list names a model its own provider denies |
| Registry.RankedPreferIsSorted | build_models_json.py:45-48 | on strictly increasing discovery output, `rank_prefer` gives the strictly increasing list of exactly the non-denied candidates whenever one exists, and the fallback unchanged otherwise |
| Registry.RankedFromDetermines | build_models_json.py:40-42 | that characterisation admits exactly one list, so it fixes `prefer` completely |
| Registry.ProviderEntry | build_models_json.py:53-62 | a provider entry's `prefer` is the sorted list of exactly the non-denied candidates when one exists, else the fallback. It is non-empty and free of denied ids. Its `deny` is the deny set as a strictly increasing list with the same elements |
| Registry.BuildDocument | build_models_json.py:44-65 | the document has version 1, `refresh_seconds` 86400 and temperatures 0.1 and 0.3. Each `prefer` is the sorted list of exactly the non-denied ids that provider's discovery returned when there is one, and its fallback otherwise. Both `prefer` lists are non-empty and free of denied ids. Both `deny` lists are sorted with the deny sets' elements. An empty key makes that provider's `prefer` its fallback exactly |
| Scenarios.DenyKeepsOrder | build_models_json.py:41-42 | candidates `a, b, c` with `b` denied rank as `a, c` |
| Scenarios.FullyDeniedFallsBack | build_models_json.py:42 | candidates `x` with `x` denied rank as the fallback |
| Scenarios.GroqDropsEmptyAndDuplicateIds | build_models_json.py:18-19 | ids `b`, absent, empty, `a`, `b` give `a, b` |
| Scenarios.GeminiFilter | build_models_json.py:27-32 | of `models/foo` (generateContent), `models/bar` (embedContent only) and `tunedModels/baz` (generateContent), only `foo` is kept |
| Scenarios.GeminiKeepsEmptySuffix | build_models_json.py:30-31 | a bare `models/` name that supports generateContent contributes the empty string. Gemini has no empty-name check, unlike Groq |
| Scenarios.LiveGroqListingIsPreferred | build_models_json.py:44-54 | a Groq listing with ids `mixtral-8x7b-32768`, `llama3-8b-8192`, `gemma2-9b-it` yields `prefer` `gemma2-9b-it, mixtral-8x7b-32768`: the denied id is dropped and the live ids are used, not the fallback |
| Scenarios.NoKeysDocument | build_models_json.py:44-65 | with both keys empty, the document has both fallback lists as `prefer`, the deny lists `llama3-8b-8192` and `gemini-1.5-flash`, version 1 and refresh 86400 |

## Left out

- `http_get` and the 12-second timeout are network I/O. What a request returns is passed in as an already-parsed listing.
- The environment variables `GROQ_API_KEY` and `GEMINI_API_KEY` are read at import time. The keys are passed in as parameters instead.
- `json.loads`: the model starts from parsed records. An `id` or `name` is either a string or absent. Python truthiness on other JSON values is not modelled, so a numeric or `null` id is not representable. A body that is not a JSON object, or a `data`/`models` value that is not a list, is not modelled either.
- Writing `models.json`, `json.dump` formatting (indentation, `ensure_ascii`) and the log line with the counts are file I/O and serialisation.
- The temperatures 0.1 and 0.3 are floats. They are kept only as decimal literals in tenths.
- Error recovery: the script has no `try`/`except`. A failed request, a bad status or malformed JSON raises out of `main`, and no file is written. The script has no per-provider catch and no fallback document, so the model claims no error recovery.
- Strings are sequences of Unicode scalar values. Python strings can also hold lone surrogate code points, which have no counterpart here.
- `set(supportedGenerationMethods)` is modelled as a sequence, because the script only tests membership in it.
