/**
 * The models document `main()` assembles: each provider's ranked
 * preference list, its deny list in sorted order, its default temperature,
 * and the fixed version and refresh hint.
 */
module Registry {
  import opened Wrappers
  import Lex
  import Ranking
  import Discovery

  const GroqDeny: set<string> := {"llama3-8b-8192"}
  const GeminiDeny: set<string> := {"gemini-1.5-flash"}

  const GroqFallback: seq<string> := ["llama-3.3-70b-versatile", "llama-3.1-8b-instant"]
  const GeminiFallback: seq<string> := ["gemini-2.0-flash", "gemini-2.0-pro"]

  const DocumentVersion: int := 1
  const RefreshSeconds: int := 86400

  /** A decimal sampling temperature, kept as its literal in tenths (0.1 is `Tenths(1)`). */
  datatype Temperature = Tenths(n: nat)

  /** One entry of `providers`. */
  datatype ProviderConfig = ProviderConfig(prefer: seq<string>, deny: seq<string>, defaultTemperature: Temperature)

  /** The payload; the `providers` object always has exactly the keys `groq` and `gemini`. */
  datatype ModelsDocument = ModelsDocument(version: int, groq: ProviderConfig, gemini: ProviderConfig, refreshSeconds: int)

  /** A provider's `prefer` list is what `rank_prefer` makes of sorted
      candidates: when some candidate is not denied, the sorted list of
      exactly the non-denied candidates; otherwise the fallback unchanged. */
  ghost predicate RankedFrom(prefer: seq<string>, candidates: seq<string>, deny: set<string>, fallback: seq<string>)
  {
    if exists i :: 0 <= i < |candidates| && candidates[i] !in deny then
      && Lex.StrictlySorted(prefer)
      && (forall x :: x in prefer <==> x in candidates && x !in deny)
    else
      prefer == fallback
  }

  /** `RankedFrom` leaves no choice: at most one list satisfies it. */
  lemma RankedFromDetermines(p: seq<string>, q: seq<string>, candidates: seq<string>,
                             deny: set<string>, fallback: seq<string>)
    requires RankedFrom(p, candidates, deny, fallback) && RankedFrom(q, candidates, deny, fallback)
    ensures p == q
  {
    if exists i :: 0 <= i < |candidates| && candidates[i] !in deny {
      Lex.StrictlySortedUnique(p, q);
    }
  }

  /** One `providers` entry: `rank_prefer` over the discovered candidates,
      and the deny set as a sorted list. */
  function ProviderEntry(candidates: seq<string>, deny: set<string>, fallback: seq<string>,
                         temperature: Temperature): (c: ProviderConfig)
    requires Lex.StrictlySorted(candidates)
    requires |fallback| > 0
    requires forall i :: 0 <= i < |fallback| ==> fallback[i] !in deny
    ensures c.defaultTemperature == temperature
    ensures Lex.StrictlySorted(c.deny) && (forall x :: x in c.deny <==> x in deny)
    ensures |c.prefer| > 0
    ensures forall i :: 0 <= i < |c.prefer| ==> c.prefer[i] !in deny
    ensures RankedFrom(c.prefer, candidates, deny, fallback)
    ensures (forall i :: 0 <= i < |candidates| ==> candidates[i] in deny) ==> c.prefer == fallback
  {
    var prefer := Ranking.RankPrefer(candidates, deny, fallback);
    RankedPreferIsSorted(candidates, deny, fallback);
    ProviderConfig(prefer, Lex.SortSet(deny), temperature)
  }

  /** `main()` without the file write and the log line: the document built
      from the keys and what each provider's endpoint returned. */
  function BuildDocument(groqKey: string, groqFetched: Discovery.GroqListing,
                         geminiKey: string, geminiFetched: Discovery.GeminiListing): (doc: ModelsDocument)
    ensures doc.version == 1 && doc.refreshSeconds == 86400
    ensures doc.groq.defaultTemperature == Tenths(1) && doc.gemini.defaultTemperature == Tenths(3)
    ensures Lex.StrictlySorted(doc.groq.deny) && (forall x :: x in doc.groq.deny <==> x in GroqDeny)
    ensures Lex.StrictlySorted(doc.gemini.deny) && (forall x :: x in doc.gemini.deny <==> x in GeminiDeny)
    ensures |doc.groq.prefer| > 0 && |doc.gemini.prefer| > 0
    ensures forall i :: 0 <= i < |doc.groq.prefer| ==> doc.groq.prefer[i] !in GroqDeny
    ensures forall i :: 0 <= i < |doc.gemini.prefer| ==> doc.gemini.prefer[i] !in GeminiDeny
    ensures groqKey == "" ==> doc.groq.prefer == GroqFallback
    ensures geminiKey == "" ==> doc.gemini.prefer == GeminiFallback
    ensures RankedFrom(doc.groq.prefer, Discovery.GroqModels(groqKey, groqFetched), GroqDeny, GroqFallback)
    ensures RankedFrom(doc.gemini.prefer, Discovery.GeminiModels(geminiKey, geminiFetched), GeminiDeny, GeminiFallback)
  {
    FallbacksAvoidDeny();
    ModelsDocument(
      DocumentVersion,
      ProviderEntry(Discovery.GroqModels(groqKey, groqFetched), GroqDeny, GroqFallback, Tenths(1)),
      ProviderEntry(Discovery.GeminiModels(geminiKey, geminiFetched), GeminiDeny, GeminiFallback, Tenths(3)),
      RefreshSeconds)
  }

  /** Neither fallback list names a model its provider denies. */
  lemma FallbacksAvoidDeny()
    ensures forall i :: 0 <= i < |GroqFallback| ==> GroqFallback[i] !in GroqDeny
    ensures forall i :: 0 <= i < |GeminiFallback| ==> GeminiFallback[i] !in GeminiDeny
  {
  }

  /** `rank_prefer` over strictly sorted discovery output meets `RankedFrom`. */
  lemma RankedPreferIsSorted(candidates: seq<string>, deny: set<string>, fallback: seq<string>)
    requires Lex.StrictlySorted(candidates)
    ensures RankedFrom(Ranking.RankPrefer(candidates, deny, fallback), candidates, deny, fallback)
  {
    var r := Ranking.RankPrefer(candidates, deny, fallback);
    if exists i :: 0 <= i < |candidates| && candidates[i] !in deny {
      Ranking.SubseqOfSorted(r, candidates);
      forall x | x in candidates && x !in deny
        ensures x in r
      {
        assert multiset(candidates)[x] > 0;
      }
    }
  }
}
