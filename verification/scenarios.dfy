/**
 * Concrete instances of the selection logic: the behaviours the registry
 * promises for particular discovery results.
 */
module Scenarios {
  import opened Wrappers
  import Lex
  import Ranking
  import Discovery
  import Registry

  /** Denying the middle candidate keeps the other two in order. */
  lemma DenyKeepsOrder(fallback: seq<string>)
    ensures Ranking.RankPrefer(["a", "b", "c"], {"b"}, fallback) == ["a", "c"]
  {
  }

  /** A discovery result that is entirely denied yields the fallback list. */
  lemma FullyDeniedFallsBack(fallback: seq<string>)
    ensures Ranking.RankPrefer(["x"], {"x"}, fallback) == fallback
  {
  }

  /** Groq drops missing and empty ids, and duplicates, and sorts the rest. */
  lemma GroqDropsEmptyAndDuplicateIds()
    ensures Discovery.GroqModels("key", Discovery.GroqListing(Some([
              Discovery.GroqModel(Some("b")), Discovery.GroqModel(None),
              Discovery.GroqModel(Some("")), Discovery.GroqModel(Some("a")),
              Discovery.GroqModel(Some("b"))]))) == ["a", "b"]
  {
    var data := [
              Discovery.GroqModel(Some("b")), Discovery.GroqModel(None),
              Discovery.GroqModel(Some("")), Discovery.GroqModel(Some("a")),
              Discovery.GroqModel(Some("b"))];
    var r := Discovery.GroqModels("key", Discovery.GroqListing(Some(data)));
    forall x
      ensures x in r <==> x in ["a", "b"]
    {
      if x in r {
        var j :| 0 <= j < |data| && Discovery.HasId(data[j]) && data[j].id.value == x;
        assert j == 0 || j == 3 || j == 4;
      }
      if x == "a" {
        assert Discovery.HasId(data[3]);
      } else if x == "b" {
        assert Discovery.HasId(data[0]);
      }
    }
    assert Lex.Less("a", "b");
    Lex.StrictlySortedUnique(r, ["a", "b"]);
  }

  /** Only a `models/` entry that supports `generateContent` survives, stripped. */
  lemma GeminiFilter()
    ensures Discovery.GeminiModels("key", Discovery.GeminiListing(Some([
              Discovery.GeminiModel(Some("models/foo"), Some(["generateContent"])),
              Discovery.GeminiModel(Some("models/bar"), Some(["embedContent"])),
              Discovery.GeminiModel(Some("tunedModels/baz"), Some(["generateContent"]))]))) == ["foo"]
  {
    var models := [
              Discovery.GeminiModel(Some("models/foo"), Some(["generateContent"])),
              Discovery.GeminiModel(Some("models/bar"), Some(["embedContent"])),
              Discovery.GeminiModel(Some("tunedModels/baz"), Some(["generateContent"]))];
    assert Discovery.Qualifies(models[0]) && Discovery.Suffix(models[0]) == "foo";
    assert !Discovery.Qualifies(models[1]);
    assert Discovery.ModelsPrefix[0] != "tunedModels/baz"[0];
    Lex.StrictlySortedUnique(Discovery.GeminiModels("key", Discovery.GeminiListing(Some(models))), ["foo"]);
  }

  /** Unlike Groq, Gemini keeps an empty suffix: a bare `models/` name yields `""`. */
  lemma GeminiKeepsEmptySuffix()
    ensures Discovery.GeminiModels("key", Discovery.GeminiListing(Some([
              Discovery.GeminiModel(Some("models/"), Some(["generateContent"]))]))) == [""]
  {
    var models := [Discovery.GeminiModel(Some("models/"), Some(["generateContent"]))];
    assert Discovery.Qualifies(models[0]) && Discovery.Suffix(models[0]) == "";
    Lex.StrictlySortedUnique(Discovery.GeminiModels("key", Discovery.GeminiListing(Some(models))), [""]);
  }

  /** With neither key set, the document is the fixed fallback document. */
  lemma NoKeysDocument(groqFetched: Discovery.GroqListing, geminiFetched: Discovery.GeminiListing)
    ensures Registry.BuildDocument("", groqFetched, "", geminiFetched) ==
            Registry.ModelsDocument(1,
              Registry.ProviderConfig(["llama-3.3-70b-versatile", "llama-3.1-8b-instant"], ["llama3-8b-8192"], Registry.Tenths(1)),
              Registry.ProviderConfig(["gemini-2.0-flash", "gemini-2.0-pro"], ["gemini-1.5-flash"], Registry.Tenths(3)),
              86400)
  {
  }

  /** A live Groq listing is used: the denied id is dropped and the rest
      become `prefer`, sorted. */
  lemma LiveGroqListingIsPreferred(geminiFetched: Discovery.GeminiListing)
    ensures Registry.BuildDocument("key", Discovery.GroqListing(Some([
              Discovery.GroqModel(Some("mixtral-8x7b-32768")), Discovery.GroqModel(Some("llama3-8b-8192")),
              Discovery.GroqModel(Some("gemma2-9b-it"))])), "", geminiFetched).groq.prefer
            == ["gemma2-9b-it", "mixtral-8x7b-32768"]
  {
    var data := [
              Discovery.GroqModel(Some("mixtral-8x7b-32768")), Discovery.GroqModel(Some("llama3-8b-8192")),
              Discovery.GroqModel(Some("gemma2-9b-it"))];
    var gm := Discovery.GroqModels("key", Discovery.GroqListing(Some(data)));
    GroqDiscoveryOfThree(data);
    var prefer := Registry.BuildDocument("key", Discovery.GroqListing(Some(data)), "", geminiFetched).groq.prefer;
    GroqRankingOfThree(prefer, gm);
  }

  /** The discovery step of `LiveGroqListingIsPreferred`: all three ids are live. */
  lemma GroqDiscoveryOfThree(data: seq<Discovery.GroqModel>)
    requires data == [
              Discovery.GroqModel(Some("mixtral-8x7b-32768")), Discovery.GroqModel(Some("llama3-8b-8192")),
              Discovery.GroqModel(Some("gemma2-9b-it"))]
    ensures forall x :: x in Discovery.GroqModels("key", Discovery.GroqListing(Some(data))) <==>
              x in ["mixtral-8x7b-32768", "llama3-8b-8192", "gemma2-9b-it"]
  {
    var gm := Discovery.GroqModels("key", Discovery.GroqListing(Some(data)));
    assert Discovery.HasId(data[0]) && Discovery.HasId(data[1]) && Discovery.HasId(data[2]);
    forall x
      ensures x in gm <==> x in ["mixtral-8x7b-32768", "llama3-8b-8192", "gemma2-9b-it"]
    {
      if x in gm {
        var j :| 0 <= j < |data| && Discovery.HasId(data[j]) && data[j].id.value == x;
        assert j == 0 || j == 1 || j == 2;
      }
    }
  }

  /** The ranking step of `LiveGroqListingIsPreferred`, on the discovered ids alone. */
  lemma GroqRankingOfThree(prefer: seq<string>, gm: seq<string>)
    requires forall x :: x in gm <==> x in ["mixtral-8x7b-32768", "llama3-8b-8192", "gemma2-9b-it"]
    requires Registry.RankedFrom(prefer, gm, Registry.GroqDeny, Registry.GroqFallback)
    ensures prefer == ["gemma2-9b-it", "mixtral-8x7b-32768"]
  {
    assert "gemma2-9b-it" in gm;
    var k :| 0 <= k < |gm| && gm[k] == "gemma2-9b-it";
    assert gm[k] !in Registry.GroqDeny;
    forall x
      ensures x in prefer <==> x in ["gemma2-9b-it", "mixtral-8x7b-32768"]
    {
    }
    assert Lex.Less("gemma2-9b-it", "mixtral-8x7b-32768");
    Lex.StrictlySortedUnique(prefer, ["gemma2-9b-it", "mixtral-8x7b-32768"]);
  }
}
