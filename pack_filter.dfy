/**
 * The picker's `filteredPacks`: the registry list narrowed by the language
 * buttons and then by the search box, in registry order.
 */
module PackFilter {
  import opened Wrappers
  import opened Text
  import opened Lists
  import opened Registry

  /** The languages with their own filter button; `"other"` means none of these. */
  const KnownLangs: seq<string> := ["en", "ru", "es", "fr", "cs", "pt-BR"]

  /** The language step: `"all"`, `"other"`, or an exact tag match. */
  function LangMatches(p: Pack, activeFilter: string): (r: bool)
    ensures activeFilter == "all" ==> r
    ensures activeFilter in KnownLangs ==> (r <==> p.language == Some(activeFilter))
  {
    assert "all" !in KnownLangs && "other" !in KnownLangs;
    if activeFilter == "all" then true
    else if activeFilter == "other" then p.language.GetOr("") !in KnownLangs
    else p.language == Some(activeFilter)
  }

  /** `(p.author && p.author.name) || ""` */
  function AuthorName(p: Pack): string
  {
    match p.author
    case Some(a) => a.name.GetOr("")
    case None => ""
  }

  /**
   * The searchable text of a pack, lower-cased: display name, name,
   * description, author and tags, separated by spaces.
   */
  function Haystack(p: Pack): (r: string)
    ensures OccursAt(r, Lower(p.displayName), 0)
    ensures OccursAt(r, Lower(p.name), |p.displayName| + 1)
  {
    var rest := [p.description.GetOr(""), AuthorName(p), Join(p.tags.GetOr([]), " ")];
    var fields := [p.displayName, p.name] + rest;
    var text := Join(fields, " ");
    assert fields[1..] == [p.name] + rest;
    assert ([p.name] + rest)[1..] == rest;
    assert text == p.displayName + " " + Join(fields[1..], " ");
    assert Join([p.name] + rest, " ") == p.name + " " + Join(rest, " ");
    assert text == p.displayName + " " + (p.name + " " + Join(rest, " "));
    assert OccursAt(text, p.displayName, 0) by {
      assert text[0..|p.displayName|] == p.displayName;
    }
    assert OccursAt(text, p.name, |p.displayName| + 1) by {
      assert text[|p.displayName| + 1..|p.displayName| + 1 + |p.name|] == p.name;
    }
    LowerOccurs(text, p.displayName, 0);
    LowerOccurs(text, p.name, |p.displayName| + 1);
    Lower(text)
  }

  /**
   * The search step; `query` is what the search box stores, already
   * lower-cased and trimmed by its input handler.
   */
  function SearchMatches(p: Pack, query: string): (r: bool)
    ensures query == "" ==> r
    ensures query == Lower(p.displayName) || query == Lower(p.name) ==> r
  {
    query == "" || Contains(Haystack(p), query)
  }

  /** A pack is shown when it passes both steps. */
  predicate Visible(p: Pack, activeFilter: string, query: string)
  {
    LangMatches(p, activeFilter) && SearchMatches(p, query)
  }

  /** `filteredPacks` */
  function FilteredPacks(packs: seq<Pack>, activeFilter: string, query: string): (r: seq<Pack>)
    ensures forall p :: p in r <==> p in packs && Visible(p, activeFilter, query)
    ensures Subsequence(r, packs)
    ensures r == Filter(packs, p => Visible(p, activeFilter, query))
  {
    var byLang := Filter(packs, p => LangMatches(p, activeFilter));
    FilterTwice(packs, p => LangMatches(p, activeFilter), p => SearchMatches(p, query),
                p => Visible(p, activeFilter, query));
    FilterIsSubsequence(packs, p => Visible(p, activeFilter, query));
    Filter(byLang, p => SearchMatches(p, query))
  }

  /** The "All" button with an empty search box shows the registry unchanged. */
  lemma AllWithoutQueryShowsEverything(packs: seq<Pack>)
    ensures FilteredPacks(packs, "all", "") == packs
  {
    FilterKeepsAll(packs, p => Visible(p, "all", ""));
  }

  /** Filtering a registry that is two lists joined filters each list: order is preserved. */
  lemma FilterKeepsOrder(xs: seq<Pack>, ys: seq<Pack>, activeFilter: string, query: string)
    ensures FilteredPacks(xs + ys, activeFilter, query)
         == FilteredPacks(xs, activeFilter, query) + FilteredPacks(ys, activeFilter, query)
  {
    FilterAppend(xs, ys, p => Visible(p, activeFilter, query));
  }

  /** "Other" shows exactly the packs whose tag (missing read as "") is none of the known languages. */
  lemma OtherShowsUnknownLanguages(packs: seq<Pack>, p: Pack)
    ensures p in FilteredPacks(packs, "other", "") <==> p in packs && p.language.GetOr("") !in KnownLangs
  {
  }

  /**
   * The "Other" button shows exactly the packs that no language button
   * shows: the six buttons and "Other" split the registry between them.
   */
  lemma OtherIsTheRest(p: Pack)
    ensures LangMatches(p, "other") <==> forall lang :: lang in KnownLangs ==> !LangMatches(p, lang)
  {
    assert "" !in KnownLangs;
    if !LangMatches(p, "other") {
      var lang := p.language.GetOr("");
      assert lang in KnownLangs && LangMatches(p, lang);
    }
  }

  /** An untagged pack is hidden by every single-language button and shown by "other". */
  lemma UntaggedPack(packs: seq<Pack>, p: Pack, activeFilter: string, query: string)
    requires p.language == None
    ensures activeFilter != "all" && activeFilter != "other" ==> p !in FilteredPacks(packs, activeFilter, query)
    ensures p in packs && SearchMatches(p, query) ==> p in FilteredPacks(packs, "other", query)
  {
    assert "" !in KnownLangs;
  }

  /** A non-empty query shows a pack exactly when the query occurs in its lower-cased text. */
  lemma QueryMatchesSubstring(packs: seq<Pack>, p: Pack, query: string)
    requires query != "" && p in packs
    ensures p in FilteredPacks(packs, "all", query) <==>
            exists i :: OccursAt(Haystack(p), query, i)
  {
  }
}
