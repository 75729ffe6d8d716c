/**
 * The blog listing page: the posts of the index, narrowed by the language
 * filter the reader picks, with an empty-state message when none remain.
 */
module BlogListing {
  import opened Text
  import opened Blog

  /** The filter: every post, or the posts of one language. */
  datatype Filter = All | Only(lang: Lang)

  /** `filteredPosts`: the input for "all", else the posts of that language. */
  function FilteredPosts(posts: seq<PostMeta>, filter: Filter): (r: seq<PostMeta>)
    ensures filter == All ==> r == posts
    ensures filter.Only? ==> forall p :: p in r <==> p in posts && p.lang == filter.lang
    ensures |r| <= |posts|
  {
    if filter == All then posts
    else
      OfLanguageMembers(posts, filter.lang);
      OfLanguage(posts, filter.lang)
  }

  /** The grid is replaced by the empty state when no post is left. */
  predicate ShowsEmptyState(posts: seq<PostMeta>, filter: Filter)
  {
    |FilteredPosts(posts, filter)| == 0
  }

  /** The empty state says more articles are coming, or names the language. */
  function EmptyMessage(filter: Filter): (message: string)
    ensures filter == All ==> message == "New articles coming soon!"
    ensures filter == Only(En) ==> message == "No English articles yet."
    ensures filter == Only(Fr) ==> message == "No French articles yet."
  {
    if filter == All then "New articles coming soon!"
    else "No " + (if filter.lang == En then "English" else "French") + " articles yet."
  }

  /** The empty state appears exactly when no post of the chosen language exists. */
  lemma EmptyStateIff(posts: seq<PostMeta>, filter: Filter)
    ensures filter == All ==> (ShowsEmptyState(posts, filter) <==> posts == [])
    ensures filter.Only? ==>
      (ShowsEmptyState(posts, filter) <==> forall p :: p in posts ==> p.lang != filter.lang)
  {
    if filter.Only? && !ShowsEmptyState(posts, filter) {
      assert FilteredPosts(posts, filter)[0] in FilteredPosts(posts, filter);
    }
  }

  /**
   * A language filter keeps the relative order of the posts it shows: they
   * sit at increasing positions of the input, and none of that language is
   * dropped.
   */
  lemma FilterKeepsOrder(posts: seq<PostMeta>, lang: Lang)
    ensures var r := FilteredPosts(posts, Only(lang)); var idx := KeptPositions(posts, lang);
      |idx| == |r| && Increasing(idx)
      && (forall k :: 0 <= k < |idx| ==> idx[k] < |posts| && r[k] == posts[idx[k]])
      && (forall j :: 0 <= j < |posts| && posts[j].lang == lang ==> j in idx)
  {
    OfLanguageSubsequence(posts, lang);
  }

  /** The English and French views together hold every post of "all". */
  lemma FiltersPartition(posts: seq<PostMeta>)
    ensures |FilteredPosts(posts, Only(En))| + |FilteredPosts(posts, Only(Fr))| == |FilteredPosts(posts, All)|
    ensures multiset(FilteredPosts(posts, Only(En))) + multiset(FilteredPosts(posts, Only(Fr)))
      == multiset(FilteredPosts(posts, All))
  {
    LanguagesPartition(posts);
  }

  /**
   * The page lists the index; a language filter then shows what
   * `getPostsByLanguage` returns for that language, still newest first.
   */
  lemma FilteredListingIsByLanguage(store: Store, lang: Lang, now: int)
    ensures FilteredPosts(AllPosts(store, now), Only(lang)) == PostsByLanguage(store, lang, now)
    ensures NewestFirst(FilteredPosts(AllPosts(store, now), Only(lang)))
  {
  }
}
