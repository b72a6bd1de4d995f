/**
 * The slug reverse mapping: an index from every article's slug to the
 * article. The articles are first grouped by slug; a slug shared by several
 * articles is reported with the file paths of all of them, and the index is
 * written only when no slug is shared.
 */
module SlugReverseMapping {
  import opened Wrappers
  import opened Io
  import opened ParseArticles
  import opened IndexFiles
  import Seqs

  type Article = ParsedArticleWithMetadata

  /** A slug used by more than one article, with the file paths of those articles. */
  datatype DuplicateSlugError = DuplicateSlugError(slug: string, filePaths: seq<string>)

  datatype SlugReverseMappingError =
    | CannotCreateIndexParentDirectory(error: IoError)
    | DuplicateSlugs(duplicates: seq<DuplicateSlugError>)
    | CannotWriteSlugReverseMapping(slugReverseMappingIndexPath: string, error: IoError)

  function Slugs(articles: seq<Article>): (slugs: seq<string>)
    ensures |slugs| == |articles|
    ensures forall i :: 0 <= i < |articles| ==> slugs[i] == articles[i].metadata.slug
  {
    seq(|articles|, i requires 0 <= i < |articles| => articles[i].metadata.slug)
  }

  function FilePaths(articles: seq<Article>): (paths: seq<string>)
    ensures |paths| == |articles|
    ensures forall i :: 0 <= i < |articles| ==> paths[i] == articles[i].filePath
  {
    seq(|articles|, i requires 0 <= i < |articles| => articles[i].filePath)
  }

  /** The articles with slug `slug`, in input order. */
  function SameSlug(articles: seq<Article>, slug: string): seq<Article>
  {
    if articles == [] then []
    else
      var last := articles[|articles| - 1];
      SameSlug(articles[..|articles| - 1], slug) + (if last.metadata.slug == slug then [last] else [])
  }

  /** The duplicate errors of the slugs in `order`, in that order. */
  function DuplicatesAmong(order: seq<string>, articles: seq<Article>): seq<DuplicateSlugError>
  {
    if order == [] then []
    else
      var slug := order[|order| - 1];
      var same := SameSlug(articles, slug);
      DuplicatesAmong(order[..|order| - 1], articles)
      + (if |same| == 1 then [] else [DuplicateSlugError(slug, FilePaths(same))])
  }

  /** The mapping from each slug that is used once to its article. */
  function UniqueMapping(articles: seq<Article>): map<string, Article>
  {
    map slug | slug in Slugs(articles) && |SameSlug(articles, slug)| == 1 :: SameSlug(articles, slug)[0]
  }

  /**
   * The outcome the grouping defines: the duplicate errors of the slugs in
   * order of first use, if any, and otherwise the mapping.
   */
  function ReverseMapping(articles: seq<Article>): Result<map<string, Article>, seq<DuplicateSlugError>>
  {
    var duplicates := DuplicatesAmong(Seqs.Dedup(Slugs(articles)), articles);
    if |duplicates| > 0 then Failure(duplicates) else Success(UniqueMapping(articles))
  }

  lemma SlugsSnoc(articles: seq<Article>, a: Article)
    ensures Slugs(articles + [a]) == Slugs(articles) + [a.metadata.slug]
  {
  }

  lemma SameSlugSnoc(articles: seq<Article>, a: Article, slug: string)
    ensures SameSlug(articles + [a], slug) == SameSlug(articles, slug) + (if a.metadata.slug == slug then [a] else [])
  {
    assert (articles + [a])[..|articles|] == articles;
  }

  /** The slugs and groups that the articles in `prefix` give. */
  ghost predicate Grouped(order: seq<string>, groups: map<string, seq<Article>>, prefix: seq<Article>)
  {
    && order == Seqs.Dedup(Slugs(prefix))
    && (forall slug :: slug in groups <==> slug in Slugs(prefix))
    && GroupsHold(groups, prefix)
  }

  ghost predicate GroupsHold(groups: map<string, seq<Article>>, prefix: seq<Article>)
  {
    forall slug :: slug in groups ==> groups[slug] == SameSlug(prefix, slug)
  }

  /** A slug none of the articles uses has no articles. */
  lemma {:induction false} SameSlugOfUnused(articles: seq<Article>, slug: string)
    requires slug !in Slugs(articles)
    ensures SameSlug(articles, slug) == []
  {
    if articles != [] {
      var init := articles[..|articles| - 1];
      assert forall i :: 0 <= i < |init| ==> Slugs(init)[i] == Slugs(articles)[i];
      SameSlugOfUnused(init, slug);
    }
  }

  /** Appending `a` to the group of its slug keeps the groups right. */
  lemma AppendToGroup(groups: map<string, seq<Article>>, prefix: seq<Article>, a: Article)
    requires GroupsHold(groups, prefix) && a.metadata.slug in groups
    ensures GroupsHold(groups[a.metadata.slug := groups[a.metadata.slug] + [a]], prefix + [a])
  {
    forall s ensures SameSlug(prefix + [a], s) == SameSlug(prefix, s) + (if a.metadata.slug == s then [a] else []) {
      SameSlugSnoc(prefix, a, s);
    }
  }

  /** Starting the group of a new slug with `a` keeps the groups right. */
  lemma NewGroup(groups: map<string, seq<Article>>, prefix: seq<Article>, a: Article)
    requires GroupsHold(groups, prefix) && a.metadata.slug !in Slugs(prefix)
    ensures GroupsHold(groups[a.metadata.slug := [a]], prefix + [a])
  {
    forall s ensures SameSlug(prefix + [a], s) == SameSlug(prefix, s) + (if a.metadata.slug == s then [a] else []) {
      SameSlugSnoc(prefix, a, s);
    }
    SameSlugOfUnused(prefix, a.metadata.slug);
  }

  /** One step of the grouping loop, for a slug already seen. */
  lemma GroupSeen(order: seq<string>, groups: map<string, seq<Article>>, prefix: seq<Article>, a: Article)
    requires Grouped(order, groups, prefix) && a.metadata.slug in groups
    ensures Grouped(order, groups[a.metadata.slug := groups[a.metadata.slug] + [a]], prefix + [a])
  {
    SlugsSnoc(prefix, a);
    Seqs.DedupSnoc(Slugs(prefix), a.metadata.slug);
    AppendToGroup(groups, prefix, a);
  }

  /** One step of the grouping loop, for a new slug. */
  lemma GroupNew(order: seq<string>, groups: map<string, seq<Article>>, prefix: seq<Article>, a: Article)
    requires Grouped(order, groups, prefix) && a.metadata.slug !in groups
    ensures Grouped(order + [a.metadata.slug], groups[a.metadata.slug := [a]], prefix + [a])
  {
    SlugsSnoc(prefix, a);
    Seqs.DedupSnoc(Slugs(prefix), a.metadata.slug);
    NewGroup(groups, prefix, a);
  }

  /** The grouping loop's body: `a` is appended to the group of its slug, which is new or not. */
  method AddToGroup(order: seq<string>, groups: map<string, seq<Article>>, a: Article, ghost prefix: seq<Article>)
    returns (order': seq<string>, groups': map<string, seq<Article>>)
    requires Grouped(order, groups, prefix)
    ensures Grouped(order', groups', prefix + [a])
  {
    var slug := a.metadata.slug;
    if slug in groups {
      GroupSeen(order, groups, prefix, a);
      order', groups' := order, groups[slug := groups[slug] + [a]];
    } else {
      GroupNew(order, groups, prefix, a);
      order', groups' := order + [slug], groups[slug := [a]];
    }
  }

  /** The grouping loop: every article is appended to the group of its slug. */
  method GroupBySlug(articles: seq<Article>) returns (order: seq<string>, groups: map<string, seq<Article>>)
    ensures Grouped(order, groups, articles)
  {
    order, groups := [], map[];
    var i := 0;
    while i < |articles|
      invariant 0 <= i <= |articles|
      invariant Grouped(order, groups, articles[..i])
    {
      Seqs.PrefixSnoc(articles, i);
      order, groups := AddToGroup(order, groups, articles[i], articles[..i]);
      i := i + 1;
    }
    assert articles[..i] == articles;
  }

  /** The mapping and duplicates after the entries of the first `k` slugs of `order`. */
  ghost predicate Split(mapping: map<string, Article>, duplicates: seq<DuplicateSlugError>,
                        order: seq<string>, k: nat, articles: seq<Article>)
    requires k <= |order|
  {
    && duplicates == DuplicatesAmong(order[..k], articles)
    && (forall slug :: slug in mapping <==> slug in order[..k] && |SameSlug(articles, slug)| == 1)
    && (forall slug :: slug in mapping ==> mapping[slug] == SameSlug(articles, slug)[0])
  }

  /** The reports of one more slug of `order`. */
  lemma DuplicatesAmongSnoc(order: seq<string>, k: nat, articles: seq<Article>)
    requires k < |order|
    ensures var same := SameSlug(articles, order[k]);
      DuplicatesAmong(order[..k + 1], articles)
      == DuplicatesAmong(order[..k], articles) + (if |same| == 1 then [] else [DuplicateSlugError(order[k], FilePaths(same))])
  {
    assert order[..k + 1][..k] == order[..k];
  }

  /** A slug used once enters the mapping. */
  lemma SplitUnique(mapping: map<string, Article>, duplicates: seq<DuplicateSlugError>,
                    order: seq<string>, k: nat, articles: seq<Article>)
    requires k < |order| && Split(mapping, duplicates, order, k, articles)
    requires |SameSlug(articles, order[k])| == 1
    ensures Split(mapping[order[k] := SameSlug(articles, order[k])[0]], duplicates, order, k + 1, articles)
  {
    Seqs.PrefixSnoc(order, k);
    DuplicatesAmongSnoc(order, k, articles);
  }

  /** A slug used more than once is reported. */
  lemma SplitDuplicate(mapping: map<string, Article>, duplicates: seq<DuplicateSlugError>,
                       order: seq<string>, k: nat, articles: seq<Article>)
    requires k < |order| && Split(mapping, duplicates, order, k, articles)
    requires |SameSlug(articles, order[k])| != 1
    ensures Split(mapping, duplicates + [DuplicateSlugError(order[k], FilePaths(SameSlug(articles, order[k])))],
                  order, k + 1, articles)
  {
    Seqs.PrefixSnoc(order, k);
    DuplicatesAmongSnoc(order, k, articles);
  }

  /**
   * `createSlugReverseMappingIndex`'s grouping: the articles are grouped by
   * slug; then, slug by slug in order of first use, a slug with one article
   * enters the mapping and any other is reported with its articles' file
   * paths. Any report makes the whole a failure.
   */
  method BuildSlugReverseMapping(articles: seq<Article>) returns (r: Result<map<string, Article>, seq<DuplicateSlugError>>)
    ensures r == ReverseMapping(articles)
  {
    var order, groups := GroupBySlug(articles);
    var mapping: map<string, Article> := map[];
    var duplicates: seq<DuplicateSlugError> := [];
    var k := 0;
    while k < |order|
      invariant 0 <= k <= |order|
      invariant Split(mapping, duplicates, order, k, articles)
    {
      var slug := order[k];
      assert slug in Slugs(articles);
      var same := groups[slug];
      assert same == SameSlug(articles, slug);
      if |same| == 1 {
        SplitUnique(mapping, duplicates, order, k, articles);
        mapping := mapping[slug := same[0]];
      } else {
        SplitDuplicate(mapping, duplicates, order, k, articles);
        duplicates := duplicates + [DuplicateSlugError(slug, FilePaths(same))];
      }
      k := k + 1;
    }
    SplitDone(mapping, duplicates, order, articles);
    if |duplicates| > 0 {
      r := Failure(duplicates);
    } else {
      r := Success(mapping);
    }
  }

  /** After the entries of all slugs, the duplicates and the mapping are the ones the articles define. */
  lemma SplitDone(mapping: map<string, Article>, duplicates: seq<DuplicateSlugError>,
                  order: seq<string>, articles: seq<Article>)
    requires order == Seqs.Dedup(Slugs(articles)) && Split(mapping, duplicates, order, |order|, articles)
    ensures duplicates == DuplicatesAmong(Seqs.Dedup(Slugs(articles)), articles)
    ensures mapping == UniqueMapping(articles)
  {
    assert order[..|order|] == order;
    assert forall slug :: slug in order <==> slug in Slugs(articles);
  }

  /** The number of articles with a slug is the number of occurrences of the slug. */
  lemma {:induction false} SameSlugCount(articles: seq<Article>, slug: string)
    ensures |SameSlug(articles, slug)| == multiset(Slugs(articles))[slug]
  {
    if articles != [] {
      var init, last := articles[..|articles| - 1], articles[|articles| - 1];
      assert articles == init + [last];
      SlugsSnoc(init, last);
      SameSlugCount(init, slug);
    }
  }

  /** Every article grouped under a slug has that slug and is one of the articles. */
  lemma {:induction false} SameSlugMembers(articles: seq<Article>, slug: string)
    ensures forall x :: x in SameSlug(articles, slug) ==> x.metadata.slug == slug && x in articles
  {
    if articles != [] {
      var init := articles[..|articles| - 1];
      SameSlugMembers(init, slug);
      assert forall x :: x in init ==> x in articles;
    }
  }

  /** A duplicate is reported for exactly the slugs in `order` that are not used exactly once, with their paths. */
  lemma {:induction false} DuplicatesAmongMembership(order: seq<string>, articles: seq<Article>, e: DuplicateSlugError)
    ensures e in DuplicatesAmong(order, articles) <==>
      e.slug in order && |SameSlug(articles, e.slug)| != 1 && e.filePaths == FilePaths(SameSlug(articles, e.slug))
  {
    if order != [] {
      var init := order[..|order| - 1];
      assert order == init + [order[|order| - 1]];
      DuplicatesAmongMembership(init, articles, e);
    }
  }

  /** No duplicate is reported among `order` exactly when each of its slugs is used once. */
  lemma {:induction false} DuplicatesAmongEmpty(order: seq<string>, articles: seq<Article>)
    ensures DuplicatesAmong(order, articles) == [] <==> forall slug :: slug in order ==> |SameSlug(articles, slug)| == 1
  {
    if order != [] {
      var init := order[..|order| - 1];
      assert order == init + [order[|order| - 1]];
      var last := order[|order| - 1];
      var same := SameSlug(articles, last);
      var tail := if |same| == 1 then [] else [DuplicateSlugError(last, FilePaths(same))];
      assert DuplicatesAmong(order, articles) == DuplicatesAmong(init, articles) + tail;
      DuplicatesAmongEmpty(init, articles);
      if DuplicatesAmong(order, articles) == [] {
        assert |DuplicatesAmong(init, articles)| == 0 && tail == [];
        forall slug | slug in order ensures |SameSlug(articles, slug)| == 1 {
          if slug != last {
            var k :| 0 <= k < |order| && order[k] == slug;
            assert init[k] == slug;
          }
        }
      }
      if forall slug :: slug in order ==> |SameSlug(articles, slug)| == 1 {
        assert forall slug :: slug in init ==> slug in order;
      }
    }
  }

  /** The reports of the slugs of a sequence without repeats name different slugs. */
  lemma {:induction false} DuplicatesAmongDistinct(order: seq<string>, articles: seq<Article>)
    requires Seqs.Distinct(order)
    ensures forall i, j :: 0 <= i < j < |DuplicatesAmong(order, articles)| ==>
      DuplicatesAmong(order, articles)[i].slug != DuplicatesAmong(order, articles)[j].slug
  {
    if order != [] {
      var init, last := order[..|order| - 1], order[|order| - 1];
      assert Seqs.Distinct(init) by {
        forall i, j | 0 <= i < j < |init| ensures init[i] != init[j] {
          assert init[i] == order[i] && init[j] == order[j];
        }
      }
      DuplicatesAmongDistinct(init, articles);
      forall k | 0 <= k < |init| ensures init[k] != last {
        assert init[k] == order[k];
      }
      forall e | e in DuplicatesAmong(init, articles) ensures e.slug != last {
        DuplicatesAmongMembership(init, articles, e);
      }
    }
  }

  /** The mapping is built exactly when no two articles share a slug. */
  lemma ReverseMappingSucceeds(articles: seq<Article>)
    ensures ReverseMapping(articles).Success? <==> Seqs.Distinct(Slugs(articles))
  {
    var slugs := Slugs(articles);
    DuplicatesAmongEmpty(Seqs.Dedup(slugs), articles);
    Seqs.DistinctCounts(slugs);
    forall slug ensures |SameSlug(articles, slug)| == multiset(slugs)[slug] {
      SameSlugCount(articles, slug);
    }
  }

  /** On success, every slug maps to the article with that slug, and to nothing else. */
  lemma ReverseMappingContents(articles: seq<Article>)
    requires ReverseMapping(articles).Success?
    ensures var mapping := ReverseMapping(articles).value;
      (forall slug :: slug in mapping <==> slug in Slugs(articles))
      && (forall slug :: slug in mapping ==> mapping[slug].metadata.slug == slug && mapping[slug] in articles)
      && (forall i :: 0 <= i < |articles| ==> mapping[articles[i].metadata.slug] == articles[i])
  {
    UniqueMappingKeys(articles);
    forall slug | slug in UniqueMapping(articles)
      ensures UniqueMapping(articles)[slug].metadata.slug == slug && UniqueMapping(articles)[slug] in articles
    {
      SameSlugMembers(articles, slug);
    }
    forall i | 0 <= i < |articles| ensures UniqueMapping(articles)[articles[i].metadata.slug] == articles[i] {
      UniqueMappingOf(articles, i);
    }
  }

  /** Without duplicates, every slug of the articles is a key of the mapping. */
  lemma UniqueMappingKeys(articles: seq<Article>)
    requires ReverseMapping(articles).Success?
    ensures ReverseMapping(articles).value == UniqueMapping(articles)
    ensures forall slug :: slug in UniqueMapping(articles) <==> slug in Slugs(articles)
  {
    DuplicatesAmongEmpty(Seqs.Dedup(Slugs(articles)), articles);
  }

  /** Without duplicates, each article is the one its slug maps to. */
  lemma UniqueMappingOf(articles: seq<Article>, i: nat)
    requires ReverseMapping(articles).Success? && i < |articles|
    ensures articles[i].metadata.slug in UniqueMapping(articles)
    ensures UniqueMapping(articles)[articles[i].metadata.slug] == articles[i]
  {
    var slug := articles[i].metadata.slug;
    UniqueMappingKeys(articles);
    assert slug in Slugs(articles);
    SameSlugHolds(articles, i);
    var same := SameSlug(articles, slug);
    assert |same| == 1 && articles[i] in same;
  }

  /** Every article is among the articles grouped under its slug. */
  lemma {:induction false} SameSlugHolds(articles: seq<Article>, i: nat)
    requires i < |articles|
    ensures articles[i] in SameSlug(articles, articles[i].metadata.slug)
  {
    var init, last := articles[..|articles| - 1], articles[|articles| - 1];
    if i < |init| {
      SameSlugHolds(init, i);
      assert init[i] == articles[i];
    }
  }

  /**
   * On failure, exactly the slugs used by more than one article are reported,
   * each once, with the file paths of all of its articles in input order.
   */
  lemma ReverseMappingDuplicates(articles: seq<Article>)
    requires ReverseMapping(articles).Failure?
    ensures var duplicates := ReverseMapping(articles).error;
      (forall e :: e in duplicates ==>
        multiset(Slugs(articles))[e.slug] >= 2 && |e.filePaths| >= 2
        && e.filePaths == FilePaths(SameSlug(articles, e.slug)))
      && (forall slug :: multiset(Slugs(articles))[slug] >= 2 ==> exists e :: e in duplicates && e.slug == slug)
      && (forall i, j :: 0 <= i < j < |duplicates| ==> duplicates[i].slug != duplicates[j].slug)
  {
    var slugs := Slugs(articles);
    var order := Seqs.Dedup(slugs);
    var duplicates := ReverseMapping(articles).error;
    forall slug ensures |SameSlug(articles, slug)| == multiset(slugs)[slug] {
      SameSlugCount(articles, slug);
    }
    forall e | e in duplicates
      ensures multiset(slugs)[e.slug] >= 2 && e.filePaths == FilePaths(SameSlug(articles, e.slug))
    {
      DuplicatesAmongMembership(order, articles, e);
    }
    forall slug | multiset(slugs)[slug] >= 2 ensures exists e :: e in duplicates && e.slug == slug {
      var e := DuplicateSlugError(slug, FilePaths(SameSlug(articles, slug)));
      DuplicatesAmongMembership(order, articles, e);
    }
    DuplicatesAmongDistinct(order, articles);
  }

  /**
   * `createSlugReverseMappingIndex`: the index directory must exist, an error
   * there is reported before any duplicate; the mapping is written only when
   * no slug is shared, and a failed write is reported with the index path.
   */
  method CreateSlugReverseMappingIndex(articles: seq<Article>, indexDirectory: IoOutcome,
                                       slugReverseMappingIndexPath: string, write: Writer)
    returns (o: Outcome<SlugReverseMappingError>)
    ensures indexDirectory.Failed? ==>
      o == Outcome(Some(CannotCreateIndexParentDirectory(indexDirectory.error)), [])
    ensures indexDirectory.Done? && ReverseMapping(articles).Failure? ==>
      o == Outcome(Some(DuplicateSlugs(ReverseMapping(articles).error)), [])
    ensures indexDirectory.Done? && ReverseMapping(articles).Success? ==>
      var w := SlugReverseMappingWrite(ReverseMapping(articles).value);
      o.writes == [w]
      && (o.error.None? <==> write(w).Done?)
      && (write(w).Failed? ==> o.error == Some(CannotWriteSlugReverseMapping(slugReverseMappingIndexPath, write(w).error)))
  {
    var mapping := BuildSlugReverseMapping(articles);
    if indexDirectory.Failed? {
      o := Outcome(Some(CannotCreateIndexParentDirectory(indexDirectory.error)), []);
    } else if mapping.Failure? {
      o := Outcome(Some(DuplicateSlugs(mapping.error)), []);
    } else {
      var w := SlugReverseMappingWrite(mapping.value);
      match write(w)
      case Done => o := Outcome(None, [w]);
      case Failed(e) => o := Outcome(Some(CannotWriteSlugReverseMapping(slugReverseMappingIndexPath, e)), [w]);
    }
  }
}
