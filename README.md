# Blog content indexing, modelled in Dafny

This project models the build-time content pipeline of a statically generated
blog, together with two small display components.

- **Reading the articles and the other content pages.** Each file's front matter is validated:
  - a non-empty title and slug;
  - a date whose time value is not NaN;
  - a comma-separated tags line whose pieces are trimmed;
  - for articles, a summary of at least five characters.
- **Error collection.** Every per-file error is collected into one error. With no errors, the records are sorted newest first.
- **The per-topic indexes.** Every tag of every article is a topic, and each topic gets a bucket of articles. Each bucket's index is written with the topic's description. A failure in one topic is collected with the others and does not stop them. The sorted list of topics is written as the topics summary.
- **The slug reverse mapping.** The articles are grouped by slug. If each slug is used once, the map from slug to article is written. Otherwise every shared slug is reported with all of its file paths, and nothing is written.
- **The RSS 2.0 feed.** It has one `<item>` per article, in index order. The channel carries a `<pubDate>` only when there is at least one article.
- **The `ArticleMeta` and `Tags` components.** `ArticleMeta` shows the reading time rounded up and pluralised, and the date as `year-MM-DD`. `Tags` shows the tag links separated by `", "`.

Each source file has its own module:

| Module | Source |
|---|---|
| `ParseArticles` | `parse-articles.ts` |
| `ParseContent` | `parse-content.ts` |
| `PerTopic` | `per-topic.ts` |
| `SlugReverseMapping` | `slug-reverse-mapping.ts` |
| `RssFeed` | `create-rss-feed.ts` |
| `ArticleMeta` | `ArticleMeta.tsx` |
| `TagsView` | `Tags.tsx` |

The two schemas share their zod rules, which live in `FrontMatter`. The JavaScript and fp-ts behaviour the code relies on is written out in helper modules:

| Module | What it models |
|---|---|
| `Text` | `split` on one character, `join`, `trim` |
| `Utf16` | string length and `<` order, both by UTF-16 code units |
| `Decimal` | `Number#toString` for integers |
| `Sorting` | the stable `Array#sort` with a date or string order |
| `Validation` | the validation applicative's `sequence`, which gathers every error |
| `Seqs` | sequence helpers |

How the core is written decides the form of the model:

- `getTopicsWithParsedArticlesMap` and the slug-grouping closure mutate their tables in nested loops. They are Dafny methods with `while` loops, proved equal to reference functions (`PerTopic.TopicsOf`, `SlugReverseMapping.ReverseMapping`).
- Everything else in the core is pure, and is modelled as functions with lemmas about them.
- File-system effects become parameters. The outcome of creating a directory is an `IoOutcome`. Reading a topic description is a function from topic to result. Writing is a `Writer` from the index written to its outcome.
- The operations return the writes they attempted, in order (`IndexFiles.Outcome`).

## Model

| member | source | states |
|---|---|---|
| FrontMatter.TransformTags | content-processing/parse-articles.ts:121-134 | there is one tag per comma plus one; tag i is piece i of the line split on commas, trimmed; an `EmptyTag(k)` issue is raised exactly for the blank tags k, once each, in index order |
| FrontMatter.TrimPieces | content-processing/parse-articles.ts:122-133 | trims each piece in order and marks exactly the blank ones, numbering them from the given index |
| FrontMatter.EmptyTagMessage | content-processing/parse-articles.ts:126-129 | the custom message is `Empty tag with index ` followed by the canonical decimal of the index, and the index can be read back from it |
| FrontMatter.StringIssuesMeaning | content-processing/parse-articles.ts:115 | a `z.string().min(n)` field raises no issue exactly when it is a string of at least n UTF-16 units; it raises an invalid-type issue exactly when it is not a string, and a too-small issue exactly when it is a string that is too short |
| FrontMatter.MinLengthOne | content-processing/parse-articles.ts:136 | a minimum length of one means the string is not empty |
| FrontMatter.TagsIssuesMeaning | content-processing/parse-articles.ts:121-134 | the tags field raises no issue exactly when it is a string whose comma-separated pieces are all non-blank; it raises a type issue exactly when it is not a string |
| FrontMatter.BlankTagsLine | content-processing/parse-articles.ts:122-130 | an empty or all-whitespace tags line gives one empty tag and the single issue for index 0 |
| FrontMatter.TagsAreTrimmedPieces | content-processing/parse-articles.ts:122-132 | every parsed tag is free of commas and has no whitespace at either end |
| FrontMatter.TagsRoundTrip | content-processing/parse-articles.ts:121-134 | tags without commas and without outer whitespace, joined with commas, parse back to exactly those tags with no issues |
| ParseArticles.ArticleIssuesEmpty | content-processing/parse-articles.ts:114-139 | the article schema raises no issue exactly for front matter with a non-empty title and slug, a valid date, a valid tags line and a summary of at least 5 UTF-16 units |
| ParseArticles.ArticleIssues | content-processing/parse-articles.ts:114-139 | the issues of the synchronous parse, field by field in key order; what they mean is stated by `ArticleIssuesEmpty` and the `...Raised` lemmas below |
| ParseArticles.TitleIssuesRaised | content-processing/parse-articles.ts:115 | a missing or non-string title is reported as an invalid type; an empty title is reported as too small; each exactly in that case |
| ParseArticles.SlugIssueRaised | content-processing/parse-articles.ts:136 | an empty slug is reported, and only then |
| ParseArticles.SummaryIssueRaised | content-processing/parse-articles.ts:138 | a summary shorter than 5 UTF-16 units is reported, and only then |
| ParseArticles.DateIssueRaised | content-processing/parse-articles.ts:117-119 | `Invalid date` is reported exactly when the date's time value is NaN |
| ParseArticles.EmptyTagsRaised | content-processing/parse-articles.ts:122-130 | `EmptyTag(k)` is among the article's issues exactly when piece k of the tags line is all whitespace |
| ParseArticles.TagsOnlyEmptyTags | content-processing/parse-articles.ts:121-134 | the tags rule raises only its type issue and empty-tag issues |
| ParseArticles.SlugAfterEmptyTags | content-processing/parse-articles.ts:121-136 | with a valid title, date and summary, a tags line and an empty slug, the issues are the empty-tag issues followed by the slug's too-small issue, since the article path parses synchronously in key order |
| ParseArticles.ParseFrontMatter | content-processing/parse-articles.ts:114-139 | it succeeds exactly on valid front matter, with the validated fields and the transformed tags; a failure lists every issue in schema order, and that list is never empty |
| ParseArticles.ParseArticleMetadata | content-processing/parse-articles.ts:149-178 | a read failure gives `cannot-read-file`; a schema failure gives `cannot-parse-frontmatter` with the raw front matter and its issues; a success is the validated front matter plus `readingTimeMin` |
| ParseArticles.CollectedRecords | content-processing/parse-articles.ts:60-89 | the per-file results collect to a success exactly when every file parses, and the success holds every file's record, paired with its path, in discovery order |
| ParseArticles.ParseArticleWithMetadata | content-processing/parse-articles.ts:51-101 | a glob failure gives `cannot-complete-glob`; with any failing file the result is `cannot-parse-article` with all per-file errors in file order; otherwise the result is a permutation of the records, newest first |
| ParseArticles.ParseErrorsComplete | content-processing/parse-articles.ts:72-87 | on failure, every failing file's error is reported and nothing else |
| ParseArticles.ParseArticlesStable | content-processing/parse-articles.ts:90-100 | articles with the same date keep their discovery order |
| ParseContent.ContentIssuesEmpty | content-processing/parse-content.ts:93-116 | the content schema raises no issue exactly for a non-empty title and slug, a valid date and a valid tags line |
| ParseContent.ContentIssues | content-processing/parse-content.ts:93-134 | the issues of `safeParseAsync`: the field checks in key order, with the date's issue at the date's position, then the tags transform's; what they mean is stated by `ContentIssuesEmpty`, `ContentIssueOrder` and the `...Raised` lemmas |
| ParseContent.ContentIssueOrder | content-processing/parse-content.ts:93-134 | once an empty-tag issue appears, every later issue is one too, so no empty-tag issue precedes `Invalid date` |
| ParseContent.EmptyTagsAfterSlug | content-processing/parse-content.ts:100-134 | with a valid title and date, a tags line and an empty slug, the slug's too-small issue comes first and the empty-tag issues after it, although `tags` precedes `slug` in the schema |
| ParseContent.TitleIssuesRaised | content-processing/parse-content.ts:94 | a missing or non-string title and an empty title are each reported exactly in that case |
| ParseContent.SlugIssueRaised | content-processing/parse-content.ts:115 | an empty slug is reported, and only then |
| ParseContent.SummaryIgnored | content-processing/parse-content.ts:93-116 | the issues do not depend on the `summary` field at all |
| ParseContent.DateIssueRaised | content-processing/parse-content.ts:96-98 | `Invalid date` is reported exactly when the date's time value is NaN |
| ParseContent.EmptyTagsRaised | content-processing/parse-content.ts:100-113 | `EmptyTag(k)` is among the issues exactly when piece k of the tags line is all whitespace |
| ParseContent.TagsOnlyEmptyTags | content-processing/parse-content.ts:100-113 | the tags rule raises only its type issue and empty-tag issues |
| ParseContent.ParseFrontMatter | content-processing/parse-content.ts:93-141 | it succeeds exactly on valid front matter, with the validated fields; a failure lists every issue in the asynchronous parse's order (`ContentIssues`) and is never empty |
| ParseContent.ParseContentMetadata | content-processing/parse-content.ts:119-144 | a read failure gives `cannot-read-file`; a schema failure gives `cannot-parse-frontmatter` with the raw front matter and its issues in the asynchronous parse's order; a success is the validated front matter, with no reading time |
| ParseContent.CollectedRecords | content-processing/parse-content.ts:40-67 | the results collect to a success exactly when every file parses, holding every file's record in discovery order |
| ParseContent.ParseContentWithMetadata | content-processing/parse-content.ts:31-80 | a glob failure gives `cannot-complete-glob`; any failing file gives `cannot-parse-content` with all errors; otherwise a permutation of the records, newest first |
| ParseContent.ParseErrorsComplete | content-processing/parse-content.ts:50-65 | on failure, every failing file's error is reported and nothing else |
| ParseContent.ParseContentStable | content-processing/parse-content.ts:68-79 | pages with the same date keep their discovery order |
| PerTopic.GetTopicsWithParsedArticlesMap | content-processing/indexes/per-topic.ts:24-41 | the nested loops build exactly `TopicsOf(articles)`. The keys are every tag in first-use order, none repeated. Each key's bucket is the articles in input order, each article once per occurrence of the tag in its tags |
| PerTopic.AddArticle | content-processing/indexes/per-topic.ts:30-37 | after the inner loop over one article's tags, the map is the fan-out of the articles so far plus that article |
| PerTopic.AddTag | content-processing/indexes/per-topic.ts:31-36 | one tag either appends the article to the existing bucket or inserts a new key with a one-article bucket, keeping the partial fan-out invariant |
| PerTopic.TopicsOf | content-processing/indexes/per-topic.ts:24-41 | the reference map has distinct keys, and its key set is exactly the set of tags occurring in any article |
| PerTopic.FannedIsTopicsOf | content-processing/indexes/per-topic.ts:38-40 | the loop invariant at the end of the articles determines the map completely |
| PerTopic.BucketMembership | content-processing/indexes/per-topic.ts:30-36 | an article is in a topic's bucket exactly when it is one of the input articles and has that tag |
| PerTopic.BucketLength | content-processing/indexes/per-topic.ts:30-36 | a bucket has exactly as many entries as the topic has occurrences among all tags |
| PerTopic.BucketOfOne | content-processing/indexes/per-topic.ts:30-36 | a single article is in a bucket once for each occurrence of the topic among its tags, so a repeated tag adds it twice |
| PerTopic.BucketAppend | content-processing/indexes/per-topic.ts:29-38 | the bucket of two runs of articles is the first run's bucket followed by the second's, so the input order is kept |
| PerTopic.BucketOfUnusedTopic | content-processing/indexes/per-topic.ts:29-38 | a topic that is no article's tag has an empty bucket |
| PerTopic.TopicsSummary | content-processing/indexes/per-topic.ts:218-220 | the summary holds exactly the map's keys, strictly ascending in JavaScript string order, so none is repeated |
| PerTopic.IndexOf | content-processing/indexes/per-topic.ts:95-98 | a topic's index lists exactly its bucket's metadata, file paths dropped and in bucket order, plus its description. This repeats the body field by field; which index is written for which topic is stated by `TopicIndexWritten` |
| PerTopic.ProcessTopic | content-processing/indexes/per-topic.ts:72-108 | a failed description read gives `cannot-read-topic-description` and no write; otherwise the index is written, and the topic fails with `cannot-write-topic-index` exactly when that write fails |
| PerTopic.StepReadError | content-processing/indexes/per-topic.ts:75-88 | a topic's step reports a given description error exactly for that topic's own failed read |
| PerTopic.StepWriteError | content-processing/indexes/per-topic.ts:93-107 | a topic's step reports a given write error exactly for that topic's own failed write |
| PerTopic.Steps | content-processing/indexes/per-topic.ts:71-110 | one step per key, in the map's insertion order |
| PerTopic.WritesMembership | content-processing/indexes/per-topic.ts:93-98 | an index is among the writes exactly when some topic's step attempted it |
| PerTopic.CreatePerTopicIndexes | content-processing/indexes/per-topic.ts:56-137 | a directory failure gives `cannot-create-indexes-parent-directory` and no writes; otherwise every topic is processed, success means every topic succeeded, and a failure is `cannot-write-topic-indexes` with all topic errors in key order |
| PerTopic.TopicIndexWritten | content-processing/indexes/per-topic.ts:74-108 | a topic's index is written, with exactly its bucket and description, if and only if the topic is a key and its description was read |
| PerTopic.DescriptionErrorsReported | content-processing/indexes/per-topic.ts:75-88 | the collected errors hold a read error for a topic exactly when that topic's description read failed with it |
| PerTopic.WriteErrorsReported | content-processing/indexes/per-topic.ts:93-107 | the collected errors hold a write error for a topic exactly when its description was read and writing its index failed with it |
| PerTopic.CreateTopicsSummary | content-processing/indexes/per-topic.ts:203-231 | a directory failure gives `cannot-create-topics-summary-parent-directory` and no write; otherwise the sorted keys are written, and it fails with `cannot-write-topic-summary-index` exactly when that write fails |
| PerTopic.CreateTopicIndexes | content-processing/indexes/per-topic.ts:43-51 | the map is the fan-out of the articles; both the per-topic indexes and the summary are attempted; the per-topic error, if any, is the one reported |
| SlugReverseMapping.GroupBySlug | content-processing/indexes/slug-reverse-mapping.ts:50-63 | after the loop, the slugs are in first-use order, the groups' keys are exactly the input slugs, and each group is the articles with that slug in input order |
| SlugReverseMapping.AddToGroup | content-processing/indexes/slug-reverse-mapping.ts:56-62 | one article is appended to its slug's group, which is created when the slug is new |
| SlugReverseMapping.SameSlugMembers | content-processing/indexes/slug-reverse-mapping.ts:55-63 | every article in a group has that group's slug and is an input article |
| SlugReverseMapping.SameSlugHolds | content-processing/indexes/slug-reverse-mapping.ts:55-63 | every input article is in the group of its own slug |
| SlugReverseMapping.SameSlugCount | content-processing/indexes/slug-reverse-mapping.ts:55-63 | a group's size is the number of articles using that slug |
| SlugReverseMapping.BuildSlugReverseMapping | content-processing/indexes/slug-reverse-mapping.ts:46-86 | the grouping and the loop over the entries compute exactly `ReverseMapping(articles)` |
| SlugReverseMapping.SplitUnique | content-processing/indexes/slug-reverse-mapping.ts:70-72 | a slug with exactly one article maps to that article |
| SlugReverseMapping.SplitDuplicate | content-processing/indexes/slug-reverse-mapping.ts:73-76 | a slug with more articles adds a duplicate error with all of their file paths, in input order |
| SlugReverseMapping.DuplicatesAmongMembership | content-processing/indexes/slug-reverse-mapping.ts:68-79 | an error is reported exactly for a slug whose group does not have one article, with that group's file paths |
| SlugReverseMapping.DuplicatesAmongEmpty | content-processing/indexes/slug-reverse-mapping.ts:81-85 | no error is reported exactly when every slug has one article |
| SlugReverseMapping.ReverseMappingSucceeds | content-processing/indexes/slug-reverse-mapping.ts:81-85 | the mapping is built exactly when no two articles share a slug |
| SlugReverseMapping.ReverseMappingContents | content-processing/indexes/slug-reverse-mapping.ts:65-79 | on success the keys are exactly the input slugs, each entry is an input article whose slug is its key, and every article is the entry of its slug |
| SlugReverseMapping.ReverseMappingDuplicates | content-processing/indexes/slug-reverse-mapping.ts:65-85 | on failure, each error names a slug used at least twice, with at least two file paths, namely those of all of its articles in input order; every such slug is reported, and none twice |
| SlugReverseMapping.CreateSlugReverseMappingIndex | content-processing/indexes/slug-reverse-mapping.ts:25-102 | a directory failure is reported first, with no write; then duplicates, with no write; otherwise the mapping is written and a failed write is reported with the index path |
| RssFeed.ItemOf | content-processing/create-rss-feed.ts:21-29 | an item's title and description are the article's title and summary, verbatim; its date is the article's date rendered; its URL is the site URL, `article/` and the slug. This repeats the body field by field; what the rendered item means is stated by `ItemRoundTrip` and `FeedItem` |
| RssFeed.RssItem | content-processing/create-rss-feed.ts:107-123 | `getRSSItem`'s template; its seven lines read back by `ItemRoundTrip` and `ReadItemSound` |
| RssFeed.ItemRoundTrip | content-processing/create-rss-feed.ts:107-123 | for one-line fields, the seven lines of an `<item>` read back as its title, link, description and pubDate, with the guid equal to the link |
| RssFeed.ReadItemSound | content-processing/create-rss-feed.ts:117-123 | any text that reads as an item is exactly the item rendered from what was read |
| RssFeed.Inner | content-processing/create-rss-feed.ts:118-122 | a field read from a line is what lies between the opening and the closing tag |
| RssFeed.FeedItems | content-processing/create-rss-feed.ts:21-29 | there is one item per article, in index order. This repeats the `map`; the items' content is stated by `FeedItem` |
| RssFeed.LatestArticleDate | content-processing/create-rss-feed.ts:31-34 | there is a latest date exactly when there is an article, and it is the first article's date. This is the body read as two cases; its place in the channel is stated by `FeedShape` and `EmptyFeed` |
| RssFeed.RssChannel | content-processing/create-rss-feed.ts:72-99 | `getRSSChannel`'s template; its lines are stated by `FeedShape` and `EmptyFeed` |
| RssFeed.RssDocument | content-processing/create-rss-feed.ts:42-45 | the declaration, `<rss ...>`, the channel and `</rss>`; stated line by line by `FeedShape` |
| RssFeed.CreateRssFeed | content-processing/create-rss-feed.ts:20-46 | the feed of the all-articles index; its document is stated by `FeedShape`, its item blocks by `FeedItem` and the empty feed by `EmptyFeed` |
| RssFeed.ItemsLinesBlock | content-processing/create-rss-feed.ts:97 | the joined items are 7 lines per article, and block k is article k's item |
| RssFeed.JoinItems | content-processing/create-rss-feed.ts:97 | joining the items with newlines is joining all their lines |
| RssFeed.FeedShape | content-processing/create-rss-feed.ts:42-45 | with at least one article, the document is these lines joined by newlines: the XML declaration, `<rss ...>`, the channel's head (`<channel>`; the title; `<link>` with the site URL; the description; language; docs; an `atom:link` to the site URL followed by `rss.xml`; `<pubDate>` with the first article's date; a blank line), every item's lines, `</channel>`, a blank line and `</rss>` |
| RssFeed.FeedItem | content-processing/create-rss-feed.ts:72-99 | line block k of the feed reads back as article k's item |
| RssFeed.EmptyFeed | content-processing/create-rss-feed.ts:88-97 | with no articles, the channel has an empty line where `<pubDate>` would be, and an empty item list |
| RssFeed.ItemsLinesOneLine | content-processing/create-rss-feed.ts:117-123 | with one-line fields, every line of the item list is a single line |
| ArticleMeta.Ceil | components/ArticleMeta/ArticleMeta.tsx:52 | `Math.ceil`: the least integer not below the value |
| ArticleMeta.FormatReadingTime | components/ArticleMeta/ArticleMeta.tsx:51-57 | the reading-time text; its words are stated by `ReadingTimeWords` and its number by `ReadingTimeValue` |
| ArticleMeta.ReadingTimeWords | components/ArticleMeta/ArticleMeta.tsx:51-57 | the text is three words: the rounded-up minutes; `minute` exactly when they are 1, otherwise `minutes` (so also for 0); and `read` |
| ArticleMeta.ReadingTimeValue | components/ArticleMeta/ArticleMeta.tsx:52-54 | for a non-negative time, the first word is a canonical decimal whose value m satisfies m − 1 < time ≤ m |
| ArticleMeta.PadStart | components/ArticleMeta/ArticleMeta.tsx:49 | `padStart`: the result has the target length, or the string's if that is longer; it ends with the string; the front is all fill |
| ArticleMeta.PadDateElement | components/ArticleMeta/ArticleMeta.tsx:49 | the result is digits, at least two of them, with the value's value; 0–9 get a single leading `0`; values of 10 or more are unchanged |
| ArticleMeta.DateRoundTrip | components/ArticleMeta/ArticleMeta.tsx:41-47 | the date splits on `-` into three digit strings; they read as the year, the month index plus one and the day, and the last two have at least two digits |
| ArticleMeta.FormatDateString | components/ArticleMeta/ArticleMeta.tsx:41-47 | the date text; its parts are stated by `DateSplit` and `DateRoundTrip` |
| ArticleMeta.DateSplit | components/ArticleMeta/ArticleMeta.tsx:44-46 | for a year ≥ 0, the date splits on `-` into the unpadded year, the padded month and the padded day; for a negative year, the minus sign splits off an empty first part, followed by the year's digits, the padded month and the padded day |
| ArticleMeta.ArticleMeta | components/ArticleMeta/ArticleMeta.tsx:11-27 | the items are the formatted date, the formatted reading time and the tag list, which links exactly the given tag names in order |
| TagsView.Tag | components/Tags/Tags.tsx:20-24 | a tag is a link to `/topic/` followed by its name. This repeats the body; the list of links is stated by `TagsShape` and `TagsRoundTrip` |
| TagsView.LinksAndSeparatorsShape | components/Tags/Tags.tsx:10-14 | the flatMap gives a tag followed by a separator for each name |
| TagsView.Tags | components/Tags/Tags.tsx:10-16 | the `flatMap` and `slice(0, -1)`; the result is stated by `TagsShape` and `TagsRoundTrip` |
| TagsView.TagsShape | components/Tags/Tags.tsx:10-16 | no names give nothing; n names give 2n−1 elements; even positions are the tags in order; odd positions are `", "` separators; the last element is a tag |
| TagsView.TagsRoundTrip | components/Tags/Tags.tsx:10-16 | the names linked by the rendered list are exactly the input names, in order |
| Text.Split | content-processing/parse-articles.ts:122 | `split` on one character gives one piece per separator plus one, and no piece contains the separator |
| Text.JoinSplit | content-processing/parse-articles.ts:122 | joining a split's pieces back gives the string |
| Text.SplitJoin | content-processing/parse-articles.ts:122 | splitting separator-free pieces that were joined gives the pieces back |
| Text.TrimShape | content-processing/parse-articles.ts:123 | `trim` removes a leading and a trailing run of whitespace, and what it leaves has no whitespace at either end |
| Text.TrimEmpty | content-processing/parse-articles.ts:123-125 | a trimmed piece is empty exactly when the piece is all whitespace |
| Utf16.StringOrder | content-processing/indexes/per-topic.ts:220 | JavaScript string order is irreflexive, transitive and total |
| Utf16.LengthPositive | content-processing/parse-articles.ts:138 | a string's UTF-16 length is at least its number of characters, and is 0 only for the empty string |
| Sorting.SortByKeyDescending | content-processing/parse-articles.ts:90-100 | the sort is a permutation whose keys do not increase |
| Sorting.SortByKeyDescendingStable | content-processing/parse-articles.ts:90-100 | elements with equal keys keep their input order |
| Sorting.SortStrings | content-processing/indexes/per-topic.ts:220 | the sort is a permutation in ascending JavaScript string order |
| Validation.CollectAll | content-processing/parse-articles.ts:75-80 | `sequence` over a validation applicative succeeds exactly when every result does, with all of the values in order, and otherwise fails with all of the errors in order |
| Validation.ErrorsMembership | content-processing/indexes/per-topic.ts:116-125 | an error is collected exactly when some result failed with it |
| Decimal.ValueOfNatToString | components/ArticleMeta/ArticleMeta.tsx:49 | the decimal rendering of a number reads back as that number |
| Decimal.IntToStringSign | components/ArticleMeta/ArticleMeta.tsx:44 | an integer's rendering starts with `-` exactly when it is negative, and is otherwise a canonical decimal of its value |
| Seqs.Dedup | content-processing/indexes/per-topic.ts:35 | the keys in insertion order hold every element, hold nothing else, and repeat none |

## Left out

- File-system I/O is not modelled: glob, `readFile`, `mkdir`, `writeFile` and the index paths (`getIndexFilePath`, `path.join`, `path.relative`). Discovery is given as a list of files with their outcomes, and directory, read and write outcomes are parameters. The writes are returned, not performed.
- `gray-matter` is a foreign library. The front matter comes in already decoded, as a record of strings, dates (time value or NaN) and other values.
- `reading-time` is a foreign library. `readingTimeMin` is a given real number.
- JSON serialisation of the indexes is not modelled. The indexes are Dafny values.
- zod's built-in issue messages are not modelled. The issue kinds are, and so are the two custom messages `Invalid date` and `Empty tag with index i`.
- `safeParseSchema` lives in `content-processing/utils.ts`, which is not part of this model. The article schema is applied directly.
- The reading of indexes is not modelled: `readTopicIndex`, `readTopicsSummaryIndex`, the slug mapping's read schema, and the all-content index. They are read-side glue.
- The `create-indexes.ts` orchestrator is not modelled. It is I/O glue around the modelled operations.
- Concurrency is not modelled. `task.ApplyPar` and `apFirstW` are sequential here: the writes are listed in the order the code issues them, and the error that fp-ts would report (the left one) is the one reported.
- JavaScript `Date` is not modelled. For articles and content, a date is its integer time value, or NaN. `toUTCString` is a parameter (`RssFeed.UtcString`). `ArticleMeta` takes the year, month index and day that the local-time getters return. `new Date(string)` and the time zone stay outside.
- `Object.entries` lists integer-like keys first. The slug table iterates slugs in first-use order, as JavaScript does for other keys.
- SlugReverseMapping.BuildSlugReverseMapping: does not model the plain object's inherited keys. A slug that names an `Object.prototype` member (`__proto__`, `constructor`, `toString`, `hasOwnProperty`, `valueOf`, ...) finds a function where the grouping at slug-reverse-mapping.ts:55-59 expects an array or nothing, so `push` throws a `TypeError` and index creation ends with an uncaught exception. The model treats such a slug like any other, builds the mapping and writes it.
- `Number#toString` is modelled only for integers. The exponent notation of very large numbers is not modelled.
- The site URL is a string, the result of `URL#toString`.
- React rendering, keys, emotion styles and `next/link` are not modelled. The components yield the text and the link elements they show.
- ParseContent.ContentIssues: assumes a zod release whose `z.date()` itself rejects an invalid date, during the pass over the fields. With a release whose `z.date()` accepts it, the refinement at parse-content.ts:96-98 runs in a later `.then`, so `Invalid date` comes after the slug's issue and before the empty-tag issues. That order is not modelled.
- ArticleMeta.DateRoundTrip: stated for years of the common era only (year ≥ 0). A negative year renders with a minus sign, which is itself the separator.
- RssFeed.FeedItem: needs the item's fields to be free of newlines, since a newline inside a title or summary changes the document's line structure. The code does no escaping, and the model renders such fields verbatim too.
- RssFeed.ItemRoundTrip: holds only for fields free of newlines, for the same reason.

## Notes on the code's behaviour

- An article or content file whose read or parse fails is reported without its file path. Its error holds only the read error, or only the raw front matter and the issues.
- The duplicate-slug failure is a bare array of `{slug, filePaths}` with no `type` tag, alongside the tagged directory and write errors. The model wraps it as `DuplicateSlugs(duplicates)`, only so that the error has one Dafny type.
