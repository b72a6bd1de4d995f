/**
 * The content indexes the pipeline writes, as the values handed to the
 * writer: one index per topic, the topics summary and the slug reverse
 * mapping. How they are serialised to JSON and where they are stored is not
 * modelled; the writer is a parameter of the operations that write.
 */
module IndexFiles {
  import opened Wrappers
  import opened Io
  import opened ParseArticles

  /** A topic's index: the metadata of its articles, without file paths, and its description. */
  datatype TopicIndex = TopicIndex(articles: seq<ArticleMetadata>, description: string)

  /** The record shape of the all-articles index, whose date is the serialised date string. */
  datatype IndexedArticleMetadata = IndexedArticleMetadata(
    title: string, date: string, tags: seq<string>, slug: string, readingTimeMin: real,
    summary: string)

  /** One attempted write of an index file. */
  datatype IndexWrite =
    | TopicIndexWrite(topic: string, index: TopicIndex)
    | TopicsSummaryWrite(topics: seq<string>)
    | SlugReverseMappingWrite(mapping: map<string, ParsedArticleWithMetadata>)

  /** The writer: the outcome of writing each index, decided by the file system. */
  type Writer = IndexWrite -> IoOutcome

  /** What an index builder did: its error, if there was one, and the writes it attempted. */
  datatype Outcome<E> = Outcome(error: Option<E>, writes: seq<IndexWrite>)
}
