/**
 * The per-topic indexes. Every tag of an article is a topic; the articles are
 * fanned out into one bucket per topic, each bucket's index is written with
 * the topic's description, and the sorted list of topics is written as the
 * topics summary. A failing topic does not stop the others: all per-topic
 * failures are reported together.
 */
module PerTopic {
  import opened Wrappers
  import opened Io
  import opened ParseArticles
  import opened IndexFiles
  import Seqs
  import Sorting
  import Utf16
  import Validation

  type Article = ParsedArticleWithMetadata

  /** Every tag of every article, in article order and then tag order, repeats included. */
  function AllTags(articles: seq<Article>): seq<string>
  {
    if articles == [] then []
    else AllTags(articles[..|articles| - 1]) + articles[|articles| - 1].metadata.tags
  }

  /**
   * The bucket of `topic`: the articles in input order, each repeated as often
   * as `topic` occurs among its tags.
   */
  function Bucket(articles: seq<Article>, topic: string): seq<Article>
  {
    if articles == [] then []
    else
      var last := articles[|articles| - 1];
      Bucket(articles[..|articles| - 1], topic) + Seqs.Repeat(last, Seqs.Count(last.metadata.tags, topic))
  }

  /**
   * The JavaScript `Map` from topic to bucket: `topics` lists the keys in
   * insertion order and `buckets` holds the entries.
   */
  datatype TopicsMap = TopicsMap(topics: seq<string>, buckets: map<string, seq<Article>>)
  {
    ghost predicate Valid()
    {
      Seqs.Distinct(topics)
      && (forall t :: t in buckets <==> t in topics)
    }
  }

  lemma AllTagsSnoc(articles: seq<Article>, a: Article)
    ensures AllTags(articles + [a]) == AllTags(articles) + a.metadata.tags
  {
    assert (articles + [a])[..|articles|] == articles;
  }

  lemma BucketSnoc(articles: seq<Article>, a: Article, topic: string)
    ensures Bucket(articles + [a], topic)
         == Bucket(articles, topic) + Seqs.Repeat(a, Seqs.Count(a.metadata.tags, topic))
  {
    assert (articles + [a])[..|articles|] == articles;
  }

  /** A topic none of the articles is tagged with has an empty bucket. */
  lemma {:induction false} BucketOfUnusedTopic(articles: seq<Article>, topic: string)
    requires topic !in AllTags(articles)
    ensures Bucket(articles, topic) == []
  {
    if articles != [] {
      var last := articles[|articles| - 1];
      BucketOfUnusedTopic(articles[..|articles| - 1], topic);
      Seqs.CountZero(last.metadata.tags, topic);
    }
  }

  /** The topics and buckets once `a`'s first `j` tags have been added to those of `prefix`. */
  ghost predicate PartlyFanned(m: TopicsMap, prefix: seq<Article>, a: Article, j: nat)
    requires j <= |a.metadata.tags|
  {
    && m.topics == Seqs.Dedup(AllTags(prefix) + a.metadata.tags[..j])
    && (forall t :: t in m.buckets <==> t in AllTags(prefix) + a.metadata.tags[..j])
    && BucketsHold(m.buckets, prefix, a, j)
  }

  /** Every bucket holds its articles of `prefix` and then one copy of `a` per tag among `a`'s first `j`. */
  ghost predicate BucketsHold(buckets: map<string, seq<Article>>, prefix: seq<Article>, a: Article, j: nat)
    requires j <= |a.metadata.tags|
  {
    forall t :: t in buckets ==>
      buckets[t] == Bucket(prefix, t) + Seqs.Repeat(a, Seqs.Count(a.metadata.tags[..j], t))
  }

  /** The tags seen so far grow by `a`'s `j`-th tag. */
  lemma TagsSeenSnoc(prefix: seq<Article>, a: Article, j: nat)
    requires j < |a.metadata.tags|
    ensures AllTags(prefix) + a.metadata.tags[..j + 1] == (AllTags(prefix) + a.metadata.tags[..j]) + [a.metadata.tags[j]]
  {
    assert a.metadata.tags[..j + 1] == a.metadata.tags[..j] + [a.metadata.tags[j]];
  }

  /** The counts among `a`'s tags grow by its `j`-th tag. */
  lemma TagCountsSnoc(a: Article, j: nat)
    requires j < |a.metadata.tags|
    ensures forall t ::
      Seqs.Count(a.metadata.tags[..j + 1], t) == Seqs.Count(a.metadata.tags[..j], t) + (if a.metadata.tags[j] == t then 1 else 0)
  {
    var tags := a.metadata.tags;
    assert tags[..j + 1] == tags[..j] + [tags[j]];
    forall t ensures Seqs.Count(tags[..j + 1], t) == Seqs.Count(tags[..j], t) + (if tags[j] == t then 1 else 0) {
      Seqs.CountSnoc(tags[..j], tags[j], t);
    }
  }

  /** Appending `a` to the bucket of its `j`-th tag keeps the buckets right. */
  lemma AppendToBucket(buckets: map<string, seq<Article>>, prefix: seq<Article>, a: Article, j: nat)
    requires j < |a.metadata.tags| && BucketsHold(buckets, prefix, a, j)
    requires a.metadata.tags[j] in buckets
    ensures var topic := a.metadata.tags[j];
      BucketsHold(buckets[topic := buckets[topic] + [a]], prefix, a, j + 1)
  {
    var topic := a.metadata.tags[j];
    TagCountsSnoc(a, j);
    Seqs.RepeatSnoc(Bucket(prefix, topic), a, Seqs.Count(a.metadata.tags[..j], topic));
  }

  /** One step of the inner loop, for a topic that already has a bucket: `a` is appended to it. */
  lemma AddTagToBucket(m: TopicsMap, prefix: seq<Article>, a: Article, j: nat)
    requires j < |a.metadata.tags| && PartlyFanned(m, prefix, a, j)
    requires a.metadata.tags[j] in m.buckets
    ensures var topic := a.metadata.tags[j];
      PartlyFanned(m.(buckets := m.buckets[topic := m.buckets[topic] + [a]]), prefix, a, j + 1)
  {
    var topic := a.metadata.tags[j];
    TagsSeenSnoc(prefix, a, j);
    Seqs.DedupSnoc(AllTags(prefix) + a.metadata.tags[..j], topic);
    AppendToBucket(m.buckets, prefix, a, j);
  }

  /** One step of the inner loop, for a new topic: its bucket is created holding `a`. */
  lemma AddTagNewBucket(m: TopicsMap, prefix: seq<Article>, a: Article, j: nat)
    requires j < |a.metadata.tags| && PartlyFanned(m, prefix, a, j)
    requires a.metadata.tags[j] !in m.buckets
    ensures var topic := a.metadata.tags[j];
      PartlyFanned(TopicsMap(m.topics + [topic], m.buckets[topic := [a]]), prefix, a, j + 1)
  {
    var topic := a.metadata.tags[j];
    TagsSeenSnoc(prefix, a, j);
    Seqs.DedupSnoc(AllTags(prefix) + a.metadata.tags[..j], topic);
    NewBucket(m.buckets, prefix, a, j);
  }

  /** Creating the bucket of `a`'s `j`-th tag, when it is new, keeps the buckets right. */
  lemma NewBucket(buckets: map<string, seq<Article>>, prefix: seq<Article>, a: Article, j: nat)
    requires j < |a.metadata.tags| && BucketsHold(buckets, prefix, a, j)
    requires a.metadata.tags[j] !in AllTags(prefix) + a.metadata.tags[..j]
    ensures BucketsHold(buckets[a.metadata.tags[j] := [a]], prefix, a, j + 1)
  {
    var topic := a.metadata.tags[j];
    TagCountsSnoc(a, j);
    BucketOfUnusedTopic(prefix, topic);
    Seqs.CountZero(a.metadata.tags[..j], topic);
    assert Seqs.Repeat(a, 1) == [a];
  }

  /** After all of `a`'s tags, the map is that of `prefix + [a]`. */
  lemma AddArticleDone(m: TopicsMap, prefix: seq<Article>, a: Article)
    requires PartlyFanned(m, prefix, a, |a.metadata.tags|)
    ensures Fanned(m, prefix + [a])
  {
    var tags := a.metadata.tags;
    assert tags[..|tags|] == tags;
    AllTagsSnoc(prefix, a);
    forall t ensures Bucket(prefix + [a], t) == Bucket(prefix, t) + Seqs.Repeat(a, Seqs.Count(tags, t)) {
      BucketSnoc(prefix, a, t);
    }
  }

  /** Before any of `a`'s tags, the map is that of `prefix`. */
  lemma AddArticleStart(m: TopicsMap, prefix: seq<Article>, a: Article)
    requires Fanned(m, prefix)
    ensures PartlyFanned(m, prefix, a, 0)
  {
    assert a.metadata.tags[..0] == [];
    assert AllTags(prefix) + [] == AllTags(prefix);
  }

  /** The topics and buckets that the articles in `prefix` give. */
  ghost predicate Fanned(m: TopicsMap, prefix: seq<Article>)
  {
    && m.topics == Seqs.Dedup(AllTags(prefix))
    && (forall t :: t in m.buckets <==> t in AllTags(prefix))
    && (forall t :: t in m.buckets ==> m.buckets[t] == Bucket(prefix, t))
  }

  /**
   * The map the articles give: the topics in order of first use, and for
   * each its bucket.
   */
  ghost function TopicsOf(articles: seq<Article>): (m: TopicsMap)
    ensures m.Valid()
    ensures forall t :: t in m.buckets <==> t in AllTags(articles)
  {
    TopicsMap(Seqs.Dedup(AllTags(articles)), map t | t in AllTags(articles) :: Bucket(articles, t))
  }

  /** Only the map the articles give holds their topics and buckets. */
  lemma FannedIsTopicsOf(m: TopicsMap, articles: seq<Article>)
    requires Fanned(m, articles)
    ensures m == TopicsOf(articles)
  {
    assert m.buckets == TopicsOf(articles).buckets;
  }

  /**
   * The body of the inner loop of `getTopicsWithParsedArticlesMap`: `a` is
   * appended to the bucket of its `j`-th tag, the bucket being created, and
   * its topic added to the keys, on first use.
   */
  method AddTag(m: TopicsMap, a: Article, j: nat, ghost prefix: seq<Article>) returns (next: TopicsMap)
    requires j < |a.metadata.tags| && PartlyFanned(m, prefix, a, j)
    ensures PartlyFanned(next, prefix, a, j + 1)
  {
    var topic := a.metadata.tags[j];
    if topic in m.buckets {
      AddTagToBucket(m, prefix, a, j);
      next := m.(buckets := m.buckets[topic := m.buckets[topic] + [a]]);
    } else {
      AddTagNewBucket(m, prefix, a, j);
      next := TopicsMap(m.topics + [topic], m.buckets[topic := [a]]);
    }
  }

  /** The inner loop of `getTopicsWithParsedArticlesMap`: each of `a`'s tags in turn. */
  method AddArticle(m: TopicsMap, a: Article, ghost prefix: seq<Article>) returns (next: TopicsMap)
    requires Fanned(m, prefix)
    ensures Fanned(next, prefix + [a])
  {
    next := m;
    AddArticleStart(m, prefix, a);
    var j := 0;
    while j < |a.metadata.tags|
      invariant 0 <= j <= |a.metadata.tags|
      invariant PartlyFanned(next, prefix, a, j)
    {
      next := AddTag(next, a, j, prefix);
      j := j + 1;
    }
    AddArticleDone(next, prefix, a);
  }

  /**
   * `getTopicsWithParsedArticlesMap`: every article is added to the bucket of
   * every one of its tags, in article order.
   */
  method GetTopicsWithParsedArticlesMap(articles: seq<Article>) returns (m: TopicsMap)
    ensures m == TopicsOf(articles)
  {
    m := TopicsMap([], map[]);
    var i := 0;
    while i < |articles|
      invariant 0 <= i <= |articles|
      invariant Fanned(m, articles[..i])
    {
      Seqs.PrefixSnoc(articles, i);
      m := AddArticle(m, articles[i], articles[..i]);
      i := i + 1;
    }
    assert articles[..i] == articles;
    FannedIsTopicsOf(m, articles);
  }

  /** The buckets of two runs of articles, one after the other, are the two buckets joined. */
  lemma {:induction false} BucketAppend(xs: seq<Article>, ys: seq<Article>, topic: string)
    ensures Bucket(xs + ys, topic) == Bucket(xs, topic) + Bucket(ys, topic)
  {
    if ys == [] {
      assert xs + ys == xs;
    } else {
      var init, last := ys[..|ys| - 1], ys[|ys| - 1];
      assert xs + ys == (xs + init) + [last];
      assert ys == init + [last];
      BucketAppend(xs, init, topic);
      BucketSnoc(xs + init, last, topic);
      BucketSnoc(init, last, topic);
    }
  }

  /** A single article is in the bucket of `topic` once per occurrence of `topic` among its tags. */
  lemma BucketOfOne(a: Article, topic: string)
    ensures Bucket([a], topic) == Seqs.Repeat(a, Seqs.Count(a.metadata.tags, topic))
  {
    BucketSnoc([], a, topic);
    assert [] + [a] == [a];
  }

  /** An article is in a topic's bucket exactly when it is one of the articles and has the tag. */
  lemma {:induction false} BucketMembership(articles: seq<Article>, topic: string, x: Article)
    ensures x in Bucket(articles, topic) <==> exists i :: 0 <= i < |articles| && articles[i] == x && topic in x.metadata.tags
  {
    if articles != [] {
      var init, last := articles[..|articles| - 1], articles[|articles| - 1];
      BucketMembership(init, topic, x);
      Seqs.CountZero(last.metadata.tags, topic);
      var rep := Seqs.Repeat(last, Seqs.Count(last.metadata.tags, topic));
      assert Bucket(articles, topic) == Bucket(init, topic) + rep;
      assert x in Bucket(articles, topic) <==> x in Bucket(init, topic) || x in rep;
      assert x in rep <==> x == last && topic in last.metadata.tags by {
        if rep != [] {
          assert rep[0] == last;
        }
      }
      if exists i :: 0 <= i < |articles| && articles[i] == x && topic in x.metadata.tags {
        var i :| 0 <= i < |articles| && articles[i] == x && topic in x.metadata.tags;
        if i < |init| {
          assert init[i] == x;
        }
      }
      if exists i :: 0 <= i < |init| && init[i] == x && topic in x.metadata.tags {
        var i :| 0 <= i < |init| && init[i] == x && topic in x.metadata.tags;
        assert articles[i] == x;
      }
    }
  }

  /** A topic's bucket holds as many entries as the topic has occurrences among all tags. */
  lemma {:induction false} BucketLength(articles: seq<Article>, topic: string)
    ensures |Bucket(articles, topic)| == Seqs.Count(AllTags(articles), topic)
  {
    if articles != [] {
      var init, last := articles[..|articles| - 1], articles[|articles| - 1];
      BucketLength(init, topic);
      CountAppend(AllTags(init), last.metadata.tags, topic);
    }
  }

  lemma {:induction false} CountAppend(xs: seq<string>, ys: seq<string>, x: string)
    ensures Seqs.Count(xs + ys, x) == Seqs.Count(xs, x) + Seqs.Count(ys, x)
  {
    if ys == [] {
      assert xs + ys == xs;
    } else {
      var init, last := ys[..|ys| - 1], ys[|ys| - 1];
      assert xs + ys == (xs + init) + [last];
      CountAppend(xs, init, x);
      Seqs.CountSnoc(xs + init, last, x);
    }
  }

  /** Strictly ascending in JavaScript's string order, so also free of repeats. */
  ghost predicate StrictlyAscending(s: seq<string>)
  {
    forall i, j :: 0 <= i < j < |s| ==> Utf16.Less(s[i], s[j])
  }

  /** `array.sort(string.Ord)` over the map's keys. */
  function TopicsSummary(m: TopicsMap): (summary: seq<string>)
    requires m.Valid()
    ensures forall t :: t in summary <==> t in m.buckets
    ensures StrictlyAscending(summary)
  {
    var summary := Sorting.SortStrings(m.topics);
    assert forall t :: t in summary <==> t in multiset(summary);
    Seqs.DistinctByMultiset(summary, m.topics);
    forall i, j | 0 <= i < j < |summary| ensures Utf16.Less(summary[i], summary[j]) {
      Utf16.StringOrder(summary[i], summary[j], summary[j]);
    }
    summary
  }

  /** The errors a single topic can cause. */
  datatype TopicProcessingError =
    | CannotReadTopicDescription(topic: string, error: IoError)
    | CannotWriteTopicIndex(topic: string, error: IoError)

  datatype PerTopicIndexesError =
    | CannotCreateIndexesParentDirectory(error: IoError)
    | CannotWriteTopicIndexes(errors: seq<TopicProcessingError>)

  /** What processing one topic did: its outcome and the write it attempted, if any. */
  datatype TopicStep = TopicStep(result: Result<(), TopicProcessingError>, write: Option<IndexWrite>)

  /** The index of a topic: its bucket's metadata, file paths dropped, and its description. */
  function IndexOf(bucket: seq<Article>, description: string): (index: TopicIndex)
    ensures |index.articles| == |bucket|
    ensures forall i :: 0 <= i < |bucket| ==> index.articles[i] == bucket[i].metadata
    ensures index.description == description
  {
    TopicIndex(seq(|bucket|, i requires 0 <= i < |bucket| => bucket[i].metadata), description)
  }

  /**
   * One topic: its description is read; only if that succeeds is its index
   * written, and a failure of either step is reported for the topic.
   */
  function ProcessTopic(topic: string, bucket: seq<Article>,
                        readDescription: string -> Result<string, IoError>, write: Writer): (step: TopicStep)
    ensures readDescription(topic).Failure? ==>
      step == TopicStep(Failure(CannotReadTopicDescription(topic, readDescription(topic).error)), None)
    ensures readDescription(topic).Success? ==>
      var w := TopicIndexWrite(topic, IndexOf(bucket, readDescription(topic).value));
      step.write == Some(w)
      && (step.result.Success? <==> write(w).Done?)
      && (write(w).Failed? ==> step.result.error == CannotWriteTopicIndex(topic, write(w).error))
  {
    match readDescription(topic)
    case Failure(e) => TopicStep(Failure(CannotReadTopicDescription(topic, e)), None)
    case Success(description) =>
      var w := TopicIndexWrite(topic, IndexOf(bucket, description));
      match write(w)
      case Done => TopicStep(Success(()), Some(w))
      case Failed(e) => TopicStep(Failure(CannotWriteTopicIndex(topic, e)), Some(w))
  }

  function Steps(m: TopicsMap, readDescription: string -> Result<string, IoError>, write: Writer): (steps: seq<TopicStep>)
    requires m.Valid()
    ensures |steps| == |m.topics|
    ensures forall i :: 0 <= i < |m.topics| ==>
      steps[i] == ProcessTopic(m.topics[i], m.buckets[m.topics[i]], readDescription, write)
  {
    seq(|m.topics|, i requires 0 <= i < |m.topics| =>
      ProcessTopic(m.topics[i], m.buckets[m.topics[i]], readDescription, write))
  }

  function Results(steps: seq<TopicStep>): (rs: seq<Result<(), TopicProcessingError>>)
    ensures |rs| == |steps| && forall i :: 0 <= i < |steps| ==> rs[i] == steps[i].result
  {
    seq(|steps|, i requires 0 <= i < |steps| => steps[i].result)
  }

  /** The writes the steps attempted, in topic order. */
  function Writes(steps: seq<TopicStep>): seq<IndexWrite>
  {
    if steps == [] then []
    else (if steps[0].write.Some? then [steps[0].write.value] else []) + Writes(steps[1..])
  }

  lemma {:induction false} WritesMembership(steps: seq<TopicStep>, w: IndexWrite)
    ensures w in Writes(steps) <==> exists i :: 0 <= i < |steps| && steps[i].write == Some(w)
  {
    if steps != [] {
      WritesMembership(steps[1..], w);
      if exists i :: 1 <= i < |steps| && steps[i].write == Some(w) {
        var i :| 1 <= i < |steps| && steps[i].write == Some(w);
        assert steps[1..][i - 1].write == Some(w);
      }
      if w in Writes(steps[1..]) {
        var i :| 0 <= i < |steps[1..]| && steps[1..][i].write == Some(w);
        assert steps[i + 1].write == Some(w);
      }
    }
  }

  /**
   * `createPerTopicIndexes`: when the topics directory cannot be created
   * nothing else happens; otherwise every topic is processed and all of their
   * failures are collected.
   */
  function CreatePerTopicIndexes(m: TopicsMap, topicsDirectory: IoOutcome,
                                 readDescription: string -> Result<string, IoError>, write: Writer)
    : (o: Outcome<PerTopicIndexesError>)
    requires m.Valid()
    ensures topicsDirectory.Failed? ==>
      o == Outcome(Some(CannotCreateIndexesParentDirectory(topicsDirectory.error)), [])
    ensures topicsDirectory.Done? ==>
      o.writes == Writes(Steps(m, readDescription, write))
      && (o.error.None? <==> Validation.AllSucceed(Results(Steps(m, readDescription, write))))
      && (o.error.Some? ==>
        o.error.value == CannotWriteTopicIndexes(Validation.Errors(Results(Steps(m, readDescription, write)))))
  {
    match topicsDirectory
    case Failed(e) => Outcome(Some(CannotCreateIndexesParentDirectory(e)), [])
    case Done =>
      var steps := Steps(m, readDescription, write);
      match Validation.CollectAll(Results(steps))
      case Success(_) => Outcome(None, Writes(steps))
      case Failure(errors) => Outcome(Some(CannotWriteTopicIndexes(errors)), Writes(steps))
  }

  /** A topic's index is written, with exactly its bucket and description, if and only if its description was read. */
  lemma TopicIndexWritten(m: TopicsMap, readDescription: string -> Result<string, IoError>, write: Writer,
                          topic: string, index: TopicIndex)
    requires m.Valid()
    ensures var o := CreatePerTopicIndexes(m, Done, readDescription, write);
      TopicIndexWrite(topic, index) in o.writes
      <==> topic in m.buckets && readDescription(topic).Success?
           && index == IndexOf(m.buckets[topic], readDescription(topic).value)
  {
    var steps := Steps(m, readDescription, write);
    WritesMembership(steps, TopicIndexWrite(topic, index));
    if topic in m.buckets && readDescription(topic).Success? && index == IndexOf(m.buckets[topic], readDescription(topic).value) {
      var i :| 0 <= i < |m.topics| && m.topics[i] == topic;
      assert steps[i].write == Some(TopicIndexWrite(topic, index));
    }
  }

  /** One topic's step fails to read a description exactly for that topic's own failed read. */
  lemma StepReadError(t: string, bucket: seq<Article>, readDescription: string -> Result<string, IoError>,
                      write: Writer, topic: string, e: IoError)
    ensures ProcessTopic(t, bucket, readDescription, write).result == Failure(CannotReadTopicDescription(topic, e))
      <==> t == topic && readDescription(topic) == Failure(e)
  {
  }

  /** One topic's step fails to write exactly for that topic's own failed write. */
  lemma StepWriteError(t: string, bucket: seq<Article>, readDescription: string -> Result<string, IoError>,
                       write: Writer, topic: string, e: IoError)
    ensures ProcessTopic(t, bucket, readDescription, write).result == Failure(CannotWriteTopicIndex(topic, e))
      <==> t == topic && readDescription(topic).Success?
           && write(TopicIndexWrite(topic, IndexOf(bucket, readDescription(topic).value))) == Failed(e)
  {
  }

  /** Every topic whose description cannot be read is reported, and no other read error. */
  lemma DescriptionErrorsReported(m: TopicsMap, readDescription: string -> Result<string, IoError>, write: Writer,
                                  topic: string, e: IoError)
    requires m.Valid()
    requires CreatePerTopicIndexes(m, Done, readDescription, write).error.Some?
    ensures CannotReadTopicDescription(topic, e) in CreatePerTopicIndexes(m, Done, readDescription, write).error.value.errors
      <==> topic in m.buckets && readDescription(topic) == Failure(e)
  {
    var steps := Steps(m, readDescription, write);
    var rs := Results(steps);
    var x := Failure(CannotReadTopicDescription(topic, e));
    assert CreatePerTopicIndexes(m, Done, readDescription, write).error.value.errors == Validation.Errors(rs);
    Validation.ErrorsMembership(rs, CannotReadTopicDescription(topic, e));
    forall i | 0 <= i < |rs| ensures rs[i] == x <==> m.topics[i] == topic && readDescription(topic) == Failure(e) {
      StepReadError(m.topics[i], m.buckets[m.topics[i]], readDescription, write, topic, e);
    }
    if topic in m.buckets && readDescription(topic) == Failure(e) {
      var i :| 0 <= i < |m.topics| && m.topics[i] == topic;
      assert rs[i] == x;
    }
  }

  /** Every topic whose index cannot be written is reported, and no other write error. */
  lemma WriteErrorsReported(m: TopicsMap, readDescription: string -> Result<string, IoError>, write: Writer,
                            topic: string, e: IoError)
    requires m.Valid()
    requires CreatePerTopicIndexes(m, Done, readDescription, write).error.Some?
    ensures CannotWriteTopicIndex(topic, e) in CreatePerTopicIndexes(m, Done, readDescription, write).error.value.errors
      <==> topic in m.buckets && readDescription(topic).Success?
           && write(TopicIndexWrite(topic, IndexOf(m.buckets[topic], readDescription(topic).value))) == Failed(e)
  {
    var steps := Steps(m, readDescription, write);
    var rs := Results(steps);
    var x := Failure(CannotWriteTopicIndex(topic, e));
    assert CreatePerTopicIndexes(m, Done, readDescription, write).error.value.errors == Validation.Errors(rs);
    Validation.ErrorsMembership(rs, CannotWriteTopicIndex(topic, e));
    forall i | 0 <= i < |rs|
      ensures rs[i] == x <==> (m.topics[i] == topic && readDescription(topic).Success?
        && write(TopicIndexWrite(topic, IndexOf(m.buckets[topic], readDescription(topic).value))) == Failed(e))
    {
      StepWriteError(m.topics[i], m.buckets[m.topics[i]], readDescription, write, topic, e);
    }
    if topic in m.buckets && readDescription(topic).Success?
       && write(TopicIndexWrite(topic, IndexOf(m.buckets[topic], readDescription(topic).value))) == Failed(e) {
      var i :| 0 <= i < |m.topics| && m.topics[i] == topic;
      assert rs[i] == x;
    }
  }

  datatype TopicsSummaryError =
    | CannotCreateTopicsSummaryParentDirectory(error: IoError)
    | CannotWriteTopicSummaryIndex(error: IoError)

  /** `createTopicsSummary`: the summary is written once its directory exists. */
  function CreateTopicsSummary(m: TopicsMap, indexesDirectory: IoOutcome, write: Writer)
    : (o: Outcome<TopicsSummaryError>)
    requires m.Valid()
    ensures indexesDirectory.Failed? ==>
      o == Outcome(Some(CannotCreateTopicsSummaryParentDirectory(indexesDirectory.error)), [])
    ensures indexesDirectory.Done? ==>
      o.writes == [TopicsSummaryWrite(TopicsSummary(m))]
      && (o.error.None? <==> write(TopicsSummaryWrite(TopicsSummary(m))).Done?)
      && (o.error.Some? ==> o.error.value == CannotWriteTopicSummaryIndex(write(TopicsSummaryWrite(TopicsSummary(m))).error))
  {
    match indexesDirectory
    case Failed(e) => Outcome(Some(CannotCreateTopicsSummaryParentDirectory(e)), [])
    case Done =>
      var w := TopicsSummaryWrite(TopicsSummary(m));
      match write(w)
      case Done => Outcome(None, [w])
      case Failed(e) => Outcome(Some(CannotWriteTopicSummaryIndex(e)), [w])
  }

  datatype TopicIndexesError =
    | PerTopicFailed(perTopic: PerTopicIndexesError)
    | SummaryFailed(summary: TopicsSummaryError)

  /**
   * `createTopicIndexes`: the articles are fanned out into topics, then the
   * per-topic indexes and the topics summary are both created; the per-topic
   * error, if any, is the one reported.
   */
  method CreateTopicIndexes(articles: seq<Article>, topicsDirectory: IoOutcome, indexesDirectory: IoOutcome,
                            readDescription: string -> Result<string, IoError>, write: Writer)
    returns (error: Option<TopicIndexesError>, writes: seq<IndexWrite>)
    ensures var m := TopicsOf(articles);
      var perTopic := CreatePerTopicIndexes(m, topicsDirectory, readDescription, write);
      var summary := CreateTopicsSummary(m, indexesDirectory, write);
      && writes == perTopic.writes + summary.writes
      && error == (if perTopic.error.Some? then Some(PerTopicFailed(perTopic.error.value))
                   else if summary.error.Some? then Some(SummaryFailed(summary.error.value))
                   else None)
  {
    var m := GetTopicsWithParsedArticlesMap(articles);
    var perTopic := CreatePerTopicIndexes(m, topicsDirectory, readDescription, write);
    var summary := CreateTopicsSummary(m, indexesDirectory, write);
    writes := perTopic.writes + summary.writes;
    error := if perTopic.error.Some? then Some(PerTopicFailed(perTopic.error.value))
             else if summary.error.Some? then Some(SummaryFailed(summary.error.value))
             else None;
  }
}
