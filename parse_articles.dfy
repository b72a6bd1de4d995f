/**
 * Reading the articles: every discovered article file is read and its front
 * matter validated against the article schema (non-empty title and slug, a
 * valid date, a tags line, a summary of at least five characters); either
 * every file yields a record, or all the per-file errors are reported
 * together. The records come out newest first.
 */
module ParseArticles {
  import opened Wrappers
  import opened FrontMatter
  import opened Io
  import Text
  import Validation
  import Sorting

  /** The validated front matter of an article. */
  datatype ArticleFrontMatter =
    ArticleFrontMatter(title: string, date: int, tags: seq<string>, slug: string, summary: string)

  /** The front matter plus the estimated reading time in minutes. */
  datatype ArticleMetadata = ArticleMetadata(
    title: string, date: int, tags: seq<string>, slug: string, summary: string,
    readingTimeMin: real)

  datatype ParsedArticleWithMetadata = ParsedArticleWithMetadata(filePath: string, metadata: ArticleMetadata)

  /**
   * What reading one article file gives: a read failure, or the decoded front
   * matter and the reading time of the body.
   */
  datatype ArticleSource = Unreadable(error: IoError) | Readable(frontMatter: RawFrontMatter, readingTimeMin: real)

  datatype ArticleFile = ArticleFile(filePath: string, source: ArticleSource)

  datatype ArticleMetadataParseError =
    | CannotReadFile(error: IoError)
    | CannotParseFrontMatter(readFrontMatter: RawFrontMatter, issues: seq<Issue>)

  datatype ParseArticlesError =
    | CannotCompleteGlob(error: IoError)
    | CannotParseArticle(errors: seq<ArticleMetadataParseError>)

  /** The article schema's issues, field by field in the schema's key order. */
  function ArticleIssues(fm: RawFrontMatter): seq<Issue>
  {
    StringIssues(fm, "title", 1) + DateIssues(fm) + TagsIssues(fm)
    + StringIssues(fm, "slug", 1) + StringIssues(fm, "summary", 5)
  }

  /** What the article schema accepts. */
  predicate IsValidFrontMatter(fm: RawFrontMatter)
  {
    HasMinLength(fm, "title", 1) && HasValidDate(fm) && HasValidTagsLine(fm)
    && HasMinLength(fm, "slug", 1) && HasMinLength(fm, "summary", 5)
  }

  /** The schema raises no issue exactly for the front matter it accepts. */
  lemma ArticleIssuesEmpty(fm: RawFrontMatter)
    ensures ArticleIssues(fm) == [] <==> IsValidFrontMatter(fm)
  {
    StringIssuesMeaning(fm, "title", 1);
    StringIssuesMeaning(fm, "slug", 1);
    StringIssuesMeaning(fm, "summary", 5);
    TagsIssuesMeaning(fm);
  }

  /** A missing or non-string title, and an empty one, are reported. */
  lemma TitleIssuesRaised(fm: RawFrontMatter)
    ensures InvalidType("title", "string") in ArticleIssues(fm) <==> !IsStringField(fm, "title")
    ensures TooSmall("title", 1) in ArticleIssues(fm) <==> IsStringField(fm, "title") && fm["title"].text == []
  {
    NonEmptyIssues(fm, "title");
    IssuesAbout(fm, "slug", 1);
    IssuesAbout(fm, "summary", 5);
    var t, d, g, s, m := StringIssues(fm, "title", 1), DateIssues(fm), TagsIssues(fm),
      StringIssues(fm, "slug", 1), StringIssues(fm, "summary", 5);
    AmongFive(InvalidType("title", "string"), t, d, g, s, m);
    AmongFive(TooSmall("title", 1), t, d, g, s, m);
  }

  /** An empty slug is reported. */
  lemma SlugIssueRaised(fm: RawFrontMatter)
    ensures TooSmall("slug", 1) in ArticleIssues(fm) <==> IsStringField(fm, "slug") && fm["slug"].text == []
  {
    NonEmptyIssues(fm, "slug");
    IssuesAbout(fm, "title", 1);
    IssuesAbout(fm, "summary", 5);
    var t, d, g, s, m := StringIssues(fm, "title", 1), DateIssues(fm), TagsIssues(fm),
      StringIssues(fm, "slug", 1), StringIssues(fm, "summary", 5);
    AmongFive(TooSmall("slug", 1), t, d, g, s, m);
  }

  /** A summary shorter than five UTF-16 units is reported. */
  lemma SummaryIssueRaised(fm: RawFrontMatter)
    ensures TooSmall("summary", 5) in ArticleIssues(fm)
        <==> IsStringField(fm, "summary") && Utf16.Length(fm["summary"].text) < 5
  {
    IssuesAbout(fm, "title", 1);
    IssuesAbout(fm, "slug", 1);
    var t, d, g, s, m := StringIssues(fm, "title", 1), DateIssues(fm), TagsIssues(fm),
      StringIssues(fm, "slug", 1), StringIssues(fm, "summary", 5);
    AmongFive(TooSmall("summary", 5), t, d, g, s, m);
  }

  /** The tags check raises only a type issue for `tags` and empty-tag issues. */
  lemma TagsOnlyEmptyTags(fm: RawFrontMatter)
    ensures forall x :: x in TagsIssues(fm) ==> x == InvalidType("tags", "string") || x.EmptyTag?
  {
  }

  /** An invalid date is reported exactly when the date's time value is NaN. */
  lemma DateIssueRaised(fm: RawFrontMatter)
    ensures InvalidDate in ArticleIssues(fm) <==> "date" in fm && fm["date"] == RawDate(None)
  {
    IssuesAbout(fm, "title", 1);
    IssuesAbout(fm, "slug", 1);
    IssuesAbout(fm, "summary", 5);
    var t, d, g, s, m := StringIssues(fm, "title", 1), DateIssues(fm), TagsIssues(fm),
      StringIssues(fm, "slug", 1), StringIssues(fm, "summary", 5);
    AmongFive(InvalidDate, t, d, g, s, m);
  }

  /** An empty-tag issue is reported for exactly the blank pieces of the tags line. */
  lemma EmptyTagsRaised(fm: RawFrontMatter)
    ensures forall k: nat :: EmptyTag(k) in ArticleIssues(fm) <==>
      IsStringField(fm, "tags") && k < |Text.Split(fm["tags"].text, ',')|
      && Text.AllWhitespace(Text.Split(fm["tags"].text, ',')[k])
  {
    IssuesAbout(fm, "title", 1);
    IssuesAbout(fm, "slug", 1);
    IssuesAbout(fm, "summary", 5);
    var t, d, g, s, m := StringIssues(fm, "title", 1), DateIssues(fm), TagsIssues(fm),
      StringIssues(fm, "slug", 1), StringIssues(fm, "summary", 5);
    forall k: nat ensures EmptyTag(k) in ArticleIssues(fm) <==> EmptyTag(k) in g {
      AmongFive(EmptyTag(k), t, d, g, s, m);
    }
    if IsStringField(fm, "tags") {
      var pieces := Text.Split(fm["tags"].text, ',');
      var o := TransformTags(fm["tags"].text);
      assert g == o.issues;
      forall k | 0 <= k < |pieces| ensures o.tags[k] == [] <==> Text.AllWhitespace(pieces[k]) {
        Text.TrimEmpty(pieces[k]);
      }
    } else {
      assert g == [InvalidType("tags", "string")];
    }
  }

  /**
   * With a valid title, date and summary, a tags line and an empty slug, the
   * empty-tag issues come before the slug's issue, in the schema's key order.
   */
  lemma SlugAfterEmptyTags(fm: RawFrontMatter)
    requires HasMinLength(fm, "title", 1) && HasValidDate(fm) && HasMinLength(fm, "summary", 5)
    requires IsStringField(fm, "tags") && IsStringField(fm, "slug") && fm["slug"].text == []
    ensures ArticleIssues(fm) == TransformTags(fm["tags"].text).issues + [TooSmall("slug", 1)]
  {
    NonEmptyIssues(fm, "slug");
    StringIssuesMeaning(fm, "title", 1);
    StringIssuesMeaning(fm, "summary", 5);
    assert StringIssues(fm, "title", 1) == [] && StringIssues(fm, "slug", 1) == [TooSmall("slug", 1)];
    assert DateIssues(fm) == [] && TagsIssues(fm) == TransformTags(fm["tags"].text).issues;
  }

  /** `articleFrontMatterSchema.safeParse`: the validated fields, or every issue. */
  function ParseFrontMatter(fm: RawFrontMatter): (r: Result<ArticleFrontMatter, seq<Issue>>)
    ensures r.Success? <==> IsValidFrontMatter(fm)
    ensures r.Success? ==> r.value == ArticleFrontMatter(
      fm["title"].text, fm["date"].time.value, TransformTags(fm["tags"].text).tags,
      fm["slug"].text, fm["summary"].text)
    ensures r.Failure? ==> r.error == ArticleIssues(fm) && r.error != []
  {
    ArticleIssuesEmpty(fm);
    var issues := ArticleIssues(fm);
    if issues == [] then
      Success(ArticleFrontMatter(
        fm["title"].text, fm["date"].time.value, TransformTags(fm["tags"].text).tags,
        fm["slug"].text, fm["summary"].text))
    else Failure(issues)
  }

  /** `parseArticleMetadata`: the read error, the rejected front matter with its issues, or the metadata. */
  function ParseArticleMetadata(source: ArticleSource): (r: Result<ArticleMetadata, ArticleMetadataParseError>)
    ensures source.Unreadable? ==> r == Failure(CannotReadFile(source.error))
    ensures source.Readable? ==> (r.Success? <==> IsValidFrontMatter(source.frontMatter))
    ensures source.Readable? && r.Failure? ==>
      r.error == CannotParseFrontMatter(source.frontMatter, ArticleIssues(source.frontMatter))
    ensures r.Success? ==> var fm := source.frontMatter;
      r.value == ArticleMetadata(
        fm["title"].text, fm["date"].time.value, TransformTags(fm["tags"].text).tags,
        fm["slug"].text, fm["summary"].text, source.readingTimeMin)
  {
    match source
    case Unreadable(e) => Failure(CannotReadFile(e))
    case Readable(fm, minutes) =>
      match ParseFrontMatter(fm)
      case Failure(issues) => Failure(CannotParseFrontMatter(fm, issues))
      case Success(f) => Success(ArticleMetadata(f.title, f.date, f.tags, f.slug, f.summary, minutes))
  }

  /** One file's outcome: its metadata paired with its path, or its error. */
  function ParseFile(file: ArticleFile): Result<ParsedArticleWithMetadata, ArticleMetadataParseError>
  {
    match ParseArticleMetadata(file.source)
    case Success(m) => Success(ParsedArticleWithMetadata(file.filePath, m))
    case Failure(e) => Failure(e)
  }

  function ParseEach(files: seq<ArticleFile>): seq<Result<ParsedArticleWithMetadata, ArticleMetadataParseError>>
  {
    seq(|files|, i requires 0 <= i < |files| => ParseFile(files[i]))
  }

  predicate AllParse(files: seq<ArticleFile>)
  {
    forall i :: 0 <= i < |files| ==> ParseArticleMetadata(files[i].source).Success?
  }

  /** The record of every file, in discovery order, when every file parses. */
  function Records(files: seq<ArticleFile>): (rs: seq<ParsedArticleWithMetadata>)
    requires AllParse(files)
  {
    seq(|files|, i requires 0 <= i < |files| =>
      ParsedArticleWithMetadata(files[i].filePath, ParseArticleMetadata(files[i].source).value))
  }

  /** Collecting the outcomes of all files yields the records of all files. */
  lemma CollectedRecords(files: seq<ArticleFile>)
    ensures Validation.CollectAll(ParseEach(files)).Success? <==> AllParse(files)
    ensures Validation.CollectAll(ParseEach(files)).Success? ==>
      Validation.CollectAll(ParseEach(files)).value == Records(files)
  {
    var each := ParseEach(files);
    assert forall i :: 0 <= i < |files| ==> (each[i].Success? <==> ParseArticleMetadata(files[i].source).Success?);
  }

  /** The sort key: the date's time value; the sort puts the largest first. */
  function DateKey(a: ParsedArticleWithMetadata): int
  {
    a.metadata.date
  }

  /**
   * `parseArticleWithMetadata`, given the outcome of the file discovery: the
   * glob error; or every file's error, in file order, when any file fails; or
   * every file's record, newest first.
   */
  function ParseArticleWithMetadata(discovery: Result<seq<ArticleFile>, IoError>)
    : (r: Result<seq<ParsedArticleWithMetadata>, ParseArticlesError>)
    ensures discovery.Failure? ==> r == Failure(CannotCompleteGlob(discovery.error))
    ensures discovery.Success? ==> (r.Success? <==> AllParse(discovery.value))
    ensures discovery.Success? && r.Failure? ==>
      r.error == CannotParseArticle(Validation.Errors(ParseEach(discovery.value)))
    ensures r.Success? ==>
      && discovery.Success? && AllParse(discovery.value)
      && multiset(r.value) == multiset(Records(discovery.value))
      && Sorting.Descending(r.value, DateKey)
  {
    match discovery
    case Failure(e) => Failure(CannotCompleteGlob(e))
    case Success(files) =>
      var each := ParseEach(files);
      match Validation.CollectAll(each)
      case Failure(errors) => Failure(CannotParseArticle(errors))
      case Success(records) =>
        CollectedRecords(files);
        Success(Sorting.SortByKeyDescending(records, DateKey))
  }

  /** When any file fails, the error lists the error of every failing file and nothing else. */
  lemma ParseErrorsComplete(files: seq<ArticleFile>)
    requires ParseArticleWithMetadata(Success(files)).Failure?
    ensures var errors := ParseArticleWithMetadata(Success(files)).error.errors;
      (forall i :: 0 <= i < |files| && ParseArticleMetadata(files[i].source).Failure? ==>
        ParseArticleMetadata(files[i].source).error in errors)
      && (forall e :: e in errors ==>
        exists i :: 0 <= i < |files| && ParseArticleMetadata(files[i].source) == Failure(e))
  {
    var each := ParseEach(files);
    forall e ensures e in Validation.Errors(each) <==>
      exists i :: 0 <= i < |each| && each[i] == Failure(e) {
      Validation.ErrorsMembership(each, e);
    }
    forall i | 0 <= i < |files| && ParseArticleMetadata(files[i].source).Failure?
      ensures each[i] == Failure(ParseArticleMetadata(files[i].source).error) {
    }
  }

  /** Articles with the same date keep their discovery order. */
  lemma ParseArticlesStable(files: seq<ArticleFile>, date: int)
    requires ParseArticleWithMetadata(Success(files)).Success?
    ensures Sorting.WithKey(ParseArticleWithMetadata(Success(files)).value, DateKey, date)
         == Sorting.WithKey(Records(files), DateKey, date)
  {
    var records := Validation.CollectAll(ParseEach(files)).value;
    CollectedRecords(files);
    Sorting.SortByKeyDescendingStable(records, DateKey, date);
  }
}
