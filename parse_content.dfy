/**
 * Reading all content (articles and other pages): every discovered content
 * file is read and its front matter validated against the content schema,
 * which has the article rules for title, date, tags and slug but no summary
 * and no reading time; either every file yields a record, or all the per-file
 * errors are reported together. The records come out newest first.
 */
module ParseContent {
  import opened Wrappers
  import opened FrontMatter
  import opened Io
  import Text
  import Validation
  import Sorting

  /** The validated front matter of a content file. */
  datatype ContentFrontMatter = ContentFrontMatter(title: string, date: int, tags: seq<string>, slug: string)

  datatype ContentWithMetadata = ContentWithMetadata(contentFilePath: string, contentMetadata: ContentFrontMatter)

  /** What reading one content file gives: a read failure, or the decoded front matter. */
  datatype ContentSource = Unreadable(error: IoError) | Readable(frontMatter: RawFrontMatter)

  datatype ContentFile = ContentFile(contentFilePath: string, source: ContentSource)

  datatype ContentMetadataParseError =
    | CannotReadFile(error: IoError)
    | CannotParseFrontMatter(readFrontMatter: RawFrontMatter, issues: seq<Issue>)

  datatype ParseContentError =
    | CannotCompleteGlob(error: IoError)
    | CannotParseContent(errors: seq<ContentMetadataParseError>)

  /**
   * The content schema's issues as `safeParseAsync` raises them: the field
   * checks, field by field in the schema's key order (the date's issue at the
   * date's position), and after them the tags transform's issues, which an
   * asynchronous parse defers until every field has been visited.
   */
  function ContentIssues(fm: RawFrontMatter): seq<Issue>
  {
    StringIssues(fm, "title", 1) + DateIssues(fm) + TagsTypeIssues(fm) + StringIssues(fm, "slug", 1)
    + TagsTransformIssues(fm)
  }

  /** The issues the tags transform raises, which an asynchronous parse defers. */
  predicate IsDeferred(issue: Issue)
  {
    issue.EmptyTag?
  }

  /** Field checks first, then the transform's issues. */
  lemma {:induction false} DeferredLast(checks: seq<Issue>, transformed: seq<Issue>)
    requires forall x :: x in checks ==> !IsDeferred(x)
    requires forall x :: x in transformed ==> IsDeferred(x)
    ensures var s := checks + transformed;
      forall i, j :: 0 <= i < j < |s| && IsDeferred(s[i]) ==> IsDeferred(s[j])
  {
    var s := checks + transformed;
    forall i | 0 <= i < |s| ensures IsDeferred(s[i]) <==> i >= |checks| {
      if i < |checks| {
        assert s[i] == checks[i] && checks[i] in checks;
      } else {
        assert s[i] == transformed[i - |checks|] && transformed[i - |checks|] in transformed;
      }
    }
  }

  /**
   * Once an empty-tag issue appears, every later issue is one too; in
   * particular the invalid-date issue, raised at the date's key position,
   * never comes after an empty-tag issue.
   */
  lemma ContentIssueOrder(fm: RawFrontMatter)
    ensures var s := ContentIssues(fm);
      (forall i, j :: 0 <= i < j < |s| && s[i].EmptyTag? ==> s[j].EmptyTag?)
      && (forall i, j :: 0 <= i < j < |s| && s[j] == InvalidDate ==> !s[i].EmptyTag?)
  {
    var checks := StringIssues(fm, "title", 1) + DateIssues(fm) + TagsTypeIssues(fm) + StringIssues(fm, "slug", 1);
    TagsOnlyEmptyTags(fm);
    DeferredLast(checks, TagsTransformIssues(fm));
  }

  /**
   * With a valid title and date, a tags line and an empty slug, the slug's
   * issue comes before the empty-tag issues, although `tags` comes before
   * `slug` in the schema.
   */
  lemma EmptyTagsAfterSlug(fm: RawFrontMatter)
    requires HasMinLength(fm, "title", 1) && HasValidDate(fm)
    requires IsStringField(fm, "tags") && IsStringField(fm, "slug") && fm["slug"].text == []
    ensures ContentIssues(fm) == [TooSmall("slug", 1)] + TransformTags(fm["tags"].text).issues
  {
    var t, d, gt, s := StringIssues(fm, "title", 1), DateIssues(fm), TagsTypeIssues(fm), StringIssues(fm, "slug", 1);
    var gr := TagsTransformIssues(fm);
    NonEmptyIssues(fm, "slug");
    StringIssuesMeaning(fm, "title", 1);
    assert t == [] && d == [] && gt == [];
    assert s == [TooSmall("slug", 1)] && gr == TransformTags(fm["tags"].text).issues;
    OnlySlugAndTransform(t, d, gt, s, gr);
  }

  /** Five issue lists of which only the fourth and the last hold anything. */
  lemma OnlySlugAndTransform(t: seq<Issue>, d: seq<Issue>, gt: seq<Issue>, s: seq<Issue>, gr: seq<Issue>)
    requires t == [] && d == [] && gt == []
    ensures t + d + gt + s + gr == s + gr
  {
  }

  /** What the content schema accepts. */
  predicate IsValidFrontMatter(fm: RawFrontMatter)
  {
    HasMinLength(fm, "title", 1) && HasValidDate(fm) && HasValidTagsLine(fm) && HasMinLength(fm, "slug", 1)
  }

  /** The schema raises no issue exactly for the front matter it accepts. */
  lemma ContentIssuesEmpty(fm: RawFrontMatter)
    ensures ContentIssues(fm) == [] <==> IsValidFrontMatter(fm)
  {
    StringIssuesMeaning(fm, "title", 1);
    StringIssuesMeaning(fm, "slug", 1);
    TagsIssuesMeaning(fm);
  }

  /** A missing or non-string title, and an empty one, are reported. */
  lemma TitleIssuesRaised(fm: RawFrontMatter)
    ensures InvalidType("title", "string") in ContentIssues(fm) <==> !IsStringField(fm, "title")
    ensures TooSmall("title", 1) in ContentIssues(fm) <==> IsStringField(fm, "title") && fm["title"].text == []
  {
    NonEmptyIssues(fm, "title");
    IssuesAbout(fm, "slug", 1);
    var t, d, gt, s := StringIssues(fm, "title", 1), DateIssues(fm), TagsTypeIssues(fm), StringIssues(fm, "slug", 1);
    var gr := TagsTransformIssues(fm);
    AmongFive(InvalidType("title", "string"), t, d, gt, s, gr);
    AmongFive(TooSmall("title", 1), t, d, gt, s, gr);
  }

  /** An empty slug is reported. */
  lemma SlugIssueRaised(fm: RawFrontMatter)
    ensures TooSmall("slug", 1) in ContentIssues(fm) <==> IsStringField(fm, "slug") && fm["slug"].text == []
  {
    NonEmptyIssues(fm, "slug");
    IssuesAbout(fm, "title", 1);
    var t, d, gt, s := StringIssues(fm, "title", 1), DateIssues(fm), TagsTypeIssues(fm), StringIssues(fm, "slug", 1);
    var gr := TagsTransformIssues(fm);
    AmongFive(TooSmall("slug", 1), t, d, gt, s, gr);
  }

  /** The content schema ignores any summary: changing or adding one changes no issue. */
  lemma SummaryIgnored(fm: RawFrontMatter, summary: RawValue)
    ensures ContentIssues(fm["summary" := summary]) == ContentIssues(fm)
  {
    var fm' := fm["summary" := summary];
    forall f | f in {"title", "date", "tags", "slug"} ensures (f in fm' <==> f in fm) && (f in fm ==> fm'[f] == fm[f]) {
    }
    assert StringIssues(fm', "title", 1) == StringIssues(fm, "title", 1);
    assert StringIssues(fm', "slug", 1) == StringIssues(fm, "slug", 1);
    assert DateIssues(fm') == DateIssues(fm);
    assert TagsTypeIssues(fm') == TagsTypeIssues(fm) && TagsTransformIssues(fm') == TagsTransformIssues(fm);
  }

  /** The tags transform raises only empty-tag issues. */
  lemma TagsOnlyEmptyTags(fm: RawFrontMatter)
    ensures forall x :: x in TagsTransformIssues(fm) ==> x.EmptyTag?
  {
  }

  /** An invalid date is reported exactly when the date's time value is NaN. */
  lemma DateIssueRaised(fm: RawFrontMatter)
    ensures InvalidDate in ContentIssues(fm) <==> "date" in fm && fm["date"] == RawDate(None)
  {
    IssuesAbout(fm, "title", 1);
    IssuesAbout(fm, "slug", 1);
    var t, d, gt, s := StringIssues(fm, "title", 1), DateIssues(fm), TagsTypeIssues(fm), StringIssues(fm, "slug", 1);
    var gr := TagsTransformIssues(fm);
    AmongFive(InvalidDate, t, d, gt, s, gr);
  }

  /** An empty-tag issue is reported for exactly the blank pieces of the tags line. */
  lemma EmptyTagsRaised(fm: RawFrontMatter)
    ensures forall k: nat :: EmptyTag(k) in ContentIssues(fm) <==>
      IsStringField(fm, "tags") && k < |Text.Split(fm["tags"].text, ',')|
      && Text.AllWhitespace(Text.Split(fm["tags"].text, ',')[k])
  {
    IssuesAbout(fm, "title", 1);
    IssuesAbout(fm, "slug", 1);
    var t, d, gt, s := StringIssues(fm, "title", 1), DateIssues(fm), TagsTypeIssues(fm), StringIssues(fm, "slug", 1);
    var gr := TagsTransformIssues(fm);
    forall k: nat ensures EmptyTag(k) in ContentIssues(fm) <==> EmptyTag(k) in gr {
      AmongFive(EmptyTag(k), t, d, gt, s, gr);
    }
    if IsStringField(fm, "tags") {
      var pieces := Text.Split(fm["tags"].text, ',');
      var o := TransformTags(fm["tags"].text);
      assert gr == o.issues;
      forall k | 0 <= k < |pieces| ensures o.tags[k] == [] <==> Text.AllWhitespace(pieces[k]) {
        Text.TrimEmpty(pieces[k]);
      }
    }
  }

  /** `contentFrontMatterSchema.safeParseAsync`: the validated fields, or every issue. */
  function ParseFrontMatter(fm: RawFrontMatter): (r: Result<ContentFrontMatter, seq<Issue>>)
    ensures r.Success? <==> IsValidFrontMatter(fm)
    ensures r.Success? ==> r.value == ContentFrontMatter(
      fm["title"].text, fm["date"].time.value, TransformTags(fm["tags"].text).tags, fm["slug"].text)
    ensures r.Failure? ==> r.error == ContentIssues(fm) && r.error != []
  {
    ContentIssuesEmpty(fm);
    var issues := ContentIssues(fm);
    if issues == [] then
      Success(ContentFrontMatter(
        fm["title"].text, fm["date"].time.value, TransformTags(fm["tags"].text).tags, fm["slug"].text))
    else Failure(issues)
  }

  /** `parseContentMetadata`: the read error, the rejected front matter with its issues, or the metadata. */
  function ParseContentMetadata(source: ContentSource): (r: Result<ContentFrontMatter, ContentMetadataParseError>)
    ensures source.Unreadable? ==> r == Failure(CannotReadFile(source.error))
    ensures source.Readable? ==> (r.Success? <==> IsValidFrontMatter(source.frontMatter))
    ensures source.Readable? && r.Failure? ==>
      r.error == CannotParseFrontMatter(source.frontMatter, ContentIssues(source.frontMatter))
    ensures r.Success? ==> var fm := source.frontMatter;
      r.value == ContentFrontMatter(
        fm["title"].text, fm["date"].time.value, TransformTags(fm["tags"].text).tags, fm["slug"].text)
  {
    match source
    case Unreadable(e) => Failure(CannotReadFile(e))
    case Readable(fm) =>
      match ParseFrontMatter(fm)
      case Failure(issues) => Failure(CannotParseFrontMatter(fm, issues))
      case Success(f) => Success(f)
  }

  /** One file's outcome: its metadata paired with its path, or its error. */
  function ParseFile(file: ContentFile): Result<ContentWithMetadata, ContentMetadataParseError>
  {
    match ParseContentMetadata(file.source)
    case Success(m) => Success(ContentWithMetadata(file.contentFilePath, m))
    case Failure(e) => Failure(e)
  }

  function ParseEach(files: seq<ContentFile>): seq<Result<ContentWithMetadata, ContentMetadataParseError>>
  {
    seq(|files|, i requires 0 <= i < |files| => ParseFile(files[i]))
  }

  predicate AllParse(files: seq<ContentFile>)
  {
    forall i :: 0 <= i < |files| ==> ParseContentMetadata(files[i].source).Success?
  }

  /** The record of every file, in discovery order, when every file parses. */
  function Records(files: seq<ContentFile>): (rs: seq<ContentWithMetadata>)
    requires AllParse(files)
  {
    seq(|files|, i requires 0 <= i < |files| =>
      ContentWithMetadata(files[i].contentFilePath, ParseContentMetadata(files[i].source).value))
  }

  /** Collecting the outcomes of all files yields the records of all files. */
  lemma CollectedRecords(files: seq<ContentFile>)
    ensures Validation.CollectAll(ParseEach(files)).Success? <==> AllParse(files)
    ensures Validation.CollectAll(ParseEach(files)).Success? ==>
      Validation.CollectAll(ParseEach(files)).value == Records(files)
  {
    var each := ParseEach(files);
    assert forall i :: 0 <= i < |files| ==> (each[i].Success? <==> ParseContentMetadata(files[i].source).Success?);
  }

  /** The sort key: the date's time value; the sort puts the largest first. */
  function DateKey(a: ContentWithMetadata): int
  {
    a.contentMetadata.date
  }

  /**
   * `parseContentWithMetadata`, given the outcome of the file discovery: the
   * glob error; or every file's error, in file order, when any file fails; or
   * every file's record, newest first.
   */
  function ParseContentWithMetadata(discovery: Result<seq<ContentFile>, IoError>)
    : (r: Result<seq<ContentWithMetadata>, ParseContentError>)
    ensures discovery.Failure? ==> r == Failure(CannotCompleteGlob(discovery.error))
    ensures discovery.Success? ==> (r.Success? <==> AllParse(discovery.value))
    ensures discovery.Success? && r.Failure? ==>
      r.error == CannotParseContent(Validation.Errors(ParseEach(discovery.value)))
    ensures r.Success? ==>
      && discovery.Success? && AllParse(discovery.value)
      && multiset(r.value) == multiset(Records(discovery.value))
      && Sorting.Descending(r.value, DateKey)
  {
    match discovery
    case Failure(e) => Failure(CannotCompleteGlob(e))
    case Success(files) =>
      var each := ParseEach(files);
      match Validation.CollectAll(each)
      case Failure(errors) => Failure(CannotParseContent(errors))
      case Success(records) =>
        CollectedRecords(files);
        Success(Sorting.SortByKeyDescending(records, DateKey))
  }

  /** When any file fails, the error lists the error of every failing file and nothing else. */
  lemma ParseErrorsComplete(files: seq<ContentFile>)
    requires ParseContentWithMetadata(Success(files)).Failure?
    ensures var errors := ParseContentWithMetadata(Success(files)).error.errors;
      (forall i :: 0 <= i < |files| && ParseContentMetadata(files[i].source).Failure? ==>
        ParseContentMetadata(files[i].source).error in errors)
      && (forall e :: e in errors ==>
        exists i :: 0 <= i < |files| && ParseContentMetadata(files[i].source) == Failure(e))
  {
    var each := ParseEach(files);
    forall e ensures e in Validation.Errors(each) <==>
      exists i :: 0 <= i < |each| && each[i] == Failure(e) {
      Validation.ErrorsMembership(each, e);
    }
    forall i | 0 <= i < |files| && ParseContentMetadata(files[i].source).Failure?
      ensures each[i] == Failure(ParseContentMetadata(files[i].source).error) {
    }
  }

  /** Content files with the same date keep their discovery order. */
  lemma ParseContentStable(files: seq<ContentFile>, date: int)
    requires ParseContentWithMetadata(Success(files)).Success?
    ensures Sorting.WithKey(ParseContentWithMetadata(Success(files)).value, DateKey, date)
         == Sorting.WithKey(Records(files), DateKey, date)
  {
    var records := Validation.CollectAll(ParseEach(files)).value;
    CollectedRecords(files);
    Sorting.SortByKeyDescendingStable(records, DateKey, date);
  }
}
