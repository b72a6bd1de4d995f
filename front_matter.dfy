/**
 * The front-matter rules shared by the article and content schemas: the raw
 * record that `gray-matter` decodes, the zod issues the schemas raise, the
 * field checks, and the `tags` transform that splits the tags line on commas
 * and trims each piece. The two schemas are put together from these in
 * `ParseArticles` and `ParseContent`.
 */
module FrontMatter {
  import opened Wrappers
  import Text
  import Utf16
  import Decimal

  /**
   * A decoded front-matter value: a string, a YAML date as its time value
   * (`None` for an invalid date, whose time value is NaN), or anything else.
   */
  datatype RawValue = RawString(text: string) | RawDate(time: Option<int>) | RawOther

  /** The front-matter object; a missing key is an absent field. */
  type RawFrontMatter = map<string, RawValue>

  /** The zod issues the schemas can raise, in the order they are raised. */
  datatype Issue =
    | InvalidType(field: string, expected: string)  // field missing or of another type
    | TooSmall(field: string, minimum: nat)         // string shorter than `minimum`
    | InvalidDate                                   // date whose time value is NaN
    | EmptyTag(index: nat)                          // piece `index` of the tags line is blank

  /** The field an issue is about. */
  function Field(issue: Issue): string
  {
    match issue
    case InvalidType(f, _) => f
    case TooSmall(f, _) => f
    case InvalidDate => "date"
    case EmptyTag(_) => "tags"
  }

  /** Every issue of `issues` is about `field`. */
  predicate AllAbout(issues: seq<Issue>, field: string)
  {
    forall x :: x in issues ==> Field(x) == field
  }

  const EmptyTagPrefix := "Empty tag with index "

  /** The messages the schemas themselves give; zod's built-in messages are not modelled. */
  function CustomMessage(issue: Issue): Option<string>
  {
    match issue
    case InvalidDate => Some("Invalid date")
    case EmptyTag(i) => Some(EmptyTagPrefix + Decimal.NatToString(i))
    case _ => None
  }

  /** The message of an empty-tag issue names its index, and the index can be read back. */
  lemma EmptyTagMessage(i: nat)
    ensures CustomMessage(EmptyTag(i)).Some?
    ensures var m := CustomMessage(EmptyTag(i)).value;
      |m| > |EmptyTagPrefix| && m[..|EmptyTagPrefix|] == EmptyTagPrefix
      && Decimal.IsCanonical(m[|EmptyTagPrefix|..]) && Decimal.Value(m[|EmptyTagPrefix|..]) == i
  {
    var m := CustomMessage(EmptyTag(i)).value;
    assert m[|EmptyTagPrefix|..] == Decimal.NatToString(i);
    Decimal.ValueOfNatToString(i);
  }

  predicate IsStringField(fm: RawFrontMatter, field: string)
  {
    field in fm && fm[field].RawString?
  }

  /** `z.string().min(minimum)`; the length is JavaScript's UTF-16 length. */
  function StringIssues(fm: RawFrontMatter, field: string, minimum: nat): seq<Issue>
  {
    if !IsStringField(fm, field) then [InvalidType(field, "string")]
    else if Utf16.Length(fm[field].text) < minimum then [TooSmall(field, minimum)]
    else []
  }

  /** `z.date()` itself: the value must be a date. */
  function DateTypeIssues(fm: RawFrontMatter): seq<Issue>
  {
    if "date" !in fm || !fm["date"].RawDate? then [InvalidType("date", "date")] else []
  }

  /** The refinement on `z.date()`, run only on a date: its time value must not be NaN. */
  function DateRefinementIssues(fm: RawFrontMatter): seq<Issue>
  {
    if "date" in fm && fm["date"] == RawDate(None) then [InvalidDate] else []
  }

  /**
   * `z.date()` refined to reject a date whose time value is NaN. The issue
   * sits at the date's key position, as zod releases whose `z.date()` itself
   * rejects an invalid date raise it during the pass over the fields.
   */
  function DateIssues(fm: RawFrontMatter): seq<Issue>
  {
    DateTypeIssues(fm) + DateRefinementIssues(fm)
  }

  /** Each check raises only issues about its own field. */
  lemma IssuesAbout(fm: RawFrontMatter, field: string, minimum: nat)
    ensures AllAbout(StringIssues(fm, field, minimum), field)
    ensures AllAbout(DateTypeIssues(fm), "date") && AllAbout(DateRefinementIssues(fm), "date")
    ensures AllAbout(DateIssues(fm), "date")
    ensures AllAbout(TagsTypeIssues(fm), "tags") && AllAbout(TagsTransformIssues(fm), "tags")
    ensures AllAbout(TagsIssues(fm), "tags")
  {
  }

  /** An issue is among the issues of five checks exactly when one of them raised it. */
  lemma AmongFive(x: Issue, a: seq<Issue>, b: seq<Issue>, c: seq<Issue>, d: seq<Issue>, e: seq<Issue>)
    ensures x in a + b + c + d + e <==> x in a || x in b || x in c || x in d || x in e
  {
  }

  /** A string field's text is present and at least `minimum` UTF-16 units long. */
  predicate HasMinLength(fm: RawFrontMatter, field: string, minimum: nat)
  {
    IsStringField(fm, field) && Utf16.Length(fm[field].text) >= minimum
  }

  predicate HasValidDate(fm: RawFrontMatter)
  {
    "date" in fm && fm["date"].RawDate? && fm["date"].time.Some?
  }

  /** A minimum length of one means "not empty". */
  lemma MinLengthOne(fm: RawFrontMatter, field: string)
    ensures HasMinLength(fm, field, 1) <==> IsStringField(fm, field) && fm[field].text != []
  {
    if IsStringField(fm, field) {
      Utf16.LengthPositive(fm[field].text);
    }
  }

  /** The issues of a string field that must not be empty. */
  lemma NonEmptyIssues(fm: RawFrontMatter, field: string)
    ensures StringIssues(fm, field, 1) ==
      if !IsStringField(fm, field) then [InvalidType(field, "string")]
      else if fm[field].text == [] then [TooSmall(field, 1)]
      else []
  {
    if IsStringField(fm, field) {
      Utf16.LengthPositive(fm[field].text);
    }
  }

  /** A string check raises an issue exactly when the field is not long enough, and which one. */
  lemma StringIssuesMeaning(fm: RawFrontMatter, field: string, minimum: nat)
    ensures StringIssues(fm, field, minimum) == [] <==> HasMinLength(fm, field, minimum)
    ensures InvalidType(field, "string") in StringIssues(fm, field, minimum) <==> !IsStringField(fm, field)
    ensures TooSmall(field, minimum) in StringIssues(fm, field, minimum)
        <==> IsStringField(fm, field) && Utf16.Length(fm[field].text) < minimum
  {
  }

  /** The tags transform's result: the trimmed pieces and the issues it added. */
  datatype TagsOutcome = TagsOutcome(tags: seq<string>, issues: seq<Issue>)

  /**
   * `issues` are the empty-tag issues for the blank entries of `tags`, whose
   * first entry has index `from`: one per blank entry, in index order.
   */
  predicate MarksBlanks(tags: seq<string>, from: nat, issues: seq<Issue>)
  {
    (forall j :: 0 <= j < |issues| ==>
      issues[j].EmptyTag? && from <= issues[j].index < from + |tags|)
    && (forall j, k :: 0 <= j < k < |issues| ==> issues[j].index < issues[k].index)
    && (forall k :: from <= k < from + |tags| ==> (EmptyTag(k) in issues <==> tags[k - from] == []))
  }

  lemma MarksBlanksStep(t: string, tags: seq<string>, from: nat, issues: seq<Issue>)
    requires MarksBlanks(tags, from + 1, issues)
    ensures MarksBlanks([t] + tags, from, (if t == [] then [EmptyTag(from)] else []) + issues)
  {
    var all := [t] + tags;
    assert all[1..] == tags;
  }

  /** The first issue, if any, marks a blank entry. */
  lemma FirstIssueMarksBlank(tags: seq<string>, from: nat, issues: seq<Issue>)
    requires MarksBlanks(tags, from, issues)
    ensures issues == [] || (from <= issues[0].index < from + |tags| && tags[issues[0].index - from] == [])
  {
    if issues != [] {
      assert EmptyTag(issues[0].index) in issues;
    }
  }

  /** Strictly increasing indices in `[lo, hi)` are at most `hi - lo` issues. */
  lemma {:induction false} IncreasingIndices(issues: seq<Issue>, lo: int, hi: int)
    requires forall j :: 0 <= j < |issues| ==> issues[j].EmptyTag? && lo <= issues[j].index < hi
    requires forall j, k :: 0 <= j < k < |issues| ==> issues[j].index < issues[k].index
    ensures |issues| <= if hi < lo then 0 else hi - lo
  {
    if issues != [] {
      IncreasingIndices(issues[1..], issues[0].index + 1, hi);
    }
  }

  /** Trims `pieces`, the pieces from index `from` on, raising an issue for each blank one. */
  function TrimPieces(pieces: seq<string>, from: nat): (o: TagsOutcome)
    ensures |o.tags| == |pieces|
    ensures forall i :: 0 <= i < |pieces| ==> o.tags[i] == Text.Trim(pieces[i])
    ensures MarksBlanks(o.tags, from, o.issues)
  {
    if pieces == [] then TagsOutcome([], [])
    else
      var rest := TrimPieces(pieces[1..], from + 1);
      var t := Text.Trim(pieces[0]);
      // a JavaScript string has length 0 exactly when it is empty
      var issue := if t == [] then [EmptyTag(from)] else [];
      MarksBlanksStep(t, rest.tags, from, rest.issues);
      assert forall i :: 1 <= i < |pieces| ==> pieces[i] == pieces[1..][i - 1];
      TagsOutcome([t] + rest.tags, issue + rest.issues)
  }

  /**
   * The `tags` transform: the line split on commas with each piece trimmed (the
   * same pieces as a split on the pattern "whitespace, comma, whitespace"
   * followed by `trim`, since the pattern's `\s` and `trim` agree on what
   * whitespace is), and an issue for every blank piece.
   */
  function TransformTags(line: string): (o: TagsOutcome)
    ensures |o.tags| == Text.Occurrences(line, ',') + 1
    ensures forall i :: 0 <= i < |o.tags| ==> o.tags[i] == Text.Trim(Text.Split(line, ',')[i])
    ensures forall k: nat :: EmptyTag(k) in o.issues <==> k < |o.tags| && o.tags[k] == []
    ensures forall j :: 0 <= j < |o.issues| ==> o.issues[j].EmptyTag?
    ensures forall j, k :: 0 <= j < k < |o.issues| ==> o.issues[j].index < o.issues[k].index
  {
    TrimPieces(Text.Split(line, ','), 0)
  }

  /** The `z.string()` under the tags transform. */
  function TagsTypeIssues(fm: RawFrontMatter): seq<Issue>
  {
    if !IsStringField(fm, "tags") then [InvalidType("tags", "string")] else []
  }

  /** The issues the tags transform adds, run only on a string. */
  function TagsTransformIssues(fm: RawFrontMatter): seq<Issue>
  {
    if IsStringField(fm, "tags") then TransformTags(fm["tags"].text).issues else []
  }

  /** `tags: z.string().transform(...)`, parsed synchronously. */
  function TagsIssues(fm: RawFrontMatter): seq<Issue>
  {
    TagsTypeIssues(fm) + TagsTransformIssues(fm)
  }

  /** Every comma-separated piece of `line` has something besides whitespace. */
  predicate IsValidTagsLine(line: string)
  {
    var pieces := Text.Split(line, ',');
    forall i :: 0 <= i < |pieces| ==> !Text.AllWhitespace(pieces[i])
  }

  /** The tags field is a string whose every piece has something besides whitespace. */
  predicate HasValidTagsLine(fm: RawFrontMatter)
  {
    IsStringField(fm, "tags") && IsValidTagsLine(fm["tags"].text)
  }

  /** The transform raises nothing exactly when the line is valid. */
  lemma TransformIssuesNone(line: string)
    ensures TransformTags(line).issues == [] <==> IsValidTagsLine(line)
  {
    var o := TransformTags(line);
    var pieces := Text.Split(line, ',');
    forall i | 0 <= i < |pieces| ensures o.tags[i] == [] <==> Text.AllWhitespace(pieces[i]) {
      Text.TrimEmpty(pieces[i]);
    }
    if o.issues != [] {
      assert o.issues[0] in o.issues;
      assert EmptyTag(o.issues[0].index) in o.issues;
    }
    if !IsValidTagsLine(line) {
      var i :| 0 <= i < |pieces| && Text.AllWhitespace(pieces[i]);
      assert EmptyTag(i) in o.issues;
    }
  }

  /** The tags check raises nothing exactly when the tags line is valid. */
  lemma TagsIssuesMeaning(fm: RawFrontMatter)
    ensures TagsIssues(fm) == [] <==> HasValidTagsLine(fm)
    ensures InvalidType("tags", "string") in TagsIssues(fm) <==> !IsStringField(fm, "tags")
  {
    if !IsStringField(fm, "tags") {
      assert TagsIssues(fm) == [InvalidType("tags", "string")];
    } else {
      var o := TransformTags(fm["tags"].text);
      assert TagsIssues(fm) == o.issues;
      TransformIssuesNone(fm["tags"].text);
    }
  }

  /** An empty or all-whitespace tags line yields one blank tag and the issue for index 0. */
  lemma BlankTagsLine(line: string)
    requires Text.AllWhitespace(line)
    ensures TransformTags(line) == TagsOutcome([[]], [EmptyTag(0)])
  {
    assert ',' !in line by {
      assert !Text.IsWhitespace(',');
    }
    Text.SplitWithoutSeparator(line, ',');
    Text.TrimEmpty(line);
    var o := TransformTags(line);
    assert EmptyTag(0) in o.issues;
    IncreasingIndices(o.issues, 0, 1);
  }

  /** Every parsed tag is non-blank at both ends and free of commas. */
  lemma TagsAreTrimmedPieces(line: string, i: nat)
    requires i < |TransformTags(line).tags|
    ensures var t := TransformTags(line).tags[i];
      ',' !in t && (t == [] || (!Text.IsWhitespace(t[0]) && !Text.IsWhitespace(t[|t| - 1])))
  {
    var p := Text.Split(line, ',')[i];
    var lead, trail := Text.TrimShape(p);
    assert ',' !in p;
  }

  /**
   * Writing tags that have no comma and no outer whitespace into a line
   * separated by commas and parsing it gives back exactly those tags.
   */
  lemma TagsRoundTrip(tags: seq<string>)
    requires |tags| >= 1
    requires forall i :: 0 <= i < |tags| ==> ',' !in tags[i] && tags[i] != []
    requires forall i :: 0 <= i < |tags| ==>
      !Text.IsWhitespace(tags[i][0]) && !Text.IsWhitespace(tags[i][|tags[i]| - 1])
    ensures TransformTags(Text.Join(tags, ',')) == TagsOutcome(tags, [])
  {
    var line := Text.Join(tags, ',');
    Text.SplitJoin(tags, ',');
    var o := TransformTags(line);
    forall i | 0 <= i < |tags| ensures o.tags[i] == tags[i] {
      var lead, trail := Text.TrimShape(tags[i]);
      NoOuterWhitespace(tags[i], lead, Text.Trim(tags[i]), trail);
    }
    assert o.tags == tags;
    FirstIssueMarksBlank(o.tags, 0, o.issues);
  }

  /** A string that neither starts nor ends with whitespace has no whitespace to trim. */
  lemma NoOuterWhitespace(s: string, lead: string, mid: string, trail: string)
    requires s == lead + (mid + trail) && Text.AllWhitespace(lead) && Text.AllWhitespace(trail)
    requires s != [] && !Text.IsWhitespace(s[0]) && !Text.IsWhitespace(s[|s| - 1])
    ensures mid == s
  {
  }
}
