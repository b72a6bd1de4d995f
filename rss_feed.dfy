/**
 * The RSS 2.0 feed of the blog: one `<item>` per article of the all-articles
 * index, in index order, inside a `<channel>` describing the blog, inside the
 * `<rss>` document. Every template is a run of lines; a line break inside a
 * template is a `'\n'` between two of its lines.
 */
module RssFeed {
  import opened Wrappers
  import Text
  import IndexFiles

  type Article = IndexFiles.IndexedArticleMetadata

  /** `Date.prototype.toUTCString` of the date an index entry's date string denotes. */
  type UtcString = string -> string

  /** What an `<item>` says about one article. */
  datatype ItemFields = ItemFields(title: string, pubDate: string, description: string, url: string)

  /** An article's page: the site URL, which ends with `/`, followed by `article/` and the slug. */
  function ArticleUrl(siteUrl: string, slug: string): string
  {
    siteUrl + "article/" + slug
  }

  /** The item of an article: its title, its date in UTC, its summary and its page. */
  function ItemOf(article: Article, siteUrl: string, utcString: UtcString): (f: ItemFields)
    ensures f.title == article.title && f.description == article.summary
    ensures f.pubDate == utcString(article.date) && f.url == ArticleUrl(siteUrl, article.slug)
  {
    ItemFields(article.title, utcString(article.date), article.summary, ArticleUrl(siteUrl, article.slug))
  }

  /** The lines of `getRSSItem`'s template; the URL is both the link and the guid. */
  function ItemLines(f: ItemFields): seq<string>
  {
    [ "<item>",
      "  <title>" + f.title + "</title>",
      "  <link>" + f.url + "</link>",
      "  <description>" + f.description + "</description>",
      "  <pubDate>" + f.pubDate + "</pubDate>",
      "  <guid>" + f.url + "</guid>",
      "</item>" ]
  }

  /** `getRSSItem`. */
  function RssItem(f: ItemFields): string
  {
    Text.Join(ItemLines(f), '\n')
  }

  /** The text between `open` and `close` when `line` is made of them and something in between. */
  function Inner(line: string, open: string, close: string): (r: Option<string>)
    ensures r.Some? ==> line == open + r.value + close
  {
    if |open| + |close| <= |line| && line[..|open|] == open && line[|line| - |close|..] == close then
      var x := line[|open|..|line| - |close|];
      assert line == open + x + close;
      Some(x)
    else
      None
  }

  /** What lies between known delimiters comes back out. */
  lemma InnerOf(open: string, x: string, close: string)
    ensures Inner(open + x + close, open, close) == Some(x)
  {
    var line := open + x + close;
    assert line[|open|..|line| - |close|] == x;
  }

  /**
   * A reader for the items the feed contains: the fields of an `<item>`
   * written by `getRSSItem`, or `None` for any other text.
   */
  function ReadItem(s: string): Option<ItemFields>
  {
    var lines := Text.Split(s, '\n');
    if |lines| != 7 || lines[0] != "<item>" || lines[6] != "</item>" then None
    else
      match (Inner(lines[1], "  <title>", "</title>"), Inner(lines[2], "  <link>", "</link>"),
             Inner(lines[3], "  <description>", "</description>"), Inner(lines[4], "  <pubDate>", "</pubDate>"),
             Inner(lines[5], "  <guid>", "</guid>"))
      case (Some(title), Some(link), Some(description), Some(pubDate), Some(guid)) =>
        if guid == link then Some(ItemFields(title, pubDate, description, link)) else None
      case _ => None
  }

  predicate OneLine(s: string)
  {
    '\n' !in s
  }

  predicate FieldsOneLine(f: ItemFields)
  {
    OneLine(f.title) && OneLine(f.pubDate) && OneLine(f.description) && OneLine(f.url)
  }

  lemma ConcatOneLine(a: string, b: string, c: string)
    requires OneLine(a) && OneLine(b) && OneLine(c)
    ensures OneLine(a + b + c)
  {
  }

  /** The lines of an item with one-line fields hold no line break. */
  lemma ItemLinesOneLine(f: ItemFields)
    requires FieldsOneLine(f)
    ensures forall i :: 0 <= i < |ItemLines(f)| ==> OneLine(ItemLines(f)[i])
  {
    ConcatOneLine("  <title>", f.title, "</title>");
    ConcatOneLine("  <link>", f.url, "</link>");
    ConcatOneLine("  <description>", f.description, "</description>");
    ConcatOneLine("  <pubDate>", f.pubDate, "</pubDate>");
    ConcatOneLine("  <guid>", f.url, "</guid>");
  }

  /** An item with one-line fields reads back as those fields. */
  lemma ItemRoundTrip(f: ItemFields)
    requires FieldsOneLine(f)
    ensures ReadItem(RssItem(f)) == Some(f)
  {
    ItemLinesOneLine(f);
    Text.SplitJoin(ItemLines(f), '\n');
    InnerOf("  <title>", f.title, "</title>");
    InnerOf("  <link>", f.url, "</link>");
    InnerOf("  <description>", f.description, "</description>");
    InnerOf("  <pubDate>", f.pubDate, "</pubDate>");
    InnerOf("  <guid>", f.url, "</guid>");
  }

  /** The reader accepts nothing but what `getRSSItem` writes: its link and guid agree. */
  lemma ReadItemSound(s: string)
    requires ReadItem(s).Some?
    ensures s == RssItem(ReadItem(s).value)
  {
    var lines := Text.Split(s, '\n');
    Text.JoinSplit(s, '\n');
    assert lines == ItemLines(ReadItem(s).value);
  }

  /** The `<pubDate>` line of the channel: empty when there is no article. */
  function PubDateLine(latestArticleDate: Option<string>): string
  {
    match latestArticleDate
    case None => ""
    case Some(d) => "<pubDate>" + d + "</pubDate>"
  }

  const XmlDeclaration := "<?xml version=\"1.0\" encoding=\"UTF-8\"?>"
  const RssOpen := "<rss version=\"2.0\" xmlns:atom=\"http://www.w3.org/2005/Atom\">"
  const ChannelTitle := "<title>Greg Rozdzialik's blog</title>"
  const ChannelDescription := "<description>Articles about stuff I find interesting. Mostly frontend and tech-related.</description>"
  const ChannelLanguage := "<language>en-us</language>"
  const ChannelDocs := "<docs>https://validator.w3.org/feed/docs/rss2.html</docs>"

  /** The `atom:link` pointing at the feed itself: the site URL followed by `rss.xml`. */
  function AtomLink(url: string): string
  {
    "<atom:link href=\"" + url + "rss.xml\" rel=\"self\" type=\"application/rss+xml\" />"
  }

  /** The lines of `getRSSChannel`'s template before the items. */
  function ChannelHead(url: string, latestArticleDate: Option<string>): seq<string>
  {
    [ "<channel>", ChannelTitle, "<link>" + url + "</link>", ChannelDescription, ChannelLanguage,
      ChannelDocs, AtomLink(url), PubDateLine(latestArticleDate), "" ]
  }

  /** `getRSSChannel`: the head, the items joined by line breaks, and the closing tag followed by a line break. */
  function RssChannel(url: string, latestArticleDate: Option<string>, items: seq<string>): string
  {
    Text.Join(ChannelHead(url, latestArticleDate) + [Text.Join(items, '\n')] + ["</channel>", ""], '\n')
  }

  /** The document around the channel. */
  function RssDocument(channel: string): string
  {
    Text.Join([XmlDeclaration, RssOpen, channel, "</rss>"], '\n')
  }

  /** The items of the articles, one per article in index order. */
  function FeedItems(articles: seq<Article>, siteUrl: string, utcString: UtcString): (items: seq<string>)
    ensures |items| == |articles|
    ensures forall i :: 0 <= i < |articles| ==> items[i] == RssItem(ItemOf(articles[i], siteUrl, utcString))
  {
    seq(|articles|, i requires 0 <= i < |articles| => RssItem(ItemOf(articles[i], siteUrl, utcString)))
  }

  /** The date of the channel: the first article's, and none without articles. */
  function LatestArticleDate(articles: seq<Article>, utcString: UtcString): (d: Option<string>)
    ensures d.Some? <==> |articles| > 0
    ensures d.Some? ==> d.value == utcString(articles[0].date)
  {
    if |articles| == 0 then None else Some(utcString(articles[0].date))
  }

  /** The content of `createRSSFeed`'s file, given the all-articles index and the site URL. */
  function CreateRssFeed(articles: seq<Article>, siteUrl: string, utcString: UtcString): string
  {
    RssDocument(RssChannel(siteUrl, LatestArticleDate(articles, utcString), FeedItems(articles, siteUrl, utcString)))
  }

  /** Joining a list that holds a joined list in the middle is joining the flattened list. */
  lemma JoinNested(xs: seq<string>, ys: seq<string>, zs: seq<string>)
    requires |xs| >= 1 && |ys| >= 1 && |zs| >= 1
    ensures Text.Join(xs + [Text.Join(ys, '\n')] + zs, '\n') == Text.Join(xs + ys + zs, '\n')
  {
    var j := Text.Join(ys, '\n');
    Text.JoinAppend(xs + [j], zs, '\n');
    Text.JoinAppend(xs, [j], '\n');
    Text.JoinAppend(xs + ys, zs, '\n');
    Text.JoinAppend(xs, ys, '\n');
  }

  /** The lines of the items of the articles, one run of seven lines per article. */
  function ItemsLines(articles: seq<Article>, siteUrl: string, utcString: UtcString): seq<string>
  {
    if articles == [] then []
    else ItemLines(ItemOf(articles[0], siteUrl, utcString)) + ItemsLines(articles[1..], siteUrl, utcString)
  }

  /** Joining the items is joining all of their lines. */
  lemma {:induction false} JoinItems(articles: seq<Article>, siteUrl: string, utcString: UtcString)
    requires |articles| >= 1
    ensures Text.Join(FeedItems(articles, siteUrl, utcString), '\n') == Text.Join(ItemsLines(articles, siteUrl, utcString), '\n')
  {
    var items := FeedItems(articles, siteUrl, utcString);
    var first := ItemLines(ItemOf(articles[0], siteUrl, utcString));
    if |articles| > 1 {
      var rest := articles[1..];
      JoinItems(rest, siteUrl, utcString);
      assert items == [items[0]] + FeedItems(rest, siteUrl, utcString);
      Text.JoinAppend([items[0]], FeedItems(rest, siteUrl, utcString), '\n');
      assert |ItemsLines(rest, siteUrl, utcString)| >= 1 by {
        assert ItemsLines(rest, siteUrl, utcString) == ItemLines(ItemOf(rest[0], siteUrl, utcString)) + ItemsLines(rest[1..], siteUrl, utcString);
      }
      Text.JoinAppend(first, ItemsLines(rest, siteUrl, utcString), '\n');
    } else {
      assert articles[1..] == [];
      assert ItemsLines(articles, siteUrl, utcString) == first + [] == first;
      assert Text.Join(items, '\n') == items[0] == RssItem(ItemOf(articles[0], siteUrl, utcString));
    }
  }

  /** The run of lines of the `k`-th article, seven per article. */
  lemma {:induction false} ItemsLinesBlock(articles: seq<Article>, siteUrl: string, utcString: UtcString, k: nat)
    requires k < |articles|
    ensures |ItemsLines(articles, siteUrl, utcString)| == 7 * |articles|
    ensures ItemsLines(articles, siteUrl, utcString)[7 * k..7 * k + 7] == ItemLines(ItemOf(articles[k], siteUrl, utcString))
  {
    var lines := ItemsLines(articles, siteUrl, utcString);
    var first := ItemLines(ItemOf(articles[0], siteUrl, utcString));
    if |articles| > 1 {
      ItemsLinesBlock(articles[1..], siteUrl, utcString, if k == 0 then 0 else k - 1);
      if k > 0 {
        assert articles[1..][k - 1] == articles[k];
        assert lines[7 * k..7 * k + 7] == ItemsLines(articles[1..], siteUrl, utcString)[7 * (k - 1)..7 * (k - 1) + 7];
      }
    } else {
      assert lines == first + [];
    }
  }

  /** Every line of the items' lines is one line when the fields of every item are. */
  lemma {:induction false} ItemsLinesOneLine(articles: seq<Article>, siteUrl: string, utcString: UtcString)
    requires forall i :: 0 <= i < |articles| ==> FieldsOneLine(ItemOf(articles[i], siteUrl, utcString))
    ensures forall i :: 0 <= i < |ItemsLines(articles, siteUrl, utcString)| ==> OneLine(ItemsLines(articles, siteUrl, utcString)[i])
  {
    if articles != [] {
      ItemLinesOneLine(ItemOf(articles[0], siteUrl, utcString));
      ItemsLinesOneLine(articles[1..], siteUrl, utcString);
    }
  }

  /** The lines of the feed: a fixed head, the items' lines and the closing tags. */
  function FeedLines(articles: seq<Article>, siteUrl: string, utcString: UtcString): seq<string>
  {
    [XmlDeclaration, RssOpen] + ChannelHead(siteUrl, LatestArticleDate(articles, utcString))
    + ItemsLines(articles, siteUrl, utcString) + ["</channel>", "", "</rss>"]
  }

  /**
   * For a non-empty index, the feed is, line by line: the XML declaration,
   * the `<rss>` tag, the channel's head with the first article's date, seven
   * lines per article in index order, and the closing tags.
   */
  lemma FeedShape(articles: seq<Article>, siteUrl: string, utcString: UtcString)
    requires |articles| >= 1
    ensures CreateRssFeed(articles, siteUrl, utcString) == Text.Join(FeedLines(articles, siteUrl, utcString), '\n')
  {
    var latest := LatestArticleDate(articles, utcString);
    var head := ChannelHead(siteUrl, latest);
    var tail := ["</channel>", ""];
    var body := ItemsLines(articles, siteUrl, utcString);
    ItemsLinesBlock(articles, siteUrl, utcString, 0);
    JoinItems(articles, siteUrl, utcString);
    JoinNested(head, body, tail);
    var channel := Text.Join(head + body + tail, '\n');
    JoinNested([XmlDeclaration, RssOpen], head + body + tail, ["</rss>"]);
    assert [XmlDeclaration, RssOpen, channel, "</rss>"] == [XmlDeclaration, RssOpen] + [channel] + ["</rss>"];
    assert [XmlDeclaration, RssOpen] + (head + body + tail) + ["</rss>"] == FeedLines(articles, siteUrl, utcString);
  }

  /**
   * The `k`-th item of the feed is the `k`-th article's: its seven lines,
   * after the eleven lines of the head, read back as the article's title,
   * date, summary and page URL when those are one line each.
   */
  lemma FeedItem(articles: seq<Article>, siteUrl: string, utcString: UtcString, k: nat)
    requires k < |articles| && FieldsOneLine(ItemOf(articles[k], siteUrl, utcString))
    ensures var lines := FeedLines(articles, siteUrl, utcString);
      11 + 7 * k + 7 <= |lines|
      && ReadItem(Text.Join(lines[11 + 7 * k..11 + 7 * k + 7], '\n')) == Some(ItemOf(articles[k], siteUrl, utcString))
  {
    ItemsLinesBlock(articles, siteUrl, utcString, k);
    var lines := FeedLines(articles, siteUrl, utcString);
    var body := ItemsLines(articles, siteUrl, utcString);
    assert lines[11 + 7 * k..11 + 7 * k + 7] == body[7 * k..7 * k + 7];
    ItemRoundTrip(ItemOf(articles[k], siteUrl, utcString));
  }

  /** Without articles the channel has no `<pubDate>` and no item: two empty lines stand in their place. */
  lemma EmptyFeed(siteUrl: string, utcString: UtcString)
    ensures CreateRssFeed([], siteUrl, utcString)
         == Text.Join([XmlDeclaration, RssOpen] + ChannelHead(siteUrl, None) + ["", "</channel>", "", "</rss>"], '\n')
  {
    var head := ChannelHead(siteUrl, None);
    var tail := ["</channel>", ""];
    assert FeedItems([], siteUrl, utcString) == [];
    var channel := Text.Join(head + [""] + tail, '\n');
    JoinNested([XmlDeclaration, RssOpen], head + [""] + tail, ["</rss>"]);
    assert [XmlDeclaration, RssOpen, channel, "</rss>"] == [XmlDeclaration, RssOpen] + [channel] + ["</rss>"];
    assert [XmlDeclaration, RssOpen] + (head + [""] + tail) + ["</rss>"]
        == [XmlDeclaration, RssOpen] + ChannelHead(siteUrl, None) + ["", "</channel>", "", "</rss>"];
  }
}
