/**
 * The tag list shown under an article: a link per tag, each followed by a
 * `", "` separator, with the separator after the last tag dropped.
 */
module TagsView {

  /** What the list renders: a link to a topic page, or the separator text. */
  datatype TagElement = TagLink(name: string, href: string) | Separator(text: string)

  const SeparatorText := ", "

  /** `Tag`: a link to the topic page of `name`. */
  function Tag(name: string): (e: TagElement)
    ensures e.TagLink? && e.name == name && e.href == "/topic/" + name
  {
    TagLink(name, "/topic/" + name)
  }

  /** The `flatMap`: every name becomes its link and a separator. */
  function LinksAndSeparators(names: seq<string>): seq<TagElement>
  {
    if names == [] then [] else [Tag(names[0]), Separator(SeparatorText)] + LinksAndSeparators(names[1..])
  }

  /** `array.slice(0, -1)`: all but the last element, and nothing for an empty array. */
  function DropLast<T>(s: seq<T>): seq<T>
  {
    s[..if |s| == 0 then 0 else |s| - 1]
  }

  /** `Tags`. */
  function Tags(names: seq<string>): seq<TagElement>
  {
    DropLast(LinksAndSeparators(names))
  }

  /** The `flatMap` gives two elements per name: the name's link, then a separator. */
  lemma {:induction false} LinksAndSeparatorsShape(names: seq<string>)
    ensures |LinksAndSeparators(names)| == 2 * |names|
    ensures forall i :: 0 <= i < |names| ==>
      LinksAndSeparators(names)[2 * i] == Tag(names[i])
      && LinksAndSeparators(names)[2 * i + 1] == Separator(SeparatorText)
  {
    if names != [] {
      var rest := LinksAndSeparators(names[1..]);
      LinksAndSeparatorsShape(names[1..]);
      forall i | 1 <= i < |names|
        ensures LinksAndSeparators(names)[2 * i] == Tag(names[i])
             && LinksAndSeparators(names)[2 * i + 1] == Separator(SeparatorText)
      {
        assert names[1..][i - 1] == names[i];
        assert LinksAndSeparators(names)[2 * i] == rest[2 * (i - 1)];
        assert LinksAndSeparators(names)[2 * i + 1] == rest[2 * (i - 1) + 1];
      }
    }
  }

  /**
   * No names render nothing; `n` names render `2n - 1` elements: the links in
   * name order at the even positions, separators at the odd ones, and the
   * last element is a link, never a separator.
   */
  lemma TagsShape(names: seq<string>)
    ensures |Tags(names)| == if names == [] then 0 else 2 * |names| - 1
    ensures forall i :: 0 <= i < |names| ==> Tags(names)[2 * i] == Tag(names[i])
    ensures forall i :: 0 <= i < |names| - 1 ==> Tags(names)[2 * i + 1] == Separator(SeparatorText)
    ensures Tags(names) == [] || Tags(names)[|Tags(names)| - 1].TagLink?
  {
    LinksAndSeparatorsShape(names);
    if names != [] {
      var last := |names| - 1;
      assert Tags(names)[2 * last] == Tag(names[last]);
    }
  }

  /** The names of the links, in order. */
  function LinkedNames(elements: seq<TagElement>): seq<string>
  {
    if elements == [] then []
    else (if elements[0].TagLink? then [elements[0].name] else []) + LinkedNames(elements[1..])
  }

  lemma {:induction false} LinkedNamesOfLinks(names: seq<string>)
    ensures LinkedNames(LinksAndSeparators(names)) == names
  {
    if names != [] {
      var all := LinksAndSeparators(names);
      LinkedNamesOfLinks(names[1..]);
      assert all[1..][1..] == LinksAndSeparators(names[1..]);
      assert [names[0]] + names[1..] == names;
    }
  }

  /** Dropping a trailing separator keeps the linked names. */
  lemma {:induction false} LinkedNamesDropSeparator(elements: seq<TagElement>)
    requires elements != [] && elements[|elements| - 1].Separator?
    ensures LinkedNames(elements[..|elements| - 1]) == LinkedNames(elements)
  {
    if |elements| > 1 {
      var init := elements[..|elements| - 1];
      assert init[1..] == elements[1..][..|elements[1..]| - 1];
      LinkedNamesDropSeparator(elements[1..]);
    }
  }

  /** Every name is linked, once and in order: the list reads back as the names. */
  lemma TagsRoundTrip(names: seq<string>)
    ensures LinkedNames(Tags(names)) == names
  {
    LinkedNamesOfLinks(names);
    if names != [] {
      LinksAndSeparatorsShape(names);
      var all := LinksAndSeparators(names);
      assert all[|all| - 1] == all[2 * (|names| - 1) + 1];
      LinkedNamesDropSeparator(all);
    }
  }
}
