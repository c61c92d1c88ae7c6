/** The three tests `applyFilters` combines, shared by both listing pages, and
    the way it reads them from the filter controls. */
module Filtering {
  import opened Text
  import opened Seqs

  /** The value of the categorical drop-down's first option, which selects every item. */
  const AllSentinel: string := "all"

  /** What the filter controls hold: the categorical drop-down's value, the
      values of the selected topic options, and the search box text. */
  datatype Controls = Controls(selector: string, selectedTopics: seq<string>, searchText: string)

  /** The controls as the reset button leaves them: "all", no topic selected,
      an empty search box. */
  const DefaultControls: Controls := Controls(AllSentinel, [], "")

  /** The inputs of one filtering pass: the selector as is, the selected topics
      lower-cased, the search text trimmed and lower-cased. */
  datatype Criteria = Criteria(selector: string, topics: seq<string>, keyword: string)

  function LowerAll(ss: seq<string>): (r: seq<string>)
    ensures |r| == |ss|
    ensures forall i :: 0 <= i < |ss| ==> r[i] == Lower(ss[i])
  {
    seq(|ss|, i requires 0 <= i < |ss| => Lower(ss[i]))
  }

  /** Reads the controls the way applyFilters does: the keyword is the search
      text trimmed, then lower-cased, so it carries no upper-case letter and no
      white space at either end. */
  function ReadCriteria(c: Controls): (k: Criteria)
    ensures k.selector == c.selector && k.topics == LowerAll(c.selectedTopics)
    ensures k.keyword == Lower(Trim(c.searchText))
    ensures forall i :: 0 <= i < |k.keyword| ==> !IsUpper(k.keyword[i])
    ensures k.keyword != [] ==> !IsWhitespace(k.keyword[0]) && !IsWhitespace(k.keyword[|k.keyword| - 1])
    ensures |k.keyword| <= |c.searchText|
  {
    var t := Trim(c.searchText);
    var k := Criteria(c.selector, LowerAll(c.selectedTopics), Lower(t));
    if t == [] then k
    else
      LowerCharKeepsWhitespace(t[0]);
      LowerCharKeepsWhitespace(t[|t| - 1]);
      k
  }

  /** The categorical test: the sentinel passes everything, any other selector
      passes the items whose value renders as exactly that string. */
  predicate CategoryMatches(selector: string, value: string)
  {
    selector == AllSentinel || value == selector
  }

  /** `list.includes(x)` on an array of strings. */
  predicate Contains(list: seq<string>, x: string)
  {
    |list| > 0 && (list[0] == x || Contains(list[1..], x))
  }

  /** `selected.some(t => lowerTags.includes(t))`. */
  predicate SomeContained(selected: seq<string>, lowerTags: seq<string>)
  {
    |selected| > 0 && (Contains(lowerTags, selected[0]) || SomeContained(selected[1..], lowerTags))
  }

  /** The topic test on an item's tags, given the lower-cased selected topics. */
  predicate TopicMatches(selected: seq<string>, tags: seq<string>)
  {
    |selected| == 0 || SomeContained(selected, LowerAll(tags))
  }

  lemma {:induction false} ContainsIsMembership(list: seq<string>, x: string)
    ensures Contains(list, x) <==> x in list
  {
    if |list| > 0 {
      ContainsIsMembership(list[1..], x);
      assert list == [list[0]] + list[1..];
    }
  }

  lemma {:induction false} SomeContainedIsIntersection(selected: seq<string>, lowerTags: seq<string>)
    ensures SomeContained(selected, lowerTags) <==> exists i :: 0 <= i < |selected| && selected[i] in lowerTags
  {
    if |selected| > 0 {
      ContainsIsMembership(lowerTags, selected[0]);
      SomeContainedIsIntersection(selected[1..], lowerTags);
      if exists i :: 0 <= i < |selected| && selected[i] in lowerTags {
        var i :| 0 <= i < |selected| && selected[i] in lowerTags;
        if i > 0 {
          assert selected[1..][i - 1] == selected[i];
        }
      }
      if exists i :: 0 <= i < |selected| - 1 && selected[1..][i] in lowerTags {
        var i :| 0 <= i < |selected| - 1 && selected[1..][i] in lowerTags;
        assert selected[i + 1] in lowerTags;
      }
    }
  }

  /** The topic test passes when nothing is selected, and otherwise exactly
      when some selected topic equals some tag once the tag is lower-cased. */
  lemma TopicMatchesIff(selected: seq<string>, tags: seq<string>)
    ensures TopicMatches(selected, tags)
            <==> |selected| == 0
                 || exists i, j :: 0 <= i < |selected| && 0 <= j < |tags| && selected[i] == Lower(tags[j])
  {
    var lowerTags := LowerAll(tags);
    SomeContainedIsIntersection(selected, lowerTags);
    if exists i :: 0 <= i < |selected| && selected[i] in lowerTags {
      var i :| 0 <= i < |selected| && selected[i] in lowerTags;
      var j :| 0 <= j < |lowerTags| && lowerTags[j] == selected[i];
      assert selected[i] == Lower(tags[j]);
    }
    if exists i, j :: 0 <= i < |selected| && 0 <= j < |tags| && selected[i] == Lower(tags[j]) {
      var i, j :| 0 <= i < |selected| && 0 <= j < |tags| && selected[i] == Lower(tags[j]);
      assert selected[i] == lowerTags[j];
    }
  }

  /** Selecting an option matches every item with a tag that equals the
      option's value up to case. */
  lemma SelectedTopicMatchesTagIgnoringCase(c: Controls, tags: seq<string>, i: int, j: int)
    requires 0 <= i < |c.selectedTopics| && 0 <= j < |tags|
    requires Lower(c.selectedTopics[i]) == Lower(tags[j])
    ensures TopicMatches(ReadCriteria(c).topics, tags)
  {
    TopicMatchesIff(ReadCriteria(c).topics, tags);
    assert ReadCriteria(c).topics[i] == Lower(tags[j]);
  }

  /** Topic filter {"nlp", "vision"} keeps an item tagged only "NLP". */
  lemma NlpSelectionMatchesUpperCaseTag()
    ensures TopicMatches(ReadCriteria(Controls(AllSentinel, ["nlp", "vision"], "")).topics, ["NLP"])
  {
    SelectedTopicMatchesTagIgnoringCase(Controls(AllSentinel, ["nlp", "vision"], ""), ["NLP"], 0, 0);
  }

  /** `tags.some(tag => tag.toLowerCase().includes(keyword))`. */
  predicate SomeTagIncludes(tags: seq<string>, keyword: string)
  {
    |tags| > 0 && (Includes(Lower(tags[0]), keyword) || SomeTagIncludes(tags[1..], keyword))
  }

  /** The keyword test over an item's title, its second text field (authors or
      description) and its tags. */
  predicate KeywordMatches(keyword: string, title: string, text: string, tags: seq<string>)
  {
    || keyword == ""
    || Includes(Lower(title), keyword)
    || Includes(Lower(text), keyword)
    || SomeTagIncludes(tags, keyword)
  }

  lemma {:induction false} SomeTagIncludesIff(tags: seq<string>, keyword: string)
    ensures SomeTagIncludes(tags, keyword) <==> exists j :: 0 <= j < |tags| && IsSubstring(keyword, Lower(tags[j]))
  {
    if |tags| > 0 {
      IncludesIsSubstring(Lower(tags[0]), keyword);
      SomeTagIncludesIff(tags[1..], keyword);
      if exists j :: 0 <= j < |tags| && IsSubstring(keyword, Lower(tags[j])) {
        var j :| 0 <= j < |tags| && IsSubstring(keyword, Lower(tags[j]));
        if j > 0 {
          assert tags[1..][j - 1] == tags[j];
        }
      }
      if exists j :: 0 <= j < |tags| - 1 && IsSubstring(keyword, Lower(tags[1..][j])) {
        var j :| 0 <= j < |tags| - 1 && IsSubstring(keyword, Lower(tags[1..][j]));
        assert tags[1..][j] == tags[j + 1];
      }
    }
  }

  /** The keyword test passes exactly when the keyword is a substring of the
      lower-cased title, the lower-cased text or some lower-cased tag. The
      explicit test for the empty keyword agrees with this, since the empty
      string is a substring of every string. */
  lemma KeywordMatchesIff(keyword: string, title: string, text: string, tags: seq<string>)
    ensures KeywordMatches(keyword, title, text, tags)
            <==> || IsSubstring(keyword, Lower(title))
                 || IsSubstring(keyword, Lower(text))
                 || exists j :: 0 <= j < |tags| && IsSubstring(keyword, Lower(tags[j]))
  {
    IncludesIsSubstring(Lower(title), keyword);
    IncludesIsSubstring(Lower(text), keyword);
    SomeTagIncludesIff(tags, keyword);
    if keyword == "" {
      assert OccursAt(keyword, Lower(title), 0);
    }
  }

  /** The reset controls read as the sentinel, no topic and the empty keyword. */
  lemma DefaultCriteria()
    ensures ReadCriteria(DefaultControls) == Criteria(AllSentinel, [], "")
  {
    assert Trim("") == "";
  }

  /** The reset controls let every item through all three tests. */
  lemma DefaultControlsAcceptEverything(value: string, title: string, text: string, tags: seq<string>)
    ensures var k := ReadCriteria(DefaultControls);
            && CategoryMatches(k.selector, value)
            && TopicMatches(k.topics, tags)
            && KeywordMatches(k.keyword, title, text, tags)
  {
    DefaultCriteria();
  }

  /** The topic drop-down's options, `[...new Set(all.flatMap(x => x.tags))].sort()`
      given each item's tags: every tag exactly once, in lexicographic order. */
  function TopicOptions(tagLists: seq<seq<string>>): (options: seq<string>)
    ensures SortedStrings(options)
    ensures NoDuplicates(options)
    ensures forall t :: t in options <==> exists i :: 0 <= i < |tagLists| && t in tagLists[i]
  {
    var distinct := Distinct(Flatten(tagLists));
    var sorted := SortStrings(distinct);
    PermutationKeepsNoDuplicates(distinct, sorted);
    PermutationKeepsMembers(distinct, sorted);
    sorted
  }

  /** Choosing any single topic option, as applyFilters reads it, keeps at
      least one item: one whose tags the option came from. */
  lemma TopicOptionSelectsSomething(tagLists: seq<seq<string>>, t: string)
    requires t in TopicOptions(tagLists)
    ensures exists i :: 0 <= i < |tagLists| && TopicMatches(ReadCriteria(Controls(AllSentinel, [t], "")).topics, tagLists[i])
  {
    var i :| 0 <= i < |tagLists| && t in tagLists[i];
    var j :| 0 <= j < |tagLists[i]| && tagLists[i][j] == t;
    SelectedTopicMatchesTagIgnoringCase(Controls(AllSentinel, [t], ""), tagLists[i], 0, j);
  }
}
