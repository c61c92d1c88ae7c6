/** The publications page: its records, the year/topic/keyword filter, the
    drop-down options, and the page state with its event handlers. */
module Publications {
  import opened Text
  import opened Seqs
  import opened Filtering
  import opened Pagination

  /** One entry of publications.json. */
  datatype Publication = Publication(
    title: string,
    authors: string,
    year: int,
    publicationInfo: string,
    tags: seq<string>,
    pdfLink: string,
    doiLink: string)

  /** `selectedYear === "all" || pub.year.toString() === selectedYear`. */
  predicate YearMatches(p: Publication, selectedYear: string)
  {
    CategoryMatches(selectedYear, IntToString(p.year))
  }

  /** The test applyFilters applies to one publication. */
  predicate Matches(p: Publication, k: Criteria)
  {
    && YearMatches(p, k.selector)
    && TopicMatches(k.topics, p.tags)
    && KeywordMatches(k.keyword, p.title, p.authors, p.tags)
  }

  function MatchesCriteria(k: Criteria): Publication -> bool
  {
    p => Matches(p, k)
  }

  /** `allPublications.filter(...)`. */
  function FilterPublications(all: seq<Publication>, k: Criteria): seq<Publication>
  {
    Filter(all, MatchesCriteria(k))
  }

  /** The filtered list is an order-preserving subsequence of the full list
      that holds exactly the publications passing the year, topic and keyword
      tests. */
  lemma FilterPublicationsSelectsExactly(all: seq<Publication>, k: Criteria)
    ensures exists idx :: && Embeds(idx, FilterPublications(all, k), all)
                          && forall i :: 0 <= i < |all| ==>
                               (i in idx <==> && YearMatches(all[i], k.selector)
                                              && TopicMatches(k.topics, all[i].tags)
                                              && KeywordMatches(k.keyword, all[i].title, all[i].authors, all[i].tags))
  {
    var keep := MatchesCriteria(k);
    FilterSelectsExactly(all, keep);
    var idx := KeptPositions(all, keep);
    assert forall i :: 0 <= i < |all| ==> (keep(all[i]) <==> Matches(all[i], k));
    assert Embeds(idx, FilterPublications(all, k), all);
  }

  /** The "all" option keeps every year; the option for year y keeps exactly
      the publications of year y. */
  lemma YearSelection(p: Publication, y: int)
    ensures YearMatches(p, AllSentinel)
    ensures YearMatches(p, IntToString(y)) <==> p.year == y
  {
    IntToStringInjective(p.year, y);
    IntToStringNotWord(y, AllSentinel);
  }

  /** Filtering under the reset controls gives back the full list. */
  lemma DefaultFilterKeepsAll(all: seq<Publication>)
    ensures FilterPublications(all, ReadCriteria(DefaultControls)) == all
  {
    DefaultCriteria();
    var k := ReadCriteria(DefaultControls);
    forall i | 0 <= i < |all|
      ensures MatchesCriteria(k)(all[i])
    {
      DefaultControlsAcceptEverything(IntToString(all[i].year), all[i].title, all[i].authors, all[i].tags);
    }
    FilterKeepsAll(all, MatchesCriteria(k));
  }

  function YearsOf(all: seq<Publication>): (ys: seq<int>)
    ensures |ys| == |all| && forall i :: 0 <= i < |all| ==> ys[i] == all[i].year
  {
    seq(|all|, i requires 0 <= i < |all| => all[i].year)
  }

  /** `[...new Set(allPublications.map(pub => pub.year))].sort((a, b) => b - a)`:
      every year once, newest first. */
  function Years(all: seq<Publication>): (ys: seq<int>)
    ensures Descending(ys) && NoDuplicates(ys)
    ensures forall y :: y in ys <==> exists i :: 0 <= i < |all| && all[i].year == y
  {
    var distinct := Distinct(YearsOf(all));
    var sorted := SortDescending(distinct);
    PermutationKeepsNoDuplicates(distinct, sorted);
    PermutationKeepsMembers(distinct, sorted);
    sorted
  }

  /** The year drop-down's option values: the "all" sentinel, then each year
      newest first. No two options share a value. */
  function YearOptions(all: seq<Publication>): (options: seq<string>)
    ensures |options| == |Years(all)| + 1 && options[0] == AllSentinel
    ensures forall k :: 0 <= k < |Years(all)| ==> options[k + 1] == IntToString(Years(all)[k])
    ensures NoDuplicates(options)
  {
    OptionsOfYears(Years(all))
  }

  /** The option values for a duplicate-free list of years. */
  function OptionsOfYears(ys: seq<int>): (options: seq<string>)
    requires NoDuplicates(ys)
    ensures |options| == |ys| + 1 && options[0] == AllSentinel
    ensures forall k :: 0 <= k < |ys| ==> options[k + 1] == IntToString(ys[k])
    ensures NoDuplicates(options)
  {
    YearStringsDistinct(ys);
    [AllSentinel] + YearStrings(ys)
  }

  function YearStrings(ys: seq<int>): (r: seq<string>)
    ensures |r| == |ys| && forall k :: 0 <= k < |ys| ==> r[k] == IntToString(ys[k])
  {
    seq(|ys|, i requires 0 <= i < |ys| => IntToString(ys[i]))
  }

  lemma YearStringsDistinct(ys: seq<int>)
    requires NoDuplicates(ys)
    ensures NoDuplicates([AllSentinel] + YearStrings(ys))
  {
    var strs := YearStrings(ys);
    forall i, j | 0 <= i < j < |strs|
      ensures strs[i] != strs[j]
    {
      IntToStringInjective(ys[i], ys[j]);
    }
    if AllSentinel in strs {
      var j :| 0 <= j < |strs| && strs[j] == AllSentinel;
      IntToStringNotWord(ys[j], AllSentinel);
    }
    PrependKeepsNoDuplicates(AllSentinel, strs);
  }

  /** Every year option (all options after the sentinel) keeps at least one
      publication, and keeps exactly the publications of its year. */
  lemma YearOptionSelectsSomething(all: seq<Publication>, k: int)
    requires 1 <= k < |YearOptions(all)|
    ensures exists i :: 0 <= i < |all| && YearMatches(all[i], YearOptions(all)[k])
    ensures var y := Years(all)[k - 1];
            forall i :: 0 <= i < |all| ==> (YearMatches(all[i], YearOptions(all)[k]) <==> all[i].year == y)
  {
    var y := Years(all)[k - 1];
    assert YearOptions(all)[k] == IntToString(y);
    assert y in Years(all);
    var i :| 0 <= i < |all| && all[i].year == y;
    forall i' | 0 <= i' < |all|
      ensures YearMatches(all[i'], IntToString(y)) <==> all[i'].year == y
    {
      YearSelection(all[i'], y);
    }
  }

  /** The topic drop-down's option values: every tag once, sorted. */
  function PublicationTopicOptions(all: seq<Publication>): (options: seq<string>)
    ensures SortedStrings(options) && NoDuplicates(options)
    ensures forall t :: t in options <==> exists i :: 0 <= i < |all| && t in all[i].tags
  {
    var tagLists := seq(|all|, i requires 0 <= i < |all| => all[i].tags);
    assert forall i :: 0 <= i < |all| ==> tagLists[i] == all[i].tags;
    TopicOptions(tagLists)
  }

  /** The module-level state of publications.js together with the filter
      controls it reads. */
  class PublicationsPage {
    var all: seq<Publication>
    var filtered: seq<Publication>
    var currentPage: int
    var controls: Controls

    /** The filtered list always reflects the controls as they stand, and the
        current page is a real page (page 1 when there is none). */
    ghost predicate Valid()
      reads this
    {
      && filtered == FilterPublications(all, ReadCriteria(controls))
      && 1 <= currentPage <= Max(1, TotalPages(|filtered|))
    }

    /** loadPublications once the JSON array has arrived. */
    constructor Load(items: seq<Publication>)
      ensures Valid()
      ensures all == items && filtered == items && currentPage == 1
      ensures controls == DefaultControls
    {
      all := items;
      filtered := items;
      currentPage := 1;
      controls := DefaultControls;
      new;
      DefaultFilterKeepsAll(all);
    }

    /** applyFilters: rebuild the filtered list from the full list and go back
        to page 1. */
    method ApplyFilters()
      modifies this
      ensures Valid()
      ensures filtered == FilterPublications(all, ReadCriteria(controls)) && currentPage == 1
      ensures all == old(all) && controls == old(controls)
    {
      filtered := FilterPublications(all, ReadCriteria(controls));
      currentPage := 1;
    }

    /** The year drop-down's change event. */
    method OnYearChange(selectedYear: string)
      modifies this
      ensures Valid()
      ensures controls == old(controls).(selector := selectedYear)
      ensures filtered == FilterPublications(all, ReadCriteria(controls)) && currentPage == 1
      ensures all == old(all)
    {
      controls := controls.(selector := selectedYear);
      ApplyFilters();
    }

    /** The topic drop-down's change event, with the selected options' values. */
    method OnTopicChange(selectedTopics: seq<string>)
      modifies this
      ensures Valid()
      ensures controls == old(controls).(selectedTopics := selectedTopics)
      ensures filtered == FilterPublications(all, ReadCriteria(controls)) && currentPage == 1
      ensures all == old(all)
    {
      controls := controls.(selectedTopics := selectedTopics);
      ApplyFilters();
    }

    /** The search box's input event: on this page typing re-filters. */
    method OnSearchInput(searchText: string)
      modifies this
      ensures Valid()
      ensures controls == old(controls).(searchText := searchText)
      ensures filtered == FilterPublications(all, ReadCriteria(controls)) && currentPage == 1
      ensures all == old(all)
    {
      controls := controls.(searchText := searchText);
      ApplyFilters();
    }

    /** The reset button: clear the controls, show the full list from page 1. */
    method OnReset()
      modifies this
      ensures Valid()
      ensures controls == DefaultControls
      ensures filtered == all && currentPage == 1
      ensures all == old(all)
    {
      controls := DefaultControls;
      filtered := all;
      currentPage := 1;
      DefaultFilterKeepsAll(all);
    }

    /** The previous-page button: one page back unless on page 1. */
    method OnPrev()
      requires Valid()
      modifies this`currentPage
      ensures Valid()
      ensures currentPage == if old(currentPage) > 1 then old(currentPage) - 1 else old(currentPage)
    {
      if currentPage > 1 {
        currentPage := currentPage - 1;
      }
    }

    /** The next-page button: one page on unless on the last page. */
    method OnNext()
      requires Valid()
      modifies this`currentPage
      ensures Valid()
      ensures var total := TotalPages(|filtered|);
              currentPage == if old(currentPage) < total then old(currentPage) + 1 else old(currentPage)
    {
      if currentPage < TotalPages(|filtered|) {
        currentPage := currentPage + 1;
      }
    }

    /** A numbered button. The buttons exist only when there are at least two
        pages, one for each page of the window around the current page. */
    method OnPageButton(page: int)
      requires Valid() && TotalPages(|filtered|) > 1
      requires var w := CentredWindow(currentPage, TotalPages(|filtered|));
               w.startPage <= page <= w.endPage
      modifies this`currentPage
      ensures Valid()
      ensures currentPage == page
    {
      currentPage := page;
    }
  }
}
