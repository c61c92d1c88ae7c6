/** The job postings page: its records, the qualification/topic/keyword
    filter, the drop-down options, and the page state with its event handlers.
    Unlike the publications page, typing in the search box does not re-filter;
    the search text takes effect at the next drop-down change. */
module Jobs {
  import opened Text
  import opened Seqs
  import opened Filtering
  import opened Pagination

  /** A JSON scalar as it may appear in the `qualification` field: a number
      (modelled as an integer) or a string. */
  datatype Scalar = Num(n: int) | Str(s: string)
  {
    /** `value.toString()`. */
    function ToString(): string
    {
      match this
      case Num(n) => IntToString(n)
      case Str(s) => s
    }
  }

  /** One entry of jobs.json. */
  datatype Job = Job(
    title: string,
    infoText: string,
    qualification: Scalar,
    qualificationText: string,
    tags: seq<string>,
    jobDetailLink: string,
    applyLink: string)

  /** `selectedQualification === "all" || job.qualification.toString() === selectedQualification`. */
  predicate QualificationMatches(j: Job, selectedQualification: string)
  {
    CategoryMatches(selectedQualification, j.qualification.ToString())
  }

  /** The test applyFilters applies to one job. */
  predicate Matches(j: Job, k: Criteria)
  {
    && QualificationMatches(j, k.selector)
    && TopicMatches(k.topics, j.tags)
    && KeywordMatches(k.keyword, j.title, j.infoText, j.tags)
  }

  function MatchesCriteria(k: Criteria): Job -> bool
  {
    j => Matches(j, k)
  }

  /** `allJobs.filter(...)`. */
  function FilterJobs(all: seq<Job>, k: Criteria): seq<Job>
  {
    Filter(all, MatchesCriteria(k))
  }

  /** The filtered list is an order-preserving subsequence of the full list
      that holds exactly the jobs passing the qualification, topic and keyword
      tests. */
  lemma FilterJobsSelectsExactly(all: seq<Job>, k: Criteria)
    ensures exists idx :: && Embeds(idx, FilterJobs(all, k), all)
                          && forall i :: 0 <= i < |all| ==>
                               (i in idx <==> && QualificationMatches(all[i], k.selector)
                                              && TopicMatches(k.topics, all[i].tags)
                                              && KeywordMatches(k.keyword, all[i].title, all[i].infoText, all[i].tags))
  {
    var keep := MatchesCriteria(k);
    FilterSelectsExactly(all, keep);
    var idx := KeptPositions(all, keep);
    assert forall i :: 0 <= i < |all| ==> (keep(all[i]) <==> Matches(all[i], k));
    assert Embeds(idx, FilterJobs(all, k), all);
  }

  /** The "all" option keeps every job. The option written as the number q
      keeps the jobs whose qualification is the number q, and also those whose
      qualification is the string spelling q, since both compare through
      toString. */
  lemma QualificationSelection(j: Job, q: int)
    ensures QualificationMatches(j, AllSentinel)
    ensures QualificationMatches(j, IntToString(q)) <==> j.qualification in {Num(q), Str(IntToString(q))}
  {
    IntToStringNotWord(q, AllSentinel);
    if j.qualification.Num? {
      IntToStringInjective(j.qualification.n, q);
    }
  }

  /** Filtering under the reset controls gives back the full list. */
  lemma DefaultFilterKeepsAll(all: seq<Job>)
    ensures FilterJobs(all, ReadCriteria(DefaultControls)) == all
  {
    DefaultCriteria();
    var k := ReadCriteria(DefaultControls);
    forall i | 0 <= i < |all|
      ensures MatchesCriteria(k)(all[i])
    {
      DefaultControlsAcceptEverything(all[i].qualification.ToString(), all[i].title, all[i].infoText, all[i].tags);
    }
    FilterKeepsAll(all, MatchesCriteria(k));
  }

  function QualificationsOf(all: seq<Job>): (qs: seq<Scalar>)
    ensures |qs| == |all| && forall i :: 0 <= i < |all| ==> qs[i] == all[i].qualification
  {
    seq(|all|, i requires 0 <= i < |all| => all[i].qualification)
  }

  /** `[...new Set(allJobs.map(job => job.qualification))]`: every distinct
      qualification value once. A number and a string are different values
      for the Set even when they print alike. */
  function Qualifications(all: seq<Job>): (qs: seq<Scalar>)
    ensures NoDuplicates(qs)
    ensures forall q :: q in qs <==> exists i :: 0 <= i < |all| && all[i].qualification == q
  {
    Distinct(QualificationsOf(all))
  }

  function ScalarStrings(qs: seq<Scalar>): (r: seq<string>)
    ensures |r| == |qs| && forall k :: 0 <= k < |qs| ==> r[k] == qs[k].ToString()
  {
    seq(|qs|, i requires 0 <= i < |qs| => qs[i].ToString())
  }

  /** The qualification drop-down's option values: the "all" sentinel, then
      the printed form of each distinct qualification. */
  function QualificationOptions(all: seq<Job>): (options: seq<string>)
    ensures |options| == |Qualifications(all)| + 1 && options[0] == AllSentinel
    ensures forall k :: 0 <= k < |Qualifications(all)| ==> options[k + 1] == Qualifications(all)[k].ToString()
  {
    [AllSentinel] + ScalarStrings(Qualifications(all))
  }

  /** Every qualification option (all options after the sentinel) keeps at
      least one job. */
  lemma QualificationOptionSelectsSomething(all: seq<Job>, k: int)
    requires 1 <= k < |QualificationOptions(all)|
    ensures exists i :: 0 <= i < |all| && QualificationMatches(all[i], QualificationOptions(all)[k])
  {
    var q := Qualifications(all)[k - 1];
    assert QualificationOptions(all)[k] == q.ToString();
    assert q in Qualifications(all);
    var i :| 0 <= i < |all| && all[i].qualification == q;
    assert QualificationMatches(all[i], q.ToString());
  }

  /** Two jobs, one with the number 2 and one with the string "2" as
      qualification, give two Set entries and so two options with the same
      value "2". */
  lemma NumberAndStringGiveSameOption(a: Job, b: Job)
    requires a.qualification == Num(2) && b.qualification == Str("2")
    ensures Qualifications([a, b]) == [Num(2), Str("2")]
    ensures QualificationOptions([a, b]) == [AllSentinel, "2", "2"]
  {
    var qs := [Num(2), Str("2")];
    assert QualificationsOf([a, b]) == qs;
    assert qs[..1] == [Num(2)] && [Num(2)][..0] == [];
    assert Distinct([Num(2)]) == [Num(2)];
    assert Str("2") !in [Num(2)];
    assert IntToString(2) == "2";
  }

  /** The topic drop-down's option values: every tag once, sorted. */
  function JobTopicOptions(all: seq<Job>): (options: seq<string>)
    ensures SortedStrings(options) && NoDuplicates(options)
    ensures forall t :: t in options <==> exists i :: 0 <= i < |all| && t in all[i].tags
  {
    var tagLists := seq(|all|, i requires 0 <= i < |all| => all[i].tags);
    assert forall i :: 0 <= i < |all| ==> tagLists[i] == all[i].tags;
    TopicOptions(tagLists)
  }

  /** The module-level state of jobs.js together with the filter controls it
      reads. `appliedSearch` is the search text the last filtering pass read. */
  class JobsPage {
    var all: seq<Job>
    var filtered: seq<Job>
    var currentPage: int
    var controls: Controls
    ghost var appliedSearch: string

    /** The filtered list reflects the drop-downs as they stand and the search
        text as it stood at the last filtering pass, and the current page is a
        real page (page 1 when there is none). */
    ghost predicate Valid()
      reads this
    {
      && filtered == FilterJobs(all, ReadCriteria(controls.(searchText := appliedSearch)))
      && 1 <= currentPage <= Max(1, TotalPages(|filtered|))
    }

    /** loadJobs once the JSON array has arrived. */
    constructor Load(items: seq<Job>)
      ensures Valid()
      ensures all == items && filtered == items && currentPage == 1
      ensures controls == DefaultControls && appliedSearch == ""
    {
      all := items;
      filtered := items;
      currentPage := 1;
      controls := DefaultControls;
      appliedSearch := "";
      new;
      DefaultFilterKeepsAll(all);
    }

    /** applyFilters: read all three controls, rebuild the filtered list from
        the full list and go back to page 1. */
    method ApplyFilters()
      modifies this
      ensures Valid()
      ensures filtered == FilterJobs(all, ReadCriteria(controls)) && currentPage == 1
      ensures appliedSearch == controls.searchText
      ensures all == old(all) && controls == old(controls)
    {
      appliedSearch := controls.searchText;
      filtered := FilterJobs(all, ReadCriteria(controls));
      currentPage := 1;
    }

    /** The qualification drop-down's change event. */
    method OnQualificationChange(selectedQualification: string)
      modifies this
      ensures Valid()
      ensures controls == old(controls).(selector := selectedQualification)
      ensures filtered == FilterJobs(all, ReadCriteria(controls)) && currentPage == 1
      ensures all == old(all)
    {
      controls := controls.(selector := selectedQualification);
      ApplyFilters();
    }

    /** The topic drop-down's change event, with the selected options' values. */
    method OnTopicChange(selectedTopics: seq<string>)
      modifies this
      ensures Valid()
      ensures controls == old(controls).(selectedTopics := selectedTopics)
      ensures filtered == FilterJobs(all, ReadCriteria(controls)) && currentPage == 1
      ensures all == old(all)
    {
      controls := controls.(selectedTopics := selectedTopics);
      ApplyFilters();
    }

    /** Typing in the search box: the box's text changes, but no handler is
        bound, so the list and the page stay as they are. */
    method OnSearchInput(searchText: string)
      requires Valid()
      modifies this`controls
      ensures Valid()
      ensures controls == old(controls).(searchText := searchText)
      ensures filtered == old(filtered) && currentPage == old(currentPage)
    {
      controls := controls.(searchText := searchText);
    }

    /** The reset button: clear the controls, show the full list from page 1. */
    method OnReset()
      modifies this
      ensures Valid()
      ensures controls == DefaultControls && appliedSearch == ""
      ensures filtered == all && currentPage == 1
      ensures all == old(all)
    {
      controls := DefaultControls;
      appliedSearch := "";
      filtered := all;
      currentPage := 1;
      DefaultFilterKeepsAll(all);
    }

    /** The previous-page button: one page back unless on page 1. */
    method OnPrev()
      requires Valid()
      modifies this`currentPage
      ensures Valid()
      ensures currentPage == if old(currentPage) > 1 then old(currentPage) - 1 else old(currentPage)
    {
      if currentPage > 1 {
        currentPage := currentPage - 1;
      }
    }

    /** The next-page button: one page on unless on the last page. */
    method OnNext()
      requires Valid()
      modifies this`currentPage
      ensures Valid()
      ensures var total := TotalPages(|filtered|);
              currentPage == if old(currentPage) < total then old(currentPage) + 1 else old(currentPage)
    {
      if currentPage < TotalPages(|filtered|) {
        currentPage := currentPage + 1;
      }
    }

    /** A numbered button. The buttons exist only when there are at least two
        pages, one for each page of the window around the current page. */
    method OnPageButton(page: int)
      requires Valid() && TotalPages(|filtered|) > 1
      requires var w := CentredWindow(currentPage, TotalPages(|filtered|));
               w.startPage <= page <= w.endPage
      modifies this`currentPage
      ensures Valid()
      ensures currentPage == page
    {
      currentPage := page;
    }
  }
}
