# Listing pages: filtering and pagination

This project models the client-side logic behind two near-identical listing
pages of a research group's web site: the publications page
(`publications.js`) and the job postings page (`jobs.js`). Each page holds the
full list of records loaded from a JSON file. It also holds a filtered list and
a current page number. Every user event (a drop-down change, typing in the
search box, the reset button, a pagination button) updates that state.

The model has six modules:

- `Text`: the JavaScript string operations the filter relies on. These are
  `toLowerCase` (restricted to ASCII letters), `trim` with the exact set of
  characters it removes, `includes`, and `Number.prototype.toString` on
  integers.
- `Seqs`: the array operations. These are `filter`, the de-duplication done
  by `[...new Set(...)]` (first-occurrence order), `flatMap`'s flattening,
  the numeric sort `(a, b) => b - a` and the default string sort.
- `Filtering`: the three tests `applyFilters` combines, shared by both pages.
  - The categorical test compares a year or qualification with the `"all"`
    sentinel.
  - The case-insensitive topic test matches any selected topic.
  - The keyword test looks for the trimmed, lower-cased search text as a
    substring of the title, of the authors or description, or of any tag.
  - This module also holds the way the controls are read, and the topic
    drop-down's options.
- `Pagination`: the page count `Math.ceil(n / 5)` and the `slice` of the
  filtered list shown on a page. It also holds the window of at most five
  numbered buttons around the current page, and what a render puts on screen.
- `Publications` and `Jobs`: the record of each page, its filter, its
  drop-down options and a class for the page's module-level state. The
  class's methods are the page's event handlers.

Every page class keeps the invariant `Valid()`. It says two things:
- the filtered list is the full list filtered by the controls as applyFilters
  reads them;
- the current page is between 1 and the number of pages (page 1 when the list
  is empty).

On the jobs page the search box has no handler: its `input` binding is
commented out (`jobs.js:167`). The model records, as the ghost field
`appliedSearch`, the search text that the last filtering pass read. The
invariant uses that text, not the one currently in the box. Typing changes only
the box (`Jobs.JobsPage.OnSearchInput`). The next drop-down change reads it.

## Model

| member | source | states |
|---|---|---|
| Text.Lower | publications.js:149 | toLowerCase keeps the length, leaves no upper-case ASCII letter and leaves every other character in place |
| Text.LowerCharKeepsWhitespace | publications.js:149 | lower-casing neither creates nor removes white space, so a trimmed keyword stays trimmed once lower-cased |
| Text.LowerIdempotent | publications.js:148 | lower-casing an already lower-cased string changes nothing |
| Text.TrimStart | publications.js:149 | the result of cutting leading white space is no longer than the input and does not start with white space |
| Text.TrimStartCutsWhitespace | publications.js:149 | cutting leading white space keeps a suffix, and all it removes is white space |
| Text.TrimEnd | publications.js:149 | the result of cutting trailing white space is no longer than the input and does not end with white space |
| Text.TrimEndCutsWhitespace | publications.js:149 | cutting trailing white space keeps a prefix, and all it removes is white space |
| Text.Trim | publications.js:149 | the trimmed keyword is no longer than the search text and has no white space at either end |
| Text.TrimCutsWhitespace | publications.js:149 | trim keeps a contiguous piece of the text; everything it removes at both ends is white space, and no more |
| Text.TrimCutsBothEnds | jobs.js:148 | the piece trim keeps starts after the leading white space and ends before the trailing white space |
| Text.TrimIdempotent | jobs.js:148 | trimming a trimmed string changes nothing |
| Text.IsWhitespace | publications.js:149 | the characters trim removes: tab, vertical tab, form feed, space, no-break space, byte order mark, the Unicode space separators and the four line terminators |
| Text.IncludesIsSubstring | publications.js:155-157 | includes holds exactly when the pattern occurs at some index of the text (both directions) |
| Text.IncludesGivesOccurrence | publications.js:155-157 | when includes succeeds, the keyword occurs at some index of the text |
| Text.OccurrenceGivesIncludes | publications.js:155-157 | an occurrence of the keyword at any index makes includes succeed |
| Text.IncludesEmpty | publications.js:154 | the empty keyword is included in every string |
| Text.Includes | publications.js:155 | includes tries the keyword at each position of the text in turn; Text.IncludesIsSubstring proves this is substring occurrence |
| Text.NatToString | publications.js:152 | a non-negative number prints as one or more decimal digits, at least two once it reaches 10 |
| Text.NatToStringRoundTrip | publications.js:152 | reading the printed digits of a non-negative number back as a decimal numeral gives the number |
| Text.IntToString | publications.js:152 | toString of an integer starts with a digit exactly when the integer is non-negative and with a minus sign exactly when it is negative, and every later character is a digit |
| Text.IntToStringRoundTrip | publications.js:152 | reading toString's output back, the minus sign negating the digits after it, gives the integer: the output is the sign followed by the digits of the magnitude |
| Text.NatToStringInjective | publications.js:152 | two non-negative numbers with the same decimal spelling are equal |
| Text.IntToStringInjective | publications.js:152 | two integers print alike exactly when they are equal |
| Text.IntToStringNotWord | publications.js:152 | no printed integer equals a word such as the sentinel "all" |
| Seqs.Filter | publications.js:151-160 | filter returns no more elements than it is given, and each one it returns is an input element that passes the test |
| Seqs.FilterSelectsExactly | publications.js:151-160 | filter's result is an order-preserving subsequence of the input that holds exactly the positions whose element passes the test |
| Seqs.FilterKeepsAll | publications.js:174 | filtering with a test every element passes returns the whole list, as the reset's copy does |
| Seqs.Distinct | publications.js:127 | the Set spread holds no duplicates and exactly the elements of its input |
| Seqs.Flatten | publications.js:128 | flatMap's result holds exactly the elements of the item lists |
| Seqs.PermutationKeepsNoDuplicates | publications.js:127 | sorting a duplicate-free list cannot create duplicates |
| Seqs.PrependKeepsNoDuplicates | publications.js:133-134 | putting the sentinel in front of option values it differs from keeps them free of duplicates |
| Seqs.PermutationKeepsMembers | publications.js:128 | sorting keeps exactly the same elements |
| Seqs.AtMostOnce | publications.js:127 | in a duplicate-free list every value occurs at most once |
| Seqs.DescendingCons | publications.js:127 | a value at least the head of a largest-first list can go in front of it |
| Seqs.InsertDescending | publications.js:127 | inserting into a list sorted largest-first keeps it sorted and adds exactly that element |
| Seqs.SortDescending | publications.js:127 | the numeric sort `(a, b) => b - a` yields a largest-first permutation of its input |
| Seqs.LexLessEqTotal | publications.js:128 | any two strings are comparable in the default sort order |
| Seqs.LexLessEqAntisymmetric | publications.js:128 | two strings that are each at most the other are equal |
| Seqs.LexLessEqTransitive | publications.js:128 | the default sort order is transitive |
| Seqs.LexLessEqReflexive | publications.js:128 | every string is at most itself |
| Seqs.InsertString | publications.js:128 | inserting into a sorted list of strings keeps it sorted and adds exactly that string |
| Seqs.SortStrings | publications.js:128 | the default sort yields a lexicographically sorted permutation of its input |
| Seqs.SortedStringsPairwise | publications.js:128 | in a sorted list every earlier string is at most every later one |
| Filtering.LowerAll | publications.js:148 | each selected topic value is lower-cased, one for one |
| Filtering.ReadCriteria | publications.js:147-149 | the selector is taken as is, the topics are lower-cased, and the keyword is the search text trimmed then lower-cased, so it has no upper-case letter, no white space at either end and is no longer than the search text |
| Filtering.CategoryMatches | publications.js:152 | the categorical test: the sentinel passes every item, any other selector exactly the items whose value prints as that string (Publications.YearSelection, Jobs.QualificationSelection) |
| Filtering.Contains | publications.js:153 | includes on an array of strings, scanning from the front; Filtering.ContainsIsMembership proves it is list membership |
| Filtering.SomeContained | publications.js:153 | some on the selected topics, each tested with includes; Filtering.SomeContainedIsIntersection proves it holds when the lists share a value |
| Filtering.TopicMatches | publications.js:153 | the topic test: no selection, or some selected topic among the lower-cased tags; Filtering.TopicMatchesIff states it without the scanning helpers |
| Filtering.SomeTagIncludes | publications.js:157 | some on the tags, each lower-cased and tested with includes; Filtering.SomeTagIncludesIff proves it is substring occurrence in some tag |
| Filtering.KeywordMatches | publications.js:154-157 | the keyword test: the empty keyword, or includes on the lower-cased title, second text field or some tag; Filtering.KeywordMatchesIff states it as substring occurrence |
| Filtering.ContainsIsMembership | publications.js:153 | includes on the lower-cased tags is list membership |
| Filtering.SomeContainedIsIntersection | publications.js:153 | some selected topic is among the lower-cased tags exactly when the two lists share a value |
| Filtering.TopicMatchesIff | publications.js:153 | the topic test passes when nothing is selected and otherwise exactly when some selected topic equals some tag once lower-cased |
| Filtering.SelectedTopicMatchesTagIgnoringCase | publications.js:148 | selecting an option keeps every item with a tag equal to it up to case |
| Filtering.NlpSelectionMatchesUpperCaseTag | publications.js:153 | the topics "nlp" and "vision" keep an item tagged only "NLP" |
| Filtering.SomeTagIncludesIff | publications.js:157 | the tag part of the keyword test passes exactly when the keyword is a substring of some lower-cased tag |
| Filtering.KeywordMatchesIff | publications.js:154-157 | the keyword test passes exactly when the keyword is a substring of the lower-cased title, the lower-cased authors or description, or some lower-cased tag |
| Filtering.DefaultCriteria | publications.js:171-173 | the reset controls read as the sentinel, no topic and the empty keyword |
| Filtering.DefaultControlsAcceptEverything | publications.js:171-173 | under the reset controls every item passes all three tests |
| Filtering.TopicOptions | publications.js:128 | the topic options are sorted and duplicate-free, and hold exactly the tags that occur in some item |
| Filtering.TopicOptionSelectsSomething | publications.js:136 | choosing any single topic option keeps at least one item |
| Pagination.TotalPages | publications.js:68 | the page count is the fewest pages of five that hold the filtered list |
| Pagination.SliceBound | publications.js:27 | slice keeps an index inside the list as is, clamps one past the end to the length, and counts a negative index back from the end, clamped to 0 |
| Pagination.Slice | publications.js:27 | slice from the clamped start to the clamped end, empty when the end comes first; Pagination.PageItemsIsWindowOfList gives the page it yields |
| Pagination.PageItems | publications.js:25-27 | the page's items: the slice from (p - 1) * 5, five long; Pagination.PageItemsIsWindowOfList and Pagination.PagesConcatenateToList state what it yields |
| Pagination.PageItemsIsWindowOfList | publications.js:25-27 | page p shows the items from (p - 1) * 5 on, at most five, cut off at the end of the list; it is empty exactly when p is past the last page |
| Pagination.PagesFromIsSuffix | publications.js:25-27 | the pages from p to the last one make up the rest of the list from page p's first item |
| Pagination.PagesConcatenateToList | publications.js:25-27 | pages 1 to the last, one after the other, give back the whole filtered list |
| Pagination.TwelveItemsMakeThreePages | publications.js:25-27 | twelve items make three pages of five, five and two items, and page four is empty |
| Pagination.CentredWindow | publications.js:83-88 | the button window lies within the pages, is min(5, total) pages wide, contains the current page and is centred on it where there is room |
| Pagination.ComputeWindow | publications.js:83-88 | the source's start/end computation, with its corrective step, gives the centred window whenever there is at least one page |
| Pagination.NumberedButtons | publications.js:91-104 | one button per page of the window, in increasing order, and only the current page's is highlighted |
| Pagination.RenderPage | publications.js:21-108 | the list shows the page's items or the placeholder when the page is empty; the bar is hidden exactly when there is at most one page, and otherwise shows the window's buttons, with previous and next disabled on the first and last page |
| Publications.YearMatches | publications.js:152 | the year test: the categorical test on the year printed with toString; Publications.YearSelection states which years it keeps |
| Publications.Matches | publications.js:151-158 | a publication passes when it passes the year, topic and keyword tests together |
| Publications.FilterPublications | publications.js:151-160 | filter over all publications with that test; Publications.FilterPublicationsSelectsExactly states what it keeps |
| Publications.FilterPublicationsSelectsExactly | publications.js:151-160 | the filtered list is an order-preserving subsequence of all publications that holds exactly those passing the year, topic and keyword tests |
| Publications.YearSelection | publications.js:152 | the "all" option keeps every year; the option for year y keeps exactly the publications of year y |
| Publications.DefaultFilterKeepsAll | publications.js:170-175 | filtering under the reset controls gives back the full list, so the reset's copy agrees with the filter |
| Publications.YearsOf | publications.js:127 | the mapped list holds each publication's year in order |
| Publications.Years | publications.js:127 | each year of some publication occurs exactly once, newest first |
| Publications.YearOptions | publications.js:133-134 | the year options are the sentinel, then each year in that order, with no value repeated |
| Publications.OptionsOfYears | publications.js:133-134 | the options for duplicate-free years are the sentinel then each year printed, with no value repeated |
| Publications.YearStrings | publications.js:134 | each year is written out with toString, one for one |
| Publications.YearStringsDistinct | publications.js:133-134 | neither the sentinel nor two different years give the same option value |
| Publications.YearOptionSelectsSomething | publications.js:133-134 | every year option keeps at least one publication, and exactly those of its year |
| Publications.PublicationTopicOptions | publications.js:128 | the topic options are sorted, duplicate-free, and hold exactly the tags of some publication |
| Publications.PublicationsPage.Load | publications.js:10-11 | after loading, the filtered list is a copy of the full list, on page 1, with the reset controls |
| Publications.PublicationsPage.ApplyFilters | publications.js:146-163 | the filtered list is rebuilt from the full list under the current controls and the page goes back to 1; nothing else changes |
| Publications.PublicationsPage.OnYearChange | publications.js:166 | a year change re-filters under the new year |
| Publications.PublicationsPage.OnTopicChange | publications.js:167 | a topic change re-filters under the new selection |
| Publications.PublicationsPage.OnSearchInput | publications.js:168 | typing re-filters under the new search text |
| Publications.PublicationsPage.OnReset | publications.js:170-177 | reset restores the default controls, the full list and page 1 |
| Publications.PublicationsPage.OnPrev | publications.js:110-115 | previous goes one page back unless on page 1 |
| Publications.PublicationsPage.OnNext | publications.js:117-122 | next goes one page on unless on the last page |
| Publications.PublicationsPage.OnPageButton | publications.js:99-102 | a numbered button, which exists only for a page of the window, makes that page current |
| Jobs.Scalar.ToString | jobs.js:151 | toString on a qualification: a number printed in decimal, a string as is; Text.IntToStringRoundTrip gives back the number |
| Jobs.QualificationMatches | jobs.js:151 | the qualification test: the categorical test on the qualification's toString; Jobs.QualificationSelection states which qualifications it keeps |
| Jobs.Matches | jobs.js:150-157 | a job passes when it passes the qualification, topic and keyword tests together |
| Jobs.FilterJobs | jobs.js:150-159 | filter over all jobs with that test; Jobs.FilterJobsSelectsExactly states what it keeps |
| Jobs.FilterJobsSelectsExactly | jobs.js:150-159 | the filtered list is an order-preserving subsequence of all jobs that holds exactly those passing the qualification, topic and keyword tests |
| Jobs.QualificationSelection | jobs.js:151 | the "all" option keeps every job; the option printed from number q keeps exactly the jobs whose qualification is the number q or the string spelling q |
| Jobs.DefaultFilterKeepsAll | jobs.js:169-174 | filtering under the reset controls gives back the full list |
| Jobs.QualificationsOf | jobs.js:126 | the mapped list holds each job's qualification in order |
| Jobs.Qualifications | jobs.js:126 | each qualification value of some job occurs exactly once |
| Jobs.ScalarStrings | jobs.js:133 | each qualification is written out with toString, one for one |
| Jobs.QualificationOptions | jobs.js:132-133 | the qualification options are the sentinel, then the printed form of each distinct qualification |
| Jobs.QualificationOptionSelectsSomething | jobs.js:132-133 | every qualification option keeps at least one job |
| Jobs.NumberAndStringGiveSameOption | jobs.js:126 | the number 2 and the string "2" are two Set entries and give two options with the same value |
| Jobs.JobTopicOptions | jobs.js:127 | the topic options are sorted, duplicate-free, and hold exactly the tags of some job |
| Jobs.JobsPage.Load | jobs.js:10-11 | after loading, the filtered list is a copy of the full list, on page 1, with the reset controls |
| Jobs.JobsPage.ApplyFilters | jobs.js:145-163 | the filtered list is rebuilt from the full list under all current controls, including the search text, and the page goes back to 1 |
| Jobs.JobsPage.OnQualificationChange | jobs.js:165 | a qualification change re-filters under the new qualification and the search text as it stands |
| Jobs.JobsPage.OnTopicChange | jobs.js:166 | a topic change re-filters under the new selection and the search text as it stands |
| Jobs.JobsPage.OnSearchInput | jobs.js:167 | typing changes only the search box: the filtered list and the page stay as they are |
| Jobs.JobsPage.OnReset | jobs.js:169-176 | reset restores the default controls, the full list and page 1 |
| Jobs.JobsPage.OnPrev | jobs.js:109-114 | previous goes one page back unless on page 1 |
| Jobs.JobsPage.OnNext | jobs.js:116-121 | next goes one page on unless on the last page |
| Jobs.JobsPage.OnPageButton | jobs.js:98-101 | a numbered button, which exists only for a page of the window, makes that page current |

## Left out

- Fetching the JSON files, parsing them, the asynchronous load and its error
  logging: the loaded array is the constructor's parameter. A record with a
  missing or mistyped field is not modelled.
- The DOM: card markup, the placeholder wording, icon replacement and the
  `data-` attributes the render writes. The screen is modelled as the items
  shown, the placeholder, the numbered buttons and the two disabled flags.
- Event wiring: each handler is a method. Reading the controls is the
  `Controls` value the class keeps. The buttons' click closures are not
  modelled, including the handlers left on hidden buttons.
- Text.Lower: lower-cases ASCII letters only. JavaScript's toLowerCase also
  maps non-ASCII letters.
- Seqs.LexLessEq compares Unicode code points. JavaScript's default sort
  compares UTF-16 code units, and the two orders differ only for characters
  outside the Basic Multilingual Plane.
- Text.IntToString: years and numeric qualifications are integers. The
  rendering of fractions, exponents, NaN or numbers beyond 2^53 is not
  modelled.
- Jobs.QualificationOptions: the options keep the Set's first-occurrence
  order. The source sorts them with `(a, b) => b - a`, which is not a
  consistent comparator when a qualification is not a number, so only the
  options' contents are stated, not their order.
- Browser numeric types: page numbers and counts are unbounded integers. The
  source stays far below where JavaScript numbers lose precision.
