# Blog-card controller of script.js, in Dafny

This project models the blog page's card controller in `script.js` and proves what it promises.
The controller is made of:

- the filter buttons, each of which shows the cards of one category;
- the search box, whose input is lower-cased and handed to a debounced handler that shows the
  cards whose title or excerpt contains the term;
- the sort select, which reorders the grid's cards by date or read time with
  `Array.prototype.sort` and re-appends them;
- the grid/list view buttons;
- the two rate limiters the page uses, `throttle` and `debounce`;
- the two key extractors the comparator relies on, `parseDateString` and `getReadMinutes`.

Modules, one per concern:

- `Wrappers`: the `Option` type, used for attributes that may be absent (`getAttribute` giving null).
- `Text`: decimal digits, the white space `trim` removes, `split` and `join` on one character,
  ASCII lower-casing and `includes`.
- `ReadTime`: `getReadMinutes` (the first run of digits, read as a decimal number, or 0).
- `DateKeys`: `parseDateString`. It covers `Number` on each field and
  `new Date(year, month - 1, day).getTime()` after ECMA-262 (2019 edition, sections 20.3.1.3,
  20.3.1.12, 20.3.1.14 and 20.3.2.1), with UTC as the local time zone.
- `Sorting`: the result `Array.prototype.sort` must produce, which is a stable sort (ECMA-262,
  2019 edition, section 22.1.3.27). It is written as an insertion sort, with its ordering,
  stability and permutation lemmas.
- `BlogCards`: cards as values, the visibility the two handlers compute, and the comparator of
  `sortCards`.
- `RateLimit`: `throttle` and `debounce`. Each is a pure step function over `Call(args)` and
  `Expire` events with trace lemmas, plus a class with the closure's mutable state whose methods
  follow the step function.
- `BlogView`: the DOM side as objects.
  - `CardElement` carries its `hidden` class.
  - `Button` carries its `active` class.
  - `Controller` holds the card list, the grid's child list and its `list-view` class. Its
    methods are the click, input, timer and sort handlers.

Three behaviours of the code a reader might expect otherwise:

- Filter and search do not combine. Each handler rewrites every card's `hidden` class from
  scratch, so the handler that ran last alone decides visibility
  (`BlogCards.LastHandlerWins`, `BlogCards.SearchOverridesFilter`).
- A filter click rewrites the cards' `hidden` classes and the buttons' `active` classes. It does not
  re-apply the active sort, and the sort never reads visibility (`BlogCards.SortCommutesWithShown`).
- A date text that does not split into three parts gets key 0. That is the time value of
  1 January 1970, not the earliest possible date. Under "oldest", a card dated 31/12/1969 sorts
  before a card without a date (`DateKeys.SentinelIsEpoch`, `DateKeys.BeforeSentinel`).

## Model

| member | source | states |
|---|---|---|
| RateLimit.ThrottleStep | script.js:19-22 | one event of the throttle closure: a call runs the function (one more run) exactly when the flag is down, and leaves the flag up; the timer's expiry lowers it; runs are only appended; `RateLimit.ThrottleBound` and `RateLimit.ThrottleBurst` state its effect over whole runs |
| RateLimit.ThrottleBound | script.js:14-25 | over any run of calls and expirations, the function only gains runs, and runs at most once more than the number of expirations (the extra run only if the flag was down at the start) |
| RateLimit.ThrottleBurst | script.js:19-23 | calls with no expiration in between run the function once, with the first call's arguments, if the flag was down; otherwise they are all dropped |
| RateLimit.Throttle.constructor | script.js:15 | the flag starts down, no timer is pending and nothing has run |
| RateLimit.Throttle.Call | script.js:16-24 | runs the function (reporting it) exactly when the flag was down, raising it and scheduling one timer; a call while the flag is up changes nothing; the flag is up exactly while one timer is pending |
| RateLimit.Throttle.Expire | script.js:22 | the pending timer lowers the flag and nothing runs |
| RateLimit.DebounceStep | script.js:31-36 | one event of the debounce closure: a call replaces the pending arguments and runs nothing; the expiry runs the function once with the pending arguments and leaves nothing pending; `RateLimit.DebounceCalls` and `RateLimit.DebounceBurst` state its effect over whole runs |
| RateLimit.DebounceBound | script.js:28-38 | over any run of events, the function only gains runs and runs at most once per expiration |
| RateLimit.DebounceCalls | script.js:35-36 | while calls keep coming nothing runs, and only the latest call's arguments are pending |
| RateLimit.DebounceBurst | script.js:30-37 | a burst of calls followed by the timer's expiration runs the function exactly once, with the last call's arguments |
| RateLimit.Debounce.constructor | script.js:29 | no timer is pending and the function has not run |
| RateLimit.Debounce.Call | script.js:35-36 | clears the previous timer and schedules one fresh timer carrying the new arguments, so at most one timer is pending |
| RateLimit.Debounce.Fire | script.js:31-34 | the pending timer runs the function once with the arguments it carries, and no timer is left pending |
| Text.Split | script.js:102 | `split('/')` gives one more piece than there are separators, no piece contains one, and joining the pieces gives back the text |
| Text.SplitJoin | script.js:102 | splitting undoes joining pieces that contain no separator |
| Text.Trim | script.js:120 | `trim`: the result is no longer than the text and made of its characters, neither starts nor ends with white space, and a text without white space is unchanged; `Text.TrimStartStrips` and `Text.TrimEndStrips` say exactly what is removed |
| Text.CountTrim | script.js:120 | trimming keeps every character that is not white space, so the number of '/' is unchanged |
| Text.TrimStartStrips | script.js:120 | `trim` removes exactly the leading white space |
| Text.TrimEndStrips | script.js:120 | `trim` removes exactly the trailing white space |
| Text.Contains | script.js:312 | `includes`: a term longer than the text never occurs; `Text.ContainsAt` characterises it |
| Text.ContainsAt | script.js:312 | `includes` holds exactly when the term occurs at some index |
| Text.Lower | script.js:309-310 | `toLowerCase` (also applied to the input at script.js:322) on ASCII: the length is kept, each capital A-Z becomes the letter 32 code points later (its lower case), no capital is left, and every other character is unchanged |
| Text.LowerIdempotent | script.js:322 | lower-casing twice is lower-casing once, so the term lower-cased at input is unchanged by a second lower-casing |
| Text.LowerIgnoresCase | script.js:309-310 | texts that differ only in ASCII case have the same lower case, so the search finds "Dafny" whether the input was "DAFNY" or "dafny" |
| Text.DecimalValue | script.js:111 | `parseInt(run, 10)` on a run of digits: the value is 0 exactly when every digit is '0'; every numeral `Text.DecimalString` writes reads back through it |
| Text.DecimalString | script.js:111 | the decimal numeral of n is non-empty, all digits, and reads back as n |
| ReadTime.DigitRun | script.js:110 | the run of digits at the front of the text is maximal: all digits, and followed by a non-digit or the end |
| ReadTime.ReadMinutes | script.js:108-112 | `getReadMinutes`: a text without a digit reads as 0 minutes; which number a text with digits reads as is stated by `ReadTime.ReadMinutesFirstRun` |
| ReadTime.ReadMinutesFirstRun | script.js:108-112 | the value read is the decimal value of the first maximal run of digits, wherever it starts |
| ReadTime.ReadMinutesOfNumber | script.js:108-112 | a number written after a digit-free prefix and before a non-digit is read back exactly |
| ReadTime.ReadMinutesExample | script.js:109-111 | "8 phút đọc" reads as 8 minutes |
| DateKeys.ToNumber | script.js:104 | `Number` on one date field: defined exactly when the trimmed field is all digits, never negative, and 0 for an empty or blank field; `DateKeys.ToNumberOfDigits` gives the value of a digit field |
| DateKeys.ToNumberOfDigits | script.js:104 | `Number` of a non-empty run of digits is its decimal value |
| DateKeys.NewDate | script.js:105 | `new Date(year, month - 1, day).getTime()`: NaN when any field is NaN; otherwise, when defined, within the time range and a whole number of days; `DateKeys.ParseFormat` and `DateKeys.KeyOrderIsCalendarOrder` state its value on valid dates |
| DateKeys.ParseDateString | script.js:100-106 | a text with other than two '/' gets the key 0 |
| DateKeys.SameFieldsSameKey | script.js:102-105 | the key depends on the three numeric fields only: two texts that split into three pieces whose matching fields have equal `Number` values get equal keys |
| DateKeys.FieldsSameKey | script.js:102-105 | two texts made of three slash-free fields joined by '/' whose matching fields have equal `Number` values get equal keys |
| DateKeys.PaddedFieldsTie | script.js:102-105 | padding the day and month fields of a date text with a space and a leading zero does not change its key, so "1/1/2020" and " 01/ 01/2020" tie |
| DateKeys.ParseFormatFields | script.js:102-105 | the DD/MM/YYYY text of any day, month and year parses to `new Date(year, month - 1, day)` |
| DateKeys.ParseFormat | script.js:100-106 | the DD/MM/YYYY text of a valid date parses to the first instant of that day |
| DateKeys.KeyOrderIsCalendarOrder | script.js:100-106 | over valid DD/MM/YYYY texts the keys are defined, order the dates as the calendar does, and are equal only for equal dates |
| DateKeys.NextYear | script.js:105 | the day number of January 1st advances by the length of the year, leap years included |
| DateKeys.DayNumberOrder | script.js:105 | the day numbers of valid dates follow calendar order both ways, and tell dates apart |
| DateKeys.SentinelIsEpoch | script.js:103 | the fallback key 0 equals the key of 01/01/1970 |
| DateKeys.BeforeSentinel | script.js:103-105 | 31/12/1969 gets a key below the fallback key 0 |
| Sorting.Insert | script.js:118-130 | inserting into the sorted prefix gives the prefix's elements plus the inserted one, no more and no fewer |
| Sorting.Sort | script.js:118-130 | the sort's result is a permutation of its input |
| Sorting.SortOrdered | script.js:118-130 | with a comparator consistent with a key, the result is in key order |
| Sorting.SortStable | script.js:118-130 | with a consistent comparator, elements of equal key keep their relative order |
| Sorting.SortNeverGreater | script.js:129 | a comparator that never answers "greater" leaves the order unchanged |
| Sorting.SortMap | script.js:118-133 | sorting commutes with a map whose images compare as the originals do |
| BlogCards.Shown | script.js:85-94 | the forEach restyling: every card keeps its place and what it shows, and is visible exactly when the test accepts it |
| BlogCards.FilterView | script.js:85-94 | the cards after a filter click, one per card; `BlogCards.FilterVisibility` states which are visible |
| BlogCards.SearchView | script.js:308-318 | the cards after a search, one per card; `BlogCards.SearchVisibility` states which are visible |
| BlogCards.FilterShows | script.js:88 | the filter test: the 'all' filter shows every card, and a button without data-filter shows exactly the cards without data-category (null === null); `BlogCards.FilterVisibility` states it over all cards |
| BlogCards.SearchShows | script.js:309-312 | the search test: it holds exactly when the term occurs at some index of the lower-cased title or the lower-cased excerpt, and the empty term shows every card |
| BlogCards.CriterionOf | script.js:119-129 | the criteria the comparator tests: each of 'newest', 'oldest', 'shortest' and 'longest' selects its own criterion, and only that value does; any other value falls through to the 0 of script.js:129 |
| BlogCards.DateOf | script.js:120-121 | a card's date key: `parseDateString` of its trimmed date text, which is 0 whenever the untrimmed text has other than two '/' |
| BlogCards.MinutesOf | script.js:125-126 | a card's read minutes: `getReadMinutes` of its trimmed read-time text, which is 0 when the text has no digit |
| BlogCards.CompareKeys | script.js:118-129 | the comparator on two cards' keys: for shortest/longest, negative, zero or positive as the minutes ascend, tie or descend (reversed for longest); for oldest/newest with defined dates, likewise on the date keys; 0 when a date key is NaN; 0 for any other criterion |
| BlogCards.Compare | script.js:118-129 | the comparator of sortCards on two cards; swapping the cards negates its result; `BlogCards.CompareIsKeyDifference` relates it to the sort key |
| BlogCards.FilterVisibility | script.js:83-94 | after a filter click, each card keeps what it shows and its place, and is visible iff the filter is 'all' or equals the card's category |
| BlogCards.FilterAllShowsEverything | script.js:88 | the 'all' filter shows every card |
| BlogCards.SearchVisibility | script.js:307-318 | after a search, each card keeps what it shows and its place, and is visible iff its lower-cased title or excerpt contains the term |
| BlogCards.EmptySearchShowsEverything | script.js:312 | the empty term shows every card |
| BlogCards.LastHandlerWins | script.js:85-94 | restyling all cards from scratch twice is restyling them once with the second predicate: the last handler decides visibility |
| BlogCards.SearchOverridesFilter | script.js:307-318 | under filter 'a', an empty search shows again a card of category 'b' that the filter had hidden |
| BlogCards.CompareIsKeyDifference | script.js:118-129 | when no date key is NaN, the comparator's result is the difference of the two cards' keys |
| BlogCards.RankedConsistent | script.js:118-129 | when no date key is NaN, the comparator is consistent with the key |
| BlogCards.KeyOrderMeans | script.js:119-128 | key order means read minutes non-decreasing (shortest) or non-increasing (longest), and date keys defined and non-decreasing (oldest) or non-increasing (newest) |
| BlogCards.SortedCards | script.js:118-130 | the cards in the order sortCards leaves them: the same cards, as a multiset; `BlogCards.SortedByCriterion` and `BlogCards.SortedCardsStable` state the order |
| BlogCards.SortPermutes | script.js:118-130 | the sort keeps the same cards, each with its content and "hidden" class |
| BlogCards.SortedByCriterion | script.js:118-130 | when no date key is NaN, any two cards stand in the order the criterion names |
| BlogCards.SortedCardsStable | script.js:118-130 | when no date key is NaN, cards of equal key keep their previous relative order |
| BlogCards.UnsortedKeepsOrder | script.js:129 | under an unrecognised criterion the comparator is 0 and the order is unchanged |
| BlogCards.ShortestExample | script.js:124-127 | cards reading "3", "10" and "1" minutes sort shortest-first as 1, 3, 10 |
| BlogCards.SortCommutesWithShown | script.js:114-134 | sorting and recomputing visibility commute: the comparator never reads the "hidden" class |
| BlogView.ReappendDone | script.js:133 | once a permutation of the child list has been re-appended, the child list is that permutation and still holds only distinct cards |
| BlogView.AppendStep | script.js:133 | one `appendChild` of the re-append loop moves the next card to the end, behind those already appended |
| BlogView.SortedSnapshot | script.js:114-134 | sorting the card elements and then reading them as values is sorting the values |
| BlogView.Controller.constructor | script.js:307 | the search handler's debounce closure starts with nothing pending |
| BlogView.Controller.ApplyVisibility | script.js:85-94 | every card's "hidden" class is set from scratch: hidden exactly when the predicate rejects it |
| BlogView.Controller.ClickFilter | script.js:79-95 | the clicked filter button alone is active, and the cards' visibility is the filter view of the button's data-filter |
| BlogView.Controller.ApplySearch | script.js:307-319 | the cards' visibility is the search view of the term |
| BlogView.Controller.OnSearchInput | script.js:321-324 | the lower-cased input value goes to the debounced handler, replacing the term of any pending search |
| BlogView.Controller.OnSearchTimer | script.js:31-34 | when the pending timer fires, the handler runs with the term of the last input |
| BlogView.Controller.AppendChild | script.js:133 | `appendChild` of a grid child moves it to the end |
| BlogView.Controller.Reappend | script.js:133 | re-appending distinct cards in turn leaves the other children in front, in their order, followed by the re-appended cards in order |
| BlogView.Controller.SortGrid | script.js:116-133 | the grid's children become the sorted grid |
| BlogView.Controller.SortCards | script.js:114-134 | nothing happens without a grid; otherwise the grid is the stable sort of its cards by the criterion's comparator, as elements and as values, a permutation of the same cards, with no "hidden" class changed |
| BlogView.Controller.ClickView | script.js:143-156 | with a grid, the clicked view button alone is active and the grid is in list view iff its data-view is 'list'; without a grid nothing changes |

## Left out

- The local time zone: `new Date(y, m, d)` is taken in UTC. The page's real key is shifted by the zone's offset.
- `Number` on a date field: only the empty string (after trimming) and runs of decimal digits are read. Signs, fractions, exponents, hexadecimal and Infinity are NaN in this model.
- `parseInt` precision: read minutes are unbounded naturals. Runs of digits beyond 2^53 lose precision in the page.
- `toLowerCase`: only A-Z are folded. Unicode case mapping is not modelled.
- BlogCards.SortedByCriterion: ordering is claimed only when no date key is NaN. A NaN comparator result makes the comparator inconsistent, and the standard then leaves the order implementation-defined. The permutation (BlogCards.SortPermutes) holds always.
- BlogCards.SortedCardsStable: stability is claimed only when no date key is NaN, for the same reason.
- The sort algorithm: `Sorting.Sort` is the unique stable result for a consistent comparator, not the engine's algorithm.
- Timing: `limit` and `wait` are constants. A timer's expiry is an event, so real time, timer ordering across closures and `requestAnimationFrame` are not modelled.
- The style side of the handlers (`style.animation`, hover transforms): presentational only.
- Mobile menu and smooth scrolling (script.js:40-74), navbar scroll effect and nav highlighting (script.js:158-199), scroll animations and skill bars (script.js:201-245), card hover effects (script.js:247-258), back-to-top button, load and error listeners (script.js:330-404) and the QR code (script.js:406-471): page decoration and third-party code outside the card controller. Of these, only their use of `throttle` touches the core, and `throttle` itself is modelled.
- Card click and keyboard navigation (script.js:261-286): they only set `window.location`.
- Creating the search box (script.js:289-304): the model starts from an existing input and its debounced handler.
- Missing child elements of a card (`.blog-date`, `.blog-title`, and so on): the page would throw a TypeError. The model takes every card to have them.
- Grid children other than `.blog-card` elements: the grid is modelled as its list of card elements.
