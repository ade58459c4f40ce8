# easy-apply-bot: job discovery and Easy Apply, modelled in Dafny

This project models the two flows at the heart of the LinkedIn Easy Apply bot.

- **Job discovery** (`fetchJobLinksUser`). This flow builds the search query:
  - keywords and location;
  - the `f_WT` workplace filter;
  - `f_AL=true`;
  - an optional `geoId`.

  It then requests result pages at `start = 0, |p₀|, |p₀|+|p₁|, …` (running totals of the lengths of the pages served) while fewer than `numAvailableJobs` listings have been seen. It stops at the first empty page. It examines at most `MAX_PAGE_SIZE` (2) listings of each page, and it yields `[link, title, company]` for every listing that meets four conditions:
  - it offers Easy Apply;
  - its title matches;
  - its description matches;
  - its detected language is accepted.

  A listing whose processing throws is skipped.
- **Applying** (`apply` and `clickEasyApplyButton`). This flow navigates to the posting and clicks the first button matching the Easy Apply selector (enabled or not) whose trimmed, lower-cased text contains "easy apply". If that fails it returns quietly. Otherwise it runs the form loop five times (fill, next, wait-for-no-error), swallowing every failure. It then looks up the submit button, throws "Submit button not found" when there is none, and clicks the button only when `shouldSubmit` holds.

The browser is replaced by oracles:
- a `Site` maps each `start` offset to the listings served there;
- each `Item` carries what the browser and detector would report about it;
- a `Page` says which browser calls fail.

The discovery generator is an imperative method, `JobSearch.FetchJobLinksUser`, with an inner method `JobSearch.ExaminePage`. It is proved equal to a recursive specification `JobSearch.Run`, and the properties of the run are proved as lemmas about `Run`. The apply flow is a method too. It returns the trace of browser actions and how the call ended, and its contract states that whole trace. The fill loop is a method (`EasyApply.RunFillLoop`) that models the `while (maxPages--)` post-decrement exactly. The JavaScript string built-ins these flows use are modelled over `seq<char>`, in `JsStrings`:
- `trim`;
- `toLowerCase`;
- `includes`;
- `Number.prototype.toString`;
- `join(',')`.

Files:
- `wrappers.dfy`: `Option` and `Result`;
- `js_strings.dfy`: the string built-ins;
- `job_search.dfy`: discovery;
- `apply.dfy`: applying.

## Model

| member | source | states |
|---|---|---|
| JobSearch.SelectedCodes | fetch/fetchJobLinksUser.ts:53-55 | the codes are `index + 1` of exactly the selected flags, each in `1..|flags|`, strictly ascending |
| JobSearch.WorkTypeFilterCodes | fetch/fetchJobLinksUser.ts:53-56 | the `f_WT` string reads back to ascending codes; 1 is present iff on-site, 2 iff remote and 3 iff hybrid; the string is empty iff no flag is set |
| JsStrings.ParseJoinNumbers | fetch/fetchJobLinksUser.ts:56 | `join(',')` of numbers loses nothing: splitting on commas and parsing gives the list back |
| JsStrings.NumberToString | fetch/fetchJobLinksUser.ts:63 | `toString()` of a non-negative integer is a non-empty run of decimal digits |
| JsStrings.NumberToStringNoLeadingZero | fetch/fetchJobLinksUser.ts:63 | that notation has no leading zero: it starts with `0` only for 0 |
| JsStrings.ParseNumberToString | fetch/fetchJobLinksUser.ts:63 | `toString()` of a non-negative integer parses back to that integer |
| JobSearch.SearchParamsShape | fetch/fetchJobLinksUser.ts:60-67 | a request has exactly the keys keywords, location, start, f_WT and f_AL, plus geoId when geoId is non-null and non-empty, with the given values; `start` reads back as the offset |
| JobSearch.SetStart | fetch/fetchJobLinksUser.ts:74 | overwriting `start` turns any earlier request into the request for the new offset, and changes nothing else |
| JobSearch.ExamineItemYields | fetch/fetchJobLinksUser.ts:86-107 | a listing is yielded iff no step throws, the detector returns a language, Easy Apply is available, title and description match, and the language is accepted or "any" is listed; what is yielded is its link, title and company |
| JobSearch.Cap | fetch/fetchJobLinksUser.ts:85 | the number examined is `min(length, MAX_PAGE_SIZE)`: the smaller of the two |
| JobSearch.PageExaminedAt | fetch/fetchJobLinksUser.ts:85 | the inner loop visits indices `0..n-1` of its page in order |
| JobSearch.PagePostingsBound | fetch/fetchJobLinksUser.ts:85-104 | one page yields at most one posting per examined listing |
| JobSearch.PagePostingsIff | fetch/fetchJobLinksUser.ts:85-107 | a posting comes from a page iff one of its first `n` listings yields it |
| JobSearch.ExaminePage | fetch/fetchJobLinksUser.ts:85-108 | the inner loop appends exactly the page's postings and examined positions, and keeps `numMatchingJobs` equal to the number of postings |
| JobSearch.FetchJobLinksUser | fetch/fetchJobLinksUser.ts:49-115 | the generator's postings, requests, examined listings and `numSeenJobs` are those of `Run` from 0; `numMatchingJobs` is the number of postings, and is at most `numSeenJobs` at every head of the page loop and at the end; the postings are those of the qualifying examined listings, in examination order; with `numAvailableJobs <= 0` no request is made |
| JobSearch.ContinueRun | fetch/fetchJobLinksUser.ts:73-112 | the loop, continued from any point, produces what it already produced followed by the run from that offset |
| JobSearch.RunCounts | fetch/fetchJobLinksUser.ts:102-110 | `numSeenJobs` never decreases, and at the end of a run (as at every page-loop head) the postings never outnumber the listings seen |
| JobSearch.RunStarts | fetch/fetchJobLinksUser.ts:73-77 | the first request is at `start = 0` (the run's first offset); every start lies below `numAvailableJobs`; each next start is the previous one plus the previous (non-empty) page's length |
| JobSearch.ChainedAt | fetch/fetchJobLinksUser.ts:110 | consecutive starts differ by the full length of the page served at the earlier one |
| JobSearch.RunEnds | fetch/fetchJobLinksUser.ts:73-83 | no request at all iff `numAvailableJobs <= 0`; a run that ends on an empty page leaves `numSeenJobs` at that page's start; otherwise it ends with `numSeenJobs >= numAvailableJobs` |
| JobSearch.RunExaminesOnlyCapped | fetch/fetchJobLinksUser.ts:85 | every examined listing is on a requested page at an index below `min(length, MAX_PAGE_SIZE)` |
| JobSearch.RunExaminesAllCapped | fetch/fetchJobLinksUser.ts:85-107 | every listing below the cap on every requested page is examined, including after an earlier listing threw |
| JobSearch.RunExaminesFrom | fetch/fetchJobLinksUser.ts:74-85 | no listing before the run's first offset is examined |
| JobSearch.RunExaminesInOrder | fetch/fetchJobLinksUser.ts:73-110 | listings are examined page by page in request order, and by index within a page |
| JobSearch.RunPostings | fetch/fetchJobLinksUser.ts:97-107 | a posting is yielded iff some examined listing qualifies and has that link, title and company |
| JobSearch.RunPostingsInOrder | fetch/fetchJobLinksUser.ts:85-104 | the postings of a run are, in order, one per qualifying examined listing, in the order the listings were examined |
| JobSearch.QualifyingPostingsPage | fetch/fetchJobLinksUser.ts:85-104 | the postings of one page are those of its qualifying listings among the first `n`, in index order |
| JobSearch.RunPostingsSound | fetch/fetchJobLinksUser.ts:101-103 | every yielded posting comes from an examined listing that qualifies |
| JobSearch.RunPostingsComplete | fetch/fetchJobLinksUser.ts:101-107 | no examined qualifying listing is left unyielded |
| JobSearch.MatchesAheadOfSeenWithinPage | fetch/fetchJobLinksUser.ts:85-110 | inside a page, at a yield, `numMatchingJobs` can exceed `numSeenJobs`, by up to `MAX_PAGE_SIZE`: with two qualifying listings on the first page the yields come at counts 1 and 2 while `numSeenJobs` is 0, because `numSeenJobs` grows only after the page |
| JobSearch.TwoMatchesThenEmptyPage | fetch/fetchJobLinksUser.ts:73-112 | two qualifying listings on page one followed by an empty page: both are yielded in order, requests go to starts 0 and 2, and two listings are seen |
| JsStrings.TrimStartShape | apply/index.ts:18 | `trim` removes only leading white space, up to the first other character |
| JsStrings.TrimEndShape | apply/index.ts:18 | `trim` removes only trailing white space, back to the last other character |
| JsStrings.TrimShape | apply/index.ts:18 | `trim` keeps the slice of the text between its leading and trailing white space, and that slice starts and ends with a non-space |
| JsStrings.ToLowerShape | apply/index.ts:18 | `toLowerCase` leaves no upper-case ASCII letter: each becomes the matching lower-case letter, and every other character is kept |
| JsStrings.IncludesOccurs | apply/index.ts:18 | `includes(t)` holds iff `t` occurs in the text at some index |
| EasyApply.FindEasyApplyButton | apply/index.ts:16-19 | `find` returns the first button whose text passes the test, with none before it passing; it returns nothing iff no button passes |
| EasyApply.ClickEasyApplyButton | apply/index.ts:10-26 | it times out iff no button matching the Easy Apply selector appears; it clicks exactly the button `find` chose; it throws "not found" iff a button appeared but no text passes the test |
| EasyApply.PaddedMixedCaseMatches | apply/index.ts:18 | text with surrounding spaces and mixed case ("  Easy Apply ") passes the test |
| EasyApply.OtherTextFails | apply/index.ts:18 | other text ("Save") fails the test |
| EasyApply.FirstMatchingButtonChosen | apply/index.ts:16-19 | buttons without text or with other text are passed over, and the first passing one is chosen over a later one |
| EasyApply.RoundsShape | apply/index.ts:63-69 | `n` loop iterations attempt fill, next and wait-for-no-error in that order every time, whatever failed before: `3n` attempts and nothing else |
| EasyApply.RunFillLoop | apply/index.ts:61-69 | `while (maxPages--)` from 5 runs its body exactly five times, and leaves `maxPages` at -1 |
| EasyApply.RoundsNeverSubmit | apply/index.ts:63-69 | the form loop never clicks submit |
| EasyApply.CompleteForm | apply/index.ts:61-80 | after the form loop the submit button is looked up; a missing button raises "Submit button not found"; otherwise it is clicked iff `shouldSubmit`, last and only once, and a click error propagates |
| EasyApply.Apply | apply/index.ts:48-81 | navigation comes first and its error propagates; a failed Easy Apply click returns normally after navigation alone; otherwise the trace is navigate, the chosen button, five form rounds, the submit lookup, then the submit click iff the button exists and `shouldSubmit` holds; a missing submit button is an error |

## Left out

- `getJobSearchMetadata` (fetch/fetchJobLinksUser.ts:11-34) drives the search form in the browser. Its two results, `geoId` and `numAvailableJobs`, are parameters of `JobSearch.FetchJobLinksUser`. A `parseInt` that gives `NaN` makes `numSeenJobs < numAvailableJobs` false, just as any value `<= 0` does, so the model covers it with the integers `<= 0`.
- Regular expressions: `new RegExp(jobTitle, 'i').test(title)` and the description test are per-listing booleans (`titleMatches`, `descMatches`). A pattern that fails to compile (thrown before the loop) is not modelled.
- Language detection is an oracle, `detectedLang`. `None` stands for a detector that returns no candidate, where `[0][0]` throws and the listing is skipped.
- `buildUrl` and `URLSearchParams` are not modelled: the URL encoding and the order of the query parameters are left out. A request is modelled as a map from parameter name to value.
- The async generator's suspension and interleaving with its consumer are not modelled: yields become an output sequence in yield order.
- Not modelled: waits, timeouts as durations, and console logging. Timeouts appear only as the failure they cause.
- Inside the discovery loop, a failure of `page.goto` or `page.$$` would end the generator with an exception. It is not modelled: every page request is taken to succeed.
- The side effect of clicking each listing's link is not modelled. Nor are the individual browser calls for a listing: they are collapsed into one `fails` flag, and any of them throwing skips the listing.
- JsStrings.ToLowerShape: states that non-ASCII characters are kept, whereas `toLowerCase` also maps non-ASCII upper-case letters (some to longer strings). `JsStrings.ToLower` maps only the ASCII letters. No other character lower-cases to a letter of "easy apply", so whether "easy apply" occurs is the same either way.
- `fillFields`, `clickNextButton` and `waitForNoError` are not modelled beyond their outcome: each call is a step that succeeds or fails, per iteration, and the failure is swallowed. The form data they use is not modelled.
- Selectors are not modelled. The buttons matching the Easy Apply selector, enabled or not, are given as the text content of each (`None` for null); clicking a disabled one does nothing in the browser, and `apply` then goes on into the form loop as after any click.
- `page.evaluate` failing for a reason other than "button not found" is not modelled. It would end the same way, with a quiet return.
- `page.$(submitApplication)` throwing is not modelled: the lookup either finds the button or does not.
