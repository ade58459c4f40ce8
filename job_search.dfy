/**
 * The logged-in job discovery generator `fetchJobLinksUser`
 * (fetch/fetchJobLinksUser.ts).
 *
 * The browser is replaced by oracles: the search-result page served for a `start`
 * offset is a function `Site` from offset to the listing items on that page, and each
 * item carries what the browser steps would report about it (its link, title and
 * company, whether an Easy Apply button shows, whether the title and description
 * regular expressions match, the language detector's best guess, and whether one of
 * the per-item browser steps throws). The async generator becomes a method whose
 * yields are appended to an output sequence, in order.
 */
module JobSearch {
  import opened Wrappers
  import opened JsStrings

  /** How many listings of one result page are examined at most. */
  const MAX_PAGE_SIZE: nat := 2

  /** The workplace-type flags of the search. */
  datatype Workplace = Workplace(remote: bool, onSite: bool, hybrid: bool)

  /** One listing of a result page, as the browser steps would observe it. */
  datatype Item = Item(
    link: string,
    title: string,
    company: string,
    canApply: bool,               // a button matching the Easy Apply selector, enabled or not, is present
    titleMatches: bool,           // the job-title regular expression matches the title
    descMatches: bool,            // the job-description regular expression matches the text
    detectedLang: Option<string>, // the detector's best guess; None when it returns no candidate
    fails: bool)                  // a browser step for this listing throws

  /** A yielded job: `[link, title, companyName]`. */
  datatype Posting = Posting(link: string, title: string, company: string)

  /** The listings served for each value of the `start` parameter. */
  type Site = nat -> seq<Item>

  /** What examining one listing leads to. */
  datatype Examination = Yield(posting: Posting) | NoMatch | Failed

  // ---------------------------------------------------------------------------
  // Search parameters
  // ---------------------------------------------------------------------------

  /**
   * The codes `index + 1` of the set entries of `flags`, in ascending order
   * (`flags.map((selected, index) => selected ? index + 1 : null).filter(Boolean)`).
   */
  function SelectedCodes(flags: seq<bool>): (codes: seq<nat>)
    ensures forall k :: 0 <= k < |codes| ==> 1 <= codes[k] <= |flags|
    ensures forall k, l :: 0 <= k < l < |codes| ==> codes[k] < codes[l]
    ensures forall c: nat :: c in codes <==> 1 <= c <= |flags| && flags[c - 1]
  {
    if flags == [] then []
    else
      var front := flags[..|flags| - 1];
      SelectedCodes(front) + if flags[|flags| - 1] then [|flags|] else []
  }

  /** The `f_WT` filter: on-site is 1, remote 2, hybrid 3, comma-joined. */
  function WorkTypeFilter(w: Workplace): string {
    JoinNumbers(SelectedCodes([w.onSite, w.remote, w.hybrid]))
  }

  /**
   * The filter lists exactly the codes of the selected flags, ascending, and reads
   * back to them; it is empty exactly when no flag is selected.
   */
  lemma WorkTypeFilterCodes(w: Workplace)
    ensures var codes := ParseNumberList(WorkTypeFilter(w));
      && (forall k, l :: 0 <= k < l < |codes| ==> codes[k] < codes[l])
      && (1 in codes <==> w.onSite)
      && (2 in codes <==> w.remote)
      && (3 in codes <==> w.hybrid)
      && (forall c :: c in codes ==> 1 <= c <= 3)
    ensures WorkTypeFilter(w) == "" <==> !w.onSite && !w.remote && !w.hybrid
  {
    var codes := SelectedCodes([w.onSite, w.remote, w.hybrid]);
    ParseJoinNumbers(codes);
    if codes != [] {
      SplitJoinNumbers(codes);
    }
  }

  /** The query parameters of one result-page request (`searchParams` with `start` set). */
  function SearchParams(keywords: string, location: string, start: nat, workTypeFilter: string,
                        geoId: Option<string>): map<string, string>
  {
    var params := map["keywords" := keywords, "location" := location, "start" := NumberToString(start),
                      "f_WT" := workTypeFilter, "f_AL" := "true"];
    if geoId.Some? && geoId.value != "" then params["geoId" := geoId.value] else params
  }

  /**
   * A request carries `keywords`, `location`, `start`, `f_WT` and `f_AL` always, and
   * `geoId` only when it is neither null nor empty; its `start` reads back as the offset.
   */
  lemma SearchParamsShape(keywords: string, location: string, start: nat, workTypeFilter: string,
                          geoId: Option<string>)
    ensures var params := SearchParams(keywords, location, start, workTypeFilter, geoId);
      && params.Keys == {"keywords", "location", "start", "f_WT", "f_AL"}
                        + (if geoId.Some? && geoId.value != "" then {"geoId"} else {})
      && params["keywords"] == keywords && params["location"] == location
      && params["f_WT"] == workTypeFilter && params["f_AL"] == "true"
      && ("geoId" in params ==> params["geoId"] == geoId.value)
      && ParseNumberList(params["start"]) == [start]
  {
    ParseJoinNumbers([start]);
  }

  // ---------------------------------------------------------------------------
  // One listing
  // ---------------------------------------------------------------------------

  /**
   * The body of the per-listing `try`: a throwing browser step, or a detector that
   * returns no candidate (indexing `[0][0]` of an empty result throws), ends in
   * `Failed`; otherwise the listing is yielded when the four conditions hold.
   */
  function ExamineItem(item: Item, langs: seq<string>): Examination {
    if item.fails then Failed
    else match item.detectedLang
      case None => Failed
      case Some(lang) =>
        var matchesLanguage := "any" in langs || lang in langs;
        if item.canApply && item.titleMatches && item.descMatches && matchesLanguage
        then Yield(PostingOf(item))
        else NoMatch
  }

  /** The `[link, title, companyName]` triple of a listing. */
  function PostingOf(item: Item): Posting {
    Posting(item.link, item.title, item.company)
  }

  /** The yield rule: Easy Apply, title, description and language all match. */
  predicate Qualifies(item: Item, langs: seq<string>) {
    && !item.fails
    && item.detectedLang.Some?
    && item.canApply
    && item.titleMatches
    && item.descMatches
    && ("any" in langs || item.detectedLang.value in langs)
  }

  /** A listing is yielded, as its own link, title and company, exactly when it qualifies. */
  lemma ExamineItemYields(item: Item, langs: seq<string>)
    ensures ExamineItem(item, langs).Yield? <==> Qualifies(item, langs)
    ensures ExamineItem(item, langs).Yield? ==> ExamineItem(item, langs).posting == PostingOf(item)
  {
  }

  // ---------------------------------------------------------------------------
  // The whole run, as a specification
  // ---------------------------------------------------------------------------

  /** How many listings of a page of `n` are examined. */
  function Cap(n: nat): (c: nat)
    ensures c <= n && c <= MAX_PAGE_SIZE
    ensures c == n || c == MAX_PAGE_SIZE
  {
    if n < MAX_PAGE_SIZE then n else MAX_PAGE_SIZE
  }

  /** The postings yielded by examining the first `n` listings of `page`, in order. */
  function PagePostings(page: seq<Item>, langs: seq<string>, n: nat): seq<Posting>
    requires n <= |page|
  {
    if n == 0 then []
    else
      PagePostings(page, langs, n - 1) +
      match ExamineItem(page[n - 1], langs)
      case Yield(p) => [p]
      case _ => []
  }

  /** The positions `(start, i)` of the first `n` listings of the page at `start`. */
  function PageExamined(start: nat, n: nat): seq<(nat, nat)> {
    if n == 0 then [] else PageExamined(start, n - 1) + [(start, n - 1)]
  }

  /** The `i`-th examined position of the page at `start` is `(start, i)`. */
  lemma {:induction false} PageExaminedAt(start: nat, n: nat)
    ensures |PageExamined(start, n)| == n
    ensures forall i :: 0 <= i < n ==> PageExamined(start, n)[i] == (start, i)
  {
    if n > 0 {
      PageExaminedAt(start, n - 1);
    }
  }

  /**
   * What a run from `seen` observably does: the `start` of every page request, the
   * listings examined, the postings yielded, and the final count of seen listings.
   */
  datatype Trace = Trace(starts: seq<nat>, examined: seq<(nat, nat)>, postings: seq<Posting>, seen: nat)

  /**
   * The paging loop from `seen` on: while fewer than `available` listings have been
   * seen, request the page at `start = seen`; an empty page ends the run; otherwise
   * examine its first `Cap` listings and move on by the whole page length.
   */
  function Run(site: Site, available: int, langs: seq<string>, seen: nat): Trace
    decreases if seen < available then available - seen else 0
  {
    if available <= seen then Trace([], [], [], seen)
    else
      var page := site(seen);
      if |page| == 0 then Trace([seen], [], [], seen)
      else
        var rest := Run(site, available, langs, seen + |page|);
        Trace([seen] + rest.starts,
              PageExamined(seen, Cap(|page|)) + rest.examined,
              PagePostings(page, langs, Cap(|page|)) + rest.postings,
              rest.seen)
  }

  /** At most one posting per examined listing. */
  lemma {:induction false} PagePostingsBound(page: seq<Item>, langs: seq<string>, n: nat)
    requires n <= |page|
    ensures |PagePostings(page, langs, n)| <= n
  {
    if n > 0 {
      PagePostingsBound(page, langs, n - 1);
    }
  }

  /** A posting of a page comes from one of its first `n` listings, and every such listing that qualifies is yielded. */
  lemma {:induction false} PagePostingsIff(page: seq<Item>, langs: seq<string>, n: nat, p: Posting)
    requires n <= |page|
    ensures p in PagePostings(page, langs, n) <==> exists i :: 0 <= i < n && ExamineItem(page[i], langs) == Yield(p)
  {
    if n > 0 {
      PagePostingsIff(page, langs, n - 1, p);
      if ExamineItem(page[n - 1], langs) == Yield(p) {
        assert p in PagePostings(page, langs, n);
      }
    }
  }

  /** One step of the run: a non-empty page in range, followed by the run from the next offset. */
  lemma RunUnfold(site: Site, available: int, langs: seq<string>, seen: nat, t: Trace)
    requires t == Run(site, available, langs, seen)
    requires seen < available && |site(seen)| > 0
    ensures t.starts == [seen] + Run(site, available, langs, seen + |site(seen)|).starts
    ensures t.examined == PageExamined(seen, Cap(|site(seen)|)) + Run(site, available, langs, seen + |site(seen)|).examined
    ensures t.postings == PagePostings(site(seen), langs, Cap(|site(seen)|)) + Run(site, available, langs, seen + |site(seen)|).postings
    ensures t.seen == Run(site, available, langs, seen + |site(seen)|).seen
  {
  }

  /** Seen listings only grow, and the postings of a run never outnumber the listings it sees. */
  lemma {:induction false} RunCounts(site: Site, available: int, langs: seq<string>, seen: nat, t: Trace)
    requires t == Run(site, available, langs, seen)
    ensures t.seen >= seen && |t.postings| <= t.seen - seen
    decreases if seen < available then available - seen else 0
  {
    if seen < available && |site(seen)| > 0 {
      var page := site(seen);
      RunUnfold(site, available, langs, seen, t);
      RunCounts(site, available, langs, seen + |page|, Run(site, available, langs, seen + |page|));
      PagePostingsBound(page, langs, Cap(|page|));
    }
  }

  /**
   * Each start after the first is the previous start plus the length of the page
   * served there, and that page was not empty.
   */
  predicate Chained(site: Site, starts: seq<nat>)
    decreases |starts|
  {
    |starts| <= 1 ||
    (|site(starts[0])| > 0 && starts[1] == starts[0] + |site(starts[0])| && Chained(site, starts[1..]))
  }

  /** `Chained` read at one index. */
  lemma {:induction false} ChainedAt(site: Site, starts: seq<nat>, k: nat)
    requires Chained(site, starts) && 0 < k < |starts|
    ensures |site(starts[k - 1])| > 0 && starts[k] == starts[k - 1] + |site(starts[k - 1])|
  {
    if k > 1 {
      ChainedAt(site, starts[1..], k - 1);
    }
  }

  /**
   * The requests of a run: the first is at `start = seen`, each next one is at the
   * previous start plus the length of the (non-empty) page served there, so the
   * starts strictly increase, and every start lies in `[seen, available)`.
   */
  lemma {:induction false} RunStarts(site: Site, available: int, langs: seq<string>, seen: nat, t: Trace)
    requires t == Run(site, available, langs, seen)
    ensures |t.starts| > 0 ==> t.starts[0] == seen
    ensures forall k :: 0 <= k < |t.starts| ==> seen <= t.starts[k] < available
    ensures Chained(site, t.starts)
    decreases if seen < available then available - seen else 0
  {
    if seen < available && |site(seen)| > 0 {
      var page := site(seen);
      var rest := Run(site, available, langs, seen + |page|);
      RunUnfold(site, available, langs, seen, t);
      RunStarts(site, available, langs, seen + |page|, rest);
      assert t.starts[1..] == rest.starts;
    }
  }

  /**
   * How a run ends: with no request at all when `seen >= available`; otherwise at
   * the first empty page (and then `seen` stays at that page's start), or once the
   * seen count reaches `available`.
   */
  lemma {:induction false} RunEnds(site: Site, available: int, langs: seq<string>, seen: nat, t: Trace)
    requires t == Run(site, available, langs, seen)
    ensures t.starts == [] <==> available <= seen
    ensures t.starts == [] ==> t.seen == seen && t.postings == [] && t.examined == []
    ensures t.starts != [] && site(t.starts[|t.starts| - 1]) == [] ==> t.seen == t.starts[|t.starts| - 1]
    ensures t.starts != [] && site(t.starts[|t.starts| - 1]) != [] ==> available <= t.seen
    decreases if seen < available then available - seen else 0
  {
    if seen < available && |site(seen)| > 0 {
      var page := site(seen);
      var rest := Run(site, available, langs, seen + |page|);
      RunUnfold(site, available, langs, seen, t);
      RunEnds(site, available, langs, seen + |page|, rest);
      if rest.starts != [] {
        assert t.starts[|t.starts| - 1] == rest.starts[|rest.starts| - 1];
      }
    }
  }

  /**
   * Only the first `min(length, MAX_PAGE_SIZE)` listings of a requested page are
   * examined: every examined position `(start, i)` is on a requested page, below the cap.
   */
  lemma {:induction false} RunExaminesOnlyCapped(site: Site, available: int, langs: seq<string>, seen: nat, t: Trace)
    requires t == Run(site, available, langs, seen)
    ensures forall k :: 0 <= k < |t.examined| ==>
      t.examined[k].0 in t.starts && t.examined[k].1 < Cap(|site(t.examined[k].0)|)
    decreases if seen < available then available - seen else 0
  {
    if seen < available && |site(seen)| > 0 {
      var page := site(seen);
      var n := Cap(|page|);
      var rest := Run(site, available, langs, seen + |page|);
      RunUnfold(site, available, langs, seen, t);
      RunExaminesOnlyCapped(site, available, langs, seen + |page|, rest);
      var here := PageExamined(seen, n);
      PageExaminedAt(seen, n);
      assert t.starts[0] == seen;
      forall k | 0 <= k < |t.examined|
        ensures t.examined[k].0 in t.starts && t.examined[k].1 < Cap(|site(t.examined[k].0)|)
      {
        if k < n {
          assert t.examined[k] == here[k] == (seen, k);
        } else {
          var e := rest.examined[k - n];
          assert t.examined[k] == e;
          assert e.0 in rest.starts;
          assert e.0 in t.starts by {
            var j :| 0 <= j < |rest.starts| && rest.starts[j] == e.0;
            assert t.starts[j + 1] == rest.starts[j];
          }
        }
      }
    }
  }

  /** No position before the run's first offset is examined. */
  lemma {:induction false} RunExaminesFrom(site: Site, available: int, langs: seq<string>, seen: nat, t: Trace)
    requires t == Run(site, available, langs, seen)
    ensures forall k :: 0 <= k < |t.examined| ==> seen <= t.examined[k].0
    decreases if seen < available then available - seen else 0
  {
    if seen < available && |site(seen)| > 0 {
      var page := site(seen);
      var n := Cap(|page|);
      var rest := Run(site, available, langs, seen + |page|);
      RunUnfold(site, available, langs, seen, t);
      RunExaminesFrom(site, available, langs, seen + |page|, rest);
      forall k | 0 <= k < |t.examined| ensures seen <= t.examined[k].0 {
        PageExaminedAt(seen, n);
        if k < n {
          assert t.examined[k] == (seen, k);
        } else {
          assert t.examined[k] == rest.examined[k - n];
        }
      }
    }
  }

  /** All of the first `min(length, MAX_PAGE_SIZE)` listings of every requested page are examined. */
  lemma {:induction false} RunExaminesAllCapped(site: Site, available: int, langs: seq<string>, seen: nat, t: Trace)
    requires t == Run(site, available, langs, seen)
    ensures forall s, i: nat :: s in t.starts && i < Cap(|site(s)|) ==> (s, i) in t.examined
    decreases if seen < available then available - seen else 0
  {
    if seen < available && |site(seen)| > 0 {
      var page := site(seen);
      var n := Cap(|page|);
      var rest := Run(site, available, langs, seen + |page|);
      RunUnfold(site, available, langs, seen, t);
      RunExaminesAllCapped(site, available, langs, seen + |page|, rest);
      var here := PageExamined(seen, n);
      forall s, i: nat | s in t.starts && i < Cap(|site(s)|) ensures (s, i) in t.examined {
        if s == seen {
          PageExaminedAt(seen, n);
          assert here[i] == (s, i);
        } else {
          assert s in rest.starts;
        }
      }
    }
  }

  /** Position `a` is examined before position `b`: an earlier page, or the same page and a lower index. */
  predicate Before(a: (nat, nat), b: (nat, nat)) {
    a.0 < b.0 || (a.0 == b.0 && a.1 < b.1)
  }

  /** The positions of `es` come one after another. */
  predicate InOrder(es: seq<(nat, nat)>) {
    forall a, b :: 0 <= a < b < |es| ==> Before(es[a], es[b])
  }

  lemma InOrderConcat(xs: seq<(nat, nat)>, ys: seq<(nat, nat)>)
    requires InOrder(xs) && InOrder(ys)
    requires forall a, b :: 0 <= a < |xs| && 0 <= b < |ys| ==> Before(xs[a], ys[b])
    ensures InOrder(xs + ys)
  {
    var zs := xs + ys;
    forall a, b | 0 <= a < b < |zs| ensures Before(zs[a], zs[b]) {
      if b < |xs| {
        assert zs[a] == xs[a] && zs[b] == xs[b];
      } else if a < |xs| {
        assert zs[a] == xs[a] && zs[b] == ys[b - |xs|];
      } else {
        assert zs[a] == ys[a - |xs|] && zs[b] == ys[b - |xs|];
      }
    }
  }

  /** Listings are examined page by page in request order, and in index order within a page. */
  lemma {:induction false} RunExaminesInOrder(site: Site, available: int, langs: seq<string>, seen: nat, t: Trace)
    requires t == Run(site, available, langs, seen)
    ensures InOrder(t.examined)
    decreases if seen < available then available - seen else 0
  {
    if seen < available && |site(seen)| > 0 {
      var page := site(seen);
      var n := Cap(|page|);
      var rest := Run(site, available, langs, seen + |page|);
      RunUnfold(site, available, langs, seen, t);
      RunExaminesInOrder(site, available, langs, seen + |page|, rest);
      RunExaminesFrom(site, available, langs, seen + |page|, rest);
      var here := PageExamined(seen, n);
      PageExaminedAt(seen, n);
      forall a, b | 0 <= a < |here| && 0 <= b < |rest.examined| ensures Before(here[a], rest.examined[b]) {
        assert here[a].0 == seen && rest.examined[b].0 >= seen + |page|;
      }
      InOrderConcat(here, rest.examined);
    }
  }

  /** The listing at position `e` qualifies and is posted as `p`. */
  predicate YieldsAt(site: Site, langs: seq<string>, e: (nat, nat), p: Posting) {
    e.1 < |site(e.0)| && Qualifies(site(e.0)[e.1], langs) && p == PostingOf(site(e.0)[e.1])
  }

  /**
   * The yield rule over a whole run: a posting is yielded exactly when some examined
   * listing qualifies and has that link, title and company.
   */
  lemma RunPostings(site: Site, available: int, langs: seq<string>, seen: nat, t: Trace, p: Posting)
    requires t == Run(site, available, langs, seen)
    ensures p in t.postings <==> exists k :: 0 <= k < |t.examined| && YieldsAt(site, langs, t.examined[k], p)
  {
    if p in t.postings {
      RunPostingsSound(site, available, langs, seen, t, p);
    } else {
      RunPostingsComplete(site, available, langs, seen, t, p);
    }
  }

  /** Every yielded posting comes from an examined listing that qualifies. */
  lemma {:induction false} RunPostingsSound(site: Site, available: int, langs: seq<string>, seen: nat, t: Trace, p: Posting)
    requires t == Run(site, available, langs, seen)
    requires p in t.postings
    ensures exists k :: 0 <= k < |t.examined| && YieldsAt(site, langs, t.examined[k], p)
    decreases if seen < available then available - seen else 0
  {
    var page := site(seen);
    var n := Cap(|page|);
    var rest := Run(site, available, langs, seen + |page|);
    assert seen < available && |page| > 0;
    RunUnfold(site, available, langs, seen, t);
    if p in PagePostings(page, langs, n) {
      var i := PageWitness(page, langs, n, p);
      assert t.examined[i] == (seen, i) by {
        PageExaminedAt(seen, n);
      }
      assert YieldsAt(site, langs, t.examined[i], p) by {
        ExamineItemYields(page[i], langs);
      }
    } else {
      RunPostingsSound(site, available, langs, seen + |page|, rest, p);
      var k :| 0 <= k < |rest.examined| && YieldsAt(site, langs, rest.examined[k], p);
      assert t.examined[k + n] == rest.examined[k] by {
        PageExaminedAt(seen, n);
      }
    }
  }

  /** The index of a listing of the page that yields `p`. */
  lemma PageWitness(page: seq<Item>, langs: seq<string>, n: nat, p: Posting) returns (i: nat)
    requires n <= |page| && p in PagePostings(page, langs, n)
    ensures i < n && ExamineItem(page[i], langs) == Yield(p)
  {
    PagePostingsIff(page, langs, n, p);
    i :| 0 <= i < n && ExamineItem(page[i], langs) == Yield(p);
  }

  /** Every examined listing that qualifies is yielded. */
  lemma {:induction false} RunPostingsComplete(site: Site, available: int, langs: seq<string>, seen: nat, t: Trace, p: Posting)
    requires t == Run(site, available, langs, seen)
    requires p !in t.postings
    ensures forall k :: 0 <= k < |t.examined| ==> !YieldsAt(site, langs, t.examined[k], p)
    decreases if seen < available then available - seen else 0
  {
    if seen < available && |site(seen)| > 0 {
      var page := site(seen);
      var n := Cap(|page|);
      var rest := Run(site, available, langs, seen + |page|);
      RunUnfold(site, available, langs, seen, t);
      RunPostingsComplete(site, available, langs, seen + |page|, rest, p);
      forall k | 0 <= k < |t.examined| ensures !YieldsAt(site, langs, t.examined[k], p) {
        PageExaminedAt(seen, n);
        if k < n {
          assert t.examined[k] == (seen, k);
          PagePostingsIff(page, langs, n, p);
          ExamineItemYields(page[k], langs);
        } else {
          assert t.examined[k] == rest.examined[k - n];
        }
      }
    }
  }

  /** The postings of the qualifying listings at positions `es`, in the order of `es`. */
  function QualifyingPostings(site: Site, langs: seq<string>, es: seq<(nat, nat)>): seq<Posting> {
    if es == [] then []
    else
      var e := es[|es| - 1];
      QualifyingPostings(site, langs, es[..|es| - 1])
      + if e.1 < |site(e.0)| && Qualifies(site(e.0)[e.1], langs) then [PostingOf(site(e.0)[e.1])] else []
  }

  lemma {:induction false} QualifyingPostingsConcat(site: Site, langs: seq<string>, xs: seq<(nat, nat)>, ys: seq<(nat, nat)>)
    ensures QualifyingPostings(site, langs, xs + ys)
         == QualifyingPostings(site, langs, xs) + QualifyingPostings(site, langs, ys)
    decreases |ys|
  {
    if ys == [] {
      assert xs + ys == xs;
    } else {
      var zs := xs + ys;
      var front := ys[..|ys| - 1];
      assert zs[..|zs| - 1] == xs + front;
      assert zs[|zs| - 1] == ys[|ys| - 1];
      QualifyingPostingsConcat(site, langs, xs, front);
    }
  }

  /** On one page, the postings are those of its qualifying listings, in index order. */
  lemma {:induction false} QualifyingPostingsPage(site: Site, langs: seq<string>, start: nat, n: nat)
    requires n <= |site(start)|
    ensures QualifyingPostings(site, langs, PageExamined(start, n)) == PagePostings(site(start), langs, n)
  {
    if n > 0 {
      var page := site(start);
      var item := page[n - 1];
      var last: seq<Posting> := if Qualifies(item, langs) then [PostingOf(item)] else [];
      QualifyingPostingsPage(site, langs, start, n - 1);
      var es := PageExamined(start, n);
      assert es[..|es| - 1] == PageExamined(start, n - 1);
      assert es[|es| - 1] == (start, n - 1);
      assert QualifyingPostings(site, langs, es) == QualifyingPostings(site, langs, PageExamined(start, n - 1)) + last;
      ItemPostings(item, langs);
      assert PagePostings(page, langs, n) == PagePostings(page, langs, n - 1) + last;
    }
  }

  /** What examining one listing contributes to the postings: its triple when it qualifies, else nothing. */
  lemma ItemPostings(item: Item, langs: seq<string>)
    ensures (match ExamineItem(item, langs) case Yield(p) => [p] case _ => [])
         == if Qualifies(item, langs) then [PostingOf(item)] else []
  {
    ExamineItemYields(item, langs);
  }

  /**
   * The postings of a run are, in order, those of the qualifying listings in the order
   * they were examined: one posting per qualifying listing, even when two listings
   * carry the same link, title and company.
   */
  lemma {:induction false} RunPostingsInOrder(site: Site, available: int, langs: seq<string>, seen: nat, t: Trace)
    requires t == Run(site, available, langs, seen)
    ensures t.postings == QualifyingPostings(site, langs, t.examined)
    decreases if seen < available then available - seen else 0
  {
    if seen < available && |site(seen)| > 0 {
      var page := site(seen);
      var n := Cap(|page|);
      var rest := Run(site, available, langs, seen + |page|);
      RunUnfold(site, available, langs, seen, t);
      RunPostingsInOrder(site, available, langs, seen + |page|, rest);
      QualifyingPostingsConcat(site, langs, PageExamined(seen, n), rest.examined);
      QualifyingPostingsPage(site, langs, seen, n);
    }
  }

  /**
   * `numMatchingJobs <= numSeenJobs` holds at the head of every page, not at every
   * yield: `numSeenJobs` grows only after the page's listings are examined, so on a first
   * page of two qualifying listings the yields come with `numMatchingJobs` at 1 and then
   * 2 while `numSeenJobs` is still 0; within a page the lead is at most `MAX_PAGE_SIZE`.
   */
  lemma MatchesAheadOfSeenWithinPage(a: Item, b: Item, langs: seq<string>)
    requires Qualifies(a, langs) && Qualifies(b, langs)
    ensures |PagePostings([a, b], langs, 1)| == 1
    ensures |PagePostings([a, b], langs, 2)| == 2 == MAX_PAGE_SIZE
  {
    ExamineItemYields(a, langs);
    ExamineItemYields(b, langs);
    assert PagePostings([a, b], langs, 1) == [PostingOf(a)];
  }

  /**
   * The example run: a first page with two qualifying English listings and an
   * empty second page yields exactly those two, with two listings seen.
   */
  lemma TwoMatchesThenEmptyPage(a: Item, b: Item)
    requires Qualifies(a, ["english"]) && Qualifies(b, ["english"])
    ensures var site: Site := (start: nat) => if start == 0 then [a, b] else [];
      var t := Run(site, 10, ["english"], 0);
      && t.postings == [PostingOf(a), PostingOf(b)]
      && t.starts == [0, 2]
      && t.seen == 2
  {
    var site: Site := (start: nat) => if start == 0 then [a, b] else [];
    ExamineItemYields(a, ["english"]);
    ExamineItemYields(b, ["english"]);
    var pa, pb := PostingOf(a), PostingOf(b);
    assert PagePostings([a, b], ["english"], 1) == [pa];
    assert PagePostings([a, b], ["english"], 2) == [pa, pb];
    assert Run(site, 10, ["english"], 2) == Trace([2], [], [], 2);
    assert Run(site, 10, ["english"], 0) == Trace([0, 2], PageExamined(0, 2), [pa, pb], 2);
  }

  // ---------------------------------------------------------------------------
  // The generator
  // ---------------------------------------------------------------------------

  /**
   * `fetchJobLinksUser` after its one-time search setup, which supplies `geoId` and
   * `numAvailableJobs`. Returns the yielded postings in order, the parameters of every
   * result-page request in order, the listings examined, and the final counters.
   */
  method FetchJobLinksUser(site: Site, keywords: string, location: string, workplace: Workplace,
                           langs: seq<string>, geoId: Option<string>, numAvailableJobs: int)
    returns (postings: seq<Posting>, requests: seq<map<string, string>>, examined: seq<(nat, nat)>,
             numSeenJobs: nat, numMatchingJobs: nat)
    ensures var t := Run(site, numAvailableJobs, langs, 0);
      && postings == t.postings
      && examined == t.examined
      && numSeenJobs == t.seen
      && requests == Requests(keywords, location, t.starts, WorkTypeFilter(workplace), geoId)
    ensures numMatchingJobs == |postings| <= numSeenJobs
    ensures postings == QualifyingPostings(site, langs, examined)
    ensures numAvailableJobs <= 0 ==> requests == [] && postings == [] && numSeenJobs == 0
  {
    numSeenJobs := 0;
    numMatchingJobs := 0;
    postings, requests, examined := [], [], [];
    ghost var starts: seq<nat> := [];
    var workTypeFilter := WorkTypeFilter(workplace);
    var searchParams := SearchParams(keywords, location, numSeenJobs, workTypeFilter, geoId);
    ghost var lastStart: nat := 0;
    ghost var total := Continue(site, numAvailableJobs, langs, 0, Trace([], [], [], 0));

    while numSeenJobs < numAvailableJobs
      invariant total == Continue(site, numAvailableJobs, langs, numSeenJobs, Trace(starts, examined, postings, 0))
      invariant requests == Requests(keywords, location, starts, workTypeFilter, geoId)
      invariant numMatchingJobs == |postings| <= numSeenJobs
      invariant searchParams == SearchParams(keywords, location, lastStart, workTypeFilter, geoId)
      decreases numAvailableJobs - numSeenJobs
    {
      SetStart(keywords, location, lastStart, numSeenJobs, workTypeFilter, geoId);
      searchParams := searchParams["start" := NumberToString(numSeenJobs)];
      lastStart := numSeenJobs;
      RequestsSnoc(keywords, location, starts, numSeenJobs, workTypeFilter, geoId);
      requests := requests + [searchParams];

      ContinueStep(site, numAvailableJobs, langs, numSeenJobs, Trace(starts, examined, postings, 0));
      var jobListings := site(numSeenJobs);
      starts := starts + [numSeenJobs];
      if |jobListings| == 0 {
        assert total == Trace(starts, examined, postings, numSeenJobs);
        break;
      }
      postings, examined, numMatchingJobs := ExaminePage(jobListings, langs, numSeenJobs, postings, examined, numMatchingJobs);
      PagePostingsBound(jobListings, langs, Cap(|jobListings|));

      numSeenJobs := numSeenJobs + |jobListings|;
    }
    if numAvailableJobs <= numSeenJobs {
      ContinueDone(site, numAvailableJobs, langs, numSeenJobs, Trace(starts, examined, postings, 0));
    }
    assert total == Trace(starts, examined, postings, numSeenJobs);
    ContinueFromStart(site, numAvailableJobs, langs, total);
  }

  /** The loop's whole result is the run from 0, whose postings are those of its qualifying listings. */
  lemma ContinueFromStart(site: Site, available: int, langs: seq<string>, t: Trace)
    requires t == Continue(site, available, langs, 0, Trace([], [], [], 0))
    ensures t == Run(site, available, langs, 0)
    ensures t.postings == QualifyingPostings(site, langs, t.examined)
  {
    ContinueRun(site, available, langs, 0, Trace([], [], [], 0));
    ThenNothing(Run(site, available, langs, 0));
    RunPostingsInOrder(site, available, langs, 0, t);
  }

  /**
   * The inner loop of the generator over one non-empty page served at `start`: each of
   * the first `min(length, MAX_PAGE_SIZE)` listings is examined in order, and the ones
   * that qualify are appended to `postings` and counted.
   */
  method ExaminePage(jobListings: seq<Item>, langs: seq<string>, start: nat,
                     postings0: seq<Posting>, examined0: seq<(nat, nat)>, numMatchingJobs0: nat)
    returns (postings: seq<Posting>, examined: seq<(nat, nat)>, numMatchingJobs: nat)
    requires numMatchingJobs0 == |postings0|
    ensures postings == postings0 + PagePostings(jobListings, langs, Cap(|jobListings|))
    ensures examined == examined0 + PageExamined(start, Cap(|jobListings|))
    ensures numMatchingJobs == |postings|
  {
    postings, examined, numMatchingJobs := postings0, examined0, numMatchingJobs0;
    for i: nat := 0 to Cap(|jobListings|)
      invariant postings == postings0 + PagePostings(jobListings, langs, i)
      invariant examined == examined0 + PageExamined(start, i)
      invariant numMatchingJobs == |postings|
    {
      examined := examined + [(start, i)];
      match ExamineItem(jobListings[i], langs)
      case Yield(p) =>
        numMatchingJobs := numMatchingJobs + 1;
        postings := postings + [p];
      case NoMatch =>
      case Failed =>
    }
  }

  /** The parameters of the requests at each of `starts`, in order. */
  function Requests(keywords: string, location: string, starts: seq<nat>, workTypeFilter: string,
                    geoId: Option<string>): seq<map<string, string>>
  {
    seq(|starts|, k requires 0 <= k < |starts| => SearchParams(keywords, location, starts[k], workTypeFilter, geoId))
  }

  lemma RequestsSnoc(keywords: string, location: string, starts: seq<nat>, start: nat, workTypeFilter: string,
                     geoId: Option<string>)
    ensures Requests(keywords, location, starts + [start], workTypeFilter, geoId)
         == Requests(keywords, location, starts, workTypeFilter, geoId)
            + [SearchParams(keywords, location, start, workTypeFilter, geoId)]
  {
  }

  /** What has been done so far, followed by the rest of the run. */
  function Then(done: Trace, rest: Trace): Trace {
    Trace(done.starts + rest.starts, done.examined + rest.examined, done.postings + rest.postings, rest.seen)
  }

  /** The run from `seen` on, once `done` has been recorded: the shape of the generator's loop. */
  function Continue(site: Site, available: int, langs: seq<string>, seen: nat, done: Trace): Trace
    decreases if seen < available then available - seen else 0
  {
    if available <= seen then Trace(done.starts, done.examined, done.postings, seen)
    else
      var page := site(seen);
      if |page| == 0 then Trace(done.starts + [seen], done.examined, done.postings, seen)
      else
        Continue(site, available, langs, seen + |page|,
                 Trace(done.starts + [seen],
                       done.examined + PageExamined(seen, Cap(|page|)),
                       done.postings + PagePostings(page, langs, Cap(|page|)),
                       0))
  }

  /** One turn of the loop behind `Continue`: the page at `seen` is requested, and examined unless it is empty. */
  lemma ContinueStep(site: Site, available: int, langs: seq<string>, seen: nat, done: Trace)
    requires seen < available
    ensures Continue(site, available, langs, seen, done) ==
      if |site(seen)| == 0 then Trace(done.starts + [seen], done.examined, done.postings, seen)
      else Continue(site, available, langs, seen + |site(seen)|,
                    Trace(done.starts + [seen],
                          done.examined + PageExamined(seen, Cap(|site(seen)|)),
                          done.postings + PagePostings(site(seen), langs, Cap(|site(seen)|)),
                          0))
  {
  }

  /** Nothing done yet, followed by `rest`, is `rest`. */
  lemma ThenNothing(rest: Trace)
    ensures Then(Trace([], [], [], 0), rest) == rest
  {
    assert [] + rest.starts == rest.starts;
    assert [] + rest.examined == rest.examined;
    assert [] + rest.postings == rest.postings;
  }

  /** Once `available` listings have been seen, nothing more happens. */
  lemma ContinueDone(site: Site, available: int, langs: seq<string>, seen: nat, done: Trace)
    requires available <= seen
    ensures Continue(site, available, langs, seen, done) == Trace(done.starts, done.examined, done.postings, seen)
  {
  }

  /** Running on from `seen` after `done` is `done` followed by the run from `seen`. */
  lemma {:induction false} ContinueRun(site: Site, available: int, langs: seq<string>, seen: nat, done: Trace)
    ensures Continue(site, available, langs, seen, done) == Then(done, Run(site, available, langs, seen))
    decreases if seen < available then available - seen else 0
  {
    if seen < available && |site(seen)| > 0 {
      var page := site(seen);
      var n := Cap(|page|);
      var next := Run(site, available, langs, seen + |page|);
      ContinueRun(site, available, langs, seen + |page|,
                  Trace(done.starts + [seen], done.examined + PageExamined(seen, n),
                        done.postings + PagePostings(page, langs, n), 0));
      Associative(done.starts, [seen], next.starts);
      Associative(done.examined, PageExamined(seen, n), next.examined);
      Associative(done.postings, PagePostings(page, langs, n), next.postings);
    } else if seen < available {
      assert done.examined + [] == done.examined && done.postings + [] == done.postings;
    } else {
      assert done.starts + [] == done.starts;
      assert done.examined + [] == done.examined && done.postings + [] == done.postings;
    }
  }

  lemma Associative<T>(a: seq<T>, b: seq<T>, c: seq<T>)
    ensures a + (b + c) == (a + b) + c
  {
  }

  /** Moving the `start` parameter of a request to a new offset gives that offset's request. */
  lemma SetStart(keywords: string, location: string, previous: nat, start: nat,
                 workTypeFilter: string, geoId: Option<string>)
    ensures SearchParams(keywords, location, previous, workTypeFilter, geoId)["start" := NumberToString(start)]
         == SearchParams(keywords, location, start, workTypeFilter, geoId)
  {
  }
}
