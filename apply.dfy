/**
 * The application state machine `apply` and its Easy Apply button choice
 * `clickEasyApplyButton` (apply/index.ts).
 *
 * The browser is replaced by an oracle `Page`: whether navigation throws, whether a
 * button matching the Easy Apply selector (enabled or not) appears in time, the text
 * content of those buttons, whether each call of the three form steps fails, whether a
 * submit button is found and whether clicking it throws. The result is the trace of actions performed, in order,
 * and how `apply` ends.
 */
module EasyApply {
  import opened Wrappers
  import opened JsStrings

  // ---------------------------------------------------------------------------
  // clickEasyApplyButton
  // ---------------------------------------------------------------------------

  /**
   * The button test of `clickEasyApplyButton`: the text content is neither null nor
   * empty, and once trimmed and lower-cased it contains "easy apply".
   */
  predicate IsEasyApplyText(text: Option<string>) {
    text.Some? && text.value != "" && Includes(ToLower(Trim(text.value)), "easy apply")
  }

  /** `buttons.find(...)`: the index of the first button whose text passes the test, if any. */
  function FindEasyApplyButton(buttons: seq<Option<string>>): (r: Option<nat>)
    ensures r.Some? ==> r.value < |buttons| && IsEasyApplyText(buttons[r.value])
    ensures r.Some? ==> forall j :: 0 <= j < r.value ==> !IsEasyApplyText(buttons[j])
    ensures r.None? <==> forall j :: 0 <= j < |buttons| ==> !IsEasyApplyText(buttons[j])
  {
    FindFrom(buttons, 0)
  }

  /** The scan of `find` from index `from` on. */
  function FindFrom(buttons: seq<Option<string>>, from: nat): (r: Option<nat>)
    requires from <= |buttons|
    ensures r.Some? ==> from <= r.value < |buttons| && IsEasyApplyText(buttons[r.value])
    ensures r.Some? ==> forall j :: from <= j < r.value ==> !IsEasyApplyText(buttons[j])
    ensures r.None? <==> forall j :: from <= j < |buttons| ==> !IsEasyApplyText(buttons[j])
    decreases |buttons| - from
  {
    if from == |buttons| then None
    else if IsEasyApplyText(buttons[from]) then Some(from)
    else FindFrom(buttons, from + 1)
  }

  /** How `clickEasyApplyButton` ends. */
  datatype EasyApplyClick =
    | Clicked(button: nat) // the button at this index was clicked
    | TimedOut             // `waitForSelector` threw: no Easy Apply button within 10 s
    | NotFound             // no button passed the test: "Easy Apply button not found" was thrown

  /**
   * `clickEasyApplyButton`: wait for a button matching the Easy Apply selector, then click
   * the first such button, enabled or not, whose text passes the test, or throw when
   * there is none.
   */
  function ClickEasyApplyButton(buttonAppears: bool, buttons: seq<Option<string>>): (r: EasyApplyClick)
    ensures !buttonAppears <==> r == TimedOut
    ensures r.Clicked? ==> FindEasyApplyButton(buttons) == Some(r.button)
    ensures r == NotFound <==> buttonAppears && FindEasyApplyButton(buttons).None?
  {
    if !buttonAppears then TimedOut
    else match FindEasyApplyButton(buttons)
      case None => NotFound
      case Some(i) => Clicked(i)
  }

  // ---------------------------------------------------------------------------
  // apply
  // ---------------------------------------------------------------------------

  /** What the browser does during one call of `apply`. */
  datatype Page = Page(
    navigationError: Option<string>,  // `page.goto(link)` throws with this message
    easyApplyAppears: bool,           // a button matching the Easy Apply selector appears in time
    buttons: seq<Option<string>>,     // the text content of the buttons matching that selector
    fillFails: nat -> bool,           // `fillFields` rejects in fill-loop iteration k (from 0)
    nextFails: nat -> bool,           // `clickNextButton` rejects in iteration k
    waitFails: nat -> bool,           // `waitForNoError` rejects in iteration k
    submitPresent: bool,              // `page.$(submitApplication)` finds a button
    submitClickError: Option<string>) // clicking the submit button throws with this message

  /** One step of `apply`, with whether it succeeded where it may fail softly. */
  datatype Action =
    | Navigate(link: string)
    | ClickEasyApply(button: nat)
    | Fill(ok: bool)
    | Next(ok: bool)
    | WaitNoError(ok: bool)
    | FindSubmit(found: bool)
    | ClickSubmit

  /** How `apply` ends: its promise resolves, or it rejects with an error message. */
  datatype Outcome = Returned | Raised(message: string)

  /** The number of fill-loop iterations: `maxPages` starts at 5. */
  const MAX_PAGES: nat := 5

  /** The three attempts of fill-loop iteration `k`. */
  function Round(page: Page, k: nat): seq<Action> {
    [Fill(!page.fillFails(k)), Next(!page.nextFails(k)), WaitNoError(!page.waitFails(k))]
  }

  /** The attempts of the first `n` fill-loop iterations, in order. */
  function Rounds(page: Page, n: nat): seq<Action> {
    if n == 0 then [] else Rounds(page, n - 1) + Round(page, n - 1)
  }

  /**
   * Every iteration attempts fill, next and wait-for-no-error in that order, whatever
   * failed before: `n` iterations make exactly `3 * n` attempts, and nothing else.
   */
  lemma {:induction false} RoundsShape(page: Page, n: nat)
    ensures |Rounds(page, n)| == 3 * n
    ensures forall k :: 0 <= k < n ==>
      && Rounds(page, n)[3 * k] == Fill(!page.fillFails(k))
      && Rounds(page, n)[3 * k + 1] == Next(!page.nextFails(k))
      && Rounds(page, n)[3 * k + 2] == WaitNoError(!page.waitFails(k))
    ensures forall i :: 0 <= i < |Rounds(page, n)| ==>
      Rounds(page, n)[i].Fill? || Rounds(page, n)[i].Next? || Rounds(page, n)[i].WaitNoError?
  {
    if n > 0 {
      RoundsShape(page, n - 1);
      var before := Rounds(page, n - 1);
      assert Rounds(page, n) == before + Round(page, n - 1);
      forall k | 0 <= k < n
        ensures Rounds(page, n)[3 * k] == Fill(!page.fillFails(k))
        ensures Rounds(page, n)[3 * k + 1] == Next(!page.nextFails(k))
        ensures Rounds(page, n)[3 * k + 2] == WaitNoError(!page.waitFails(k))
      {
        if k < n - 1 {
          assert Rounds(page, n)[3 * k] == before[3 * k];
          assert Rounds(page, n)[3 * k + 1] == before[3 * k + 1];
          assert Rounds(page, n)[3 * k + 2] == before[3 * k + 2];
        }
      }
    }
  }

  /**
   * The fill loop `while (maxPages--)` with `maxPages` starting at 5: the body runs
   * exactly five times, each time attempting the three form steps and swallowing their
   * failures, and the post-decrement leaves `maxPages` at -1.
   */
  method RunFillLoop(page: Page) returns (actions: seq<Action>, maxPages: int)
    ensures actions == Rounds(page, MAX_PAGES)
    ensures maxPages == -1
  {
    actions := [];
    maxPages := MAX_PAGES;
    var round: nat := 0;
    // `maxPages--` yields the old value to the test and decrements in every case
    var going := maxPages != 0;
    maxPages := maxPages - 1;
    while going
      invariant going ==> 0 <= maxPages < MAX_PAGES && round == MAX_PAGES - 1 - maxPages
      invariant !going ==> maxPages == -1 && round == MAX_PAGES
      invariant actions == Rounds(page, round)
      decreases maxPages + 1
    {
      var filled := !page.fillFails(round);
      actions := actions + [Fill(filled)];
      var nextClicked := !page.nextFails(round);
      actions := actions + [Next(nextClicked)];
      var noError := !page.waitFails(round);
      actions := actions + [WaitNoError(noError)];
      round := round + 1;
      going := maxPages != 0;
      maxPages := maxPages - 1;
    }
  }

  /** The form steps never click the submit button. */
  lemma {:induction false} RoundsNeverSubmit(page: Page, n: nat)
    ensures ClickSubmit !in Rounds(page, n)
  {
    if n > 0 {
      RoundsNeverSubmit(page, n - 1);
    }
  }

  /** The message `apply` throws when no submit button is found after the fill loop. */
  const SUBMIT_NOT_FOUND: string := "Submit button not found"

  /** Navigation succeeded and the Easy Apply button was clicked, so the form is open. */
  predicate FormOpened(page: Page) {
    page.navigationError.None? && ClickEasyApplyButton(page.easyApplyAppears, page.buttons).Clicked?
  }

  /**
   * `apply`: navigate to the posting (a navigation error propagates); click the Easy
   * Apply button, returning quietly when that fails; then complete the form.
   */
  method Apply(link: string, shouldSubmit: bool, page: Page) returns (trace: seq<Action>, outcome: Outcome)
    // navigation is always the first action, and a navigation error is passed on
    ensures |trace| >= 1 && trace[0] == Navigate(link)
    ensures page.navigationError.Some? ==> trace == [Navigate(link)] && outcome == Raised(page.navigationError.value)
    // a failed Easy Apply activation ends the call normally, before any form step
    ensures page.navigationError.None? && !FormOpened(page) ==> trace == [Navigate(link)] && outcome == Returned
    // otherwise: the chosen button, the form rounds, the submit lookup and maybe the submit click
    ensures FormOpened(page) ==>
      trace == [Navigate(link), ClickEasyApply(ClickEasyApplyButton(page.easyApplyAppears, page.buttons).button)]
               + (Rounds(page, MAX_PAGES) + [FindSubmit(page.submitPresent)]
                  + (if page.submitPresent && shouldSubmit then [ClickSubmit] else []))
    // a missing submit button is an error
    ensures FormOpened(page) && !page.submitPresent ==> outcome == Raised(SUBMIT_NOT_FOUND)
    // the submit button is clicked exactly when the form opened, the button exists and `shouldSubmit` holds
    ensures ClickSubmit in trace <==> FormOpened(page) && page.submitPresent && shouldSubmit
    ensures ClickSubmit in trace ==> trace[|trace| - 1] == ClickSubmit && ClickSubmit !in trace[..|trace| - 1]
    ensures ClickSubmit in trace ==>
      outcome == if page.submitClickError.Some? then Raised(page.submitClickError.value) else Returned
    ensures FormOpened(page) && page.submitPresent && !shouldSubmit ==> outcome == Returned
  {
    trace := [Navigate(link)];
    if page.navigationError.Some? {
      outcome := Raised(page.navigationError.value);
      return;
    }

    var click := ClickEasyApplyButton(page.easyApplyAppears, page.buttons);
    if !click.Clicked? {
      outcome := Returned;
      return;
    }
    var steps;
    steps, outcome := CompleteForm(shouldSubmit, page);
    trace := [Navigate(link), ClickEasyApply(click.button)] + steps;
    assert trace[2..] == steps;
  }

  /**
   * The rest of `apply` once the form is open: the five form rounds, then the submit
   * lookup, throwing when the button is missing and clicking it only when `shouldSubmit`
   * holds.
   */
  method CompleteForm(shouldSubmit: bool, page: Page) returns (steps: seq<Action>, outcome: Outcome)
    ensures steps == Rounds(page, MAX_PAGES) + [FindSubmit(page.submitPresent)]
                     + (if page.submitPresent && shouldSubmit then [ClickSubmit] else [])
    ensures !page.submitPresent ==> outcome == Raised(SUBMIT_NOT_FOUND)
    ensures ClickSubmit in steps <==> page.submitPresent && shouldSubmit
    ensures ClickSubmit in steps ==> steps[|steps| - 1] == ClickSubmit && ClickSubmit !in steps[..|steps| - 1]
    ensures ClickSubmit in steps ==>
      outcome == if page.submitClickError.Some? then Raised(page.submitClickError.value) else Returned
    ensures page.submitPresent && !shouldSubmit ==> outcome == Returned
  {
    var rounds, maxPages := RunFillLoop(page);
    RoundsNeverSubmit(page, MAX_PAGES);
    var submitButton := page.submitPresent;
    steps := rounds + [FindSubmit(submitButton)];
    assert ClickSubmit !in steps;
    if !submitButton {
      outcome := Raised(SUBMIT_NOT_FOUND);
      return;
    }

    outcome := Returned;
    if shouldSubmit {
      ghost var before := steps;
      steps := steps + [ClickSubmit];
      assert steps[..|steps| - 1] == before;
      if page.submitClickError.Some? {
        outcome := Raised(page.submitClickError.value);
      }
    } else {
      assert steps + [] == steps;
    }
  }

  /** The test accepts surrounding white space and any letter case. */
  lemma PaddedMixedCaseMatches()
    ensures IsEasyApplyText(Some("  Easy Apply "))
  {
    TrimPadded();
    LowerEasyApply();
    var t := "easy apply";
    assert t[..|t|] == t;
  }

  lemma TrimPadded()
    ensures Trim("  Easy Apply ") == "Easy Apply"
  {
    TrimStartPadded();
    var e := "Easy Apply ";
    var f := e[..|e| - 1];
    assert IsWhiteSpace(e[|e| - 1]) && !IsWhiteSpace(f[|f| - 1]);
    TrimEndStep(e);
    TrimEndStep(f);
    assert f == "Easy Apply";
  }

  /** `TrimEnd` removes one trailing white-space character at a time and stops at the last other one. */
  lemma TrimEndStep(s: string)
    requires s != []
    ensures TrimEnd(s) == if IsWhiteSpace(s[|s| - 1]) then TrimEnd(s[..|s| - 1]) else s
  {
  }

  lemma TrimStartPadded()
    ensures TrimStart("  Easy Apply ") == "Easy Apply "
  {
    var s := "  Easy Apply ";
    var t := s[1..];
    var u := t[1..];
    assert IsWhiteSpace(s[0]) && IsWhiteSpace(t[0]) && !IsWhiteSpace(u[0]);
    TrimStartStep(s);
    TrimStartStep(t);
    assert u == "Easy Apply ";
  }

  /** `TrimStart` removes one leading white-space character at a time and stops at the first other one. */
  lemma TrimStartStep(s: string)
    requires s != []
    ensures TrimStart(s) == if IsWhiteSpace(s[0]) then TrimStart(s[1..]) else s
  {
  }

  lemma LowerEasyApply()
    ensures ToLower("Easy Apply") == "easy apply"
  {
  }

  /** A button with no text, or with other text, is passed over for a later Easy Apply button. */
  lemma FirstMatchingButtonChosen()
    ensures FindEasyApplyButton([None, Some("Save"), Some("  Easy Apply "), Some("easy apply")]) == Some(2)
  {
    var buttons := [None, Some("Save"), Some("  Easy Apply "), Some("easy apply")];
    OtherTextFails();
    PaddedMixedCaseMatches();
    assert FindFrom(buttons, 2) == Some(2);
    assert FindFrom(buttons, 1) == Some(2);
  }

  /** Text that is too short to hold "easy apply" fails the test. */
  lemma OtherTextFails()
    ensures !IsEasyApplyText(Some("Save"))
  {
    assert |ToLower(Trim("Save"))| <= 4 < |"easy apply"|;
  }
}
