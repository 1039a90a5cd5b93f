/** The course state machine of the current revision (`state` in
    src/internal/script.js): the one-second tick, `finalizePage`,
    `advancePage` with its last-page hand-off, `next`, `prev`,
    `checkCourseCompletion` and `calculateOverallGrade`, as pure functions
    from state to state. The DOM, the banner, logging, saving and the LMS
    calls are left out; what `handleLastPage` would report to the LMS is
    computed separately as an outcome. */
module Course {
  import opened Optional
  import opened Pages

  // ---------------------------------------------------------------------
  // JavaScript division and comparison

  /** A JavaScript number as a quotient of two finite reals can be. */
  datatype JsNumber = Finite(v: real) | PosInf | NegInf | NaN

  /** `a / b`: the exact quotient, or an infinity, or `NaN` for `0 / 0`. */
  function Divide(a: real, b: real): (r: JsNumber)
    ensures b != 0.0 ==> r.Finite? && r.v * b == a
    ensures r.NaN? <==> a == 0.0 && b == 0.0
  {
    if b != 0.0 then Finite(a / b)
    else if a > 0.0 then PosInf
    else if a < 0.0 then NegInf
    else NaN
  }

  /** `x <= n`: false whenever `n` is `NaN`. */
  predicate AtMost(x: real, n: JsNumber)
  {
    match n
    case Finite(v) => x <= v
    case PosInf => true
    case NegInf => false
    case NaN => false
  }

  /** `n < x`: false whenever `n` is `NaN`. */
  predicate Below(n: JsNumber, x: real)
  {
    match n
    case Finite(v) => v < x
    case PosInf => false
    case NegInf => true
    case NaN => false
  }

  // ---------------------------------------------------------------------
  // state

  /** `courseRules`. The course data may leave out any rule (or all of
      them): a missing threshold is `None`, and since JavaScript compares
      `undefined` as NaN, every comparison with it is false. A missing flag
      is `undefined`, which is falsy, so it is modelled as false. */
  datatype CourseRules = CourseRules(
    minimumMinutes: Option<real>,
    minimumGrade: Option<real>,      // a ratio between 0 and 1
    completeOnly: bool,
    studentsCanFail: bool)

  /** `state.data` plus the `initialized` flag. */
  datatype CourseState = CourseState(
    pages: seq<Page>,
    currentPageIndex: nat,
    progress: nat,           // the furthest page reached
    totalCourseSeconds: nat,
    rules: CourseRules,
    initialized: bool)

  /** There is a page, the current index names one, and progress counts
      at most every page. */
  predicate Valid(c: CourseState)
  {
    |c.pages| >= 1 && c.currentPageIndex < |c.pages| && c.progress <= |c.pages|
  }

  /** The state `init` starts from after `loadCourseData`: fresh pages,
      the first page, no progress, no time. */
  function Start(ds: seq<PageDefinition>, rules: CourseRules): (c: CourseState)
    requires |ds| >= 1
    ensures Valid(c) && c.initialized
    ensures forall i :: 0 <= i < |c.pages| ==> !c.pages[i].completed
  {
    CourseState(FreshPages(ds), 0, 0, 0, rules, true)
  }

  function CurrentPage(c: CourseState): Page
    requires Valid(c)
  {
    c.pages[c.currentPageIndex]
  }

  /** `c` with page `i` replaced. */
  function SetPage(c: CourseState, i: nat, p: Page): (r: CourseState)
    requires i < |c.pages|
    ensures |r.pages| == |c.pages|
  {
    c.(pages := c.pages[i := p])
  }

  // ---------------------------------------------------------------------
  // grade and course completion

  function EarnedScore(ps: seq<Page>): real
  {
    if |ps| == 0 then 0.0 else ps[0].score + EarnedScore(ps[1..])
  }

  function MaxScore(ps: seq<Page>): real
  {
    if |ps| == 0 then 0.0 else ps[0].maxScore + MaxScore(ps[1..])
  }

  datatype OverallGrade = OverallGrade(ratio: JsNumber, earnedScore: real, maxScore: real)

  /** `calculateOverallGrade()`: the sums of the page scores and maxima and
      their JavaScript quotient. */
  function CalculateOverallGrade(c: CourseState): (g: OverallGrade)
    ensures g.ratio.NaN? <==> g.earnedScore == 0.0 && g.maxScore == 0.0
    ensures g.maxScore != 0.0 ==> g.ratio == Finite(g.earnedScore / g.maxScore)
  {
    var earned := EarnedScore(c.pages);
    var max := MaxScore(c.pages);
    OverallGrade(Divide(earned, max), earned, max)
  }

  lemma {:induction false} NoScoresSumToZero(ps: seq<Page>)
    requires forall i :: 0 <= i < |ps| ==> ps[i].score == 0.0 && ps[i].maxScore == 0.0
    ensures EarnedScore(ps) == 0.0 && MaxScore(ps) == 0.0
  {
    if |ps| > 0 {
      assert forall i :: 0 <= i < |ps[1..]| ==> ps[1..][i] == ps[i + 1];
      NoScoresSumToZero(ps[1..]);
    }
  }

  /** `minimum <= ratio`, false for a missing minimum. */
  predicate MinimumMet(minimum: Option<real>, ratio: JsNumber)
  {
    minimum.Some? && AtMost(minimum.value, ratio)
  }

  /** `ratio < minimum`, false for a missing minimum. */
  predicate BelowMinimum(ratio: JsNumber, minimum: Option<real>)
  {
    minimum.Some? && Below(ratio, minimum.value)
  }

  predicate TimeMet(c: CourseState)
  {
    c.rules.minimumMinutes.Some? && c.rules.minimumMinutes.value * 60.0 <= c.totalCourseSeconds as real
  }

  predicate ScoreMet(c: CourseState)
  {
    MinimumMet(c.rules.minimumGrade, CalculateOverallGrade(c).ratio)
  }

  /** The time-and-grade gate of `checkCourseCompletion`. */
  predicate GateOpen(c: CourseState)
  {
    TimeMet(c) && (ScoreMet(c) || c.rules.studentsCanFail)
  }

  datatype Checked = Checked(state: CourseState, done: bool)

  /** `pages.every(p => p.completed)`. */
  predicate AllCompleted(ps: seq<Page>)
  {
    forall i :: 0 <= i < |ps| ==> ps[i].completed
  }

  /** `checkCourseCompletion()`: when the gate is open the last page is
      marked completed; the course is done when the gate is open and every
      page is completed. */
  function CheckCourseCompletion(c: CourseState): (r: Checked)
    requires Valid(c)
  {
    var last := |c.pages| - 1;
    var c1 := if GateOpen(c) then SetPage(c, last, c.pages[last].(completed := true)) else c;
    Checked(c1, GateOpen(c) && AllCompleted(c1.pages))
  }

  /** A course whose data leaves out the minimum time never completes, nor
      does one that leaves out the minimum grade without letting students
      fail; either way the last page is left as it was. */
  lemma MissingRuleNeverCompletes(c: CourseState)
    requires Valid(c)
    requires c.rules.minimumMinutes.None? || (c.rules.minimumGrade.None? && !c.rules.studentsCanFail)
    ensures !CheckCourseCompletion(c).done
    ensures CheckCourseCompletion(c).state == c
  {
  }

  /** Completing the last page is an effect of the gate, not a cause: the
      course is done exactly when the gate is open and every page but the
      last is completed; only the last page can change, and only to
      completed. */
  lemma CheckCourseCompletionSpec(c: CourseState)
    requires Valid(c)
    ensures var r := CheckCourseCompletion(c);
            r.done <==> GateOpen(c) && forall i :: 0 <= i < |c.pages| - 1 ==> c.pages[i].completed
    ensures var r := CheckCourseCompletion(c);
            r.state.currentPageIndex == c.currentPageIndex && r.state.progress == c.progress
            && |r.state.pages| == |c.pages|
            && (forall i :: 0 <= i < |c.pages| - 1 ==> r.state.pages[i] == c.pages[i])
            && r.state.pages[|c.pages| - 1].completed == (c.pages[|c.pages| - 1].completed || GateOpen(c))
  {
    var last := |c.pages| - 1;
    var r := CheckCourseCompletion(c);
    assert r.done == (GateOpen(c) && AllCompleted(r.state.pages));
    if GateOpen(c) {
      assert r.state.pages[last].completed;
      assert forall i :: 0 <= i < last ==> r.state.pages[i] == c.pages[i];
      if forall i :: 0 <= i < last ==> c.pages[i].completed {
        forall i | 0 <= i < |r.state.pages|
          ensures r.state.pages[i].completed
        {
          if i < last {
            assert c.pages[i].completed;
          }
        }
      }
      if r.done {
        forall i | 0 <= i < last
          ensures c.pages[i].completed
        {
          assert r.state.pages[i].completed;
        }
      }
    }
  }

  /** Marking a page completed changes neither score sum, so the gate is the
      same before and after the last page is marked. */
  lemma {:induction false} CompletionKeepsScores(ps: seq<Page>, i: nat)
    requires i < |ps|
    ensures EarnedScore(ps[i := ps[i].(completed := true)]) == EarnedScore(ps)
    ensures MaxScore(ps[i := ps[i].(completed := true)]) == MaxScore(ps)
  {
    if i > 0 {
      CompletionKeepsScores(ps[1..], i - 1);
      assert ps[i := ps[i].(completed := true)][1..] == ps[1..][i - 1 := ps[1..][i - 1].(completed := true)];
    }
  }

  /** Marking a page completed leaves the gate as it was. */
  lemma MarkingKeepsGate(c: CourseState, i: nat)
    requires i < |c.pages|
    ensures GateOpen(SetPage(c, i, c.pages[i].(completed := true))) == GateOpen(c)
  {
    CompletionKeepsScores(c.pages, i);
    assert CalculateOverallGrade(SetPage(c, i, c.pages[i].(completed := true))) == CalculateOverallGrade(c);
  }

  /** Checking twice is checking once. */
  lemma CheckCourseCompletionIdempotent(c: CourseState)
    requires Valid(c)
    ensures CheckCourseCompletion(CheckCourseCompletion(c).state) == CheckCourseCompletion(c)
  {
    var last := |c.pages| - 1;
    if GateOpen(c) {
      var c1 := CheckCourseCompletion(c).state;
      assert c1 == SetPage(c, last, c.pages[last].(completed := true));
      MarkingKeepsGate(c, last);
      assert c1.pages[last].(completed := true) == c1.pages[last];
      assert SetPage(c1, last, c1.pages[last].(completed := true)) == c1;
      assert GateOpen(c1);
      assert CheckCourseCompletion(c1) == Checked(c1, AllCompleted(c1.pages));
    }
  }

  /** A course whose pages carry no score at all has the grade `0 / 0`,
      `NaN`, which no minimum grade is at most: unless students may fail,
      such a course is never done. */
  lemma NoGradedPagesNeverComplete(c: CourseState)
    requires Valid(c) && !c.rules.studentsCanFail
    requires forall i :: 0 <= i < |c.pages| ==> c.pages[i].score == 0.0 && c.pages[i].maxScore == 0.0
    ensures CalculateOverallGrade(c).ratio == NaN
    ensures !CheckCourseCompletion(c).done
  {
    NoScoresSumToZero(c.pages);
  }

  // ---------------------------------------------------------------------
  // the last page

  /** What `handleLastPage` reports: a lesson status, or the restart it
      forces through `reset()`. */
  datatype Outcome = Status(value: string) | Restart

  /** The status choice of `handleLastPage`, as written. */
  function FinishStatus(rules: CourseRules, ratio: JsNumber): Outcome
  {
    if rules.completeOnly then Status("completed")
    else if rules.studentsCanFail then
      (if BelowMinimum(ratio, rules.minimumGrade) then Status("failed") else Status("passed"))
    else Restart
  }

  /** The status choice the restart message describes: restart only a
      student below the minimum grade who may not fail, and pass everyone
      else who reached the end. */
  function FinishStatusIntended(rules: CourseRules, ratio: JsNumber): Outcome
  {
    if rules.completeOnly then Status("completed")
    else if BelowMinimum(ratio, rules.minimumGrade) then
      (if rules.studentsCanFail then Status("failed") else Restart)
    else Status("passed")
  }

  datatype Handled = Handled(state: CourseState, outcome: Option<Outcome>)

  /** `handleLastPage()`: when the course is done, report the outcome and
      show the last page; otherwise nothing but the check's own effect. */
  function HandleLastPage(c: CourseState): (r: Handled)
    requires Valid(c)
  {
    var k := CheckCourseCompletion(c);
    if k.done then
      Handled(k.state.(currentPageIndex := |c.pages| - 1),
              Some(FinishStatus(c.rules, CalculateOverallGrade(k.state).ratio)))
    else Handled(k.state, None)
  }

  /** The same, with the intended status choice. */
  function HandleLastPageIntended(c: CourseState): (r: Handled)
    requires Valid(c)
  {
    var k := CheckCourseCompletion(c);
    if k.done then
      Handled(k.state.(currentPageIndex := |c.pages| - 1),
              Some(FinishStatusIntended(c.rules, CalculateOverallGrade(k.state).ratio)))
    else Handled(k.state, None)
  }

  lemma ScoreMetIsNotBelow(min: Option<real>, ratio: JsNumber)
    requires MinimumMet(min, ratio)
    ensures !BelowMinimum(ratio, min)
  {
  }

  /** As written, a course that is neither complete-only nor lets students
      fail restarts every student who reaches the end, and every such
      student has met the minimum grade. */
  lemma PassingStudentIsRestarted(c: CourseState)
    requires Valid(c) && !c.rules.completeOnly && !c.rules.studentsCanFail
    requires HandleLastPage(c).outcome.Some?
    ensures ScoreMet(c)
    ensures HandleLastPage(c).outcome == Some(Restart)
  {
  }

  /** With the intended choice, a student who reaches the end and is not in
      a complete-only course passes exactly when the grade is not below the
      minimum, and a student who met the minimum is never restarted. */
  lemma IntendedStatusFollowsGrade(c: CourseState)
    requires Valid(c) && !c.rules.completeOnly
    requires HandleLastPageIntended(c).outcome.Some?
    ensures var ratio := CalculateOverallGrade(c).ratio;
            HandleLastPageIntended(c).outcome == Some(Status("passed")) <==> !BelowMinimum(ratio, c.rules.minimumGrade)
    ensures ScoreMet(c) ==> HandleLastPageIntended(c).outcome == Some(Status("passed"))
  {
    var last := |c.pages| - 1;
    CheckCourseCompletionSpec(c);
    if GateOpen(c) {
      CompletionKeepsScores(c.pages, last);
    }
    if ScoreMet(c) {
      ScoreMetIsNotBelow(c.rules.minimumGrade, CalculateOverallGrade(c).ratio);
    }
  }

  // ---------------------------------------------------------------------
  // transitions

  /** `finalizePage()`: the current page becomes completed, and progress
      moves on by one, when the page is complete, is the frontier page, and
      is not completed yet. */
  function FinalizePage(c: CourseState): (r: CourseState)
    requires Valid(c)
    ensures Valid(r)
  {
    var i := c.currentPageIndex;
    var p := c.pages[i];
    if IsComplete(p) && i == c.progress && !p.completed then
      SetPage(c, i, p.(completed := true)).(progress := c.progress + 1)
    else c
  }

  /** `finalizePage` changes state only at the frontier: it then completes
      exactly the page at `progress` and advances `progress` by one. */
  lemma FinalizeOnlyAtFrontier(c: CourseState)
    requires Valid(c)
    ensures var r := FinalizePage(c);
            r != c <==> IsComplete(CurrentPage(c)) && c.currentPageIndex == c.progress && !CurrentPage(c).completed
    ensures var r := FinalizePage(c);
            r != c ==> c.progress < |c.pages| && r.progress == c.progress + 1
                       && r.pages == c.pages[c.progress := c.pages[c.progress].(completed := true)]
  {
    var r := FinalizePage(c);
    if IsComplete(CurrentPage(c)) && c.currentPageIndex == c.progress && !CurrentPage(c).completed {
      assert r.progress != c.progress;
    }
  }

  /** A second `finalizePage` is a no-op. */
  lemma FinalizeIdempotent(c: CourseState)
    requires Valid(c)
    ensures FinalizePage(FinalizePage(c)) == FinalizePage(c)
  {
  }

  /** The one-second timer: one more second in the course and on the
      current page, then `finalizePage`. */
  function Tick(c: CourseState): (r: CourseState)
    requires Valid(c)
    ensures Valid(r)
  {
    var i := c.currentPageIndex;
    var p := c.pages[i];
    FinalizePage(SetPage(c, i, p.(watchTime := p.watchTime + 1))
                   .(totalCourseSeconds := c.totalCourseSeconds + 1))
  }

  /** A tick adds one second to the course and to the current page, and
      touches no other page's watch time nor the current index. */
  lemma TickCounts(c: CourseState)
    requires Valid(c)
    ensures var r := Tick(c);
            r.totalCourseSeconds == c.totalCourseSeconds + 1
            && r.currentPageIndex == c.currentPageIndex
            && r.pages[c.currentPageIndex].watchTime == c.pages[c.currentPageIndex].watchTime + 1
            && forall k :: 0 <= k < |c.pages| && k != c.currentPageIndex ==> r.pages[k] == c.pages[k]
  {
  }

  /** `advancePage()`: from the second-to-last page, hand off to the last
      page only when the course is done; on the last page, nothing; from
      any other page, one page on. */
  function AdvancePage(c: CourseState): (r: CourseState)
    requires Valid(c)
    ensures Valid(r)
  {
    var last := |c.pages| - 1;
    if c.currentPageIndex == last - 1 then
      var k := CheckCourseCompletion(c);
      if k.done then HandleLastPage(k.state).state else k.state
    else if c.currentPageIndex == last then c
    else c.(currentPageIndex := c.currentPageIndex + 1)
  }

  /** Where `advancePage` leaves the index. */
  lemma AdvancePageIndex(c: CourseState)
    requires Valid(c)
    ensures var last := |c.pages| - 1;
            var r := AdvancePage(c);
            (c.currentPageIndex == last ==> r == c)
            && (c.currentPageIndex < last - 1 ==> r.currentPageIndex == c.currentPageIndex + 1)
            && (c.currentPageIndex == last - 1 ==>
                  r.currentPageIndex == (if CheckCourseCompletion(c).done then last else last - 1))
  {
    var last := |c.pages| - 1;
    if c.currentPageIndex == last - 1 {
      var k := CheckCourseCompletion(c);
      CheckCourseCompletionSpec(c);
      if k.done {
        CheckCourseCompletionIdempotent(c);
      }
    }
  }

  /** `next()`: refused before `init`; a page that is complete but not yet
      marked is marked completed (without moving `progress`) and the course
      advances; a completed page advances; otherwise nothing changes. */
  function Next(c: CourseState): (r: CourseState)
    requires Valid(c)
    ensures Valid(r)
    ensures !c.initialized ==> r == c
  {
    if !c.initialized then c
    else
      var i := c.currentPageIndex;
      var p := c.pages[i];
      if IsComplete(p) && !p.completed then AdvancePage(SetPage(c, i, p.(completed := true)))
      else if p.completed then AdvancePage(c)
      else c
  }

  /** Moving between pages never touches `progress`: only
      `finalizePage` does. */
  lemma AdvanceKeepsProgress(c: CourseState)
    requires Valid(c)
    ensures AdvancePage(c).progress == c.progress
    ensures |AdvancePage(c).pages| == |c.pages|
  {
    var last := |c.pages| - 1;
    if c.currentPageIndex == last - 1 {
      var k := CheckCourseCompletion(c);
      CheckCourseCompletionSpec(c);
      if k.done {
        CheckCourseCompletionSpec(k.state);
      }
    }
  }

  /** `next` marks a completable page completed but leaves `progress`
      where it was. */
  lemma NextKeepsProgress(c: CourseState)
    requires Valid(c)
    ensures Next(c).progress == c.progress
  {
    if c.initialized {
      var i := c.currentPageIndex;
      var p := c.pages[i];
      if IsComplete(p) && !p.completed {
        AdvanceKeepsProgress(SetPage(c, i, p.(completed := true)));
      } else if p.completed {
        AdvanceKeepsProgress(c);
      }
    }
  }

  /** `next` leaves an incomplete page only if it can complete it. */
  lemma NextStaysOnIncompletePage(c: CourseState)
    requires Valid(c) && !CurrentPage(c).completed && !IsComplete(CurrentPage(c))
    ensures Next(c) == c
  {
  }

  /** `prev()`: refused before `init`; one page back, never before the
      first. */
  function Prev(c: CourseState): (r: CourseState)
    requires Valid(c)
    ensures Valid(r)
  {
    if !c.initialized || c.currentPageIndex == 0 then c
    else c.(currentPageIndex := c.currentPageIndex - 1)
  }

  lemma PrevClamps(c: CourseState)
    requires Valid(c) && c.initialized
    ensures Prev(c).currentPageIndex == if c.currentPageIndex == 0 then 0 else c.currentPageIndex - 1
    ensures Prev(c).pages == c.pages && Prev(c).progress == c.progress
  {
  }

  // ---------------------------------------------------------------------
  // monotonicity

  /** Nothing is lost between two states: the same pages, no less
      progress, and every completed page still completed. */
  predicate Grows(c: CourseState, r: CourseState)
  {
    |r.pages| == |c.pages| && c.progress <= r.progress
    && forall k :: 0 <= k < |c.pages| && c.pages[k].completed ==> r.pages[k].completed
  }

  lemma GrowsTransitive(a: CourseState, b: CourseState, c: CourseState)
    requires Grows(a, b) && Grows(b, c)
    ensures Grows(a, c)
  {
  }

  lemma SetCompletedGrows(c: CourseState, i: nat)
    requires i < |c.pages|
    ensures Grows(c, SetPage(c, i, c.pages[i].(completed := true)))
  {
  }

  lemma FinalizeGrows(c: CourseState)
    requires Valid(c)
    ensures Grows(c, FinalizePage(c))
  {
    if FinalizePage(c) != c {
      SetCompletedGrows(c, c.currentPageIndex);
    }
  }

  lemma TickGrows(c: CourseState)
    requires Valid(c)
    ensures Grows(c, Tick(c))
  {
    var i := c.currentPageIndex;
    var p := c.pages[i];
    var c1 := SetPage(c, i, p.(watchTime := p.watchTime + 1)).(totalCourseSeconds := c.totalCourseSeconds + 1);
    assert Grows(c, c1);
    FinalizeGrows(c1);
  }

  lemma CheckGrows(c: CourseState)
    requires Valid(c)
    ensures Grows(c, CheckCourseCompletion(c).state)
  {
    CheckCourseCompletionSpec(c);
  }

  lemma AdvanceGrows(c: CourseState)
    requires Valid(c)
    ensures Grows(c, AdvancePage(c))
  {
    var last := |c.pages| - 1;
    if c.currentPageIndex == last - 1 {
      var k := CheckCourseCompletion(c);
      CheckGrows(c);
      if k.done {
        CheckGrows(k.state);
        GrowsTransitive(c, k.state, CheckCourseCompletion(k.state).state);
      }
    }
  }

  lemma NextGrows(c: CourseState)
    requires Valid(c)
    ensures Grows(c, Next(c))
  {
    if c.initialized {
      var i := c.currentPageIndex;
      var p := c.pages[i];
      if IsComplete(p) && !p.completed {
        var c1 := SetPage(c, i, p.(completed := true));
        SetCompletedGrows(c, i);
        AdvanceGrows(c1);
        GrowsTransitive(c, c1, AdvancePage(c1));
      } else if p.completed {
        AdvanceGrows(c);
      }
    }
  }

  /** The things a student or the timer can do. */
  datatype Action = TickAction | NextAction | PrevAction | CheckAction

  function Step(c: CourseState, a: Action): (r: CourseState)
    requires Valid(c)
    ensures Valid(r)
  {
    match a
    case TickAction => Tick(c)
    case NextAction => Next(c)
    case PrevAction => Prev(c)
    case CheckAction => CheckCourseCompletion(c).state
  }

  function Run(c: CourseState, actions: seq<Action>): (r: CourseState)
    requires Valid(c)
    ensures Valid(r)
    decreases |actions|
  {
    if |actions| == 0 then c else Run(Step(c, actions[0]), actions[1..])
  }

  lemma StepGrows(c: CourseState, a: Action)
    requires Valid(c)
    ensures Grows(c, Step(c, a))
  {
    match a
    case TickAction => TickGrows(c);
    case NextAction => NextGrows(c);
    case PrevAction =>
    case CheckAction => CheckGrows(c);
  }

  /** Over any sequence of ticks, `next`, `prev` and completion checks,
      progress never decreases, no completed page becomes incomplete, and
      the current index stays on a page. */
  lemma {:induction false} RunGrows(c: CourseState, actions: seq<Action>)
    requires Valid(c)
    ensures Grows(c, Run(c, actions))
    ensures Run(c, actions).currentPageIndex < |c.pages|
    decreases |actions|
  {
    if |actions| > 0 {
      var c1 := Step(c, actions[0]);
      StepGrows(c, actions[0]);
      RunGrows(c1, actions[1..]);
      GrowsTransitive(c, c1, Run(c1, actions[1..]));
    }
  }

  // ---------------------------------------------------------------------
  // the timer completes a page

  function Ticks(c: CourseState, n: nat): (r: CourseState)
    requires Valid(c)
    ensures Valid(r)
    decreases n
  {
    if n == 0 then c else Ticks(Tick(c), n - 1)
  }

  /** Once the current page is completed and progress has passed it, ticks
      leave both alone. */
  lemma {:induction false} TicksKeepFinishedPage(c: CourseState, n: nat)
    requires Valid(c) && CurrentPage(c).completed && c.progress == c.currentPageIndex + 1
    ensures var r := Ticks(c, n);
            r.currentPageIndex == c.currentPageIndex && CurrentPage(r).completed && r.progress == c.progress
    decreases n
  {
    if n > 0 {
      TickCounts(c);
      TickGrows(c);
      TicksKeepFinishedPage(Tick(c), n - 1);
    }
  }

  /** The timer alone completes the frontier page: if `n` more seconds on
      it make it complete, then after `n` ticks it is completed and progress
      has moved on by one. */
  lemma {:induction false} TicksCompletePage(c: CourseState, n: nat)
    requires Valid(c) && n >= 1
    requires c.currentPageIndex == c.progress && !CurrentPage(c).completed
    requires IsComplete(CurrentPage(c).(watchTime := CurrentPage(c).watchTime + n))
    ensures var r := Ticks(c, n);
            r.currentPageIndex == c.currentPageIndex && CurrentPage(r).completed
            && r.progress == c.progress + 1
    decreases n
  {
    var i := c.currentPageIndex;
    var p := c.pages[i];
    var c1 := Tick(c);
    TickCounts(c);
    if IsComplete(p.(watchTime := p.watchTime + 1)) {
      assert CurrentPage(c1).completed && c1.progress == c.progress + 1;
      TicksKeepFinishedPage(c1, n - 1);
    } else {
      assert c1.progress == c.progress && !CurrentPage(c1).completed;
      assert CurrentPage(c1).(watchTime := CurrentPage(c1).watchTime + (n - 1))
             == p.(watchTime := p.watchTime + n);
      TicksCompletePage(c1, n - 1);
    }
  }

  /** A first page that asks for ten seconds, no score, no scrolling and no
      video is completed by ten ticks, and progress becomes 1. */
  lemma TenSecondPage(d: PageDefinition, rest: seq<PageDefinition>, rules: CourseRules)
    requires d.rules == Rules(10.0, 0.0, Some(false), 0.0)
    ensures var r := Ticks(Start([d] + rest, rules), 10);
            r.pages[0].completed && r.progress == 1
  {
    var c := Start([d] + rest, rules);
    var p := FreshPage(d);
    assert c.pages[0] == p;
    assert ScoreRatio(p.(watchTime := 10)) == 0.0;
    TicksCompletePage(c, 10);
  }
}
