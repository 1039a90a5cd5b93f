/** The earlier course state machine (`state` in src/script.js): the same
    page model and completion predicate, a `finalizePage` without the
    `completed` guard that reports whether it fired, a `next` that first
    finalizes and clamps at the last page, `prev`, and the timer tick. The
    DOM, the banner, logging, saving and the SCORM calls are left out;
    whether `finalizePage` finished the course (where the source writes the
    lesson status) is part of its result. */
module LegacyCourse {
  import opened Pages

  datatype LegacyState = LegacyState(
    pages: seq<Page>,
    currentPageIndex: nat,
    progress: nat,
    totalCourseSeconds: nat,
    initialized: bool)      // `lessonFrame` and `infoBanner` are set

  predicate Valid(c: LegacyState)
  {
    |c.pages| >= 1 && c.currentPageIndex < |c.pages| && c.progress <= |c.pages|
  }

  datatype Finalized = Finalized(
    state: LegacyState,
    fired: bool,            // the value `finalizePage` returns
    finishedCourse: bool)   // progress reached the page count

  /** `finalizePage()`: when the current page is complete and is the
      frontier page, mark it completed, move progress on by one and return
      true; the course is finished once progress reaches the page count.
      Otherwise return false and change nothing. */
  function FinalizePage(c: LegacyState): (r: Finalized)
    requires Valid(c)
    ensures Valid(r.state)
  {
    var i := c.currentPageIndex;
    var p := c.pages[i];
    if IsComplete(p) && i == c.progress then
      var c1 := c.(pages := c.pages[i := p.(completed := true)], progress := c.progress + 1);
      Finalized(c1, true, c1.progress >= |c1.pages|)
    else Finalized(c, false, false)
  }

  /** `finalizePage` fires exactly at a complete frontier page, whether or
      not that page is already marked; it then completes exactly that page
      and moves progress on by one, and finishes the course exactly on the
      last page. */
  lemma FinalizeSpec(c: LegacyState)
    requires Valid(c)
    ensures var r := FinalizePage(c);
            r.fired <==> IsComplete(c.pages[c.currentPageIndex]) && c.currentPageIndex == c.progress
    ensures var r := FinalizePage(c);
            r.fired ==> r.state.progress == c.progress + 1
                        && r.state.pages == c.pages[c.progress := c.pages[c.progress].(completed := true)]
                        && (r.finishedCourse <==> c.progress == |c.pages| - 1)
    ensures var r := FinalizePage(c);
            !r.fired ==> r.state == c && !r.finishedCourse
  {
  }

  /** An immediate second call returns false: progress has moved past the
      current page. */
  lemma FinalizeRepeatIsRefused(c: LegacyState)
    requires Valid(c) && FinalizePage(c).fired
    ensures !FinalizePage(FinalizePage(c).state).fired
    ensures FinalizePage(FinalizePage(c).state).state == FinalizePage(c).state
  {
  }

  /** The one-second timer: one more second in the course and on the
      current page, then `finalizePage`. */
  function Tick(c: LegacyState): (r: LegacyState)
    requires Valid(c)
    ensures Valid(r)
  {
    var i := c.currentPageIndex;
    var p := c.pages[i];
    FinalizePage(c.(pages := c.pages[i := p.(watchTime := p.watchTime + 1)],
                    totalCourseSeconds := c.totalCourseSeconds + 1)).state
  }

  /** A tick adds one second to the course and to the current page and
      touches no other page. */
  lemma TickCounts(c: LegacyState)
    requires Valid(c)
    ensures var r := Tick(c);
            r.totalCourseSeconds == c.totalCourseSeconds + 1
            && r.currentPageIndex == c.currentPageIndex
            && r.pages[c.currentPageIndex].watchTime == c.pages[c.currentPageIndex].watchTime + 1
            && forall k :: 0 <= k < |c.pages| && k != c.currentPageIndex ==> r.pages[k] == c.pages[k]
  {
  }

  /** `next()`: refused before `init`; otherwise finalize, then step one
      page on if the current page is now completed, staying on the last
      page when stepping past the end. */
  function Next(c: LegacyState): (r: LegacyState)
    requires Valid(c)
    ensures Valid(r)
  {
    if !c.initialized then c
    else
      var c1 := FinalizePage(c).state;
      if c1.pages[c1.currentPageIndex].completed then
        if c1.currentPageIndex + 1 >= |c1.pages| then c1.(currentPageIndex := |c1.pages| - 1)
        else c1.(currentPageIndex := c1.currentPageIndex + 1)
      else c1
  }

  /** `next` moves one page on exactly when the page is completed after
      finalizing and is not the last; it never leaves the page range. */
  lemma NextMoves(c: LegacyState)
    requires Valid(c) && c.initialized
    ensures var c1 := FinalizePage(c).state;
            var i := c.currentPageIndex;
            Next(c).currentPageIndex
              == if c1.pages[i].completed && i + 1 < |c.pages| then i + 1 else i
    ensures Next(c).progress == FinalizePage(c).state.progress
  {
  }

  /** `prev()`: refused before `init`; one page back, never before the
      first. */
  function Prev(c: LegacyState): (r: LegacyState)
    requires Valid(c)
    ensures Valid(r)
  {
    if !c.initialized || c.currentPageIndex == 0 then c
    else c.(currentPageIndex := c.currentPageIndex - 1)
  }

  lemma PrevClamps(c: LegacyState)
    requires Valid(c) && c.initialized
    ensures Prev(c).currentPageIndex == if c.currentPageIndex == 0 then 0 else c.currentPageIndex - 1
    ensures Prev(c).pages == c.pages && Prev(c).progress == c.progress
  {
  }

  // ---------------------------------------------------------------------
  // monotonicity

  /** Nothing is lost between two states. */
  predicate Grows(c: LegacyState, r: LegacyState)
  {
    |r.pages| == |c.pages| && c.progress <= r.progress
    && forall k :: 0 <= k < |c.pages| && c.pages[k].completed ==> r.pages[k].completed
  }

  lemma GrowsTransitive(a: LegacyState, b: LegacyState, c: LegacyState)
    requires Grows(a, b) && Grows(b, c)
    ensures Grows(a, c)
  {
  }

  lemma FinalizeGrows(c: LegacyState)
    requires Valid(c)
    ensures Grows(c, FinalizePage(c).state)
  {
    FinalizeSpec(c);
  }

  datatype Action = TickAction | NextAction | PrevAction | FinalizeAction

  function Step(c: LegacyState, a: Action): (r: LegacyState)
    requires Valid(c)
    ensures Valid(r)
  {
    match a
    case TickAction => Tick(c)
    case NextAction => Next(c)
    case PrevAction => Prev(c)
    case FinalizeAction => FinalizePage(c).state
  }

  lemma StepGrows(c: LegacyState, a: Action)
    requires Valid(c)
    ensures Grows(c, Step(c, a))
  {
    match a
    case TickAction =>
      var i := c.currentPageIndex;
      var p := c.pages[i];
      var c1 := c.(pages := c.pages[i := p.(watchTime := p.watchTime + 1)],
                   totalCourseSeconds := c.totalCourseSeconds + 1);
      assert Grows(c, c1);
      FinalizeGrows(c1);
    case NextAction =>
      if c.initialized {
        FinalizeGrows(c);
      }
    case PrevAction =>
    case FinalizeAction => FinalizeGrows(c);
  }

  function Run(c: LegacyState, actions: seq<Action>): (r: LegacyState)
    requires Valid(c)
    ensures Valid(r)
    decreases |actions|
  {
    if |actions| == 0 then c else Run(Step(c, actions[0]), actions[1..])
  }

  /** Over any sequence of ticks, `next`, `prev` and `finalizePage`
      calls, progress never decreases, no completed page becomes
      incomplete, and the current index stays on a page. */
  lemma {:induction false} RunGrows(c: LegacyState, actions: seq<Action>)
    requires Valid(c)
    ensures Grows(c, Run(c, actions))
    ensures Run(c, actions).currentPageIndex < |c.pages|
    decreases |actions|
  {
    if |actions| > 0 {
      var c1 := Step(c, actions[0]);
      StepGrows(c, actions[0]);
      RunGrows(c1, actions[1..]);
      GrowsTransitive(c, c1, Run(c1, actions[1..]));
    }
  }
}
