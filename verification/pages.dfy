/** A course page as both revisions of the state machine keep it: the
    static definition (completion rules, quiz questions) merged with the
    dynamic counters, the page-completion predicate `checkIfComplete`, and
    the fresh page `loadCourseData` builds from the course definition.
    Scores, ratios and rule thresholds are exact reals. */
module Pages {
  import opened Optional
  import opened Grading

  /** `completionRules`. A page whose definition has no `scrolled` rule
      reads it as `undefined`, here `None`. */
  datatype Rules = Rules(
    watchTime: real,
    score: real,
    scrolled: Option<bool>,
    videoProgress: real)

  datatype Page = Page(
    name: string,
    path: string,
    questions: seq<Question>,
    rules: Rules,
    completed: bool,
    scrolled: bool,
    score: real,
    watchTime: nat,
    attempts: nat,
    videoProgress: real,
    maxScore: real)

  /** The score ratio used for completion: score over maximum, or 0 when
      the page has no positive maximum (no division by zero). */
  function ScoreRatio(p: Page): (r: real)
    ensures p.maxScore <= 0.0 ==> r == 0.0
    ensures p.maxScore > 0.0 ==> r * p.maxScore == p.score
  {
    if p.maxScore > 0.0 then p.score / p.maxScore else 0.0
  }

  /** `checkIfComplete()` for the current page: enough watch time, a high
      enough score ratio, `scrolled` strictly equal to the rule, and enough
      video progress. */
  predicate IsComplete(p: Page)
  {
    p.watchTime as real >= p.rules.watchTime
    && ScoreRatio(p) >= p.rules.score
    && p.rules.scrolled == Some(p.scrolled)
    && p.videoProgress >= p.rules.videoProgress
  }

  /** The scroll condition is an equality, not "scrolled if required": a
      page that was scrolled fails a rule that says `false`, and a page
      with no scroll rule can never complete. */
  lemma ScrolledIsStrict(p: Page)
    ensures p.rules.scrolled == Some(false) && p.scrolled ==> !IsComplete(p)
    ensures p.rules.scrolled == None ==> !IsComplete(p)
  {
  }

  /** More watch time never undoes completion. */
  lemma CompleteStaysComplete(p: Page, extra: nat)
    requires IsComplete(p)
    ensures IsComplete(p.(watchTime := p.watchTime + extra))
  {
  }

  /** A course definition's page entry, as read from the course JSON. */
  datatype PageDefinition = PageDefinition(
    name: string,
    isQuiz: bool,          // `type === 'quiz'`
    questions: seq<Question>,
    rules: Rules)

  /** The page `loadCourseData` builds: the definition's fields, the path
      under `lessons/`, every counter zero, not completed nor scrolled, and
      `maxScore` the sum of the question points for a quiz page (0 for any
      other type). */
  function FreshPage(d: PageDefinition): (p: Page)
    ensures !p.completed && !p.scrolled
    ensures p.score == 0.0 && p.watchTime == 0 && p.attempts == 0 && p.videoProgress == 0.0
    ensures p.path == "lessons/" + d.name && p.rules == d.rules && p.questions == d.questions
    ensures d.isQuiz ==> p.maxScore == Possible(d.questions)
    ensures !d.isQuiz ==> p.maxScore == 0.0
  {
    Page(d.name, "lessons/" + d.name, d.questions, d.rules,
         false, false, 0.0, 0, 0, 0.0,
         if d.isQuiz then Possible(d.questions) else 0.0)
  }

  /** A fresh page is already complete exactly when its rules ask for no
      watch time, no score, no video progress, and `scrolled: false`. */
  lemma FreshPageComplete(d: PageDefinition)
    ensures IsComplete(FreshPage(d)) <==>
      d.rules.watchTime <= 0.0 && d.rules.score <= 0.0
      && d.rules.scrolled == Some(false) && d.rules.videoProgress <= 0.0
  {
    var p := FreshPage(d);
    if p.maxScore > 0.0 {
      assert ScoreRatio(p) * p.maxScore == 0.0;
    }
  }

  /** The pages of a course definition, in order. */
  function FreshPages(ds: seq<PageDefinition>): (ps: seq<Page>)
    ensures |ps| == |ds|
    ensures forall i :: 0 <= i < |ds| ==> ps[i] == FreshPage(ds[i])
  {
    if |ds| == 0 then [] else [FreshPage(ds[0])] + FreshPages(ds[1..])
  }
}
