/** The quiz session as a pure state machine: a snapshot of the seven state
    fields of the Index page, the user gestures that the page turns into
    handler calls, where the page offers each gesture, and the effect of each
    handler. The Session class runs the same transitions in place; the
    invariant proved here is what its methods preserve. */
module Machine {
  import opened Wrappers
  import opened Catalog

  /** Points awarded for a correct answer. */
  const Award := 100

  /** The five screens of the page. */
  datatype Screen = Welcome | RouteSelect | Map | Task | Finish

  /** A snapshot of the session's state fields. */
  datatype State = State(
    screen: Screen,
    selectedRoute: Option<Route>,
    currentLandmarkIndex: int,
    score: int,
    showHint: bool,
    selectedAnswer: Option<int>,
    answeredCorrectly: Option<bool>)

  /** The user gestures that reach a handler: the start button, a route card,
      "start task", an answer button, the hint toggle, "next point" /
      "finish route", "play again" and "choose another route". */
  datatype Event =
    | ClickStart
    | ClickRoute(route: Route)
    | ClickOpenTask
    | ClickAnswer(answerIndex: int)
    | ClickHint
    | ClickNext
    | ClickRestart
    | ClickOtherRoute

  /** The landmarks of the selected route: Catalog.RouteLandmarks read off a
      snapshot. */
  function RouteLandmarksOf(s: State): seq<Landmark> {
    RouteLandmarks(Landmarks, s.selectedRoute)
  }

  /** The landmark the session is at: Catalog.LandmarkAt read off a snapshot. */
  function CurrentLandmarkOf(s: State): Option<Landmark> {
    LandmarkAt(RouteLandmarksOf(s), s.currentLandmarkIndex)
  }

  /** The screen on which the control for `e` sits. */
  function ScreenOf(e: Event): Screen {
    match e
    case ClickStart => Welcome
    case ClickRoute(_) => RouteSelect
    case ClickOpenTask => Map
    case ClickAnswer(_) => Task
    case ClickHint => Task
    case ClickNext => Task
    case ClickRestart => Finish
    case ClickOtherRoute => Finish
  }

  /** Whether the page renders the control for `e` in state `s`. A control is
      only offered on its own screen, and one whose handler reads the current
      landmark only while there is one. */
  predicate Enabled(s: State, e: Event): (b: bool)
    ensures b ==> s.screen == ScreenOf(e)
    ensures b && (e.ClickOpenTask? || e.ClickAnswer? || e.ClickHint? || e.ClickNext?)
            ==> CurrentLandmarkOf(s).Some?
  {
    match e
    case ClickStart => s.screen == Welcome
    case ClickRoute(_) => s.screen == RouteSelect
    case ClickOpenTask => s.screen == Map && CurrentLandmarkOf(s).Some?
    case ClickAnswer(i) =>
      s.screen == Task && CurrentLandmarkOf(s).Some? && s.selectedAnswer.None?
      && 0 <= i < CurrentLandmarkOf(s).value.answerCount
    case ClickHint => s.screen == Task && CurrentLandmarkOf(s).Some? && s.selectedAnswer.None?
    case ClickNext => s.screen == Task && CurrentLandmarkOf(s).Some? && s.selectedAnswer.Some?
    case ClickRestart => s.screen == Finish
    case ClickOtherRoute => s.screen == Finish
  }

  /** The checkAnswer handler on its own, without the page's guard: it needs
      a current landmark and nothing else. It records the answer and whether
      it is the landmark's correct one, adds the award exactly then, and
      changes no other field. */
  function CheckAnswerUnguarded(s: State, answerIndex: int): (t: State)
    requires CurrentLandmarkOf(s).Some?
    ensures t.selectedAnswer == Some(answerIndex)
    ensures t.answeredCorrectly == Some(answerIndex == CurrentLandmarkOf(s).value.correctAnswer)
    ensures t.score == s.score + (if t.answeredCorrectly == Some(true) then Award else 0)
    ensures t.(selectedAnswer := s.selectedAnswer, answeredCorrectly := s.answeredCorrectly,
               score := s.score) == s
  {
    var correct := answerIndex == CurrentLandmarkOf(s).value.correctAnswer;
    s.(selectedAnswer := Some(answerIndex),
       answeredCorrectly := Some(correct),
       score := if correct then s.score + Award else s.score)
  }

  /** The effect of gesture `e`; a gesture whose control is not rendered
      cannot happen and leaves the state as it is. Every control except the
      answer buttons and the hint toggle changes the screen; only a route card
      and "play again" change the route; only those two and an answer change
      the score; only those two and "next" change the index. */
  function Step(s: State, e: Event): (t: State)
    ensures !Enabled(s, e) ==> t == s
    ensures Enabled(s, e) && !e.ClickAnswer? && !e.ClickHint? ==> t.screen != s.screen
    ensures t.selectedRoute == s.selectedRoute || e.ClickRoute? || e.ClickRestart?
    ensures t.score == s.score || e.ClickAnswer? || e.ClickRoute? || e.ClickRestart?
    ensures t.currentLandmarkIndex == s.currentLandmarkIndex || e.ClickNext? || e.ClickRoute? || e.ClickRestart?
  {
    if !Enabled(s, e) then s
    else match e
      case ClickStart => s.(screen := RouteSelect)
      case ClickRoute(r) =>
        s.(selectedRoute := Some(r), screen := Map, currentLandmarkIndex := 0, score := 0)
      case ClickOpenTask =>
        s.(screen := Task, showHint := false, selectedAnswer := None, answeredCorrectly := None)
      case ClickAnswer(i) => CheckAnswerUnguarded(s, i)
      case ClickHint => s.(showHint := !s.showHint)
      case ClickNext =>
        if s.currentLandmarkIndex < |RouteLandmarksOf(s)| - 1
        then s.(currentLandmarkIndex := s.currentLandmarkIndex + 1, screen := Map)
        else s.(screen := Finish)
      case ClickRestart =>
        s.(screen := Welcome, selectedRoute := None, currentLandmarkIndex := 0, score := 0)
      case ClickOtherRoute => s.(screen := RouteSelect)
  }

  /** The state after the gestures `events`, in order. */
  function Run(s: State, events: seq<Event>): State
    decreases |events|
  {
    if events == [] then s else Run(Step(s, events[0]), events[1..])
  }

  /** Whether the question at the current index has been answered in this run:
      on the task screen after an answer, on the finish screen, and on the
      route screen reached from the finish screen. */
  predicate CurrentAnswered(s: State) {
    (s.screen == Task && s.selectedAnswer.Some?)
    || s.screen == Finish
    || (s.screen == RouteSelect && s.selectedRoute.Some?)
  }

  /** The number of questions answered in this run. */
  function AnsweredCount(s: State): int {
    s.currentLandmarkIndex + (if CurrentAnswered(s) then 1 else 0)
  }

  /** What holds in every state the page can reach. */
  ghost predicate Inv(s: State) {
    // score is a non-negative multiple of the award, at most one award per answered question
    && 0 <= s.score && s.score % Award == 0
    && s.score <= Award * AnsweredCount(s)
    // before a route is chosen nothing has been played
    && (s.selectedRoute.None? ==> s.currentLandmarkIndex == 0 && s.score == 0)
    && (s.screen == Welcome ==> s.selectedRoute.None?)
    // while touring, answering or finished, the index is inside the chosen route
    && (s.screen in {Map, Task, Finish} ==> s.selectedRoute.Some?)
    && (s.selectedRoute.Some? ==> 0 <= s.currentLandmarkIndex < |RouteLandmarksOf(s)|)
    // a finished route (also when re-choosing after it) stopped at its last landmark
    && (CurrentAnswered(s) && s.screen != Task ==> s.currentLandmarkIndex == |RouteLandmarksOf(s)| - 1)
    // on the task screen the verdict matches the recorded answer
    && (s.screen == Task && s.selectedAnswer.None? ==> s.answeredCorrectly.None?)
    && (s.screen == Task && s.selectedAnswer.Some? ==>
          0 <= s.selectedAnswer.value < CurrentLandmarkOf(s).value.answerCount
          && s.answeredCorrectly == Some(s.selectedAnswer.value == CurrentLandmarkOf(s).value.correctAnswer))
  }

  /** The state the page starts in: it satisfies the invariant, has no
      current landmark, and offers only the start button. */
  function Init(): (s: State)
    ensures Inv(s)
    ensures CurrentLandmarkOf(s).None?
    ensures forall e :: Enabled(s, e) <==> e == ClickStart
  {
    State(Welcome, None, 0, 0, false, None, None)
  }

  /** A chosen route always has at least one landmark, so the map screen is
      never entered with no landmark to show. */
  lemma RouteNonEmpty(s: State)
    requires s.selectedRoute.Some?
    ensures 1 <= |RouteLandmarksOf(s)| <= |Landmarks|
  {
    CatalogRoutes();
  }

  /** Every gesture keeps the invariant. */
  lemma StepInv(s: State, e: Event)
    requires Inv(s)
    ensures Inv(Step(s, e))
  {
    if Enabled(s, e) {
      match e
      case ClickRoute(r) =>
        RouteNonEmpty(Step(s, e));
      case ClickAnswer(i) =>
        CatalogWellFormed();
      case _ =>
    }
  }

  /** Every state reached from a state satisfying the invariant satisfies it. */
  lemma {:induction false} RunInv(s: State, events: seq<Event>)
    requires Inv(s)
    ensures Inv(Run(s, events))
    decreases |events|
  {
    if events != [] {
      StepInv(s, events[0]);
      RunInv(Step(s, events[0]), events[1..]);
    }
  }

  /** The score bounds of any run from the start: a non-negative multiple of
      100, at most 100 per landmark up to and including the current one, and
      never more than 100 per landmark of the route. */
  lemma ScoreBounds(events: seq<Event>)
    ensures var s := Run(Init(), events);
      0 <= s.score && s.score % Award == 0
      && s.score <= Award * (s.currentLandmarkIndex + 1)
      && s.score <= Award * |RouteLandmarksOf(s)|
  {
    RunInv(Init(), events);
  }

  /** selectRoute: the chosen route, the map screen, index 0 and score 0; the
      per-question fields are left as they were, and the current landmark is
      the route's first one. */
  lemma SelectRouteEffect(s: State, r: Route)
    requires s.screen == RouteSelect
    ensures var t := Step(s, ClickRoute(r));
      t.selectedRoute == Some(r) && t.screen == Map && t.currentLandmarkIndex == 0 && t.score == 0
      && t.showHint == s.showHint && t.selectedAnswer == s.selectedAnswer
      && t.answeredCorrectly == s.answeredCorrectly
      && CurrentLandmarkOf(t).Some?
      && CurrentLandmarkOf(t).value in Landmarks && CurrentLandmarkOf(t).value.route == r
  {
    RouteNonEmpty(Step(s, ClickRoute(r)));
  }

  /** openTask: the task screen with a fresh question (hint hidden, no answer,
      no verdict); route, index and score are kept. */
  lemma OpenTaskEffect(s: State)
    requires Enabled(s, ClickOpenTask)
    ensures var t := Step(s, ClickOpenTask);
      t.screen == Task && !t.showHint && t.selectedAnswer.None? && t.answeredCorrectly.None?
      && t.selectedRoute == s.selectedRoute && t.currentLandmarkIndex == s.currentLandmarkIndex
      && t.score == s.score
  {
  }

  /** checkAnswer: records the answer and its verdict, and the score rises by
      exactly 100 when the answer is the correct one and stays put otherwise;
      the screen stays on the task. */
  lemma CheckAnswerEffect(s: State, i: int)
    requires Enabled(s, ClickAnswer(i))
    ensures var t := Step(s, ClickAnswer(i));
      var correct := i == CurrentLandmarkOf(s).value.correctAnswer;
      t.screen == Task && t.selectedAnswer == Some(i) && t.answeredCorrectly == Some(correct)
      && (correct ==> t.score == s.score + Award)
      && (!correct ==> t.score == s.score)
      && t.currentLandmarkIndex == s.currentLandmarkIndex && t.selectedRoute == s.selectedRoute
  {
  }

  /** Once a question is answered, a further answer click changes nothing: the
      answer buttons are disabled, so no question scores twice. */
  lemma NoDoubleAnswer(s: State, i: int, j: int)
    requires Enabled(s, ClickAnswer(i))
    ensures Step(Step(s, ClickAnswer(i)), ClickAnswer(j)) == Step(s, ClickAnswer(i))
  {
  }

  /** The handler alone has no such guard: called twice with the correct
      answer it awards the points twice. The disabled buttons are what keeps
      the score bound. */
  lemma UnguardedDoubleAnswer(s: State)
    requires CurrentLandmarkOf(s).Some?
    ensures var i := CurrentLandmarkOf(s).value.correctAnswer;
      CheckAnswerUnguarded(CheckAnswerUnguarded(s, i), i).score == s.score + 2 * Award
  {
  }

  /** nextLandmark: before the route's last landmark the index moves up by
      exactly one and the map is shown; at the last one the finish screen is
      shown and the index stays. Either way the index stays inside the route. */
  lemma NextLandmarkEffect(s: State)
    requires Inv(s) && Enabled(s, ClickNext)
    ensures var t := Step(s, ClickNext);
      var n := |RouteLandmarksOf(s)|;
      (s.currentLandmarkIndex < n - 1 ==> t.screen == Map && t.currentLandmarkIndex == s.currentLandmarkIndex + 1)
      && (s.currentLandmarkIndex == n - 1 ==> t.screen == Finish && t.currentLandmarkIndex == s.currentLandmarkIndex)
      && 0 <= t.currentLandmarkIndex <= n - 1
      && t.score == s.score && t.selectedRoute == s.selectedRoute
  {
  }

  /** The hint toggle is its own inverse, and the hint is never on display
      once the question is answered. */
  lemma HintToggle(s: State)
    requires Enabled(s, ClickHint)
    ensures Step(s, ClickHint).showHint == !s.showHint
    ensures Step(Step(s, ClickHint), ClickHint) == s
  {
  }

  /** Whether the hint card is on display. */
  predicate HintShown(s: State) {
    s.screen == Task && CurrentLandmarkOf(s).Some? && s.showHint && s.selectedAnswer.None?
  }

  /** After an answer the hint is hidden, whatever the toggle says, and the
      toggle is no longer offered. */
  lemma HintHiddenAfterAnswer(s: State, i: int)
    requires Enabled(s, ClickAnswer(i))
    ensures !HintShown(Step(s, ClickAnswer(i)))
    ensures Step(Step(s, ClickAnswer(i)), ClickHint) == Step(s, ClickAnswer(i))
  {
  }

  /** restartGame: welcome screen, no route, index 0, score 0. The hint flag,
      the answer and the verdict are not reset (openTask resets them). */
  lemma RestartEffect(s: State)
    requires Enabled(s, ClickRestart)
    ensures var t := Step(s, ClickRestart);
      t.screen == Welcome && t.selectedRoute.None? && t.currentLandmarkIndex == 0 && t.score == 0
      && t == Init().(showHint := s.showHint, selectedAnswer := s.selectedAnswer,
                      answeredCorrectly := s.answeredCorrectly)
  {
  }

  /** "Choose another route" only changes the screen; the score is kept until
      the next route is chosen, which resets it. */
  lemma OtherRouteEffect(s: State, r: Route)
    requires Enabled(s, ClickOtherRoute)
    ensures Step(s, ClickOtherRoute) == s.(screen := RouteSelect)
    ensures Step(Step(s, ClickOtherRoute), ClickRoute(r)).score == 0
  {
  }

  /** Within a route the index and the score never go down: only choosing a
      route or restarting resets them. */
  lemma Monotone(s: State, e: Event)
    requires !e.ClickRoute? && !e.ClickRestart?
    ensures Step(s, e).currentLandmarkIndex >= s.currentLandmarkIndex
    ensures Step(s, e).score >= s.score
  {
  }

  /** Running two lists of gestures one after the other is running their
      concatenation. */
  lemma {:induction false} RunAppend(s: State, a: seq<Event>, b: seq<Event>)
    ensures Run(s, a + b) == Run(Run(s, a), b)
    decreases |a|
  {
    if a == [] {
      assert a + b == b;
    } else {
      assert (a + b)[0] == a[0] && (a + b)[1..] == a[1..] + b;
      RunAppend(Step(s, a[0]), a[1..], b);
    }
  }

  /** One visit on a chosen route: open the task at the current landmark,
      give answer `a`, go on. The score rises by 100 exactly when `a` is the
      correct answer of the landmark at the current index; the first landmark
      leads back to the map at the second, the second to the finish screen. */
  lemma RouteVisit(s: State, a: int)
    requires s.screen == Map && s.selectedRoute.Some?
    requires 0 <= s.currentLandmarkIndex < 2 && 0 <= a < AnswerOptions
    ensures |RouteLandmarksOf(s)| == 2
    ensures var t := Run(s, [ClickOpenTask, ClickAnswer(a), ClickNext]);
      t.score == s.score + (if a == RouteLandmarksOf(s)[s.currentLandmarkIndex].correctAnswer then Award else 0)
      && t.selectedRoute == s.selectedRoute
      && (s.currentLandmarkIndex == 0 ==> t.screen == Map && t.currentLandmarkIndex == 1)
      && (s.currentLandmarkIndex == 1 ==> t.screen == Finish)
  {
    CatalogRoutes();
    CatalogWellFormed();
    var s1 := Step(s, ClickOpenTask);
    var s2 := Step(s1, ClickAnswer(a));
    var s3 := Step(s2, ClickNext);
    assert [ClickOpenTask, ClickAnswer(a), ClickNext][1..] == [ClickAnswer(a), ClickNext];
    assert [ClickAnswer(a), ClickNext][1..] == [ClickNext];
    assert Run(s2, [ClickNext]) == Run(s3, []) == s3;
    assert Run(s1, [ClickAnswer(a), ClickNext]) == s3;
  }

  /** A route played from the start with `first` and `second` as the answers
      to its two questions ends on the finish screen with 100 points for each
      answer that is the correct one of the landmark it was given at. */
  lemma RoutePlay(route: Route, first: int, second: int)
    requires 0 <= first < AnswerOptions && 0 <= second < AnswerOptions
    ensures |Filter(Landmarks, route)| == 2
    ensures var s := Run(Init(), [ClickStart, ClickRoute(route), ClickOpenTask, ClickAnswer(first),
                                  ClickNext, ClickOpenTask, ClickAnswer(second), ClickNext]);
      s.screen == Finish
      && s.score == (if first == Filter(Landmarks, route)[0].correctAnswer then Award else 0)
                    + (if second == Filter(Landmarks, route)[1].correctAnswer then Award else 0)
  {
    CatalogRoutes();
    var pick := [ClickStart, ClickRoute(route)];
    var visit1 := [ClickOpenTask, ClickAnswer(first), ClickNext];
    var visit2 := [ClickOpenTask, ClickAnswer(second), ClickNext];
    assert [ClickStart, ClickRoute(route), ClickOpenTask, ClickAnswer(first),
            ClickNext, ClickOpenTask, ClickAnswer(second), ClickNext] == pick + (visit1 + visit2);
    var s0 := Run(Init(), pick);
    var a1 := Step(Init(), ClickStart);
    var a2 := Step(a1, ClickRoute(route));
    assert pick[1..] == [ClickRoute(route)] && [ClickRoute(route)][1..] == [];
    assert Run(a1, [ClickRoute(route)]) == Run(a2, []) == a2;
    assert s0 == a2 == State(Map, Some(route), 0, 0, false, None, None);
    RunAppend(Init(), pick, visit1 + visit2);
    RunAppend(s0, visit1, visit2);
    RouteVisit(s0, first);
    RouteVisit(Run(s0, visit1), second);
  }

  /** The historical route: answer 1 is correct at both landmarks, so two
      right answers give 200 points and one gives 100. */
  lemma HistoricalPlay(first: int, second: int)
    requires 0 <= first < AnswerOptions && 0 <= second < AnswerOptions
    ensures var s := Run(Init(), [ClickStart, ClickRoute(Historical), ClickOpenTask, ClickAnswer(first),
                                  ClickNext, ClickOpenTask, ClickAnswer(second), ClickNext]);
      s.screen == Finish
      && s.score == (if first == 1 then Award else 0) + (if second == 1 then Award else 0)
  {
    RoutePlay(Historical, first, second);
    HistoricalRoute();
  }

  /** The cultural route: the museum's correct answer is 2 and the palace of
      culture's is 1, so the two questions are scored against different
      answers, in route order. */
  lemma CulturalPlay(first: int, second: int)
    requires 0 <= first < AnswerOptions && 0 <= second < AnswerOptions
    ensures var s := Run(Init(), [ClickStart, ClickRoute(Cultural), ClickOpenTask, ClickAnswer(first),
                                  ClickNext, ClickOpenTask, ClickAnswer(second), ClickNext]);
      s.screen == Finish
      && s.score == (if first == 2 then Award else 0) + (if second == 1 then Award else 0)
  {
    RoutePlay(Cultural, first, second);
    CulturalRoute();
  }
}
