/** The Index page's session: the seven state fields it keeps and the
    handlers that update them in place. Each handler may only be called where
    the page renders its control, keeps the session invariant, and performs
    the transition Machine.Step describes for that gesture. */
module Game {
  import opened Wrappers
  import opened Catalog
  import opened Machine

  class Session {
    var screen: Screen
    var selectedRoute: Option<Route>
    var currentLandmarkIndex: int
    var score: int
    var showHint: bool
    var selectedAnswer: Option<int>
    var answeredCorrectly: Option<bool>

    /** The fields as one snapshot. */
    function Snapshot(): State
      reads this
    {
      State(screen, selectedRoute, currentLandmarkIndex, score, showHint, selectedAnswer, answeredCorrectly)
    }

    /** The session invariant: every state the page can reach satisfies it. */
    ghost predicate Valid()
      reads this
    {
      Inv(Snapshot())
    }

    /** The landmarks of the selected route, in catalog order; none before a
        route is chosen (Catalog.RouteLandmarks read off the fields). */
    function RouteLandmarks(): (rl: seq<Landmark>)
      reads this
      ensures forall l :: l in rl <==> l in Landmarks && selectedRoute == Some(l.route)
      ensures Valid() && selectedRoute.Some? ==> |rl| == 2
    {
      CatalogRoutes();
      Catalog.RouteLandmarks(Landmarks, selectedRoute)
    }

    /** The landmark at the current index, if there is one (Catalog.LandmarkAt
        read off the fields). */
    function CurrentLandmark(): (c: Option<Landmark>)
      reads this
      ensures c.Some? <==> 0 <= currentLandmarkIndex < |RouteLandmarks()|
      ensures c.Some? ==> c.value == RouteLandmarks()[currentLandmarkIndex]
      ensures c.Some? ==> c.value in Landmarks && selectedRoute == Some(c.value.route)
      ensures Valid() && screen in {Map, Task} ==> c.Some?
    {
      LandmarkAt(RouteLandmarks(), currentLandmarkIndex)
    }

    /** A fresh session on the welcome screen. */
    constructor ()
      ensures Snapshot() == Init()
      ensures Valid()
    {
      screen := Welcome;
      selectedRoute := None;
      currentLandmarkIndex := 0;
      score := 0;
      showHint := false;
      selectedAnswer := None;
      answeredCorrectly := None;
    }

    /** "Start game" on the welcome screen: on to route selection. */
    method StartGame()
      requires Valid() && screen == Welcome
      modifies this
      ensures Valid()
      ensures screen == RouteSelect
      ensures selectedRoute == old(selectedRoute) && currentLandmarkIndex == old(currentLandmarkIndex)
      ensures score == old(score) && showHint == old(showHint)
      ensures selectedAnswer == old(selectedAnswer) && answeredCorrectly == old(answeredCorrectly)
      ensures Snapshot() == Step(old(Snapshot()), ClickStart)
    {
      StepInv(Snapshot(), ClickStart);
      screen := RouteSelect;
    }

    /** A route card: the route is chosen and played from its first landmark
        with a fresh score; the per-question fields are left alone. */
    method SelectRoute(route: Route)
      requires Valid() && screen == RouteSelect
      modifies this
      ensures Valid()
      ensures selectedRoute == Some(route) && screen == Map && currentLandmarkIndex == 0 && score == 0
      ensures showHint == old(showHint) && selectedAnswer == old(selectedAnswer)
      ensures answeredCorrectly == old(answeredCorrectly)
      ensures CurrentLandmark().Some? && CurrentLandmark().value.route == route
      ensures Snapshot() == Step(old(Snapshot()), ClickRoute(route))
    {
      StepInv(Snapshot(), ClickRoute(route));
      selectedRoute := Some(route);
      screen := Map;
      currentLandmarkIndex := 0;
      score := 0;
      RouteNonEmpty(Snapshot());
    }

    /** "Start task" on the map: the question of the current landmark, with
        the hint hidden and no answer yet. */
    method OpenTask()
      requires Valid() && screen == Map && CurrentLandmark().Some?
      modifies this
      ensures Valid()
      ensures screen == Task && !showHint && selectedAnswer == None && answeredCorrectly == None
      ensures selectedRoute == old(selectedRoute) && currentLandmarkIndex == old(currentLandmarkIndex)
      ensures score == old(score)
      ensures Snapshot() == Step(old(Snapshot()), ClickOpenTask)
    {
      StepInv(Snapshot(), ClickOpenTask);
      screen := Task;
      showHint := false;
      selectedAnswer := None;
      answeredCorrectly := None;
    }

    /** An answer button. The buttons are disabled once an answer is recorded,
        so this requires that none is; the handler itself does not check. */
    method CheckAnswer(answerIndex: int)
      requires Valid() && screen == Task && CurrentLandmark().Some? && selectedAnswer == None
      requires 0 <= answerIndex < CurrentLandmark().value.answerCount
      modifies this
      ensures Valid()
      ensures selectedAnswer == Some(answerIndex)
      ensures answeredCorrectly == Some(answerIndex == old(CurrentLandmark()).value.correctAnswer)
      ensures score == if answerIndex == old(CurrentLandmark()).value.correctAnswer
                       then old(score) + Award else old(score)
      ensures screen == Task && selectedRoute == old(selectedRoute)
      ensures currentLandmarkIndex == old(currentLandmarkIndex) && showHint == old(showHint)
      ensures Snapshot() == Step(old(Snapshot()), ClickAnswer(answerIndex))
    {
      StepInv(Snapshot(), ClickAnswer(answerIndex));
      selectedAnswer := Some(answerIndex);
      var correct := answerIndex == CurrentLandmark().value.correctAnswer;
      answeredCorrectly := Some(correct);
      if correct {
        score := score + Award;
      }
    }

    /** The hint toggle, offered while the question is unanswered. */
    method ToggleHint()
      requires Valid() && screen == Task && CurrentLandmark().Some? && selectedAnswer == None
      modifies this
      ensures Valid()
      ensures showHint == !old(showHint)
      ensures screen == old(screen) && selectedRoute == old(selectedRoute)
      ensures currentLandmarkIndex == old(currentLandmarkIndex) && score == old(score)
      ensures selectedAnswer == old(selectedAnswer) && answeredCorrectly == old(answeredCorrectly)
      ensures Snapshot() == Step(old(Snapshot()), ClickHint)
    {
      StepInv(Snapshot(), ClickHint);
      showHint := !showHint;
    }

    /** "Next point" / "finish route" after an answer: the next landmark on
        the map, or the finish screen after the route's last landmark. */
    method NextLandmark()
      requires Valid() && screen == Task && CurrentLandmark().Some? && selectedAnswer.Some?
      modifies this
      ensures Valid()
      ensures old(currentLandmarkIndex) < |RouteLandmarks()| - 1 ==>
                screen == Map && currentLandmarkIndex == old(currentLandmarkIndex) + 1
      ensures old(currentLandmarkIndex) == |RouteLandmarks()| - 1 ==>
                screen == Finish && currentLandmarkIndex == old(currentLandmarkIndex)
      ensures 0 <= currentLandmarkIndex < |RouteLandmarks()|
      ensures selectedRoute == old(selectedRoute) && score == old(score) && showHint == old(showHint)
      ensures selectedAnswer == old(selectedAnswer) && answeredCorrectly == old(answeredCorrectly)
      ensures Snapshot() == Step(old(Snapshot()), ClickNext)
    {
      StepInv(Snapshot(), ClickNext);
      if currentLandmarkIndex < |RouteLandmarks()| - 1 {
        currentLandmarkIndex := currentLandmarkIndex + 1;
        screen := Map;
      } else {
        screen := Finish;
      }
    }

    /** "Play again" on the finish screen: back to the welcome screen with no
        route, index 0 and score 0. */
    method RestartGame()
      requires Valid() && screen == Finish
      modifies this
      ensures Valid()
      ensures screen == Welcome && selectedRoute == None && currentLandmarkIndex == 0 && score == 0
      ensures showHint == old(showHint) && selectedAnswer == old(selectedAnswer)
      ensures answeredCorrectly == old(answeredCorrectly)
      ensures Snapshot() == Step(old(Snapshot()), ClickRestart)
    {
      StepInv(Snapshot(), ClickRestart);
      screen := Welcome;
      selectedRoute := None;
      currentLandmarkIndex := 0;
      score := 0;
    }

    /** "Choose another route" on the finish screen: back to route selection;
        route, index and score are kept until a route is chosen. */
    method ChooseAnotherRoute()
      requires Valid() && screen == Finish
      modifies this
      ensures Valid()
      ensures screen == RouteSelect
      ensures selectedRoute == old(selectedRoute) && currentLandmarkIndex == old(currentLandmarkIndex)
      ensures score == old(score) && showHint == old(showHint)
      ensures selectedAnswer == old(selectedAnswer) && answeredCorrectly == old(answeredCorrectly)
      ensures Snapshot() == Step(old(Snapshot()), ClickOtherRoute)
    {
      StepInv(Snapshot(), ClickOtherRoute);
      screen := RouteSelect;
    }
  }

  /** A client of the class: play the historical route, answering the first
      question with `first` and the second with `second`. The result is the
      final score: 100 per correct answer (answer 1 for both questions). */
  method PlayHistorical(first: int, second: int) returns (finalScore: int)
    requires 0 <= first < AnswerOptions && 0 <= second < AnswerOptions
    ensures finalScore == (if first == 1 then Award else 0) + (if second == 1 then Award else 0)
  {
    HistoricalRoute();
    var game := new Session();
    game.StartGame();
    game.SelectRoute(Historical);
    game.OpenTask();
    game.CheckAnswer(first);
    game.NextLandmark();
    game.OpenTask();
    game.CheckAnswer(second);
    game.NextLandmark();
    assert game.screen == Finish;
    finalScore := game.score;
  }
}
