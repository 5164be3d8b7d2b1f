# Zhlobin city quiz: session state machine

The game's Index page lets a player pick one of three themed routes
(historical, cultural, natural) through six landmarks of Zhlobin. At each
landmark the player answers a four-option question, may toggle a hint first,
earns 100 points per correct answer, and ends on a summary screen. All of the
page's logic is a small state machine of seven state fields (screen, selected
route, current landmark index, score, hint flag, selected answer, verdict)
updated by six handlers and two inline button actions. This project models
that machine and the fixed landmark catalog it runs on.

- `catalog.dfy` (module `Catalog`): routes, landmarks (id, route, number of
  answer options, correct option), the six-entry catalog, the filter that
  gives a route's landmarks in catalog order, and the lookup of the current
  landmark. Lemmas cover membership, order preservation, the partition of the
  catalog by route, and the concrete contents of each route.
- `machine.dfy` (module `Machine`): the seven fields as a `State` value, the
  user gestures as `Event`s, `Enabled` (where the page renders each control),
  `Step` (the effect of each handler), `Run` over a list of gestures, and the
  invariant `Inv` of every reachable state. Lemmas prove that every gesture
  keeps `Inv`, what each handler does, the score bounds of any run, and
  end-to-end plays of a route, spelled out for the historical and cultural
  routes.
- `session.dfy` (module `Game`): class `Session` with the seven fields as
  mutable fields, one method per handler, each proved to keep the invariant
  and to do exactly the transition `Machine.Step` gives for its gesture, and
  a client `PlayHistorical` that plays a route through the class.
- `wrappers.dfy`: `Option`, standing for `T | null` and for an array read that
  may give `undefined`.

Each handler may only be called where the page offers its control: start on
the welcome screen, route cards on route selection, "start task" on the map
with a current landmark, answers and the hint toggle on the task screen
before an answer, "next" on the task screen after an answer, "play again"
and "choose another route" on the finish screen. The checkAnswer handler
itself has no guard against a second answer; only the answer buttons'
`disabled` attribute stops one. The model makes that an explicit
precondition of `Game.Session.CheckAnswer` (`selectedAnswer == None`), not a
guarded no-op. `Machine.UnguardedDoubleAnswer` shows that the handler alone
(`Machine.CheckAnswerUnguarded`) would award the points twice.

In these places the page behaves as follows, and the model follows it:
- "Play again" is offered only on the finish screen, not on every screen.
- Restart resets screen, route, index and score only. The hint flag, the
  selected answer and the verdict keep their values until the next task is
  opened.
- Choosing a route has no check that the route has landmarks. With this
  catalog every route has two (`Catalog.CatalogRoutes`), so none is empty.
- "Choose another route" is offered only on the finish screen.
- Choosing a route always resets the score to 0.

## Model

| member | source | states |
|---|---|---|
| `Catalog.Filter` | src/pages/Index.tsx:129 | the landmarks of a route are never more than the catalog holds |
| `Catalog.FilterMembers` | src/pages/Index.tsx:129 | a landmark is in a route's list exactly when it is in the catalog and on that route |
| `Catalog.RouteLandmarks` | src/pages/Index.tsx:128-130 | the derived list holds exactly the catalog landmarks of the selected route, and nothing while no route is selected |
| `Catalog.LandmarkAt` | src/pages/Index.tsx:132 | the current landmark exists exactly when the index is inside the route's list, and is then the landmark at that index |
| `Catalog.FilterAppend` | src/pages/Index.tsx:129 | filtering a concatenation is the concatenation of the filtered parts |
| `Catalog.FilterPosition` | src/pages/Index.tsx:129 | a landmark of the route sits in the route's list at the count of same-route landmarks before it in the catalog |
| `Catalog.FilterOrder` | src/pages/Index.tsx:128-130 | of two landmarks of a route, the one earlier in the catalog comes strictly earlier in the route's list |
| `Catalog.FilterPartition` | src/pages/Index.tsx:8-21 | the three routes' lists together have as many entries as the catalog: each landmark is on exactly one route |
| `Catalog.HistoricalRoute` | src/pages/Index.tsx:23-96 | the historical route is landmarks 1 and 4, in that order |
| `Catalog.CulturalRoute` | src/pages/Index.tsx:23-96 | the cultural route is landmarks 2 and 5, in that order |
| `Catalog.NaturalRoute` | src/pages/Index.tsx:23-96 | the natural route is landmarks 3 and 6, in that order |
| `Catalog.CatalogRoutes` | src/pages/Index.tsx:234 | every route has exactly two landmarks, the count shown on its card |
| `Catalog.CatalogWellFormed` | src/pages/Index.tsx:23-96 | every question has four options with the correct index among them, and landmark ids are distinct |
| `Machine.Init` | src/pages/Index.tsx:120-126 | the initial field values satisfy the session invariant, have no current landmark, and offer only the start button |
| `Machine.Enabled` | src/pages/Index.tsx:180-502 | where the page renders each control (start on welcome, route cards on route selection, "start task" on the map with a landmark, answers and hint on the task before an answer, "next" after one, "play again" and "choose another route" on finish): a control is offered only on its own screen, and one whose handler reads the current landmark only while there is one |
| `Machine.CheckAnswerUnguarded` | src/pages/Index.tsx:152-160 | the checkAnswer handler without the disabled buttons: records the answer and whether it equals the current landmark's correct answer, adds 100 exactly then, and changes no other field |
| `Machine.Step` | src/pages/Index.tsx:134-176 | the effect of each of the eight controls (the six handlers, the hint toggle at line 395 and "choose another route" at line 501); a control that is not rendered changes nothing; every control but the answers and the hint toggle changes the screen; only a route card and "play again" change the route; only those and an answer change the score; only those and "next" change the index |
| `Machine.RouteNonEmpty` | src/pages/Index.tsx:243 | a selected route has between one and six landmarks, so the map screen always has a landmark to show |
| `Machine.StepInv` | src/pages/Index.tsx:134-176 | every handler, called where the page offers it, keeps the session invariant (score a multiple of 100 and at most 100 per answered question, index inside the route, verdict matching the answer) |
| `Machine.RunInv` | src/pages/Index.tsx:134-176 | the invariant holds after any sequence of gestures |
| `Machine.ScoreBounds` | src/pages/Index.tsx:152-160 | in every run the score is a non-negative multiple of 100, at most 100 × (index + 1) and at most 100 per landmark of the route |
| `Machine.SelectRouteEffect` | src/pages/Index.tsx:138-143 | selectRoute sets the route, the map screen, index 0 and score 0, leaves hint, answer and verdict alone, and the current landmark is then on the chosen route |
| `Machine.OpenTaskEffect` | src/pages/Index.tsx:145-150 | openTask shows the task with the hint hidden, no answer and no verdict; route, index and score unchanged |
| `Machine.CheckAnswerEffect` | src/pages/Index.tsx:152-160 | checkAnswer records the answer and whether it is correct; score rises by exactly 100 when correct and is unchanged otherwise; the screen stays on the task |
| `Machine.NoDoubleAnswer` | src/pages/Index.tsx:352-356 | once an answer is recorded a further answer click changes nothing |
| `Machine.UnguardedDoubleAnswer` | src/pages/Index.tsx:152-160 | the checkAnswer handler without the disabled buttons would add 200 for two correct clicks |
| `Machine.NextLandmarkEffect` | src/pages/Index.tsx:162-169 | before the last landmark the index rises by exactly one and the map is shown; at the last one the finish screen is shown with the index unchanged; the index stays inside the route |
| `Machine.HintToggle` | src/pages/Index.tsx:392-401 | the toggle flips the hint flag and two toggles restore the state |
| `Machine.HintHiddenAfterAnswer` | src/pages/Index.tsx:392-410 | after an answer the hint is not displayed and the toggle is no longer offered |
| `Machine.RestartEffect` | src/pages/Index.tsx:171-176 | restartGame gives the welcome screen, no route, index 0 and score 0, and equals the initial state except for the stale hint, answer and verdict |
| `Machine.OtherRouteEffect` | src/pages/Index.tsx:500-502 | "choose another route" changes only the screen; the score is reset only when the next route is chosen |
| `Machine.Monotone` | src/pages/Index.tsx:134-176 | apart from choosing a route and restarting, no handler lowers the index or the score |
| `Machine.RouteVisit` | src/pages/Index.tsx:145-169 | one open/answer/next visit on any route scores 100 exactly when the answer is the correct one of the landmark at the current index, and leads to the second landmark or to the finish screen |
| `Machine.RoutePlay` | src/pages/Index.tsx:134-169 | playing any route from the start ends on the finish screen with 100 for each answer that matches the correct answer of its landmark, in route order |
| `Machine.HistoricalPlay` | src/pages/Index.tsx:134-169 | playing the historical route from the start ends on the finish screen with 100 per correct answer (200 for both, 100 for one) |
| `Machine.CulturalPlay` | src/pages/Index.tsx:134-169 | on the cultural route the first question is scored against answer 2 and the second against answer 1 |
| `Game.Session.RouteLandmarks` | src/pages/Index.tsx:128-130 | the session's route list holds exactly the catalog landmarks of its selected route, two of them once a route is selected |
| `Game.Session.CurrentLandmark` | src/pages/Index.tsx:132 | the current landmark exists exactly when the index is inside the route, is then the route's landmark at the current index, and always exists on the map and task screens |
| `Game.Session.constructor` | src/pages/Index.tsx:120-126 | a new session has the initial field values and satisfies the invariant |
| `Game.Session.StartGame` | src/pages/Index.tsx:134-136 | startGame only changes the screen, to route selection |
| `Game.Session.SelectRoute` | src/pages/Index.tsx:138-143 | selectRoute sets route, map screen, index 0 and score 0, leaves the other fields, and the current landmark is on the route |
| `Game.Session.OpenTask` | src/pages/Index.tsx:145-150 | openTask shows the task and clears hint, answer and verdict, keeping route, index and score |
| `Game.Session.CheckAnswer` | src/pages/Index.tsx:152-160 | checkAnswer records the answer and verdict and adds exactly 100 when correct, nothing otherwise; callable only before an answer is recorded |
| `Game.Session.ToggleHint` | src/pages/Index.tsx:392-395 | the hint toggle flips only the hint flag |
| `Game.Session.NextLandmark` | src/pages/Index.tsx:162-169 | nextLandmark advances the index by one to the map, or shows the finish screen at the last landmark; the index stays inside the route |
| `Game.Session.RestartGame` | src/pages/Index.tsx:171-176 | restartGame sets welcome screen, no route, index 0 and score 0 and leaves the other fields |
| `Game.Session.ChooseAnotherRoute` | src/pages/Index.tsx:500-502 | "choose another route" sets the route-selection screen and nothing else |
| `Game.PlayHistorical` | src/pages/Index.tsx:134-176 | a session playing the historical route ends with 100 points per correct answer |

## Left out

- All rendering: markup, CSS class choice, icons and the layout of the five
  screens. Only the conditions under which a control is rendered are kept, as
  the handlers' preconditions (`Machine.Enabled`).
- The UI components `Button`, `Card`, `Badge` and `Icon`; their code is not
  part of this model.
- React's state mechanics. Each handler is one atomic update of the fields.
  Setter batching and the closure over `score` in checkAnswer are not
  modelled, because each handler runs once per click on the current values.
- Landmark names, descriptions, questions, answer texts and hints, and the
  x/y map coordinates, which are display data only. A question is modelled
  as its number of options and its correct index.
- The route metadata list (names, descriptions, icons) beyond the three
  route identifiers.
- The numbers shown on screen (point counter, "question k of n", final
  score and count). They read the same fields the model has.
