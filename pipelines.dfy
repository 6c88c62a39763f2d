/** What each operation of the game manager hands to the engine, as functions of
    the manager's state and of which optional collaborators are wired
    (non-null). The class in module Game performs exactly these events. */
module Pipelines {
  import opened Engine
  import opened CSharpInt
  import opened IntText

  /** Which of the manager's inspector references are non-null. `audioSource`
      is the component looked up or added in `Start`. */
  datatype Wiring = Wiring(
    scoreText: bool,
    gameoverUI: bool,
    restartButton: bool,
    gameoverCanvasGroup: bool,
    gameoverSoundClip: bool,
    finalScoreText: bool,
    gameOverUIController: bool,
    uiAnimationController: bool,
    gameOverEffectController: bool,
    audioSource: bool)

  const ScorePrefix: string := "Score : "
  const FinalScorePrefix: string := "Final Score: "

  /** Delays of the coroutines, in milliseconds. */
  const RevealDelayMs: nat := 500
  const RevealWaitMs: nat := 600
  const ClickMs: nat := 100
  const RestartDelayMs: nat := 300

  /** The factor the restart button is shrunk by while it is clicked. */
  const ClickScale: real := 0.9

  /** The score display text: the prefix, then the score as C# renders it. */
  function ScoreLabel(n: int): string
  {
    ScorePrefix + IntToString(n)
  }

  function FinalScoreLabel(n: int): string
  {
    FinalScorePrefix + IntToString(n)
  }

  /** Each label starts with its prefix, and the rest reads back as the score. */
  lemma LabelsReadBack(n: int)
    ensures ScoreLabel(n)[..|ScorePrefix|] == ScorePrefix
    ensures ParseInt(ScoreLabel(n)[|ScorePrefix|..]) == n
    ensures FinalScoreLabel(n)[..|FinalScorePrefix|] == FinalScorePrefix
    ensures ParseInt(FinalScoreLabel(n)[|FinalScorePrefix|..]) == n
  {
    ParseIntToString(n);
    assert ScoreLabel(n)[|ScorePrefix|..] == IntToString(n);
    assert FinalScoreLabel(n)[|FinalScorePrefix|..] == IntToString(n);
  }

  /** Different scores never show the same text. */
  lemma ScoreLabelInjective(a: int, b: int)
    requires ScoreLabel(a) == ScoreLabel(b)
    ensures a == b
  {
    LabelsReadBack(a);
    LabelsReadBack(b);
  }

  // ---------------------------------------------------------------- AddScore

  datatype Scoring = Scoring(score: Int32, events: seq<Event>)

  /** One `AddScore(delta)` call: while the game runs, the score grows by
      `delta` (modulo 2^32) and the display shows the new score once; after
      game over nothing happens. */
  function AddScoreStep(score: Int32, isGameover: bool, delta: Int32): (r: Scoring)
    ensures isGameover ==> r == Scoring(score, [])
    ensures !isGameover && InRange(score as int + delta as int) ==> r.score as int == score as int + delta as int
    ensures !isGameover ==> r.events == [Do(SetScoreText(ScoreLabel(r.score as int)))]
  {
    if isGameover then Scoring(score, [])
    else
      var s := WrappingAdd(score, delta);
      Scoring(s, [Do(SetScoreText(ScoreLabel(s as int)))])
  }

  /** A run of `AddScore` calls, one per delta, with the game-over flag fixed. */
  function AddScoreCalls(score: Int32, isGameover: bool, deltas: seq<Int32>): Scoring
    decreases |deltas|
  {
    if deltas == [] then Scoring(score, [])
    else
      var first := AddScoreStep(score, isGameover, deltas[0]);
      var rest := AddScoreCalls(first.score, isGameover, deltas[1..]);
      Scoring(rest.score, first.events + rest.events)
  }

  function Sum(ds: seq<Int32>): int
  {
    if ds == [] then 0 else ds[0] as int + Sum(ds[1..])
  }

  /** While the game runs, the final score is the sum of all deltas, wrapped to 32 bits. */
  lemma {:induction false} AddScoreCallsSum(score: Int32, deltas: seq<Int32>)
    ensures AddScoreCalls(score, false, deltas).score == Wrap(score as int + Sum(deltas))
    decreases |deltas|
  {
    if deltas == [] {
      assert Wrap(score as int) == score;
    } else {
      var first := AddScoreStep(score, false, deltas[0]).score;
      assert first == Wrap(score as int + deltas[0] as int);
      assert AddScoreCalls(score, false, deltas).score == AddScoreCalls(first, false, deltas[1..]).score;
      AddScoreCallsSum(first, deltas[1..]);
      SumStep(score, deltas, first, AddScoreCalls(first, false, deltas[1..]).score);
    }
  }

  /** While the game runs, every call updates the display once, and the
      display ends on the final score. */
  lemma {:induction false} AddScoreCallsDisplay(score: Int32, deltas: seq<Int32>)
    ensures |AddScoreCalls(score, false, deltas).events| == |deltas|
    ensures deltas != [] ==>
      var r := AddScoreCalls(score, false, deltas);
      r.events[|r.events| - 1] == Do(SetScoreText(ScoreLabel(r.score as int)))
    decreases |deltas|
  {
    if deltas != [] {
      var first := AddScoreStep(score, false, deltas[0]);
      AddScoreCallsDisplay(first.score, deltas[1..]);
    }
  }

  lemma SumStep(score: Int32, deltas: seq<Int32>, firstScore: Int32, restScore: Int32)
    requires deltas != []
    requires firstScore == Wrap(score as int + deltas[0] as int)
    requires restScore == Wrap(firstScore as int + Sum(deltas[1..]))
    ensures restScore == Wrap(score as int + Sum(deltas))
  {
    WrapAbsorbs(score as int + deltas[0] as int, Sum(deltas[1..]));
  }

  /** After game over, no run of `AddScore` calls changes the score or the display. */
  lemma {:induction false} AddScoreCallsAfterGameOver(score: Int32, deltas: seq<Int32>)
    ensures AddScoreCalls(score, true, deltas) == Scoring(score, [])
    decreases |deltas|
  {
    if deltas != [] {
      AddScoreCallsAfterGameOver(score, deltas[1..]);
    }
  }

  // ---------------------------------------------------------------- game over

  /** Whether `a` belongs to the default game-over presentation under `w`:
      which steps `ShowDefaultGameOverUI` and `ShowGameOverUI` perform
      (GameManager.cs:150-199), condition by condition. */
  predicate DefaultStep(w: Wiring, score: Int32, a: Action)
  {
    match a
    case SetFinalScoreText(t) => w.finalScoreText && t == FinalScoreLabel(score as int)
    case SendPlayGameOverEffect => w.gameOverEffectController
    case PlayGameOverSound => w.audioSource && w.gameoverSoundClip
    case Wait(ms) => ms == RevealDelayMs || (ms == RevealWaitMs && w.gameoverUI && !w.uiAnimationController)
    case ActivateGameOverUI => w.gameoverUI
    case SendPlayUIAnimation => w.gameoverUI && w.uiAnimationController
    case TweenReveal(fade) => w.gameoverUI && !w.uiAnimationController && fade == w.gameoverCanvasGroup
    case _ => false
  }

  /** The position of each default game-over step in the order of
      `ShowDefaultGameOverUI` and `ShowGameOverUI` (GameManager.cs:150-199). The two
      alternatives of the reveal share a rank, so they never both occur. */
  function DefaultRank(a: Action): nat
  {
    match a
    case SetFinalScoreText(_) => 0
    case SendPlayGameOverEffect => 1
    case PlayGameOverSound => 2
    case Wait(ms) => if ms == RevealDelayMs then 3 else 6
    case ActivateGameOverUI => 4
    case SendPlayUIAnimation => 5
    case TweenReveal(_) => 5
    case _ => 7
  }

  predicate StrictlyRanked(acts: seq<Action>)
  {
    forall i, j :: 0 <= i < j < |acts| ==> DefaultRank(acts[i]) < DefaultRank(acts[j])
  }

  /** The default game-over path: exactly the enabled steps, each once, in the
      order of GameManager.cs:150-199; the text, effect and sound happen during the call, and
      everything from the 0.5 s delay on is left to the reveal coroutine. */
  ghost predicate DefaultPathShape(w: Wiring, score: Int32, es: seq<Event>)
  {
    && (forall a :: a in Actions(es) <==> DefaultStep(w, score, a))
    && StrictlyRanked(Actions(es))
    && |es| >= 1
    && (forall i :: 0 <= i < |es| - 1 ==> es[i].Do?)
    && es[|es| - 1].Resume? && es[|es| - 1].routine == ShowGameOverUIRoutine
    && es[|es| - 1].steps != [] && es[|es| - 1].steps[0] == Wait(RevealDelayMs)
  }

  /** The coroutine `ShowGameOverUI`: wait, then show the panel and reveal it. */
  function ShowGameOverUIBody(w: Wiring): (body: seq<Action>)
    ensures |body| >= 1 && body[0] == Wait(RevealDelayMs)
    ensures ActivateGameOverUI in body <==> w.gameoverUI
    ensures TotalWait(body) == RevealDelayMs + (if w.gameoverUI && !w.uiAnimationController then RevealWaitMs else 0)
  {
    var animate := if w.uiAnimationController then [SendPlayUIAnimation]
                  else [TweenReveal(w.gameoverCanvasGroup), Wait(RevealWaitMs)];
    var shown := if w.gameoverUI then [ActivateGameOverUI] + animate else [];
    assert !w.uiAnimationController ==> animate[1..][1..] == [];
    TotalWaitConcat([ActivateGameOverUI], animate);
    TotalWaitConcat([Wait(RevealDelayMs)], shown);
    [Wait(RevealDelayMs)] + shown
  }

  lemma StrictlyRankedConcat(a: seq<Action>, b: seq<Action>)
    requires StrictlyRanked(a) && StrictlyRanked(b)
    requires forall i, j :: 0 <= i < |a| && 0 <= j < |b| ==> DefaultRank(a[i]) < DefaultRank(b[j])
    ensures StrictlyRanked(a + b)
  {
  }

  /** `ShowDefaultGameOverUI`: optional final text, effect and sound, then the reveal coroutine. */
  function DefaultGameOverEvents(w: Wiring, score: Int32): (es: seq<Event>)
    ensures DefaultPathShape(w, score, es)
  {
    DefaultPathFacts(w, score);
    Immediate(ImmediateGameOverSteps(w, score)) + Launch(ShowGameOverUIRoutine, ShowGameOverUIBody(w))
  }

  /** The default path is the immediate steps followed by the reveal coroutine's launch. */
  lemma DefaultGameOverEventsSplit(w: Wiring, score: Int32)
    ensures DefaultGameOverEvents(w, score)
            == Immediate(ImmediateGameOverSteps(w, score)) + Launch(ShowGameOverUIRoutine, ShowGameOverUIBody(w))
  {
  }

  /** With a final-score text wired, setting it is the very first thing the default path does. */
  lemma FinalScoreShownFirst(w: Wiring, score: Int32)
    requires w.finalScoreText
    ensures DefaultGameOverEvents(w, score)[0] == Do(SetFinalScoreText(FinalScoreLabel(score as int)))
  {
    var now := ImmediateGameOverSteps(w, score);
    assert now[0] == SetFinalScoreText(FinalScoreLabel(score as int));
    assert DefaultGameOverEvents(w, score)[0] == Immediate(now)[0];
  }

  function ImmediateGameOverSteps(w: Wiring, score: Int32): seq<Action>
  {
    (if w.finalScoreText then [SetFinalScoreText(FinalScoreLabel(score as int))] else [])
    + (if w.gameOverEffectController then [SendPlayGameOverEffect] else [])
    + (if w.audioSource && w.gameoverSoundClip then [PlayGameOverSound] else [])
  }

  /** The part performed during `ShowDefaultGameOverUI` itself is in the source's order ... */
  lemma ImmediateStepsRanked(w: Wiring, score: Int32)
    ensures StrictlyRanked(ImmediateGameOverSteps(w, score))
  {
    OptionalStepsRanked(FinalScoreLabel(score as int), w.finalScoreText, w.gameOverEffectController,
                        w.audioSource && w.gameoverSoundClip);
  }

  /** The three optional immediate steps, whatever the final text, keep their ranks' order. */
  lemma OptionalStepsRanked(t: string, hasText: bool, hasEffect: bool, hasSound: bool)
    ensures StrictlyRanked((if hasText then [SetFinalScoreText(t)] else [])
                           + (if hasEffect then [SendPlayGameOverEffect] else [])
                           + (if hasSound then [PlayGameOverSound] else []))
  {
    var text := if hasText then [SetFinalScoreText(t)] else [];
    var effect := if hasEffect then [SendPlayGameOverEffect] else [];
    var sound := if hasSound then [PlayGameOverSound] else [];
    var steps := text + effect + sound;
    if hasText {
      if hasEffect {
        if hasSound {
          assert steps == [SetFinalScoreText(t), SendPlayGameOverEffect, PlayGameOverSound];
        } else {
          assert steps == [SetFinalScoreText(t), SendPlayGameOverEffect];
        }
      } else if hasSound {
        assert steps == [SetFinalScoreText(t), PlayGameOverSound];
      } else {
        assert steps == [SetFinalScoreText(t)];
      }
    } else if hasEffect {
      if hasSound {
        assert steps == [SendPlayGameOverEffect, PlayGameOverSound];
      } else {
        assert steps == [SendPlayGameOverEffect];
      }
    } else if hasSound {
      assert steps == [PlayGameOverSound];
    } else {
      assert steps == [];
    }
  }

  /** ... and consists of the enabled steps ranked before the delay. */
  lemma ImmediateStepsMembers(w: Wiring, score: Int32)
    ensures forall a :: a in ImmediateGameOverSteps(w, score) <==> DefaultStep(w, score, a) && DefaultRank(a) < 3
  {
    var text := if w.finalScoreText then [SetFinalScoreText(FinalScoreLabel(score as int))] else [];
    var effect := if w.gameOverEffectController then [SendPlayGameOverEffect] else [];
    var sound := if w.audioSource && w.gameoverSoundClip then [PlayGameOverSound] else [];
    forall a ensures a in text + effect + sound <==> DefaultStep(w, score, a) && DefaultRank(a) < 3 {
      assert a in text + effect + sound <==> a in text || a in effect || a in sound;
    }
  }

  /** The coroutine's body written out for each wiring of the panel. */
  lemma RevealBodyCases(w: Wiring)
    ensures !w.gameoverUI ==> ShowGameOverUIBody(w) == [Wait(RevealDelayMs)]
    ensures w.gameoverUI && w.uiAnimationController ==>
              ShowGameOverUIBody(w) == [Wait(RevealDelayMs), ActivateGameOverUI, SendPlayUIAnimation]
    ensures w.gameoverUI && !w.uiAnimationController ==>
              ShowGameOverUIBody(w)
              == [Wait(RevealDelayMs), ActivateGameOverUI, TweenReveal(w.gameoverCanvasGroup), Wait(RevealWaitMs)]
  {
  }

  /** With a panel, exactly one reveal runs: the animation controller's when one
      is wired, the built-in tween (fading iff a canvas group exists) otherwise. */
  lemma RevealChoice(w: Wiring)
    ensures SendPlayUIAnimation in ShowGameOverUIBody(w) <==> w.gameoverUI && w.uiAnimationController
    ensures TweenReveal(w.gameoverCanvasGroup) in ShowGameOverUIBody(w) <==> w.gameoverUI && !w.uiAnimationController
    ensures TweenReveal(!w.gameoverCanvasGroup) !in ShowGameOverUIBody(w)
  {
    RevealBodyCases(w);
  }

  /** The part left to the `ShowGameOverUI` coroutine is in the source's order ... */
  lemma RevealStepsRanked(w: Wiring)
    ensures StrictlyRanked(ShowGameOverUIBody(w))
  {
    RevealBodyCases(w);
  }

  /** ... and consists of the enabled steps ranked from the delay on. */
  lemma RevealStepsMembers(w: Wiring, score: Int32)
    ensures forall a :: a in ShowGameOverUIBody(w) <==> DefaultStep(w, score, a) && DefaultRank(a) >= 3
  {
    RevealBodyCases(w);
  }

  lemma DefaultActionsRanked(w: Wiring, score: Int32)
    ensures StrictlyRanked(ImmediateGameOverSteps(w, score) + ShowGameOverUIBody(w))
  {
    ImmediateStepsRanked(w, score);
    RevealStepsRanked(w);
    StrictlyRankedConcat(ImmediateGameOverSteps(w, score), ShowGameOverUIBody(w));
  }

  lemma DefaultActionsMembers(w: Wiring, score: Int32)
    ensures forall a :: a in ImmediateGameOverSteps(w, score) + ShowGameOverUIBody(w) <==> DefaultStep(w, score, a)
  {
    var now, body := ImmediateGameOverSteps(w, score), ShowGameOverUIBody(w);
    ImmediateStepsMembers(w, score);
    RevealStepsMembers(w, score);
    forall a ensures a in now + body <==> DefaultStep(w, score, a) {
      assert a in now + body <==> a in now || a in body;
    }
  }

  lemma DefaultPathFacts(w: Wiring, score: Int32)
    ensures DefaultPathShape(w, score, Immediate(ImmediateGameOverSteps(w, score))
                                       + Launch(ShowGameOverUIRoutine, ShowGameOverUIBody(w)))
  {
    var now := ImmediateGameOverSteps(w, score);
    var body := ShowGameOverUIBody(w);
    assert Launch(ShowGameOverUIRoutine, body) == [Resume(ShowGameOverUIRoutine, body)];
    DefaultActionsRanked(w, score);
    DefaultActionsMembers(w, score);
    PathShapeOf(w, score, now, body);
  }

  /** Immediate steps followed by a reveal coroutine that starts with the delay
      have the default path's shape when their actions together do. */
  lemma PathShapeOf(w: Wiring, score: Int32, now: seq<Action>, body: seq<Action>)
    requires body != [] && body[0] == Wait(RevealDelayMs)
    requires forall a :: a in now + body <==> DefaultStep(w, score, a)
    requires StrictlyRanked(now + body)
    ensures DefaultPathShape(w, score, Immediate(now) + [Resume(ShowGameOverUIRoutine, body)])
  {
    var es := Immediate(now) + [Resume(ShowGameOverUIRoutine, body)];
    ActionsConcat(Immediate(now), [Resume(ShowGameOverUIRoutine, body)]);
    ActionsImmediate(now);
    assert Actions([Resume(ShowGameOverUIRoutine, body)]) == body;
    assert Actions(es) == now + body;
  }

  /** `OnPlayerDead`'s presentation: a wired game-over UI controller takes over
      completely and receives the score; otherwise the default path runs. */
  function GameOverEvents(w: Wiring, score: Int32): (es: seq<Event>)
    ensures w.gameOverUIController ==> es == [Do(SendShowGameOverUI(score as int))]
    ensures !w.gameOverUIController ==> DefaultPathShape(w, score, es)
  {
    if w.gameOverUIController then [Do(SendShowGameOverUI(score as int))]
    else DefaultGameOverEvents(w, score)
  }

  // ---------------------------------------------------------------- restart

  /** The coroutine `ButtonClickEffect`, started while the button has scale
      `original`: shrink, wait 0.1 s, put the very same scale back. */
  function ButtonClickBody(hasButton: bool, original: Vec3): (body: seq<Action>)
    ensures !hasButton ==> body == []
    ensures hasButton ==> |body| == 3 && body[0] == SetButtonScale(Scaled(original, ClickScale))
    ensures hasButton ==> TotalWait(body) == ClickMs && FirstWait(body) == 1
    ensures ButtonScaleAfter(original, body) == original
  {
    if !hasButton then []
    else
      var shrunk := Scaled(original, ClickScale);
      StepCons(shrunk, SetButtonScale(original), []);
      StepCons(shrunk, Wait(ClickMs), [SetButtonScale(original)]);
      StepCons(original, SetButtonScale(shrunk), [Wait(ClickMs), SetButtonScale(original)]);
      [SetButtonScale(shrunk)] + ([Wait(ClickMs)] + [SetButtonScale(original)])
  }

  /** The coroutine `RestartGameCoroutine`: wait 0.3 s, then reload the active scene. */
  function RestartGameBody(): (body: seq<Action>)
    ensures |body| == 2 && body[|body| - 1] == LoadActiveScene
    ensures body[0].Wait? && TotalWait(body) == RestartDelayMs
    ensures forall i :: 0 <= i < |body| - 1 ==> body[i] != LoadActiveScene
  {
    StepCons(Vec3(0.0, 0.0, 0.0), LoadActiveScene, []);
    StepCons(Vec3(0.0, 0.0, 0.0), Wait(RestartDelayMs), [LoadActiveScene]);
    [Wait(RestartDelayMs)] + [LoadActiveScene]
  }

  predicate HasRoutine(es: seq<Event>, r: Routine)
  {
    exists i :: 0 <= i < |es| && es[i].Resume? && es[i].routine == r
  }

  /** `RestartGame` while the restart button has scale `s`: the click effect
      only when both the audio source and the button exist, and always the
      delayed reload as the last coroutine started. */
  function RestartEvents(w: Wiring, s: Vec3): (es: seq<Event>)
    ensures |es| >= 1 && es[|es| - 1] == Resume(RestartGameRoutine, RestartGameBody())
    ensures HasRoutine(es, ButtonClickEffectRoutine) <==> w.audioSource && w.restartButton
    ensures ButtonScaleAfter(s, Actions(es)) == s
  {
    var click := ClickEvents(w, s);
    var reload := Launch(RestartGameRoutine, RestartGameBody());
    RestartFacts(w, s, click, reload);
    click + reload
  }

  /** Nothing but the two coroutines happens: all actions of a restart are the
      click body (when it is started) followed by the reload body, so the
      reload always comes after the full 0.3 s wait. */
  lemma RestartActions(w: Wiring, s: Vec3)
    ensures Actions(RestartEvents(w, s)) == ButtonClickBody(w.audioSource && w.restartButton, s) + RestartGameBody()
  {
    ActionsConcat(ClickEvents(w, s), Launch(RestartGameRoutine, RestartGameBody()));
  }

  /** The first half of `RestartGame`: the click effect, when it is started at all. */
  function ClickEvents(w: Wiring, s: Vec3): seq<Event>
  {
    if w.audioSource && w.restartButton
    then Launch(ButtonClickEffectRoutine, ButtonClickBody(w.restartButton, s))
    else []
  }

  lemma RestartFacts(w: Wiring, s: Vec3, click: seq<Event>, reload: seq<Event>)
    requires click == if w.audioSource && w.restartButton
                      then Launch(ButtonClickEffectRoutine, ButtonClickBody(w.restartButton, s))
                      else []
    requires reload == Launch(RestartGameRoutine, RestartGameBody())
    ensures HasRoutine(click + reload, ButtonClickEffectRoutine) <==> w.audioSource && w.restartButton
    ensures ButtonScaleAfter(s, Actions(click + reload)) == s
  {
    assert reload == [Resume(RestartGameRoutine, RestartGameBody())];
    var es := click + reload;
    if w.audioSource && w.restartButton {
      var body := ButtonClickBody(true, s);
      assert click == [Do(body[0]), Resume(ButtonClickEffectRoutine, body[1..])];
      assert es[1].Resume? && es[1].routine == ButtonClickEffectRoutine;
    } else {
      assert es == reload;
    }
    ActionsConcat(click, reload);
    ButtonScaleAfterConcat(s, Actions(click), Actions(reload));
  }
}
