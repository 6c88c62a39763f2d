/** The `GameManager` component: score, game-over flag, singleton
    registration, and the presentation it drives through the engine.

    Fields the engine owns (texts, panel, audio, the button's transform) are
    not modelled as objects: what the manager does to them is appended to
    `trace`, and `wiring` says which of its optional references are non-null.
    The restart button's `localScale` is kept in `buttonScale`, because the
    click effect reads it. */
module Game {
  import opened Engine
  import opened CSharpInt
  import opened Pipelines
  import opened IntText

  /** The text of the warning a second manager logs before destroying itself. */
  const DuplicateManagerWarning: string := "씬에 두개 이상의 게임 매니저가 존재합니다!"

  /** The static field `GameManager.instance`. */
  class InstanceSlot {
    var instance: GameManager?

    constructor ()
      ensures instance == null
    {
      instance := null;
    }
  }

  class GameManager {
    var isGameover: bool
    var score: Int32
    var wiring: Wiring
    var buttonScale: Vec3
    var trace: seq<Event>

    /** A freshly loaded manager: score 0, not game over, nothing done yet. */
    constructor (w: Wiring, initialButtonScale: Vec3)
      ensures !isGameover && score == 0
      ensures wiring == w && buttonScale == initialButtonScale && trace == []
    {
      isGameover := false;
      score := 0;
      wiring := w;
      buttonScale := initialButtonScale;
      trace := [];
    }

    /** The first manager to wake registers itself; any later one logs a
        warning and destroys its game object, leaving the registration alone. */
    method Awake(slot: InstanceSlot)
      modifies slot, this`trace
      ensures old(slot.instance) == null ==> slot.instance == this && trace == old(trace)
      ensures old(slot.instance) != null ==>
                slot.instance == old(slot.instance)
                && trace == old(trace) + [Do(LogWarning(DuplicateManagerWarning)), Do(DestroyGameObject)]
    {
      if slot.instance == null {
        slot.instance := this;
      } else {
        trace := trace + [Do(LogWarning(DuplicateManagerWarning)), Do(DestroyGameObject)];
      }
    }

    /** One frame: a click while the game is over restarts, anything else does nothing. */
    method Update(mouseButtonDown: bool)
      modifies this`trace, this`buttonScale
      ensures isGameover && mouseButtonDown ==> trace == old(trace) + RestartEvents(wiring, old(buttonScale))
      ensures isGameover && mouseButtonDown ==>
                buttonScale == if wiring.audioSource && wiring.restartButton
                               then Scaled(old(buttonScale), ClickScale) else old(buttonScale)
      ensures !(isGameover && mouseButtonDown) ==> trace == old(trace) && buttonScale == old(buttonScale)
      ensures |trace| > |old(trace)| <==> isGameover && mouseButtonDown
    {
      if isGameover && mouseButtonDown {
        RestartGame();
      }
    }

    /** Start the click effect (only with an audio source and a button), then
        always the delayed reload. Each call starts new coroutines. */
    method RestartGame()
      modifies this`trace, this`buttonScale
      ensures trace == old(trace) + RestartEvents(wiring, old(buttonScale))
      ensures buttonScale == if wiring.audioSource && wiring.restartButton
                             then Scaled(old(buttonScale), ClickScale) else old(buttonScale)
    {
      var before := trace;
      var original := buttonScale;
      var clicked: seq<Event> := [];
      if wiring.audioSource && wiring.restartButton {
        var click := ButtonClickEffect();
        StartCoroutine(ButtonClickEffectRoutine, click);
        clicked := Launch(ButtonClickEffectRoutine, click);
        assert clicked == ClickEvents(wiring, original);
        StepCons(original, click[0], []);
        assert click[..FirstWait(click)] == [click[0]];
      }
      var reload := RestartGameCoroutine();
      StartCoroutine(RestartGameRoutine, reload);
      assert reload[..FirstWait(reload)] == [];
      assert clicked == ClickEvents(wiring, original);
      EventsAssoc(before, clicked, Launch(RestartGameRoutine, reload));
    }

    /** The body of `ButtonClickEffect`, with the button's scale read when it
        starts; `ButtonClickBody` states this body and its properties. */
    method ButtonClickEffect() returns (body: seq<Action>)
      ensures body == ButtonClickBody(wiring.restartButton, buttonScale)
    {
      body := [];
      if wiring.restartButton {
        var originalScale := buttonScale;
        body := body + [SetButtonScale(Scaled(originalScale, ClickScale))];
        body := body + [Wait(ClickMs)];
        body := body + [SetButtonScale(originalScale)];
      }
    }

    /** The body of `RestartGameCoroutine`; `RestartGameBody` states it and its properties. */
    method RestartGameCoroutine() returns (body: seq<Action>)
      ensures body == RestartGameBody()
    {
      body := [Wait(RestartDelayMs)];
      body := body + [LoadActiveScene];
    }

    /** Add to the score and show it, unless the game is over. While the game
        runs the score text must be wired: the source then dereferences it
        without a check. After game over the call touches nothing. */
    method AddScore(newScore: Int32)
      requires !isGameover ==> wiring.scoreText
      modifies this`score, this`trace
      ensures score == AddScoreStep(old(score), isGameover, newScore).score
      ensures trace == old(trace) + AddScoreStep(old(score), isGameover, newScore).events
    {
      if !isGameover {
        score := WrappingAdd(score, newScore);
        trace := trace + [Do(SetScoreText(ScoreLabel(score as int)))];
      }
    }

    /** The player died: the game is over from now on, and the game-over
        presentation for the current score starts. A second call runs it again. */
    method OnPlayerDead()
      modifies this`isGameover, this`trace, this`buttonScale
      ensures isGameover
      ensures trace == old(trace) + GameOverEvents(wiring, score)
      ensures buttonScale == old(buttonScale)
    {
      isGameover := true;
      if wiring.gameOverUIController {
        trace := trace + [Do(SendShowGameOverUI(score as int))];
      } else {
        ShowDefaultGameOverUI();
      }
    }

    method ShowDefaultGameOverUI()
      modifies this`trace, this`buttonScale
      ensures trace == old(trace) + DefaultGameOverEvents(wiring, score)
      ensures buttonScale == old(buttonScale)
    {
      var text: seq<Action> := [];
      if wiring.finalScoreText {
        text := [SetFinalScoreText(FinalScoreLabel(score as int))];
      }
      var effect: seq<Action> := [];
      if wiring.gameOverEffectController {
        effect := [SendPlayGameOverEffect];
      }
      var sound: seq<Action> := [];
      if wiring.audioSource && wiring.gameoverSoundClip {
        sound := [PlayGameOverSound];
      }
      var now := text + effect + sound;
      assert now == ImmediateGameOverSteps(wiring, score);
      var before := trace;
      trace := trace + Immediate(now);
      var steps := ShowGameOverUI();
      StartCoroutine(ShowGameOverUIRoutine, steps);
      assert steps[..FirstWait(steps)] == [];
      EventsAssoc(before, Immediate(now), Launch(ShowGameOverUIRoutine, steps));
      DefaultGameOverEventsSplit(wiring, score);
    }

    /** The body of `ShowGameOverUI`; `ShowGameOverUIBody` states it and its properties. */
    method ShowGameOverUI() returns (body: seq<Action>)
      ensures body == ShowGameOverUIBody(wiring)
    {
      body := [Wait(RevealDelayMs)];
      if wiring.gameoverUI {
        body := body + [ActivateGameOverUI];
        if wiring.uiAnimationController {
          body := body + [SendPlayUIAnimation];
        } else {
          body := body + [TweenReveal(wiring.gameoverCanvasGroup), Wait(RevealWaitMs)];
        }
      }
    }

    /** The engine's `StartCoroutine`: run the body up to its first wait now
        (only a button scale change has an effect on the state kept here),
        and record the rest for the engine to resume. */
    method StartCoroutine(r: Routine, body: seq<Action>)
      modifies this`trace, this`buttonScale
      ensures trace == old(trace) + Launch(r, body)
      ensures buttonScale == ButtonScaleAfter(old(buttonScale), body[..FirstWait(body)])
    {
      trace := trace + Launch(r, body);
      buttonScale := ButtonScaleAfter(buttonScale, body[..FirstWait(body)]);
    }
  }

  /** Every optional reference wired except the two controllers, so the
      default game-over presentation runs. */
  const FullyWired := Wiring(true, true, true, true, true, true, false, false, true, true)

  const UnitScale := Vec3(1.0, 1.0, 1.0)

  /** Scores add up and the label shows the running total. */
  method ScoresAccumulate()
  {
    var gm := new GameManager(FullyWired, UnitScale);
    gm.AddScore(10);
    gm.AddScore(5);
    assert gm.score == 15;
    assert NatToString(15) == "15";
    assert ScoreLabel(15) == "Score : 15";
    assert gm.trace[1] == Do(SetScoreText("Score : 15"));
  }

  /** The final score, here still 0, is the first thing the game-over presentation shows. */
  method DeathShowsFinalScore()
  {
    var gm := new GameManager(FullyWired, UnitScale);
    gm.OnPlayerDead();
    FinalScoreShownFirst(FullyWired, 0);
    assert FinalScoreLabel(0) == "Final Score: 0";
    assert gm.trace[0] == Do(SetFinalScoreText("Final Score: 0"));
  }

  /** A score that arrives after death changes nothing. */
  method LateScoreIgnored()
  {
    var gm := new GameManager(FullyWired.(gameOverUIController := true), UnitScale);
    gm.AddScore(15);
    gm.OnPlayerDead();
    var before := gm.trace;
    gm.AddScore(100);
    assert gm.score == 15 && gm.trace == before;
  }

  /** After game over a score may arrive even without a score text wired:
      the call is guarded and changes nothing. */
  method LateScoreWithoutText()
  {
    var w := FullyWired.(scoreText := false, gameOverUIController := true);
    var gm := new GameManager(w, UnitScale);
    gm.OnPlayerDead();
    var before := gm.trace;
    gm.AddScore(5);
    assert gm.score == 0 && gm.trace == before;
  }

  /** Nothing stops a second death: the presentation runs again. */
  method SecondDeathRepeats()
  {
    var gm := new GameManager(FullyWired, UnitScale);
    gm.OnPlayerDead();
    var once := gm.trace;
    gm.OnPlayerDead();
    assert gm.trace == once + once;
  }

  /** A click restarts only once the game is over. */
  method ClickBeforeDeathIgnored()
  {
    var gm := new GameManager(FullyWired, UnitScale);
    gm.Update(true);
    assert gm.trace == [] && gm.buttonScale == UnitScale;
  }

  /** The restart shrinks the button at once and leaves the reload for later;
      here a game-over controller takes over the presentation. */
  method ClickAfterDeathRestarts()
  {
    var gm := new GameManager(FullyWired.(gameOverUIController := true), UnitScale);
    gm.OnPlayerDead();
    gm.Update(true);
    assert RestartGameBody() == [Wait(300), LoadActiveScene];
    assert gm.trace[|gm.trace| - 1] == Resume(RestartGameRoutine, [Wait(300), LoadActiveScene]);
    assert gm.buttonScale == Vec3(0.9, 0.9, 0.9);
  }

  /** Two managers in one scene: the second one keeps out of the slot. */
  method TwoManagers()
  {
    var w := Wiring(true, true, true, true, true, true, true, true, true, true);
    var slot := new InstanceSlot();
    var first := new GameManager(w, Vec3(1.0, 1.0, 1.0));
    var second := new GameManager(w, Vec3(1.0, 1.0, 1.0));
    first.Awake(slot);
    second.Awake(slot);
    assert slot.instance == first;
    assert first.trace == [];
    assert second.trace == [Do(LogWarning(DuplicateManagerWarning)), Do(DestroyGameObject)];
  }
}
