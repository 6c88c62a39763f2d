# GameManager: score, game over and restart, in Dafny

This project models the `GameManager` component of a small Unity game
(`Assets/Scripts/GameManager.cs`). The manager:

- counts the score and shows it;
- switches to game over when the player dies;
- runs the game-over presentation: a final-score text, an effect, a sound,
  then a delayed reveal of the game-over panel;
- restarts the scene after a short click effect;
- keeps itself the only manager in the scene.

The model is laid out as follows:

- `IntText` renders an `int` as C#'s `int.ToString()` does (as in
  `"Score : " + score`) with '-' as the negative sign, and proves that the
  text reads back to the number.
- `CSharpInt` is C#'s 32-bit `int`, with the unchecked addition `score +=`
  performs, which wraps modulo 2^32.
- `Engine` holds:
  - the effects the manager has on its collaborators, as `Action`s;
  - the engine's coroutine rule. A coroutine body is its list of actions, and
    `Wait(ms)` stands for `yield return new WaitForSeconds(...)`.
    `StartCoroutine` runs the body at once up to the first wait. The rest is
    recorded as one `Resume` event, which the engine runs later.
- `Pipelines` gives each operation's effects as a function of the manager's
  state and of its `Wiring`: which optional inspector references are non-null.
  It also proves what these effects are:
  - the order of the default game-over presentation;
  - which of its steps happen;
  - the lengths of the delays;
  - that the click effect returns the button to its original scale;
  - that the reload comes last;
  - that a run of `AddScore` calls sums its deltas modulo 2^32.
- `Game` holds the class `GameManager`. Its fields are the flag, the score,
  the wiring and the restart button's scale. It also keeps the trace of
  events it has caused so far. Its methods are proved to perform exactly the
  `Pipelines` events. `InstanceSlot` models the static `instance` field. A
  few scenario methods assert the outcome of short call sequences.

The model follows the code as written, in particular:

- `OnPlayerDead` has no guard. A second call runs the whole presentation
  again, and `SecondDeathRepeats` shows this.
- `RestartGame` has no guard either. Every call starts new coroutines.
- The click effect needs an audio source as well as the button (line 86),
  not just the button.
- The score may go negative. `AddScore` accepts any `int`, and the sum wraps
  at 32 bits.
- Without a game-over panel, the reveal coroutine only waits: neither the
  animation controller nor the tween runs (lines 175-201).

## Model

| member | source | states |
|---|---|---|
| CSharpInt.Wrap | Assets/Scripts/GameManager.cs:124 | a value already in 32-bit range is kept; anything else wraps into the range |
| CSharpInt.WrappingAdd | Assets/Scripts/GameManager.cs:124 | `score += newScore` equals the mathematical sum whenever that sum fits in 32 bits |
| CSharpInt.WrapCongruent | Assets/Scripts/GameManager.cs:124 | the wrapped value is congruent to the true value modulo 2^32 |
| CSharpInt.WrapUnique | Assets/Scripts/GameManager.cs:124 | the wrapped value is the only 32-bit value congruent to the true value |
| CSharpInt.WrapAbsorbs | Assets/Scripts/GameManager.cs:124 | wrapping after each addition is the same as wrapping once at the end |
| IntText.NatToString | Assets/Scripts/GameManager.cs:125 | non-empty digits with no leading zero, and exactly "0" for zero |
| IntText.IntToString | Assets/Scripts/GameManager.cs:125 | a leading '-' exactly for negative scores; the digits that follow, or the whole text for a non-negative score, have no leading zero, '0' leads only for zero, and zero is exactly "0" |
| IntText.ParseIntToString | Assets/Scripts/GameManager.cs:125 | the rendered text reads back to the score |
| IntText.IntToStringInjective | Assets/Scripts/GameManager.cs:125 | different scores render differently |
| Pipelines.LabelsReadBack | Assets/Scripts/GameManager.cs:125-152 | both labels, the score text (line 125) and the final-score text (line 152), start with their fixed prefix, and the rest reads back to the score |
| Pipelines.ScoreLabelInjective | Assets/Scripts/GameManager.cs:125 | the score display determines the score |
| Pipelines.AddScoreStep | Assets/Scripts/GameManager.cs:119-127 | after game over nothing changes and nothing is displayed; otherwise the score grows by the delta (32-bit), and the display is set once to the new score's label |
| Pipelines.AddScoreCallsSum | Assets/Scripts/GameManager.cs:119-127 | while playing, any run of calls leaves the score at the initial score plus the sum of the deltas, wrapped to 32 bits |
| Pipelines.AddScoreCallsDisplay | Assets/Scripts/GameManager.cs:119-127 | while playing, each call updates the display exactly once, and the display ends on the final score |
| Pipelines.AddScoreCallsAfterGameOver | Assets/Scripts/GameManager.cs:121 | after game over, no run of calls changes the score or causes any effect |
| Pipelines.ShowGameOverUIBody | Assets/Scripts/GameManager.cs:172-202 | the coroutine starts with the 0.5 s wait, activates the panel exactly when one is wired, and waits 0.5 s plus 0.6 s more only on the tween path |
| Pipelines.RevealChoice | Assets/Scripts/GameManager.cs:175-200 | with a panel, the animation controller is told iff one is wired, and otherwise the tween runs, fading iff a canvas group is wired; without a panel neither runs |
| Pipelines.DefaultGameOverEvents | Assets/Scripts/GameManager.cs:147-169 | the default path performs exactly the steps enabled by the wiring, each at most once and in the fixed order (text, effect, sound, delay, panel, reveal); everything from the delay on is left to the reveal coroutine |
| Pipelines.FinalScoreShownFirst | Assets/Scripts/GameManager.cs:150-153 | with a final-score text wired, showing the final score is the first effect |
| Pipelines.GameOverEvents | Assets/Scripts/GameManager.cs:134-143 | a wired game-over UI controller gets the score and nothing else happens; otherwise the default path runs |
| Pipelines.ButtonClickBody | Assets/Scripts/GameManager.cs:97-110 | with a button: shrink to 0.9 of the original scale, wait 0.1 s, afterwards the original scale exactly; with no button: nothing |
| Pipelines.RestartGameBody | Assets/Scripts/GameManager.cs:113-116 | two steps: a wait of 0.3 s, then the reload of the scene as its last and only reload step |
| Pipelines.RestartEvents | Assets/Scripts/GameManager.cs:84-94 | the click effect starts iff an audio source and a button are wired. The delayed reload is always the last coroutine started. Once everything has run, the button's scale is back to where it started |
| Pipelines.RestartActions | Assets/Scripts/GameManager.cs:84-94 | all actions of a restart are exactly the click body (when started) followed by the reload body: nothing else happens, and the reload always comes after the full 0.3 s wait |
| Engine.FirstWait | Assets/Scripts/GameManager.cs:174 | the steps before the returned position contain no wait, and the step at it is one |
| Engine.Launch | Assets/Scripts/GameManager.cs:168 | starting a coroutine performs its body's steps up to the first wait at once and leaves the rest, starting with that wait, for later; together these are exactly the body |
| Game.InstanceSlot.constructor | Assets/Scripts/GameManager.cs:11 | the static `instance` field starts out empty (null) |
| Game.GameManager.StartCoroutine | Assets/Scripts/GameManager.cs:168 | the engine call used at lines 89, 93 and 168: appends `Launch` of the body to the trace, and applies to the button's scale the scale changes the body makes before its first wait |
| Game.GameManager.constructor | Assets/Scripts/GameManager.cs:13-26 | a new manager has score 0, is not game over and has done nothing |
| Game.GameManager.Awake | Assets/Scripts/GameManager.cs:30-46 | the first manager registers itself; a later one leaves the registration alone, then logs the warning and destroys its object |
| Game.GameManager.Update | Assets/Scripts/GameManager.cs:75-81 | a frame restarts the game iff the game is over and the mouse button went down; otherwise nothing changes |
| Game.GameManager.RestartGame | Assets/Scripts/GameManager.cs:84-94 | performs `RestartEvents` for the current button scale; the button is shrunk at once iff the click effect starts |
| Game.GameManager.ButtonClickEffect | Assets/Scripts/GameManager.cs:97-110 | the coroutine's steps, with the scale read when it starts, are `ButtonClickBody` |
| Game.GameManager.RestartGameCoroutine | Assets/Scripts/GameManager.cs:113-116 | the coroutine's steps are `RestartGameBody` |
| Game.GameManager.AddScore | Assets/Scripts/GameManager.cs:119-127 | the new score and the effects are those of `AddScoreStep` |
| Game.GameManager.OnPlayerDead | Assets/Scripts/GameManager.cs:130-144 | the game is over afterwards, and the effects are `GameOverEvents` for the current score |
| Game.GameManager.ShowDefaultGameOverUI | Assets/Scripts/GameManager.cs:147-169 | the effects are `DefaultGameOverEvents` for the current score, and the button scale is untouched |
| Game.GameManager.ShowGameOverUI | Assets/Scripts/GameManager.cs:172-202 | the coroutine's steps are `ShowGameOverUIBody` |

## Left out

- Unity plumbing: components, the scene graph and inspector wiring.
  - Which references are non-null is the `Wiring` parameter.
  - `Start` (lines 48-73) is not modelled. It looks up or adds the audio
    source, registers the button's listener and hides the panel. After it,
    `audioSource` is always wired, but the model lets it be absent, as it is
    before `Start`.
- The mouse poll `Input.GetMouseButtonDown(0)` becomes a parameter of `Update`.
- Real time and the interleaving of coroutines with frames.
  - Each coroutine is recorded as its remaining steps, in order.
  - The engine's later execution of those steps is not modelled.
  - Neither is the cancellation of pending steps when the scene reloads.
- The DOTween reveal (lines 186-197) is one `TweenReveal` step. Its inner
  tweens, easing curves and durations are not modelled, apart from whether
  it fades.
- `DefaultUIAnimation` and `EaseOutBack` (lines 205-246) are not modelled.
  Both use single-precision floating point, and `DefaultUIAnimation` is never
  started.
- `Vec3` uses exact reals: single-precision rounding of `localScale * 0.9f`
  is not modelled.
- `SendMessage` to a receiver without the method is a no-op in the engine. The model
  records only that the message was sent.
- `SceneManager.LoadScene`: the reload itself, which rebuilds the manager, is
  not modelled.
- Game.GameManager.Awake: compares the slot with plain reference equality.
  Unity's overloaded `instance == null` (line 32) is also true for a manager
  that has been destroyed, which is how the manager of a reloaded scene
  registers again although the static field survives the reload. Since the
  reload is not modelled, "a later one leaves the registration alone" covers
  only managers awake in the same scene.
- Game.GameManager.AddScore: requires the score text to be wired while the
  game is not over. In that case the source dereferences it without a check
  and would throw; the exception path is not modelled. After game over the
  call is allowed without a score text and changes nothing, as in the source.
- IntText.IntToString: the negative sign is fixed to '-'. `int.ToString()`
  uses the current culture's negative sign, which is not always '-'; other
  cultures' signs are not modelled.
