/** The engine effects the game manager causes, and the engine's coroutine rule.

    Every effect on a collaborator (a text, the panel, the audio source, the
    scene loader, a message sent by name) is an `Action`. A coroutine body is
    the list of its actions, where `Wait(ms)` stands for a `yield return new
    WaitForSeconds(ms / 1000)`. Starting a coroutine runs its body at once up
    to the first wait; the rest is resumed by the engine later, which the
    trace records as one `Resume` event holding the remaining steps. */
module Engine {

  /** A `localScale`; the single-precision rounding of the engine is not modelled. */
  datatype Vec3 = Vec3(x: real, y: real, z: real)

  function Scaled(v: Vec3, k: real): Vec3
  {
    Vec3(v.x * k, v.y * k, v.z * k)
  }

  datatype Action =
    | SetScoreText(text: string)          // scoreText.text := text
    | SetFinalScoreText(text: string)     // finalScoreText.text := text
    | SendShowGameOverUI(finalScore: int) // gameOverUIController.SendMessage("ShowGameOverUI", score)
    | SendPlayGameOverEffect              // gameOverEffectController.SendMessage("PlayGameOverEffect")
    | PlayGameOverSound                   // audioSource.PlayOneShot(gameoverSoundClip)
    | Wait(ms: nat)                       // yield return new WaitForSeconds(ms / 1000)
    | ActivateGameOverUI                  // gameoverUI.SetActive(true)
    | SendPlayUIAnimation                 // uiAnimationController.SendMessage("PlayUIAnimation")
    | TweenReveal(withFade: bool)         // scale from zero with overshoot; fade in when a canvas group exists
    | SetButtonScale(scale: Vec3)         // restartButton.transform.localScale := scale
    | LoadActiveScene                     // SceneManager.LoadScene(active scene)
    | LogWarning(message: string)         // Debug.LogWarning(message)
    | DestroyGameObject                   // Destroy(gameObject)

  datatype Routine = ShowGameOverUIRoutine | ButtonClickEffectRoutine | RestartGameRoutine

  datatype Event =
    | Do(action: Action)                          // performed during the current call
    | Resume(routine: Routine, steps: seq<Action>) // left for the engine to run, in this order

  /** The position of the first wait in a coroutine body: what runs before it runs at once. */
  function FirstWait(body: seq<Action>): (k: nat)
    ensures k <= |body|
    ensures forall i :: 0 <= i < k ==> !body[i].Wait?
    ensures k < |body| ==> body[k].Wait?
  {
    if body == [] || body[0].Wait? then 0 else 1 + FirstWait(body[1..])
  }

  function Immediate(acts: seq<Action>): (es: seq<Event>)
    ensures |es| == |acts|
    ensures forall i :: 0 <= i < |acts| ==> es[i] == Do(acts[i])
  {
    seq(|acts|, i requires 0 <= i < |acts| => Do(acts[i]))
  }

  /** All actions of a trace in the order the engine performs them within each
      coroutine: immediate ones as they are, resumed ones in their recorded order. */
  function Actions(es: seq<Event>): seq<Action>
  {
    if es == [] then []
    else
      (match es[0]
       case Do(a) => [a]
       case Resume(_, steps) => steps) + Actions(es[1..])
  }

  lemma {:induction false} ActionsConcat(a: seq<Event>, b: seq<Event>)
    ensures Actions(a + b) == Actions(a) + Actions(b)
    decreases |a|
  {
    if a == [] {
      assert a + b == b;
    } else {
      assert (a + b)[0] == a[0];
      assert (a + b)[1..] == a[1..] + b;
      ActionsConcat(a[1..], b);
    }
  }

  lemma {:induction false} ActionsImmediate(acts: seq<Action>)
    ensures Actions(Immediate(acts)) == acts
    decreases |acts|
  {
    if acts != [] {
      assert Immediate(acts)[1..] == Immediate(acts[1..]);
      ActionsImmediate(acts[1..]);
    }
  }

  /** `StartCoroutine(body)`: the steps before the first wait happen now, the rest is resumed later. */
  function Launch(r: Routine, body: seq<Action>): (es: seq<Event>)
    ensures Actions(es) == body
    ensures forall i :: 0 <= i < |es| && es[i].Do? ==> !es[i].action.Wait?
    ensures forall i :: 0 <= i < |es| && es[i].Resume? ==>
              i == |es| - 1 && es[i].routine == r && es[i].steps != [] && es[i].steps[0].Wait?
    ensures body != [] && body[0].Wait? ==> es == [Resume(r, body)]
  {
    var k := FirstWait(body);
    var later := if k < |body| then [Resume(r, body[k..])] else [];
    ActionsConcat(Immediate(body[..k]), later);
    ActionsImmediate(body[..k]);
    assert body[..k] + body[k..] == body;
    Immediate(body[..k]) + later
  }

  /** The restart button's scale after the given actions, starting from `s`. */
  function ButtonScaleAfter(s: Vec3, acts: seq<Action>): Vec3
    decreases acts
  {
    if acts == [] then s
    else ButtonScaleAfter(if acts[0].SetButtonScale? then acts[0].scale else s, acts[1..])
  }

  lemma {:induction false} ButtonScaleAfterConcat(s: Vec3, a: seq<Action>, b: seq<Action>)
    ensures ButtonScaleAfter(s, a + b) == ButtonScaleAfter(ButtonScaleAfter(s, a), b)
    decreases |a|
  {
    if a == [] {
      assert a + b == b;
    } else {
      assert (a + b)[0] == a[0];
      assert (a + b)[1..] == a[1..] + b;
      ButtonScaleAfterConcat(if a[0].SetButtonScale? then a[0].scale else s, a[1..], b);
    }
  }

  /** The total time, in milliseconds, that the given actions wait. */
  function TotalWait(acts: seq<Action>): nat
  {
    if acts == [] then 0 else (if acts[0].Wait? then acts[0].ms else 0) + TotalWait(acts[1..])
  }

  lemma {:induction false} TotalWaitConcat(a: seq<Action>, b: seq<Action>)
    ensures TotalWait(a + b) == TotalWait(a) + TotalWait(b)
    decreases |a|
  {
    if a == [] {
      assert a + b == b;
    } else {
      assert (a + b)[0] == a[0];
      assert (a + b)[1..] == a[1..] + b;
      TotalWaitConcat(a[1..], b);
    }
  }

  /** One-step unfoldings of the three trace measures, for bodies written as `[a] + rest`. */
  lemma StepCons(s: Vec3, a: Action, rest: seq<Action>)
    ensures TotalWait([a] + rest) == (if a.Wait? then a.ms else 0) + TotalWait(rest)
    ensures ButtonScaleAfter(s, [a] + rest) == ButtonScaleAfter(if a.SetButtonScale? then a.scale else s, rest)
    ensures FirstWait([a] + rest) == if a.Wait? then 0 else 1 + FirstWait(rest)
  {
    assert ([a] + rest)[0] == a;
    assert ([a] + rest)[1..] == rest;
  }

  /** Appending to a trace in two steps is appending the two parts at once. */
  lemma EventsAssoc(a: seq<Event>, b: seq<Event>, c: seq<Event>)
    ensures a + b + c == a + (b + c)
  {
  }
}
