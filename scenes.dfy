/** The scene flow of the game: the menu starts a run, the end of a run
    starts the game-over scene with the final score, and "try again" starts
    a new run. The background scene runs beside all three and is not part of
    this flow. */
module Scenes {
  import opened Wrappers

  datatype Scene = MenuScene | GameScene | GameOverScene(finalScore: nat)

  datatype SceneEvent =
    | PlayPressed                   // play button, space or a tap in the menu
    | GameOverCallFired(score: nat) // the delayed call of the first hit
    | TryAgainPressed               // try-again button or space on the game-over screen

  /** `GameOverScene.init`: `data?.score || 0`, so missing data shows 0. */
  function GameOverInit(data: Option<nat>): (finalScore: nat)
    ensures data.Some? ==> finalScore == data.value
    ensures data.None? ==> finalScore == 0
  {
    match data
    case Some(s) => s
    case None => 0
  }

  /** The scene after one event. An event that belongs to another scene
      cannot happen in the current one (its handler is not registered), so
      it leaves the scene as it is. */
  function Next(s: Scene, e: SceneEvent): (r: Scene)
    ensures r.GameScene? <==>
      (s.MenuScene? && e.PlayPressed?) || (s.GameOverScene? && e.TryAgainPressed?)
      || (s.GameScene? && !e.GameOverCallFired?)
    ensures r.GameOverScene? && !s.GameOverScene? ==> s.GameScene? && r.finalScore == e.score
    ensures r.MenuScene? <==> s.MenuScene? && !e.PlayPressed?
    ensures s.GameOverScene? && !e.TryAgainPressed? ==> r == s
  {
    match (s, e)
    case (MenuScene, PlayPressed) => GameScene
    case (GameScene, GameOverCallFired(score)) => GameOverScene(GameOverInit(Some(score)))
    case (GameOverScene(_), TryAgainPressed) => GameScene
    case _ => s
  }

  /** The scene after a sequence of events. */
  function AfterEvents(s: Scene, es: seq<SceneEvent>): Scene
    decreases |es|
  {
    if es == [] then s else AfterEvents(Next(s, es[0]), es[1..])
  }

  /** Once the menu is left it is never shown again. */
  lemma {:induction false} MenuNeverReturns(s: Scene, es: seq<SceneEvent>)
    requires !s.MenuScene?
    ensures !AfterEvents(s, es).MenuScene?
    decreases |es|
  {
    if es != [] {
      MenuNeverReturns(Next(s, es[0]), es[1..]);
    }
  }

  /** The score on the game-over screen is the one a delayed game-over
      call carried during the events, unless the screen was already showing
      at the start. */
  lemma {:induction false} GameOverScoreFromCall(s: Scene, es: seq<SceneEvent>)
    requires AfterEvents(s, es).GameOverScene?
    ensures (s.GameOverScene? && AfterEvents(s, es).finalScore == s.finalScore)
         || exists i :: 0 <= i < |es| && es[i] == GameOverCallFired(AfterEvents(s, es).finalScore)
    decreases |es|
  {
    if es != [] {
      var t := Next(s, es[0]);
      GameOverScoreFromCall(t, es[1..]);
      if t.GameOverScene? && AfterEvents(t, es[1..]).finalScore == t.finalScore {
        if !s.GameOverScene? {
          assert es[0] == GameOverCallFired(t.finalScore);
        }
      } else {
        var i :| 0 <= i < |es[1..]| && es[1..][i] == GameOverCallFired(AfterEvents(t, es[1..]).finalScore);
        assert es[i + 1] == es[1..][i];
      }
    }
  }
}
