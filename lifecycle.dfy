/**
 * The game's run state and the front end's rules for changing it: the pause
 * key, the restart key, which keys the engine obeys, and game over after a
 * drop that ends in defeat.
 */
module Lifecycle {

  /** The C enum `GameState`: PAUSE, PLAYING, GAME_OVER. */
  datatype GameState = Paused | Playing | GameOver

  /** The pause key: playing and paused swap; a finished game stays over. */
  function TogglePause(s: GameState): (t: GameState)
    ensures t == GameOver <==> s == GameOver
    ensures s != GameOver ==> t != s
  {
    if s == GameOver then GameOver
    else if s == Playing then Paused
    else Playing
  }

  /** Pressing the pause key twice gives back the state it started from. */
  lemma TogglePauseTwice(s: GameState)
    ensures TogglePause(TogglePause(s)) == s
  {
  }

  /**
   * The movement and rotation keys reach the engine in every state but game
   * over; in particular they still move and turn the piece while paused.
   */
  predicate AcceptsMoves(s: GameState)
  {
    s != GameOver
  }

  /** The per-frame update drops pieces only while playing. */
  predicate Falls(s: GameState)
  {
    s == Playing
  }

  /** The state after a timed drop: a defeat ends the game, otherwise play goes on. */
  function AfterDrop(s: GameState, defeat: bool): (t: GameState)
    requires Falls(s)
    ensures t == GameOver <==> defeat
    ensures !defeat ==> t == s
  {
    if defeat then GameOver else s
  }

  /**
   * The restart key: only a finished game restarts, and the fresh game data
   * starts out playing; in any other state the key does nothing.  After it
   * the game is never over.
   */
  function Restart(s: GameState): (t: GameState)
    ensures t != GameOver
    ensures t != s ==> s == GameOver
  {
    if s == GameOver then Playing else s
  }

  /** A second press of the restart key changes nothing, and the keys then reach the engine. */
  lemma RestartSettles(s: GameState)
    ensures Restart(Restart(s)) == Restart(s)
    ensures AcceptsMoves(Restart(s))
  {
  }

  /** Game over is left only by restarting: pausing, moving and dropping leave it in place. */
  lemma GameOverIsFinal()
    ensures TogglePause(GameOver) == GameOver
    ensures !AcceptsMoves(GameOver) && !Falls(GameOver)
    ensures Restart(GameOver) == Playing
  {
  }
}
