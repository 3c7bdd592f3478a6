/** The input and scene flag records of FlagSystem: plain records of
    booleans with constructors and reset operations. */
module Flags {

  /** FlagSystem::FlagEvents: the game-end state and the pressed state of
      the w, a, s, d, b, m and space keys and of the mouse button. */
  datatype FlagEvents = FlagEvents(
    gameEnd: bool,
    wPressed: bool, aPressed: bool, sPressed: bool, dPressed: bool,
    bPressed: bool, mPressed: bool, spacePressed: bool,
    mouseClicked: bool)

  /** None of the seven keyboard flags is set. */
  predicate KeysReleased(f: FlagEvents) {
    !f.wPressed && !f.aPressed && !f.sPressed && !f.dPressed &&
    !f.bPressed && !f.mPressed && !f.spacePressed
  }

  /** The constructor clears the keyboard and mouse flags and leaves
      `gameEnd` uninitialised, so its value is a parameter here. */
  function NewFlagEvents(gameEnd: bool): (f: FlagEvents)
    ensures KeysReleased(f) && !f.mouseClicked
    ensures f.gameEnd == gameEnd
  {
    FlagEvents(gameEnd, false, false, false, false, false, false, false, false)
  }

  /** resetFlags: every one of the nine flags becomes false. */
  function ResetFlags(f: FlagEvents): (r: FlagEvents)
    ensures KeysReleased(r) && !r.gameEnd && !r.mouseClicked
  {
    FlagEvents(false, false, false, false, false, false, false, false, false)
  }

  /** allFlagKeyReleased: the seven keyboard flags become false and
      `gameEnd` and `mouseClicked` keep their values. */
  function AllFlagKeyReleased(f: FlagEvents): (r: FlagEvents)
    ensures KeysReleased(r)
    ensures r.gameEnd == f.gameEnd && r.mouseClicked == f.mouseClicked
  {
    f.(wPressed := false, aPressed := false, sPressed := false, dPressed := false,
       bPressed := false, mPressed := false, spacePressed := false)
  }

  /** Two records agreeing on gameEnd and mouseClicked, with all keys
      released, are the same record: the contracts above pin the results
      down completely. */
  lemma KeysReleasedDetermines(f: FlagEvents, g: FlagEvents)
    requires KeysReleased(f) && KeysReleased(g)
    requires f.gameEnd == g.gameEnd && f.mouseClicked == g.mouseClicked
    ensures f == g
  {
  }

  /** A reset forgets the previous state entirely. */
  lemma ResetFlagsForgets(f: FlagEvents, g: FlagEvents)
    ensures ResetFlags(f) == ResetFlags(g)
    ensures ResetFlags(f) == NewFlagEvents(false)
  {
  }

  lemma ResetFlagsIdempotent(f: FlagEvents)
    ensures ResetFlags(ResetFlags(f)) == ResetFlags(f)
  {
  }

  lemma AllFlagKeyReleasedIdempotent(f: FlagEvents)
    ensures AllFlagKeyReleased(AllFlagKeyReleased(f)) == AllFlagKeyReleased(f)
  {
  }

  /** Releasing the keys changes a record exactly when some key was down. */
  lemma AllFlagKeyReleasedFixpoint(f: FlagEvents)
    ensures AllFlagKeyReleased(f) == f <==> KeysReleased(f)
  {
  }

  /** After a full reset, releasing the keys changes nothing. */
  lemma ReleaseAfterReset(f: FlagEvents)
    ensures AllFlagKeyReleased(ResetFlags(f)) == ResetFlags(f)
  {
  }

  /** FlagSystem::SceneEvents. */
  datatype SceneEvents = SceneEvents(sceneEnd: bool, sceneStart: bool)

  function NewSceneEvents(): (s: SceneEvents)
    ensures !s.sceneEnd && !s.sceneStart
  {
    SceneEvents(false, false)
  }

  /** resetFlags zeroes the whole record. */
  function ResetSceneFlags(s: SceneEvents): (r: SceneEvents)
    ensures !r.sceneEnd && !r.sceneStart
  {
    SceneEvents(false, false)
  }

  /** For SceneEvents a reset restores the freshly constructed record. */
  lemma ResetSceneRestores(s: SceneEvents)
    ensures ResetSceneFlags(s) == NewSceneEvents()
    ensures ResetSceneFlags(ResetSceneFlags(s)) == ResetSceneFlags(s)
  {
  }

  /** FlagSystem::GameSceneEvents1. */
  datatype GameSceneEvents1 = GameSceneEvents1(sceneEnd: bool, sceneStart: bool, begin: bool)

  function NewGameSceneEvents1(): (s: GameSceneEvents1)
    ensures s.sceneStart && !s.sceneEnd && !s.begin
  {
    GameSceneEvents1(false, true, false)
  }

  /** resetFlags zeroes the whole record, `sceneStart` included. */
  function ResetGameSceneFlags(s: GameSceneEvents1): (r: GameSceneEvents1)
    ensures !r.sceneEnd && !r.sceneStart && !r.begin
  {
    GameSceneEvents1(false, false, false)
  }

  /** Unlike SceneEvents, a reset does not restore the constructed state:
      `sceneStart` starts out true and a reset makes it false. */
  lemma ResetGameSceneDiffers(s: GameSceneEvents1)
    ensures ResetGameSceneFlags(s) != NewGameSceneEvents1()
    ensures NewGameSceneEvents1().sceneStart && !ResetGameSceneFlags(NewGameSceneEvents1()).sceneStart
    ensures ResetGameSceneFlags(ResetGameSceneFlags(s)) == ResetGameSceneFlags(s)
  {
  }
}
