/** The choice of completion sound in `playRandomMeow` (script.js). Playback itself is not modelled. */
module Sound {
  import Format

  const SOUND_COUNT := 25

  /** `Math.floor(Math.random() * 25) + 1` for a value `r` of `Math.random()`, which lies in [0, 1). */
  function MeowIndex(r: real): (i: int)
    requires 0.0 <= r < 1.0
    ensures 1 <= i <= SOUND_COUNT
  {
    (r * 25.0).Floor + 1
  }

  /** The asset path for sound number `i`. */
  function SoundPath(i: nat): string
  {
    "assets/sounds/meow_" + Format.Decimal(i) + ".wav"
  }

  /**
   * The paths tried when playback keeps failing: the chosen sound, then, unless the choice
   * already was sound 1, the fallback sound 1. Sound 1 is always the last one tried.
   */
  function Attempts(i: nat): (paths: seq<string>)
    ensures 1 <= |paths| <= 2 && paths[0] == SoundPath(i)
    ensures paths[|paths| - 1] == SoundPath(1)
    ensures |paths| == 2 <==> i != 1
  {
    if i == 1 then [SoundPath(1)] else [SoundPath(i), SoundPath(1)]
  }
}
