/**
 * The full-field tracker's pixel classifier and per-pixel intensity score
 * (lib/radar/motion-tracker.ts). The point forecaster has its own, different classifier in
 * `RainScan`; the two are deliberately kept apart.
 */
module MotionPixels {

  /** Is this RGBA sample one of the colours of the radar's rain scale? */
  predicate IsRainPixel(r: int, g: int, b: int, a: int)
  {
    if a < 128 then false
    // light rain: cyan / light blue
    else if g > 180 && b > 180 && r < 100 then true
    // moderate rain: green / yellow
    else if g > 180 && r > 100 && b < 150 then true
    // heavy rain: orange / red
    else if r > 180 && g < 150 && b < 100 then true
    // very heavy rain: magenta / purple
    else if r > 150 && b > 150 && g < 100 then true
    else false
  }

  /** A sample less than half opaque is never rain, whatever its colour. */
  lemma TranslucentIsNotRain(r: int, g: int, b: int, a: int)
    requires a < 128
    ensures !IsRainPixel(r, g, b, a)
  {
  }

  /** The intensity levels the score can take, heaviest first. */
  const Scores: seq<int> := [255, 200, 150, 100, 50]

  /** The numeric intensity score of a rain sample; the first matching rule wins. */
  function RainIntensity(r: int, g: int, b: int): (score: int)
    ensures score in Scores
    ensures 50 <= score <= 255
    ensures score == 255 <==> r > 200 && g < 100
  {
    if r > 200 && g < 100 then 255
    else if r > 180 && g > 100 && g < 180 then 200
    else if g > 180 && r > 150 then 150
    else if g > 180 && b > 180 then 100
    else 50
  }
}
