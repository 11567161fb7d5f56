/** Tick interval in milliseconds as a function of the score: it starts at 300 and decays
    towards 60. */
module Speed {

  /** Interval at score 0 (the source's BASE_SPEED). */
  const BaseSpeed: int := 300
  /** Floor of the interval (the source's MIN_SPEED). */
  const MinSpeed: int := 60

  /** round(60 + 240 * e^(-s / 12.5)), the decay curve of the source, as a table over the
      integer scores; from s = 78 on it rounds to 60. */
  function Decay(s: nat): int {
    match s
    case 0 => 300 case 1 => 282 case 2 => 265 case 3 => 249 case 4 => 234 case 5 => 221
    case 6 => 209 case 7 => 197 case 8 => 187 case 9 => 177 case 10 => 168 case 11 => 160
    case 12 => 152 case 13 => 145 case 14 => 138 case 15 => 132 case 16 => 127 case 17 => 122
    case 18 => 117 case 19 => 112 case 20 => 108 case 21 => 105 case 22 => 101 case 23 => 98
    case 24 => 95 case 25 => 92 case 26 => 90 case 27 => 88 case 28 => 86 case 29 => 84
    case 30 => 82 case 31 => 80 case 32 => 79 case 33 => 77 case 34 => 76 case 35 => 75
    case 36 => 73 case 37 => 72 case 38 => 71 case 39 => 71 case 40 => 70 case 41 => 69
    case 42 => 68 case 43 => 68 case 44 => 67 case 45 => 67 case 46 => 66 case 47 => 66
    case 48 => 65 case 49 => 65 case 50 => 64 case 51 => 64 case 52 => 64 case 53 => 63
    case 54 => 63 case 55 => 63 case 56 => 63 case 57 => 63 case 58 => 62 case 59 => 62
    case 60 => 62 case 61 => 62 case 62 => 62 case 63 => 62 case 64 => 61 case 65 => 61
    case 66 => 61 case 67 => 61 case 68 => 61 case 69 => 61 case 70 => 61 case 71 => 61
    case 72 => 61 case 73 => 61 case 74 => 61 case 75 => 61 case 76 => 61 case 77 => 61
    case _ => 60
  }

  /** The interval after reaching `score`, clamped below at MinSpeed. */
  function SpeedFromScore(score: nat): (r: int)
    ensures MinSpeed <= r <= BaseSpeed
    ensures score == 0 ==> r == BaseSpeed
  {
    var v := Decay(score);
    if v < MinSpeed then MinSpeed else v
  }

  /** One more point never makes the game slower. */
  lemma SpeedStep(score: nat)
    ensures SpeedFromScore(score + 1) <= SpeedFromScore(score)
  {
  }

  /** The interval never grows as the score grows. */
  lemma {:induction false} SpeedNonIncreasing(a: nat, b: nat)
    requires a <= b
    ensures SpeedFromScore(b) <= SpeedFromScore(a)
    decreases b - a
  {
    if a < b {
      SpeedStep(a);
      SpeedNonIncreasing(a + 1, b);
    }
  }
}
