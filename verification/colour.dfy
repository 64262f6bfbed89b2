/**
 * The arithmetic of the title-label colour animation: an (r, g, b) state
 * moved by six guarded increments and decrements. From pure red with a
 * step of 1 it walks round the edge of the RGB colour hexagon
 * (red, yellow, green, cyan, blue, magenta) and back, 1530 steps a lap.
 */
module TitleColour {

  datatype Rgb = Rgb(r: int, g: int, b: int)

  /** The colour set up in the window's constructor. */
  const Start: Rgb := Rgb(255, 0, 0)

  /** Steps in one lap of the hexagon: six edges of 255 steps each. */
  const Lap: nat := 1530

  /**
   * One call of `animate_title_color`: the first guard that holds moves one
   * channel by `step`. Only one channel ever changes, and a colour with no
   * channel at 255 or none at 0 stays as it is.
   */
  function NextColor(c: Rgb, step: int): (d: Rgb)
    ensures (d.g == c.g && d.b == c.b) || (d.r == c.r && d.b == c.b) || (d.r == c.r && d.g == c.g)
    ensures d.r - c.r in {0, step, -step} && d.g - c.g in {0, step, -step} && d.b - c.b in {0, step, -step}
    ensures !(c.r == 255 || c.g == 255 || c.b == 255) || !(c.r == 0 || c.g == 0 || c.b == 0) ==> d == c
  {
    if c.r == 255 && c.g < 255 && c.b == 0 then c.(g := c.g + step)
    else if c.g == 255 && c.r > 0 && c.b == 0 then c.(r := c.r - step)
    else if c.g == 255 && c.b < 255 && c.r == 0 then c.(b := c.b + step)
    else if c.b == 255 && c.g > 0 && c.r == 0 then c.(g := c.g - step)
    else if c.b == 255 && c.r < 255 && c.g == 0 then c.(r := c.r + step)
    else if c.r == 255 && c.b > 0 && c.g == 0 then c.(b := c.b - step)
    else c
  }

  /** The colour after `n` calls from `c`, with the step the window uses. */
  function Walk(c: Rgb, n: nat): Rgb {
    if n == 0 then c else NextColor(Walk(c, n - 1), 1)
  }

  /** Position `n` on the hexagon's edge, counted from red, given independently of the guards. */
  function Hue(n: nat): (c: Rgb)
    requires n < Lap
    ensures OnHexagon(c)
  {
    if n < 255 then Rgb(255, n, 0)
    else if n < 510 then Rgb(510 - n, 255, 0)
    else if n < 765 then Rgb(0, 255, n - 510)
    else if n < 1020 then Rgb(0, 1020 - n, 255)
    else if n < 1275 then Rgb(n - 1020, 0, 255)
    else Rgb(255, 0, 1530 - n)
  }

  predicate InRange(x: int) {
    0 <= x <= 255
  }

  /** Every channel in [0, 255], one of them at 255 and one at 0. */
  predicate OnHexagon(c: Rgb) {
    InRange(c.r) && InRange(c.g) && InRange(c.b)
    && (c.r == 255 || c.g == 255 || c.b == 255)
    && (c.r == 0 || c.g == 0 || c.b == 0)
  }

  /** Exactly one channel differs, and by exactly 1. */
  predicate OneChannelByOne(c: Rgb, d: Rgb) {
    var dr, dg, db := d.r - c.r, d.g - c.g, d.b - c.b;
    (dr * dr == 1 && dg == 0 && db == 0)
    || (dr == 0 && dg * dg == 1 && db == 0)
    || (dr == 0 && dg == 0 && db * db == 1)
  }

  /** From any colour on the hexagon one step moves exactly one channel by 1 and stays on the hexagon. */
  lemma StepOnHexagon(c: Rgb)
    requires OnHexagon(c)
    ensures OnHexagon(NextColor(c, 1))
    ensures OneChannelByOne(c, NextColor(c, 1))
  {
    if c.r == 255 {
      if c.b == 0 {
        assert NextColor(c, 1) == if c.g < 255 then c.(g := c.g + 1) else c.(r := c.r - 1);
      } else {
        assert c.g == 0;
        assert NextColor(c, 1) == c.(b := c.b - 1);
      }
    } else if c.g == 255 {
      assert c.r == 0 || c.b == 0;
    } else {
      assert c.b == 255;
    }
  }

  /** One step moves one position along the hexagon, from the last position back to red. */
  lemma HueStep(n: nat)
    requires n < Lap
    ensures NextColor(Hue(n), 1) == if n + 1 < Lap then Hue(n + 1) else Start
  {
  }

  /** Walking `m + n` steps is walking `m` steps and then `n` more. */
  lemma {:induction false} WalkAdd(c: Rgb, m: nat, n: nat)
    ensures Walk(c, m + n) == Walk(Walk(c, m), n)
  {
    if n > 0 {
      WalkAdd(c, m, n - 1);
    }
  }

  /** Within the first lap the animation is at position `n`. */
  lemma {:induction false} WalkWithinLap(n: nat)
    requires n < Lap
    ensures Walk(Start, n) == Hue(n)
  {
    if n > 0 {
      WalkWithinLap(n - 1);
      HueStep(n - 1);
    }
  }

  /** A full lap of 1530 steps brings red back to red. */
  lemma LapReturns()
    ensures Walk(Start, Lap) == Start
  {
    WalkWithinLap(Lap - 1);
    HueStep(Lap - 1);
  }

  /** The colour is periodic with period 1530. */
  lemma Periodic(n: nat)
    ensures Walk(Start, n + Lap) == Walk(Start, n)
  {
    WalkAdd(Start, Lap, n);
    LapReturns();
  }

  lemma LapRemainder(n: nat)
    ensures n < Lap ==> n % Lap == n
    ensures n >= Lap ==> (n - Lap) % Lap == n % Lap
  {
  }

  /** The animation from red is the walk round the hexagon: after `n` steps it is at position `n mod 1530`. */
  lemma {:induction false} WalkIsHue(n: nat)
    ensures Walk(Start, n) == Hue(n % Lap)
    decreases n
  {
    LapRemainder(n);
    if n < Lap {
      WalkWithinLap(n);
    } else {
      WalkIsHue(n - Lap);
      Periodic(n - Lap);
    }
  }

  /** Distinct positions are distinct colours. */
  lemma HueInjective(m: nat, n: nat)
    requires m < Lap && n < Lap && Hue(m) == Hue(n)
    ensures m == n
  {
  }

  /** The animation is back at red exactly after whole laps of 1530 steps. */
  lemma ReturnsToStart(n: nat)
    ensures Walk(Start, n) == Start <==> n % Lap == 0
  {
    WalkIsHue(n);
    assert Start == Hue(0);
    if Walk(Start, n) == Start {
      HueInjective(n % Lap, 0);
    }
  }

  /** Every colour reached from red is on the hexagon, and each step changes one channel by 1. */
  lemma WalkInvariants(n: nat)
    ensures OnHexagon(Walk(Start, n))
    ensures OneChannelByOne(Walk(Start, n), Walk(Start, n + 1))
  {
    WalkIsHue(n);
    StepOnHexagon(Walk(Start, n));
  }
}
