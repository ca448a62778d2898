/** The two image rotations: the page background, which the script advances
    every five seconds, and an image slider as `makeImageSlider` sets it up
    once it has found its image (the script's own calls never find one).
    Both advance their counter with `(i + 1) % n`. */
module Carousel {

  /** `(i + 1) % n`: the next position, wrapping from the last to the first. */
  function Next(i: nat, n: nat): (j: nat)
    requires n > 0
    ensures j < n
    ensures i + 1 < n ==> j == i + 1
    ensures i + 1 == n ==> j == 0
  {
    (i + 1) % n
  }

  /** The counter after `k` advances from 0. */
  function After(k: nat, n: nat): (i: nat)
    requires n > 0
    ensures i < n
  {
    if k == 0 then 0 else Next(After(k - 1, n), n)
  }

  /** Within the first `n` advances the counter takes every position once,
      in order. */
  lemma {:induction false} AfterFirstRound(k: nat, n: nat)
    requires k < n
    ensures After(k, n) == k
  {
    if k > 0 {
      AfterFirstRound(k - 1, n);
    }
  }

  /** After `n` more advances the counter is back where it was: the rotation
      is periodic with period `n`. */
  lemma {:induction false} AfterPeriodic(k: nat, n: nat)
    requires n > 0
    ensures After(k + n, n) == After(k, n)
  {
    if k == 0 {
      AfterFirstRound(n - 1, n);
    } else {
      AfterPeriodic(k - 1, n);
      assert k + n - 1 == (k - 1) + n;
    }
  }

  /** Euclidean division is unique: a remainder in `[0, n)` is `a % n`. */
  lemma ModUnique(a: nat, q: nat, r: nat, n: nat)
    requires n > 0 && a == q * n + r && r < n
    ensures a % n == r
  {
    var q' := a / n;
    if q' > q {
      MulMonotone(q + 1, q', n);
    } else if q' < q {
      MulMonotone(q' + 1, q, n);
    }
  }

  lemma MulMonotone(a: nat, b: nat, n: nat)
    requires a <= b
    ensures a * n <= b * n
  {
  }

  /** One more advance of `a` moves its remainder one position on. */
  lemma ModStep(a: nat, n: nat)
    requires n > 0
    ensures (a + 1) % n == Next(a % n, n)
  {
    var q, r := a / n, a % n;
    assert a == q * n + r;
    if r + 1 == n {
      assert (q + 1) * n == q * n + n;
      ModUnique(a + 1, q + 1, 0, n);
    } else {
      ModUnique(a + 1, q, r + 1, n);
    }
  }

  /** After `k` advances from 0 the counter is `k mod n`. */
  lemma {:induction false} AfterIsMod(k: nat, n: nat)
    requires n > 0
    ensures After(k, n) == k % n
  {
    if k > 0 {
      AfterIsMod(k - 1, n);
      ModStep(k - 1, n);
      assert After(k, n) == Next(After(k - 1, n), n) == Next((k - 1) % n, n);
    }
  }

  /** The background images, in rotation order. */
  const BackgroundImages: seq<string> := [
    "images/stars.jpg", "images/space2.jpg", "images/city1.jpg",
    "images/lion3.jpg", "images/love2.jpg", "images/Tech.jpg",
    "images/Jupiter.jpg", "images/city2.jpg", "images/Niger4.jpg"
  ]

  /** The body background: the counter `current` and the last
      `backgroundImage` the interval set. */
  class Background {
    const images: seq<string>
    var current: nat
    var backgroundImage: string
    /** How often the interval has fired. */
    ghost var ticks: nat

    ghost predicate Valid()
      reads this
    {
      |images| > 0 && current == After(ticks, |images|)
    }

    /** The script's top level: `current` starts at 0, the page keeps its
        own background until the first tick. */
    constructor (initialBackground: string)
      ensures Valid()
      ensures images == BackgroundImages && current == 0 && ticks == 0
      ensures backgroundImage == initialBackground
    {
      images := BackgroundImages;
      current := 0;
      ticks := 0;
      backgroundImage := initialBackground;
    }

    /** One firing of the five-second interval: show the current image, then
        advance the counter. The `k`-th firing, counting from 0, shows image
        `k mod n`. */
    method Tick()
      requires Valid()
      modifies this
      ensures Valid()
      ensures backgroundImage == "url(" + images[old(current)] + ")"
      ensures current == Next(old(current), |images|) && ticks == old(ticks) + 1
      ensures backgroundImage == "url(" + images[old(ticks) % |images|] + ")"
    {
      AfterIsMod(ticks, |images|);
      backgroundImage := "url(" + images[current] + ")";
      current := (current + 1) % |images|;
      ticks := ticks + 1;
    }
  }

  /** One image slider: the counter `index`, the `src` of the image and of its
      clone, whether the image is slid out (`translateX(-100%)`), and the
      one-second swap timers set and not yet fired. */
  class Slider {
    const images: seq<string>
    var index: nat
    var targetSrc: string
    var cloneSrc: string
    var targetSlidOut: bool
    var pendingSwaps: nat
    ghost var ticks: nat

    ghost predicate Valid()
      reads this
    {
      |images| > 0 && index == After(ticks, |images|)
    }

    /** `makeImageSlider`: the clone is a copy of the image; `index` starts at 0. */
    constructor (images0: seq<string>, src: string)
      requires |images0| > 0
      ensures Valid()
      ensures images == images0 && index == 0 && ticks == 0
      ensures targetSrc == src && cloneSrc == src && !targetSlidOut && pendingSwaps == 0
    {
      images := images0;
      index, ticks := 0, 0;
      targetSrc, cloneSrc := src, src;
      targetSlidOut, pendingSwaps := false, 0;
    }

    /** One firing of the slider's interval: advance the counter, slide the
        image out, put the next image in the clone, and set the swap timer.
        After `k` firings the clone shows image `k mod n`. */
    method Tick()
      requires Valid()
      modifies this
      ensures Valid()
      ensures index == Next(old(index), |images|) && ticks == old(ticks) + 1
      ensures cloneSrc == images[index] && targetSlidOut
      ensures cloneSrc == images[ticks % |images|]
      ensures pendingSwaps == old(pendingSwaps) + 1 && targetSrc == old(targetSrc)
    {
      AfterIsMod(ticks + 1, |images|);
      index := (index + 1) % |images|;
      targetSlidOut := true;
      cloneSrc := images[index];
      pendingSwaps := pendingSwaps + 1;
      ticks := ticks + 1;
    }

    /** A swap timer fires: the image takes the picture at the counter's value
        at this moment (the timer reads the shared `index`, not the value it
        had when it was set) and slides back. */
    method FireSwap()
      requires Valid() && pendingSwaps > 0
      modifies this
      ensures Valid()
      ensures targetSrc == images[index] && !targetSlidOut
      ensures pendingSwaps == old(pendingSwaps) - 1
      ensures index == old(index) && cloneSrc == old(cloneSrc) && ticks == old(ticks)
    {
      targetSrc := images[index];
      targetSlidOut := false;
      pendingSwaps := pendingSwaps - 1;
    }
  }
}
