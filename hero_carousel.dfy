/** The home-page hero carousel: the active slides are loaded once, and an
    interval timer advances the shown slide cyclically while there is one. */
module HeroCarousel {
  import opened Wrappers
  import ProductImageCarousel

  datatype Slide = Slide(title: string, subtitle: string, image: string)

  /** The interval callback's update, `(prev + 1) % slides.length`. */
  function Advance(prev: nat, n: nat): (r: nat)
    requires n > 0
    ensures r < n
    ensures prev == n - 1 ==> r == 0
    ensures prev < n - 1 ==> r == prev + 1
  {
    (prev + 1) % n
  }

  /** On a valid index the advance is the product carousel's `next` arrow. */
  lemma AdvanceIsNext(i: nat, n: nat)
    requires i < n
    ensures Advance(i, n) == ProductImageCarousel.NextIndex(i, n)
  {
  }

  /** The index after `k` ticks of the timer, starting at `i`. */
  function AdvanceTimes(i: nat, n: nat, k: nat): (r: nat)
    requires i < n
    ensures r < n
  {
    if k == 0 then i else Advance(AdvanceTimes(i, n, k - 1), n)
  }

  /** Ticks compose: `a` ticks and then `b` more are `a + b` ticks. */
  lemma {:induction false} AdvanceTimesAdd(i: nat, n: nat, a: nat, b: nat)
    requires i < n
    ensures AdvanceTimes(i, n, a + b) == AdvanceTimes(AdvanceTimes(i, n, a), n, b)
  {
    if b > 0 {
      AdvanceTimesAdd(i, n, a, b - 1);
    }
  }

  /** Before the end of the list each tick moves one slide on. */
  lemma {:induction false} AdvanceTimesBelowEnd(i: nat, n: nat, k: nat)
    requires i + k < n
    ensures AdvanceTimes(i, n, k) == i + k
  {
    if k > 0 {
      AdvanceTimesBelowEnd(i, n, k - 1);
    }
  }

  /** After as many ticks as there are slides the carousel is back where it
      started. */
  lemma FullCycle(i: nat, n: nat)
    requires i < n
    ensures AdvanceTimes(i, n, n) == i
  {
    AdvanceTimesBelowEnd(i, n, n - i - 1);
    assert AdvanceTimes(i, n, n - i) == 0;
    AdvanceTimesAdd(i, n, n - i, i);
    AdvanceTimesBelowEnd(0, n, i);
  }

  /** So the shown slide repeats with period `n`. */
  lemma Periodic(i: nat, n: nat, k: nat)
    requires i < n
    ensures AdvanceTimes(i, n, k + n) == AdvanceTimes(i, n, k)
  {
    AdvanceTimesAdd(i, n, k, n);
    FullCycle(AdvanceTimes(i, n, k), n);
  }

  /** What the section renders: nothing, or one slide, whose image falls back
      to a "No Image" box when it is empty. */
  datatype View = Nothing | Showing(title: string, subtitle: string, image: Option<string>)

  class Rotator {
    var slides: seq<Slide>
    var index: nat

    ghost predicate Valid()
      reads this
    {
      if slides == [] then index == 0 else index < |slides|
    }

    constructor ()
      ensures Valid() && slides == [] && index == 0
    {
      slides := [];
      index := 0;
    }

    /** The once-on-mount fetch of the active slides resolving. */
    method Load(loaded: seq<Slide>)
      requires Valid() && slides == []
      modifies this
      ensures Valid() && slides == loaded && index == 0
    {
      slides := loaded;
    }

    /** The advance timer runs only while there are slides. */
    predicate TimerScheduled()
      reads this
    {
      slides != []
    }

    /** One tick of the advance timer. */
    method Tick()
      requires Valid() && TimerScheduled()
      modifies this`index
      ensures Valid() && index == Advance(old(index), |slides|)
    {
      index := (index + 1) % |slides|;
    }

    /** The rendered section: nothing without slides, else `slides[index]`. */
    function Render(): (v: View)
      reads this
      requires Valid()
      ensures v == Nothing <==> slides == []
      ensures v.Showing? ==> v.title == slides[index].title && v.subtitle == slides[index].subtitle
      ensures v.Showing? ==>
        v.image == (if slides[index].image == "" then None else Some(slides[index].image))
    {
      if slides == [] then Nothing
      else
        var slide := slides[index];
        Showing(slide.title, slide.subtitle, if slide.image == "" then None else Some(slide.image))
    }
  }
}
