/** The product-page image carousel: a main image chosen by `activeIndex`,
    cyclic previous/next arrows, and a row of thumbnails. */
module ProductImageCarousel {

  /** The `next` arrow: the index after `i`, wrapping from the last image to
      the first. */
  function NextIndex(i: nat, n: nat): (r: nat)
    requires i < n
    ensures r < n
  {
    if i == n - 1 then 0 else i + 1
  }

  /** The `prev` arrow: the index before `i`, wrapping from the first image
      to the last. */
  function PrevIndex(i: nat, n: nat): (r: nat)
    requires i < n
    ensures r < n
  {
    if i == 0 then n - 1 else i - 1
  }

  /** `next` is a step of one modulo the number of images, ... */
  lemma NextIsModular(i: nat, n: nat)
    requires i < n
    ensures NextIndex(i, n) == (i + 1) % n
  {
    if i + 1 < n {
      assert (i + 1) % n == i + 1;
    }
  }

  /** ... and `prev` a step of minus one modulo the number of images. */
  lemma PrevIsModular(i: nat, n: nat)
    requires i < n
    ensures PrevIndex(i, n) == (i + n - 1) % n
  {
    if i == 0 {
      assert (n - 1) % n == n - 1;
    } else {
      assert (i + n - 1) % n == i - 1 by {
        assert i + n - 1 == (i - 1) + n;
      }
    }
  }

  /** The arrows undo each other. */
  lemma ArrowsInverse(i: nat, n: nat)
    requires i < n
    ensures NextIndex(PrevIndex(i, n), n) == i
    ensures PrevIndex(NextIndex(i, n), n) == i
  {
  }

  /** With a single image both arrows stay on it. */
  lemma SingleImageStays(i: nat)
    requires i < 1
    ensures NextIndex(i, 1) == 0 && PrevIndex(i, 1) == 0
  {
  }

  datatype Thumbnail = Thumbnail(src: string, highlighted: bool)

  /** What the component renders: the "No Image" placeholder, or the main
      image with the arrows and thumbnails shown for more than one image. */
  datatype View =
    | NoImage
    | Gallery(main: string, arrows: bool, thumbnails: seq<Thumbnail>)

  class Carousel {
    const images: seq<string>
    var activeIndex: nat

    /** For a non-empty list the index picks an image; with no images it is
        never used and stays at its initial 0. */
    ghost predicate Valid()
      reads this
    {
      if images == [] then activeIndex == 0 else activeIndex < |images|
    }

    constructor (images: seq<string>)
      ensures Valid() && this.images == images && activeIndex == 0
    {
      this.images := images;
      activeIndex := 0;
    }

    /** The `prev` handler; it exists only past the empty-images return. */
    method Prev()
      requires Valid() && images != []
      modifies this
      ensures Valid() && activeIndex == PrevIndex(old(activeIndex), |images|)
    {
      activeIndex := if activeIndex == 0 then |images| - 1 else activeIndex - 1;
    }

    /** The `next` handler; it exists only past the empty-images return. */
    method Next()
      requires Valid() && images != []
      modifies this
      ensures Valid() && activeIndex == NextIndex(old(activeIndex), |images|)
    {
      activeIndex := if activeIndex == |images| - 1 then 0 else activeIndex + 1;
    }

    /** A click on thumbnail `index`. */
    method SelectThumbnail(index: nat)
      requires Valid() && index < |images|
      modifies this
      ensures Valid() && activeIndex == index
    {
      activeIndex := index;
    }

    /** The rendered output. */
    function Render(): (v: View)
      reads this
      requires Valid()
      ensures v == NoImage <==> images == []
      ensures v.Gallery? ==> v.main == images[activeIndex]
      ensures v.Gallery? ==> (v.arrows <==> |images| > 1)
      ensures v.Gallery? ==> |v.thumbnails| == (if |images| > 1 then |images| else 0)
      ensures v.Gallery? ==> forall k :: 0 <= k < |v.thumbnails| ==>
        v.thumbnails[k].src == images[k] && (v.thumbnails[k].highlighted <==> k == activeIndex)
    {
      if images == [] then NoImage
      else
        var thumbs := if |images| > 1
          then seq(|images|, k requires 0 <= k < |images| reads this => Thumbnail(images[k], k == activeIndex))
          else [];
        Gallery(images[activeIndex], |images| > 1, thumbs)
    }
  }
}
