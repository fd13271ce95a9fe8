/**
 * The screenshot carousel of each project section and the shared lightbox
 * (js/carousel.js). Browser events are method calls: a button click, a dot
 * click, a key press on the carousel, the two halves of a touch swipe, a
 * click on a screenshot. The "active" classes of the screenshots and of the
 * dots are two arrays of flags that showSlide rewrites in place.
 */
module Carousel {
  import opened Common
  import opened ProjectSection

  /** showSlide's wrap-around: past the end goes to the first slide, before the start to the last. */
  function WrapIndex(index: int, count: nat): (r: int)
    ensures count > 0 ==> 0 <= r < count
    ensures 0 <= index < count ==> r == index
    ensures index >= count ==> r == 0
    ensures index < 0 ==> r == count - 1
    ensures count == 0 ==> r == if index < 0 then -1 else 0
  {
    var i := if index >= count then 0 else index;
    if i < 0 then count - 1 else i
  }

  /**
   * Next on the last slide shows the first one; previous on the first shows
   * the last; and so does any index past either end.
   */
  lemma WrapEnds(index: int, count: nat)
    requires count > 0
    ensures WrapIndex(count, count) == 0
    ensures WrapIndex(-1, count) == count - 1
    ensures index >= count ==> WrapIndex(index, count) == 0
    ensures index < 0 ==> WrapIndex(index, count) == count - 1
  {
  }

  /** Previous undoes next and next undoes previous, on every slide. */
  lemma NextPrevInverse(i: int, count: nat)
    requires 0 <= i < count
    ensures WrapIndex(WrapIndex(i + 1, count) - 1, count) == i
    ensures WrapIndex(WrapIndex(i - 1, count) + 1, count) == i
  {
  }

  /** The horizontal distance, in pixels, a touch must travel to count as a swipe. */
  const SwipeThreshold: int := 50

  /** handleSwipe's decision: +1 for next, -1 for previous, 0 for no change. */
  function SwipeStep(startX: int, endX: int): (step: int)
    ensures step == 0 <==> -SwipeThreshold <= startX - endX <= SwipeThreshold
    ensures step == 1 <==> startX - endX > SwipeThreshold
    ensures step == -1 <==> startX - endX < -SwipeThreshold
  {
    var diff := startX - endX;
    var distance := if diff < 0 then -diff else diff;
    if distance > SwipeThreshold then (if diff > 0 then 1 else -1) else 0
  }

  /** A swipe in the opposite direction has the opposite effect. */
  lemma SwipeAntisymmetric(startX: int, endX: int)
    ensures SwipeStep(endX, startX) == -SwipeStep(startX, endX)
  {
  }

  class Carousel {
    /** The screenshot list the section was built from. */
    const slides: seq<Screenshot>
    /** Whether each `.screenshot` image has the `active` class. */
    const imageActive: array<bool>
    /** Whether each `.dot` has the `active` class. */
    const dotActive: array<bool>
    var currentIndex: int
    var touchStartX: int
    var touchEndX: int

    /** The element lists: one image and one dot per screenshot, in separate arrays. */
    ghost predicate Shape()
      reads this
    {
      imageActive.Length == |slides| && dotActive.Length == |slides| && imageActive != dotActive
    }

    /**
     * The carousel's invariant: the index is a valid slide (or, with no
     * screenshots at all, 0 or -1), and exactly the image and the dot at the
     * index are active.
     */
    ghost predicate Valid()
      reads this, imageActive, dotActive
    {
      Shape() &&
      (|slides| > 0 ==> 0 <= currentIndex < |slides|) &&
      (|slides| == 0 ==> currentIndex == 0 || currentIndex == -1) &&
      imageActive[..] == OneHot(|slides|, currentIndex) &&
      dotActive[..] == OneHot(|slides|, currentIndex)
    }

    /** Sets the flags of the section's markup up, then calls showSlide(0). */
    constructor (shots: seq<Screenshot>)
      ensures Valid() && slides == shots && currentIndex == 0
      ensures touchStartX == 0 && touchEndX == 0
      ensures fresh(imageActive) && fresh(dotActive)
    {
      slides := shots;
      var images := SlideImages(shots);
      var dots := Dots(shots);
      imageActive := new bool[|shots|](i requires 0 <= i < |shots| => images[i].active);
      dotActive := new bool[|shots|](i requires 0 <= i < |shots| => dots[i].active);
      currentIndex := 0;
      touchStartX, touchEndX := 0, 0;
      new;
      ShowSlide(0);
    }

    /** Wraps the index, then marks exactly the image and the dot at it as active. */
    method ShowSlide(index: int)
      requires Shape()
      modifies this`currentIndex, imageActive, dotActive
      ensures Valid()
      ensures currentIndex == WrapIndex(index, |slides|)
    {
      var i := index;
      if i >= imageActive.Length { i := 0; }
      if i < 0 { i := imageActive.Length - 1; }
      currentIndex := i;
      for k := 0 to imageActive.Length
        invariant currentIndex == i
        invariant forall j :: 0 <= j < k ==> imageActive[j] == (j == currentIndex)
      {
        imageActive[k] := k == currentIndex;
      }
      for k := 0 to dotActive.Length
        invariant currentIndex == i
        invariant forall j :: 0 <= j < k ==> dotActive[j] == (j == currentIndex)
        invariant imageActive[..] == OneHot(|slides|, currentIndex)
      {
        dotActive[k] := k == currentIndex;
      }
    }

    /** The previous-slide button. */
    method Prev()
      requires Valid()
      modifies this`currentIndex, imageActive, dotActive
      ensures Valid()
      ensures currentIndex == WrapIndex(old(currentIndex) - 1, |slides|)
    {
      ShowSlide(currentIndex - 1);
    }

    /** The next-slide button. */
    method Next()
      requires Valid()
      modifies this`currentIndex, imageActive, dotActive
      ensures Valid()
      ensures currentIndex == WrapIndex(old(currentIndex) + 1, |slides|)
    {
      ShowSlide(currentIndex + 1);
    }

    /** A click on the dot at position `dot`. */
    method ClickDot(dot: nat)
      requires Valid() && dot < dotActive.Length
      modifies this`currentIndex, imageActive, dotActive
      ensures Valid()
      ensures currentIndex == dot
    {
      ShowSlide(dot);
    }

    /** A key press while the carousel has focus: the left and right arrows step, other keys do nothing. */
    method KeyDown(key: string)
      requires Valid()
      modifies this`currentIndex, imageActive, dotActive
      ensures Valid()
      ensures key == "ArrowLeft" ==> currentIndex == WrapIndex(old(currentIndex) - 1, |slides|)
      ensures key == "ArrowRight" ==> currentIndex == WrapIndex(old(currentIndex) + 1, |slides|)
      ensures key != "ArrowLeft" && key != "ArrowRight" ==>
        currentIndex == old(currentIndex) && unchanged(imageActive, dotActive)
    {
      if key == "ArrowLeft" {
        ShowSlide(currentIndex - 1);
      }
      if key == "ArrowRight" {
        ShowSlide(currentIndex + 1);
      }
    }

    /** touchstart: remembers where the finger went down. */
    method TouchStart(screenX: int)
      modifies this`touchStartX
      ensures touchStartX == screenX
    {
      touchStartX := screenX;
    }

    /** touchend: remembers where the finger came up and lets handleSwipe decide. */
    method TouchEnd(screenX: int)
      requires Valid()
      modifies this`touchEndX, this`currentIndex, imageActive, dotActive
      ensures Valid() && touchEndX == screenX
      ensures currentIndex == WrapIndex(old(currentIndex) + SwipeStep(touchStartX, screenX), |slides|)
      ensures SwipeStep(touchStartX, screenX) == 0 ==> unchanged(imageActive, dotActive)
    {
      touchEndX := screenX;
      HandleSwipe();
    }

    /** Moves one slide when the finger travelled more than the threshold, leftwards meaning next. */
    method HandleSwipe()
      requires Valid()
      modifies this`currentIndex, imageActive, dotActive
      ensures Valid()
      ensures currentIndex == WrapIndex(old(currentIndex) + SwipeStep(touchStartX, touchEndX), |slides|)
      ensures SwipeStep(touchStartX, touchEndX) == 0 ==> unchanged(imageActive, dotActive)
    {
      var diff := touchStartX - touchEndX;
      var distance := if diff < 0 then -diff else diff;
      if distance > SwipeThreshold {
        if diff > 0 {
          ShowSlide(currentIndex + 1);
        } else {
          ShowSlide(currentIndex - 1);
        }
      }
    }

    /** A click on a screenshot opens it in the lightbox. */
    method ClickScreenshot(i: nat, lightbox: Lightbox)
      requires Valid() && lightbox.Valid() && i < |slides|
      modifies lightbox
      ensures lightbox.Valid() && lightbox.created && lightbox.active
      ensures lightbox.imageSrc == slides[i].src && lightbox.imageAlt == slides[i].alt
      ensures lightbox.bodyOverflow == "hidden"
      ensures lightbox.creations == 1
    {
      lightbox.Open(slides[i].src, slides[i].alt);
    }
  }

  /**
   * Where a click on an open lightbox landed: the overlay itself, the close
   * button, or anything else inside the `.lightbox-content` box (the box
   * itself or the picture).
   */
  datatype ClickTarget = Backdrop | CloseButton | Inside

  /**
   * The single `#lightbox` overlay of the page, and the `overflow` style of
   * the page body, which the lightbox sets to lock background scrolling.
   */
  class Lightbox {
    /** Whether `#lightbox` exists in the document (with its two listeners). */
    var created: bool
    /** Whether it has the `active` class. */
    var active: bool
    var imageSrc: string
    var imageAlt: string
    var bodyOverflow: string
    /** How many times the overlay element has been built. */
    ghost var creations: nat

    ghost predicate Valid()
      reads this
    {
      creations <= 1 && (created <==> creations == 1) && (!created ==> !active)
    }

    /** The page before any screenshot was clicked: no overlay, body scrolling. */
    constructor ()
      ensures Valid() && !created && !active && bodyOverflow == "" && creations == 0
    {
      created, active := false, false;
      imageSrc, imageAlt := "", "";
      bodyOverflow := "";
      creations := 0;
    }

    /** openLightbox: builds the overlay on first use, then shows the image and locks scrolling. */
    method Open(src: string, alt: string)
      requires Valid()
      modifies this
      ensures Valid() && created && active
      ensures imageSrc == src && imageAlt == alt && bodyOverflow == "hidden"
      ensures creations == 1
      ensures old(created) ==> creations == old(creations)
    {
      if !created {
        created := true;
        creations := creations + 1;
        active := false;
        imageSrc, imageAlt := "", "";
      }
      imageSrc := src;
      imageAlt := alt;
      active := true;
      bodyOverflow := "hidden";
    }

    /** closeLightbox: hides the overlay and restores scrolling, if the overlay exists. */
    method Close()
      requires Valid()
      modifies this
      ensures Valid() && !active && creations == old(creations) && created == old(created)
      ensures imageSrc == old(imageSrc) && imageAlt == old(imageAlt)
      ensures bodyOverflow == if old(created) then "" else old(bodyOverflow)
    {
      if created {
        active := false;
        bodyOverflow := "";
      }
    }

    /** A key press anywhere on the page: Escape closes an open overlay and does nothing otherwise. */
    method KeyDown(key: string)
      requires Valid()
      modifies this
      ensures Valid() && creations == old(creations) && created == old(created)
      ensures imageSrc == old(imageSrc) && imageAlt == old(imageAlt)
      ensures key == "Escape" && old(active) ==> !active && bodyOverflow == ""
      ensures !(key == "Escape" && old(active)) ==> active == old(active) && bodyOverflow == old(bodyOverflow)
    {
      if created && key == "Escape" && active {
        Close();
      }
    }

    /** A click on the overlay: the backdrop and the close button close it, the picture does not. */
    method Click(target: ClickTarget)
      requires Valid() && created
      modifies this
      ensures Valid() && creations == old(creations) && created
      ensures imageSrc == old(imageSrc) && imageAlt == old(imageAlt)
      ensures target != Inside ==> !active && bodyOverflow == ""
      ensures target == Inside ==> active == old(active) && bodyOverflow == old(bodyOverflow)
    {
      if target == Backdrop || target == CloseButton {
        Close();
      }
    }
  }
}
