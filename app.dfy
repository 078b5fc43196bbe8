/**
 The `Portfolio` component's state: the carousel index map and the two
 flags, and the event handlers that overwrite them.

 Each React setter is modelled as a synchronous assignment applied in event
 order. The image count of every project is static content; the object keeps
 it as a ghost constant so that its invariant can say that every recorded
 index names one of that project's images.
 */
module App {
  import opened Carousel
  import opened PageFlags

  class Portfolio {
    var activeImageIndices: IndexMap
    var isScrolled: bool
    var isDarkMode: bool

    /** `imageCounts[p]` is `projects[p].images.length`. */
    ghost const imageCounts: seq<nat>

    /** Every project has an image, and every recorded index names one of them. */
    ghost predicate Valid()
      reads this
    {
      && (forall p :: 0 <= p < |imageCounts| ==> imageCounts[p] > 0)
      && InRange(activeImageIndices, imageCounts)
    }

    /** `totalImages` is the image count of project `projectIndex`, as every caller on the page passes it. */
    ghost predicate IsImageCountOf(projectIndex: int, totalImages: int)
    {
      0 <= projectIndex < |imageCounts| && totalImages == imageCounts[projectIndex]
    }

    /** The first render: no index recorded, not scrolled, dark theme. */
    constructor (ghost counts: seq<nat>)
      requires forall p :: 0 <= p < |counts| ==> counts[p] > 0
      ensures Valid() && imageCounts == counts
      ensures activeImageIndices == map[] && !isScrolled && isDarkMode
    {
      activeImageIndices := map[];
      isScrolled := false;
      isDarkMode := true;
      imageCounts := counts;
    }

    /** The image shown for a project: the stored index, or 0 when there is none. */
    method CurrentImageIndex(projectIndex: int) returns (i: int)
      ensures i == ActiveIndex(activeImageIndices, projectIndex)
      ensures Valid() && 0 <= projectIndex < |imageCounts| ==> 0 <= i < imageCounts[projectIndex]
    {
      i := ActiveIndex(activeImageIndices, projectIndex);
    }

    /** The right arrow of a project's carousel. */
    method NextImage(projectIndex: int, totalImages: int)
      requires totalImages > 0
      modifies this`activeImageIndices
      ensures activeImageIndices == Next(old(activeImageIndices), projectIndex, totalImages)
      ensures old(Valid()) && IsImageCountOf(projectIndex, totalImages) ==> Valid()
    {
      activeImageIndices := Next(activeImageIndices, projectIndex, totalImages);
      if old(Valid()) && IsImageCountOf(projectIndex, totalImages) {
        UpdatesKeepInRange(old(activeImageIndices), imageCounts, projectIndex, 0);
      }
    }

    /** The left arrow of a project's carousel. */
    method PrevImage(projectIndex: int, totalImages: int)
      requires totalImages > 0
      modifies this`activeImageIndices
      ensures activeImageIndices == Prev(old(activeImageIndices), projectIndex, totalImages)
      ensures old(Valid()) && IsImageCountOf(projectIndex, totalImages) ==> Valid()
    {
      activeImageIndices := Prev(activeImageIndices, projectIndex, totalImages);
      if old(Valid()) && IsImageCountOf(projectIndex, totalImages) {
        UpdatesKeepInRange(old(activeImageIndices), imageCounts, projectIndex, 0);
      }
    }

    /** An indicator dot of a project's carousel: show image `imgIndex`. */
    method SelectImage(projectIndex: int, imgIndex: int)
      modifies this`activeImageIndices
      ensures activeImageIndices == Jump(old(activeImageIndices), projectIndex, imgIndex)
      ensures old(Valid()) && 0 <= projectIndex < |imageCounts| && 0 <= imgIndex < imageCounts[projectIndex] ==> Valid()
    {
      activeImageIndices := Jump(activeImageIndices, projectIndex, imgIndex);
    }

    /** The scroll listener: recompute the flag from the current offset. */
    method HandleScroll(scrollY: real)
      modifies this`isScrolled
      ensures isScrolled == ScrolledAt(scrollY)
    {
      isScrolled := ScrolledAt(scrollY);
    }

    /** The theme button. */
    method ToggleTheme()
      modifies this`isDarkMode
      ensures isDarkMode == Toggle(old(isDarkMode))
    {
      isDarkMode := Toggle(isDarkMode);
    }

    /** The navigation bar's background for the current flags. */
    method CurrentNavClasses() returns (c: string)
      ensures c == NavClasses(isDarkMode, isScrolled)
      ensures c == Transparent <==> !isScrolled
    {
      c := NavClasses(isDarkMode, isScrolled);
    }
  }

  /** A project with 4 images, from the first render: next, next, prev shows image 1. */
  method FourImageScenario()
  {
    var page := new Portfolio([4, 3, 2, 3]);
    page.NextImage(0, 4);
    page.NextImage(0, 4);
    page.PrevImage(0, 4);
    var i := page.CurrentImageIndex(0);
    assert i == 1;
    var other := page.CurrentImageIndex(1);
    assert other == 0;
  }

  /** A project with 3 images, from the first render: prev wraps to image 2. */
  method ThreeImageScenario()
  {
    var page := new Portfolio([4, 3, 2, 3]);
    page.PrevImage(1, 3);
    var i := page.CurrentImageIndex(1);
    assert i == 2;
    assert page.Valid();
  }

  /** Scrolling to 50px and back to 10px turns the flag on and off again. */
  method ScrollScenario()
  {
    var page := new Portfolio([4, 3, 2, 3]);
    page.HandleScroll(50.0);
    assert page.isScrolled;
    var c := page.CurrentNavClasses();
    assert c == DarkSolid;
    page.HandleScroll(10.0);
    assert !page.isScrolled;
    c := page.CurrentNavClasses();
    assert c == Transparent;
  }

  /** Two clicks of the theme button restore the theme and the navigation bar. */
  method ThemeScenario(scrollY: real)
  {
    var page := new Portfolio([4, 3, 2, 3]);
    page.HandleScroll(scrollY);
    var before := page.CurrentNavClasses();
    page.ToggleTheme();
    assert !page.isDarkMode;
    page.ToggleTheme();
    var after := page.CurrentNavClasses();
    assert page.isDarkMode && after == before;
  }
}
